/**
 The command tokenizer of the debugger shell: how a line falls into arguments, and the round
 trip from quoted arguments through the line back to the arguments.
 */
module Tokenizer {
  type Text = seq<char>

  const QUOTE: char := '\"'
  const BACKSLASH: char := '\\'
  const SPACE: char := ' '
  const NUL: char := '\0'

  // ---------------------------------------------------------------- dbg_filter_copy

  /**
   dbg_filter_copy of the whole of s: every backslash is dropped and the character behind it
   taken as it is.  A last single backslash is kept when s is cut out of the line, and dropped
   when s runs up to its end.
   */
  function Unescaped(s: Text, toEnd: bool): Text {
    if s == [] then []
    else if s[0] != BACKSLASH then [s[0]] + Unescaped(s[1..], toEnd)
    else if |s| == 1 then (if toEnd then [] else [BACKSLASH])
    else [s[1]] + Unescaped(s[2..], toEnd)
  }

  /** A backslash in front of every backslash and quote. */
  function Escaped(a: Text): Text {
    if a == [] then []
    else EscapedChar(a[0]) + Escaped(a[1..])
  }

  function EscapedChar(c: char): Text {
    if c == BACKSLASH || c == QUOTE then [BACKSLASH, c] else [c]
  }

  /** dbg_filter_copy is the inverse of the escaping. */
  lemma {:induction false} UnescapeEscape(a: Text, tail: Text, toEnd: bool)
    ensures Unescaped(Escaped(a) + tail, toEnd) == a + Unescaped(tail, toEnd)
  {
    if a == [] {
      assert Escaped(a) + tail == tail;
    } else {
      UnescapeEscape(a[1..], tail, toEnd);
      UnescapeOne(a[0], Escaped(a[1..]) + tail, toEnd);
      assert Escaped(a) + tail == EscapedChar(a[0]) + (Escaped(a[1..]) + tail);
      Regroup(a, Unescaped(tail, toEnd));
    }
  }

  lemma UnescapeOne(c: char, t: Text, toEnd: bool)
    ensures Unescaped(EscapedChar(c) + t, toEnd) == [c] + Unescaped(t, toEnd)
  {
    var s := EscapedChar(c) + t;
    if c == BACKSLASH || c == QUOTE { assert s[1] == c && s[2..] == t; } else { assert s[1..] == t; }
  }

  lemma Regroup(a: Text, t: Text)
    requires a != []
    ensures a + t == [a[0]] + (a[1..] + t)
  {
  }

  // ---------------------------------------------------------------- the end of an argument

  /** Closed: the argument ends in front of position at; Hangs: the search never ends. */
  datatype End = Closed(at: nat) | Open | Hangs

  function Further(e: End): End {
    match e case Closed(n) => Closed(n + 1) case _ => e
  }

  /**
   The first quote that is not behind a backslash.  When the line ends with a quote behind a
   backslash, the search is resumed at the end of the line, where it finds that quote again.
   */
  function FindQuote(s: Text, prev: char): End {
    if s == [] then (if prev == QUOTE then Hangs else Open)
    else if s[0] == QUOTE && prev != BACKSLASH then Closed(0)
    else Further(FindQuote(s[1..], s[0]))
  }

  function FindSpace(s: Text): End {
    if s == [] then Open else if s[0] == SPACE then Closed(0) else Further(FindSpace(s[1..]))
  }

  lemma {:induction false} FoundInside(s: Text, prev: char)
    ensures FindQuote(s, prev).Closed? ==> FindQuote(s, prev).at < |s|
    ensures FindSpace(s).Closed? ==> FindSpace(s).at < |s|
  {
    if s != [] { FoundInside(s[1..], s[0]); }
  }

  // ---------------------------------------------------------------- dbg_parse_cmd

  datatype Parsed = Args(args: seq<Text>) | Endless

  function Cons(a: Text, p: Parsed): Parsed {
    match p case Args(args) => Args([a] + args) case Endless => Endless
  }

  function Parse(s: Text): Parsed
    decreases |s|
  {
    if s == [] then Args([])
    else if s[0] == SPACE then Parse(s[1..])
    else if s[0] == QUOTE then
      if |s| == 1 then Args([]) else ParseArg(s[1..], FindQuote(s[1..], QUOTE))
    else ParseArg(s, FindSpace(s))
  }

  function ParseArg(s: Text, e: End): Parsed
    decreases |s|, 0
  {
    match e
    case Closed(n) => if n < |s| then Cons(Unescaped(s[..n], false), Parse(s[n + 1..])) else Args([])
    case Open => Args([Unescaped(s, true)])
    case Hangs => Endless
  }

  // ---------------------------------------------------------------- the round trip

  function Quoted(a: Text): Text {
    [QUOTE] + Escaped(a) + [QUOTE]
  }

  /** The quoted arguments, separated by spaces. */
  function Line(args: seq<Text>): Text {
    if args == [] then []
    else if |args| == 1 then Quoted(args[0])
    else Quoted(args[0]) + [SPACE] + Line(args[1..])
  }

  predicate EndsEscaped(a: Text) {
    a != [] && a[|a| - 1] == BACKSLASH
  }

  /** The last character of the escaped argument, or the opening quote. */
  function Last(a: Text, prev: char): char {
    if a == [] then prev else a[|a| - 1]
  }

  function Shifted(e: End, n: nat): End {
    match e case Closed(k) => Closed(n + k) case _ => e
  }

  /** Within an escaped argument no quote ends the search. */
  lemma {:induction false} SkipEscaped(a: Text, tail: Text, prev: char)
    ensures FindQuote(Escaped(a) + tail, prev) == Shifted(FindQuote(tail, Last(a, prev)), |Escaped(a)|)
  {
    if a == [] {
      assert Escaped(a) + tail == tail;
    } else {
      SkipEscaped(a[1..], tail, a[0]);
      SkipOne(a[0], Escaped(a[1..]) + tail, prev);
      assert Escaped(a) + tail == EscapedChar(a[0]) + (Escaped(a[1..]) + tail);
    }
  }

  lemma SkipOne(c: char, t: Text, prev: char)
    ensures FindQuote(EscapedChar(c) + t, prev) == Shifted(FindQuote(t, c), |EscapedChar(c)|)
  {
    var s := EscapedChar(c) + t;
    if c == BACKSLASH || c == QUOTE {
      assert s[1..] == [c] + t && s[1..][1..] == t;
      assert FindQuote(s[1..], BACKSLASH) == Further(FindQuote(t, c));
    } else {
      assert s[1..] == t;
    }
  }

  /** A quoted argument at the beginning of a line is read back, unless it ends with a backslash. */
  lemma ParseQuoted(a: Text, tail: Text)
    requires !EndsEscaped(a)
    ensures Parse(Quoted(a) + tail) == Cons(a, Parse(tail))
  {
    var s, t := Quoted(a) + tail, [QUOTE] + tail;
    assert s[1..] == Escaped(a) + t && t[1..] == tail;
    SkipEscaped(a, t, QUOTE);
    assert FindQuote(s[1..], QUOTE) == Closed(|Escaped(a)|);
    ArgCut(Escaped(a), t);
    UnescapeEscape(a, [], false);
    assert Escaped(a) + [] == Escaped(a) && a + [] == a;
    assert Parse(s) == ParseArg(s[1..], Closed(|Escaped(a)|));
  }

  lemma PlainPair()
    ensures Unescaped([QUOTE, SPACE], false) == [QUOTE, SPACE]
  {
    assert [QUOTE, SPACE][1..] == [SPACE] && [SPACE][1..] == [];
    assert Unescaped([SPACE], false) == [SPACE];
  }

  /** Behind an argument that ends with a backslash the closing quote counts as part of it. */
  lemma QuoteSwallowed(a: Text, tail: Text, rest: Text)
    requires EndsEscaped(a) && tail == [SPACE, QUOTE] + rest
    ensures Parse(Quoted(a) + tail) == Cons(a + [QUOTE, SPACE], Parse(rest))
  {
    var s, x, y := Quoted(a) + tail, Escaped(a) + [QUOTE, SPACE], [QUOTE] + rest;
    SwallowedAt(a, tail);
    SpaceQuote(rest);
    assert s[1..] == x + y;
    ArgCut(x, y);
    assert y[1..] == rest;
    UnescapeEscape(a, [QUOTE, SPACE], false);
    PlainPair();
    assert Parse(s) == ParseArg(s[1..], Closed(|x|));
  }

  lemma SpaceQuote(rest: Text)
    ensures FindQuote([SPACE, QUOTE] + rest, QUOTE) == Closed(1)
  {
    var tail := [SPACE, QUOTE] + rest;
    assert tail[1..] == [QUOTE] + rest;
    assert FindQuote(tail[1..], SPACE) == Closed(0);
  }

  /** An argument x in front of its terminator, the first character of y. */
  lemma ArgCut(x: Text, y: Text)
    requires y != []
    ensures ParseArg(x + y, Closed(|x|)) == Cons(Unescaped(x, false), Parse(y[1..]))
  {
    assert (x + y)[..|x|] == x && (x + y)[|x| + 1..] == y[1..];
  }

  lemma SwallowedAt(a: Text, tail: Text)
    requires EndsEscaped(a)
    ensures var s := Quoted(a) + tail;
            |s| > 1 && s[0] == QUOTE && FindQuote(s[1..], QUOTE) == Shifted(Further(FindQuote(tail, QUOTE)), |Escaped(a)|)
  {
    QuotedSplit(a, tail);
    SkipEscaped(a, [QUOTE] + tail, QUOTE);
    EscapedQuote(tail);
  }

  lemma QuotedSplit(a: Text, tail: Text)
    ensures var s := Quoted(a) + tail; |s| > 1 && s[0] == QUOTE && s[1..] == Escaped(a) + ([QUOTE] + tail)
  {
  }

  lemma EscapedQuote(tail: Text)
    ensures FindQuote([QUOTE] + tail, BACKSLASH) == Further(FindQuote(tail, QUOTE))
  {
    assert ([QUOTE] + tail)[1..] == tail;
  }

  /** At the end of the line the search for the end of such an argument never ends. */
  lemma LastSwallowed(a: Text)
    requires EndsEscaped(a)
    ensures Parse(Quoted(a)) == Endless
  {
    assert Quoted(a) + [] == Quoted(a);
    SwallowedAt(a, []);
    assert Parse(Quoted(a)) == ParseArg(Quoted(a)[1..], Hangs);
  }

  lemma LineStarts(args: seq<Text>)
    requires args != []
    ensures Line(args) != [] && Line(args)[0] == QUOTE
  {
  }

  /**
   The round trip: a line of quoted arguments is read back as these arguments exactly when
   none of them ends with a backslash.
   */
  lemma {:induction false} RoundTrip(args: seq<Text>)
    ensures Parse(Line(args)) == Args(args) <==> forall a :: a in args ==> !EndsEscaped(a)
  {
    if args != [] {
      var tail := if |args| == 1 then [] else [SPACE] + Line(args[1..]);
      assert Line(args) == Quoted(args[0]) + tail;
      assert args == [args[0]] + args[1..];
      if EndsEscaped(args[0]) {
        assert args[0] in args;
        if |args| == 1 {
          LastSwallowed(args[0]);
        } else {
          LineStarts(args[1..]);
          QuoteSwallowed(args[0], tail, tail[2..]);
        }
      } else {
        ParseQuoted(args[0], tail);
        RoundTrip(args[1..]);
        if |args| > 1 { assert tail[1..] == Line(args[1..]); }
        assert forall a :: a in args <==> a == args[0] || a in args[1..];
      }
    }
  }

  lemma SpaceSkipped(s: Text)
    ensures Parse([SPACE] + s) == Parse(s)
  {
    assert ([SPACE] + s)[1..] == s;
  }

  /** The shell hangs on a line whose last argument ends with a backslash, if the others do not. */
  lemma {:induction false} HangsAtEnd(args: seq<Text>)
    requires args != [] && EndsEscaped(args[|args| - 1]) && forall i :: 0 <= i < |args| - 1 ==> !EndsEscaped(args[i])
    ensures Parse(Line(args)) == Endless
  {
    if |args| == 1 {
      LastSwallowed(args[0]);
    } else {
      var rest := Line(args[1..]);
      HangsAtEnd(args[1..]);
      ParseQuoted(args[0], [SPACE] + rest);
      SpaceSkipped(rest);
      assert Line(args) == Quoted(args[0]) + ([SPACE] + rest);
    }
  }

  // ---------------------------------------------------------------- arguments without quotes

  /** The number of characters in front of the first space. */
  function WordLength(s: Text): (n: nat)
    ensures n <= |s| && SPACE !in s[..n] && (n < |s| ==> s[n] == SPACE)
  {
    if s == [] || s[0] == SPACE then 0
    else
      var n := 1 + WordLength(s[1..]);
      assert s[..n] == [s[0]] + s[1..][..n - 1];
      n
  }

  /** The longest parts of a text without a space. */
  function Words(s: Text): seq<Text>
    decreases |s|
  {
    if s == [] then []
    else if s[0] == SPACE then Words(s[1..])
    else [s[..WordLength(s)]] + Words(s[WordLength(s)..])
  }

  lemma EscapedCons(c: char, t: Text)
    ensures Escaped([c] + t) == EscapedChar(c) + Escaped(t)
  {
    assert ([c] + t)[1..] == t;
  }

  lemma {:induction false} EscapedConcat(a: Text, b: Text)
    ensures Escaped(a + b) == Escaped(a) + Escaped(b)
  {
    if a == [] {
      assert a + b == b;
    } else {
      var c, t := a[0], a[1..];
      assert a == [c] + t && a + b == [c] + (t + b);
      EscapedCons(c, t);
      EscapedCons(c, t + b);
      EscapedConcat(t, b);
    }
  }

  /** No space ends the search within an escaped word. */
  lemma {:induction false} SkipWord(a: Text, tail: Text)
    requires SPACE !in a
    ensures FindSpace(Escaped(a) + tail) == Shifted(FindSpace(tail), |Escaped(a)|)
  {
    if a == [] {
      assert Escaped(a) + tail == tail;
    } else {
      var e, t := EscapedChar(a[0]), Escaped(a[1..]) + tail;
      SkipWord(a[1..], tail);
      assert Escaped(a) + tail == e + t && a[0] in a;
      if |e| == 2 { assert (e + t)[1..] == [a[0]] + t && ([a[0]] + t)[1..] == t; } else { assert (e + t)[1..] == t; }
    }
  }

  /** A word in front of a space or of the end of the line is read back, also if it ends with a backslash. */
  lemma ParseWord(a: Text, tail: Text)
    requires a != [] && SPACE !in a && (tail == [] || tail[0] == SPACE)
    ensures Parse(Escaped(a) + tail) == Cons(a, if tail == [] then Args([]) else Parse(tail[1..]))
  {
    var s := Escaped(a) + tail;
    assert a[0] in a && s[0] == EscapedChar(a[0])[0] && s[0] != SPACE && s[0] != QUOTE;
    SkipWord(a, tail);
    UnescapeEscape(a, [], tail == []);
    assert Escaped(a) + [] == Escaped(a) && a + [] == a;
    if tail == [] {
      assert s == Escaped(a) && Parse(s) == ParseArg(s, Open);
      assert [a] + [] == [a];
    } else {
      assert FindSpace(tail) == Closed(0);
      ArgCut(Escaped(a), tail);
    }
  }

  /** A line without unescaped quotes is read as its words, however many spaces separate them. */
  lemma {:induction false} PlainWords(s: Text)
    ensures Parse(Escaped(s)) == Args(Words(s))
    decreases |s|
  {
    if s != [] {
      if s[0] == SPACE {
        PlainWords(s[1..]);
        SpaceSkipped(Escaped(s[1..]));
      } else {
        var n := WordLength(s);
        var w, t := s[..n], s[n..];
        assert s == w + t;
        EscapedConcat(w, t);
        ParseWord(w, Escaped(t));
        if t != [] {
          assert Escaped(t) == [SPACE] + Escaped(t[1..]) && Escaped(t)[1..] == Escaped(t[1..]);
          PlainWords(t[1..]);
          assert Words(t) == Words(t[1..]);
        }
      }
    }
  }

  /** Without its closing quote the last argument is read up to the end of the line; if it ends with a quote the shell hangs. */
  lemma UnclosedQuote(a: Text)
    ensures Parse([QUOTE] + Escaped(a))
            == if a == [] then Args([]) else if a[|a| - 1] == QUOTE then Endless else Args([a])
  {
    var s := [QUOTE] + Escaped(a);
    assert s[1..] == Escaped(a) && Escaped(a) + [] == Escaped(a) && a + [] == a;
    SkipEscaped(a, [], QUOTE);
    UnescapeEscape(a, [], true);
  }

  /** A backslash takes any character as it is, but a space still ends the word; the last one of a line is dropped. */
  lemma LooseBackslash(a: Text, c: char, tail: Text)
    requires a != [] && SPACE !in a && SPACE != c
    ensures Parse(Escaped(a) + [BACKSLASH]) == Args([a])
    ensures Parse(Escaped(a) + [BACKSLASH, SPACE] + tail) == Cons(a + [BACKSLASH], Parse(tail))
    ensures Parse(Escaped(a) + [BACKSLASH, c]) == Args([a + [c]])
  {
    assert a[0] in a && EscapedChar(a[0])[0] != SPACE && EscapedChar(a[0])[0] != QUOTE;
    var b := [BACKSLASH];
    assert b[1..] == [];
    SkipWord(a, b);
    UnescapeEscape(a, b, true);
    UnescapeEscape(a, b, false);
    assert a + [] == a;
    var s := Escaped(a) + b;
    assert FindSpace(b) == Open && Parse(s) == ParseArg(s, Open);
    var t := [SPACE] + tail;
    assert t[1..] == tail && Escaped(a) + [BACKSLASH, SPACE] + tail == s + t == Escaped(a) + (b + t);
    SkipWord(a, b + t);
    assert (b + t)[1..] == t && FindSpace(t) == Closed(0) && FindSpace(b + t) == Closed(1);
    ArgCut(s, t);
    var bc := [BACKSLASH, c];
    assert bc[1..] == [c] && bc[2..] == [] && [c][1..] == [];
    SkipWord(a, bc);
    UnescapeEscape(a, bc, true);
    assert Unescaped(bc, true) == [c] && FindSpace(bc) == Open;
  }
}
