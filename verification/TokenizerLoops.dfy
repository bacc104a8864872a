/**
 The loops of the tokenizer over the command buffer, with the limits they carry along, proved
 to compute the functions of Tokenizer.
 */
module TokenizerLoops {
  import opened Tokenizer

  /** The text in the buffer ends at its first NUL, at index n. */
  ghost predicate EndsAt(buf: seq<char>, n: nat) {
    n < |buf| && buf[n] == NUL && forall i :: 0 <= i < n ==> buf[i] != NUL
  }

  /** str_len. */
  method StrLen(buf: array<char>, ghost n: nat, ghost b: seq<char>) returns (len: nat)
    requires b == buf[..] && EndsAt(b, n)
    ensures len == n
  {
    len := 0;
    while buf[len] != NUL
      invariant 0 <= len <= n
      decreases n - len
    {
      len := len + 1;
    }
  }

  /**
   str_char: the first c from index start on, -1 for NULL.  At the end of the text it looks at
   the character in front of start.
   */
  method StrChar(buf: array<char>, start: nat, c: char, limit: nat, ghost n: nat, ghost b: seq<char>) returns (r: int)
    requires b == buf[..] && EndsAt(b, n) && start <= n && 0 < n && c != NUL && limit > n - start
    ensures start == n ==> r == if buf[n - 1] == c then n - 1 else -1
    ensures start < n ==> -1 <= r < n && (r >= 0 ==> start <= r && buf[r] == c)
    ensures start < n ==> forall i :: start <= i < (if r >= 0 then r else n) ==> buf[i] != c
  {
    var dest, max := start, limit;
    while max != 0
      invariant start <= dest <= n && max + dest == limit + start
      invariant forall i :: start <= i < dest ==> buf[i] != c
    {
      max := max - 1;
      if buf[dest] == NUL { break; }
      dest := dest + 1;
      if buf[dest - 1] == c { break; }
    }
    if buf[dest - 1] != c { return -1; }
    return dest - 1;
  }

  /** The text from index src on, unescaped by one character. */
  lemma CopyStep(b: seq<char>, src: nat, end: nat, toEnd: bool)
    requires src <= end <= |b|
    ensures src == end ==> Unescaped(b[src..end], toEnd) == []
    ensures src < end && b[src] != BACKSLASH ==> Unescaped(b[src..end], toEnd) == [b[src]] + Unescaped(b[src + 1..end], toEnd)
    ensures src + 1 < end && b[src] == BACKSLASH ==> Unescaped(b[src..end], toEnd) == [b[src + 1]] + Unescaped(b[src + 2..end], toEnd)
    ensures src + 1 == end && b[src] == BACKSLASH ==> Unescaped(b[src..end], toEnd) == if toEnd then [] else [BACKSLASH]
  {
    var s := b[src..end];
    if src < end { assert s[1..] == b[src + 1..end]; }
    if src + 1 < end { assert s[2..] == b[src + 2..end]; }
  }

  /** The same behind what has been written already. */
  lemma CopyTurn(b: seq<char>, src: nat, end: nat, toEnd: bool, out: Text, all: Text)
    requires src <= end <= |b| && out + Unescaped(b[src..end], toEnd) == all
    ensures src == end ==> out == all
    ensures src < end && b[src] != BACKSLASH ==> out + [b[src]] + Unescaped(b[src + 1..end], toEnd) == all
    ensures src + 1 < end && b[src] == BACKSLASH ==> out + [b[src + 1]] + Unescaped(b[src + 2..end], toEnd) == all
    ensures src + 1 == end && b[src] == BACKSLASH ==>
              if toEnd then out == all else out + [BACKSLASH] + Unescaped(b[end..end], toEnd) == all
  {
    CopyStep(b, src, end, toEnd);
    assert b[end..end] == [];
  }

  /** dbg_filter_copy: what it writes, from index start on, and at most limit characters read. */
  method FilterCopy(buf: array<char>, start: nat, limit: nat, ghost n: nat, ghost b: seq<char>) returns (out: Text)
    requires b == buf[..] && EndsAt(b, n) && start <= n
    ensures if limit <= n - start then out == Unescaped(b[start..start + limit], false)
            else out == Unescaped(b[start..n], true) + [NUL]
  {
    var src, max := start, limit;
    out := [];
    ghost var toEnd := limit > n - start;
    ghost var end := if toEnd then n else start + limit;
    ghost var all := Unescaped(b[start..end], toEnd);
    while max != 0
      invariant start <= src <= end && (if toEnd then max > n - src else max == end - src)
      invariant out + Unescaped(b[src..end], toEnd) == all
    {
      max := max - 1;
      CopyTurn(b, src, end, toEnd, out, all);
      if max > 0 && buf[src] == BACKSLASH {
        src := src + 1;
        max := max - 1;
      }
      if buf[src] == NUL { return out + [NUL]; }
      out := out + [buf[src]];
      src := src + 1;
    }
    CopyTurn(b, src, end, toEnd, out, all);
  }

  /** The text up to the first NUL. */
  function CString(s: Text): Text {
    if s == [] || s[0] == NUL then [] else [s[0]] + CString(s[1..])
  }

  lemma {:induction false} CStringOf(s: Text, tail: Text)
    requires NUL !in s && (tail == [] || tail[0] == NUL)
    ensures CString(s + tail) == s
  {
    if s == [] {
      assert s + tail == tail;
    } else {
      assert (s + tail)[1..] == s[1..] + tail;
      CStringOf(s[1..], tail);
    }
  }

  lemma {:induction false} UnescapedNoNul(s: Text, toEnd: bool)
    requires NUL !in s
    ensures NUL !in Unescaped(s, toEnd)
  {
    if s != [] && !(s[0] == BACKSLASH && |s| == 1) {
      UnescapedNoNul(if s[0] != BACKSLASH then s[1..] else s[2..], toEnd);
    }
  }

  /** The search for a quote from the first one, at index j, or from the end on. */
  lemma {:induction false} QuoteAfter(s: Text, prev: char, j: nat)
    requires j <= |s| && (forall i :: 0 <= i < j ==> s[i] != QUOTE) && (j < |s| ==> s[j] == QUOTE)
    ensures var p := if j == 0 then prev else s[j - 1];
            FindQuote(s, prev)
            == if j == |s| then (if p == QUOTE then Hangs else Open)
               else if p == BACKSLASH then Shifted(FindQuote(s[j + 1..], QUOTE), j + 1)
               else Closed(j)
  {
    if j > 0 {
      var t := s[1..];
      assert forall i :: 0 <= i < j - 1 ==> t[i] == s[i + 1];
      QuoteAfter(t, s[0], j - 1);
      assert j < |s| ==> t[j..] == s[j + 1..];
    }
  }

  lemma {:induction false} SpaceAfter(s: Text, j: nat)
    requires j <= |s| && forall i :: 0 <= i < j ==> s[i] != SPACE
    ensures FindSpace(s) == Shifted(FindSpace(s[j..]), j)
  {
    if j > 0 {
      SpaceAfter(s[1..], j - 1);
      assert s[1..][j - 1..] == s[j..];
    }
  }

  /** The same in the buffer, where the first quote is j characters behind index seek. */
  lemma ScanQuote(b: seq<char>, seek: nat, j: nat, n: nat)
    requires seek + j <= n <= |b| && (seek + j < n ==> b[seek + j] == QUOTE)
    requires forall i :: seek <= i < seek + j ==> b[i] != QUOTE
    ensures FindQuote(b[seek..n], QUOTE)
            == if seek + j == n then (if j == 0 then Hangs else Open)
               else if j > 0 && b[seek + j - 1] == BACKSLASH then Shifted(FindQuote(b[seek + j + 1..n], QUOTE), j + 1)
               else Closed(j)
  {
    var s := b[seek..n];
    SliceAt(b, seek, n, s);
    QuoteAfter(s, QUOTE, j);
    if seek + j < n { assert s[j + 1..] == b[seek + j + 1..n]; }
  }

  lemma SliceAt(b: seq<char>, seek: nat, n: nat, s: seq<char>)
    requires seek <= n <= |b| && s == b[seek..n]
    ensures |s| == n - seek && forall i :: 0 <= i < |s| ==> s[i] == b[seek + i]
  {
  }

  lemma ScanSpace(b: seq<char>, seek: nat, j: nat, n: nat)
    requires seek + j <= n <= |b| && (seek + j < n ==> b[seek + j] == SPACE)
    requires forall i :: seek <= i < seek + j ==> b[i] != SPACE
    ensures FindSpace(b[seek..n]) == if seek + j == n then Open else Closed(j)
  {
    SpaceAfter(b[seek..n], j);
  }

  /**
   The search for the end of an argument that begins at index start: -1 when the line ends
   first.  hangs: the search stands where it stood before and will for ever.
   */
  method FindEnd(buf: array<char>, start: nat, term: char, len: nat, ghost n: nat, ghost b: seq<char>) returns (end: int, hangs: bool)
    requires b == buf[..] && EndsAt(b, n) && start < n && len > n - start
    requires term == SPACE || (term == QUOTE && start > 0 && buf[start - 1] == QUOTE)
    ensures match if term == QUOTE then FindQuote(b[start..n], QUOTE) else FindSpace(b[start..n])
            case Closed(k) => !hangs && end == start + k < n
            case Open => !hangs && end == -1
            case Hangs => hangs
  {
    var seek, atmplen := start, len;
    while true
      invariant start <= seek <= n && atmplen > n - seek
      invariant seek == start || (term == QUOTE && seek >= start + 1 && buf[seek - 1] == QUOTE && seek >= 2 && buf[seek - 2] == BACKSLASH)
      invariant term == QUOTE ==> FindQuote(b[start..n], QUOTE) == Shifted(FindQuote(b[seek..n], QUOTE), seek - start)
      decreases n - seek
    {
      end := StrChar(buf, seek, term, atmplen, n, b);
      ghost var j := if end < seek then n - seek else end - seek;
      if term == QUOTE { ScanQuote(b, seek, j, n); } else { ScanSpace(b, seek, j, n); }
      if end != -1 && term == QUOTE && buf[end - 1] == BACKSLASH {
        if end < seek { return end, true; }
        atmplen := atmplen - (end - seek + 1);
        seek := end + 1;
        continue;
      }
      return end, false;
    }
  }

  function Prepended(pars: seq<Text>, p: Parsed): Parsed {
    match p case Args(args) => Args(pars + args) case Endless => Endless
  }

  /** The argument from index start up to end, or up to the end of the text when end is -1. */
  method CutOut(buf: array<char>, start: nat, end: int, len: nat, ghost n: nat, ghost b: seq<char>) returns (par: Text)
    requires b == buf[..] && EndsAt(b, n) && start <= n && len > n - start && (end == -1 || start <= end < n)
    ensures par == if end == -1 then Unescaped(b[start..n], true) else Unescaped(b[start..end], false)
  {
    var out := FilterCopy(buf, start, if end == -1 then len else end - start, n, b);
    par := CString(out);
    assert NUL !in b[start..n];
    assert end != -1 ==> NUL !in b[start..end];
    if end == -1 {
      UnescapedNoNul(b[start..n], true);
      CStringOf(Unescaped(b[start..n], true), [NUL]);
    } else {
      UnescapedNoNul(b[start..end], false);
      CStringOf(out, []);
      assert out + [] == out;
    }
  }

  lemma ArgEnds(b: seq<char>, start: nat, end: nat, n: nat)
    requires start <= end < n <= |b|
    ensures ParseArg(b[start..n], Closed(end - start)) == Cons(Unescaped(b[start..end], false), Parse(b[end + 1..n]))
  {
    var t := b[start..n];
    assert t[..end - start] == b[start..end] && t[end - start + 1..] == b[end + 1..n];
  }

  /** One turn of the loop. */
  lemma ParseTurn(b: seq<char>, p: nat, n: nat)
    requires p < n <= |b|
    ensures Parse(b[p..n])
            == if b[p] == SPACE then Parse(b[p + 1..n])
               else if b[p] == QUOTE then
                 if p + 1 == n then Args([]) else ParseArg(b[p + 1..n], FindQuote(b[p + 1..n], QUOTE))
               else ParseArg(b[p..n], FindSpace(b[p..n]))
  {
    assert b[p..n][1..] == b[p + 1..n];
  }

  lemma PrependedCons(pars: seq<Text>, a: Text, p: Parsed)
    ensures Prepended(pars, Cons(a, p)) == Prepended(pars + [a], p)
  {
  }

  /** How the reading of an argument ends. */
  datatype Reading = Next(par: Text, p: nat, len: nat) | Final(par: Text) | NoMore | Stuck

  /** The branch for a character other than a space. */
  method ReadArg(buf: array<char>, start: nat, limit: nat, ghost n: nat, ghost b: seq<char>) returns (r: Reading)
    requires b == buf[..] && EndsAt(b, n) && start < n && limit > n - start && b[start] != SPACE
    ensures match r
            case Next(par, p, len) => start < p <= n && len > n - p && Parse(b[start..n]) == Cons(par, Parse(b[p..n]))
            case Final(par) => Parse(b[start..n]) == Args([par])
            case NoMore => Parse(b[start..n]) == Args([])
            case Stuck => Parse(b[start..n]) == Endless
  {
    ParseTurn(b, start, n);
    var p, term, len := start, SPACE, limit;
    if buf[p] == QUOTE {
      term := QUOTE;
      p := p + 1;
      if buf[p] == NUL { return NoMore; }
    }
    var end, hangs := FindEnd(buf, p, term, len, n, b);
    if hangs { return Stuck; }
    var par := CutOut(buf, p, end, len, n, b);
    if end == -1 { return Final(par); }
    ArgEnds(b, p, end, n);
    return Next(par, end + 1, len - (end - p));
  }

  /** dbg_parse_cmd up to the substitution of variables: the argument list, unless it hangs. */
  method ParseCmd(buf: array<char>, ghost n: nat, ghost b: seq<char>) returns (pars: seq<Text>, hangs: bool)
    requires b == buf[..] && EndsAt(b, n)
    ensures match Parse(b[..n])
            case Args(args) => !hangs && pars == args
            case Endless => hangs
  {
    var l := StrLen(buf, n, b);
    var p, len := 0, l + 1;
    pars, hangs := [], false;
    assert b[0..n] == b[..n];
    while buf[p] != NUL
      invariant 0 <= p <= n && len > n - p
      invariant Parse(b[..n]) == Prepended(pars, Parse(b[p..n]))
      decreases n - p
    {
      if buf[p] != SPACE {
        var r := ReadArg(buf, p, len, n, b);
        match r {
          case Next(par, next, rest) =>
            PrependedCons(pars, par, Parse(b[next..n]));
            pars, p, len := pars + [par], next, rest;
          case Final(par) => return pars + [par], false;
          case NoMore => return;
          case Stuck => return pars, true;
        }
      } else {
        ParseTurn(b, p, n);
        p := p + 1;
        len := len - 1;
      }
    }
  }

  /** A line of quoted arguments in the command buffer reads back as the arguments iff none ends with a backslash. */
  lemma BufferRoundTrip(buf: seq<char>, args: seq<Text>)
    requires |Line(args)| < |buf| && buf[..|Line(args)|] == Line(args) && buf[|Line(args)|] == NUL
    requires forall a :: a in args ==> NUL !in a
    ensures EndsAt(buf, |Line(args)|)
    ensures Parse(buf[..|Line(args)|]) == Args(args) <==> forall a :: a in args ==> !EndsEscaped(a)
  {
    LineNoNul(args);
    assert forall i :: 0 <= i < |Line(args)| ==> buf[i] == Line(args)[i] && Line(args)[i] in Line(args);
    RoundTrip(args);
  }

  lemma {:induction false} EscapedNoNul(a: Text)
    requires NUL !in a
    ensures NUL !in Escaped(a)
  {
    if a != [] { EscapedNoNul(a[1..]); }
  }

  lemma {:induction false} LineNoNul(args: seq<Text>)
    requires forall a :: a in args ==> NUL !in a
    ensures NUL !in Line(args)
  {
    if args != [] {
      EscapedNoNul(args[0]);
      LineNoNul(args[1..]);
    }
  }
}
