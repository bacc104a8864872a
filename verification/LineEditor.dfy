/**
 The line editor of the debugger console: keys are encoded in UTF-8 into a buffer of bounded
 size, and a backspace takes the last character off again.  A reference model keeps the keys
 themselves on a stack.
 */
module LineEditor {
  type Byte = x: int | 0 <= x < 256

  const BACKSPACE: Byte := 8
  const NEWLINE: Byte := 10

  // ---------------------------------------------------------------- the encoding of a key

  /** The keys beyond ASCII that dbg_extascii_to_utf8 knows. */
  predicate Mapped(k: Byte) {
    k == 154 || k == 153 || k == 142 || k == 129 || k == 148 || k == 132 || k == 225 || k == 0xE6 || k == 0xEE
  }

  /** dbg_extascii_to_utf8: the octets of the encoding, lowest first; other keys are sign-extended. */
  function ToUtf8(k: Byte): nat {
    if k == 154 then 0x9CC3
    else if k == 153 then 0x96C3
    else if k == 142 then 0x84C3
    else if k == 129 then 0xBCC3
    else if k == 148 then 0xB6C3
    else if k == 132 then 0xA4C3
    else if k == 225 then 0x94C3
    else if k == 0xE6 then 0xB5C2
    else if k == 0xEE then 0xAC82E2
    else if k < 128 then k
    else 0xFFFF_FF00 + k
  }

  /** dbg_utf8_to_extascii. */
  function FromUtf8(c: nat): nat {
    var low := c % 0x100;
    if low < 128 then low
    else if 0xC0 <= low < 0xE0 then
      var w := c % 0x1_0000;
      if w == 0x9CC3 then 154
      else if w == 0x96C3 then 153
      else if w == 0x84C3 then 142
      else if w == 0xBCC3 then 129
      else if w == 0xB6C3 then 148
      else if w == 0xA4C3 then 132
      else if w == 0x94C3 then 225
      else if w == 0xB5C2 then 0xE6
      else 63
    else if 0xE0 <= low < 0xF0 then (if c % 0x100_0000 == 0xAC82E2 then 0xEE else 63)
    else 63
  }

  /** The conversion is undone exactly for ASCII and the nine known characters; others become '?'. */
  lemma ConversionRoundTrip(k: Byte)
    ensures FromUtf8(ToUtf8(k)) == k <==> k < 128 || Mapped(k)
  {
  }

  /** Other keys beyond ASCII come out as negative numbers of 32 bits, and codes that are no known encoding become '?'. */
  lemma ConversionUnknown(k: Byte, c: nat)
    ensures k >= 128 && !Mapped(k) ==> ToUtf8(k) == 0x1_0000_0000 + k - 0x100
    ensures k < 128 ==> ToUtf8(k) == k
    ensures var e := FromUtf8(c);
            c % 0x100 >= 128 ==> e == '?' as int || (0 <= e < 0x100 && Mapped(e) && (ToUtf8(e) == c % 0x1_0000 || ToUtf8(e) == c % 0x100_0000))
  {
  }

  /** The octets that dbg_gets stores for a key; an unknown key is followed by octets of its sign extension. */
  function Encoded(k: Byte): (s: seq<Byte>)
    ensures 1 <= |s| <= 3
  {
    if k == 154 then [0xC3, 0x9C]
    else if k == 153 then [0xC3, 0x96]
    else if k == 142 then [0xC3, 0x84]
    else if k == 129 then [0xC3, 0xBC]
    else if k == 148 then [0xC3, 0xB6]
    else if k == 132 then [0xC3, 0xA4]
    else if k == 225 then [0xC3, 0x94]
    else if k == 0xE6 then [0xC2, 0xB5]
    else if k == 0xEE then [0xE2, 0x82, 0xAC]
    else if 0xC0 <= k < 0xE0 then [k, 0xFF]
    else if 0xE0 <= k < 0xF0 then [k, 0xFF, 0xFF]
    else [k]
  }

  /** The octets of a key as dbg_gets takes them out of the code. */
  method EncodeKey(k: Byte) returns (s: seq<Byte>)
    ensures s == Encoded(k)
  {
    if k >= 128 {
      var c := ToUtf8(k);
      if !Mapped(k) { assert c == 0xFF_FFFF * 0x100 + k && c / 0x100 == 0xFF_FFFF && c / 0x1_0000 == 0xFFFF; }
      var low := c % 0x100;
      if 0xC0 <= low < 0xE0 {
        s := [low, c / 0x100 % 0x100];
      } else if 0xE0 <= low < 0xF0 {
        s := [low, c / 0x100 % 0x100, c / 0x1_0000 % 0x100];
      } else {
        s := [low];
      }
    } else {
      s := [k];
    }
  }

  /** The bits that a continuation octet carries. */
  function Six(b: Byte): nat {
    b as int % 0x40
  }

  /** The code point that an encoding stands for (RFC 3629, section 3). */
  function CodePoint(s: seq<Byte>): nat
    requires 1 <= |s| <= 3
  {
    if |s| == 1 then s[0]
    else if |s| == 2 then (s[0] as int - 0xC0) % 0x20 * 0x40 + Six(s[1])
    else (s[0] as int - 0xE0) % 0x10 * 0x1000 + Six(s[1]) * 0x40 + Six(s[2])
  }

  /**
   The keys stand for the German umlauts, the micro and the euro sign.  Key 225, the sharp s of
   the console, is encoded as an O with circumflex.
   */
  lemma EncodedCharacters(k: Byte)
    ensures k < 128 ==> CodePoint(Encoded(k)) == k
    ensures Mapped(k) ==> CodePoint(Encoded(k)) == (match k case 154 => 0xDC case 153 => 0xD6 case 142 => 0xC4
                                                            case 129 => 0xFC case 148 => 0xF6 case 132 => 0xE4
                                                            case 225 => 0xD4 case 0xE6 => 0xB5 case _ => 0x20AC)
  {
  }

  predicate IsContinuation(b: Byte) {
    0x80 <= b < 0xC0
  }

  /** A leading octet followed by continuation octets only. */
  predicate WellFormed(s: seq<Byte>) {
    s != [] && !IsContinuation(s[0]) && forall i :: 0 < i < |s| ==> IsContinuation(s[i])
  }

  /** The encoding is well-formed for ASCII, the nine known characters and the highest sixteen keys. */
  lemma EncodedWellFormed(k: Byte)
    ensures WellFormed(Encoded(k)) <==> k < 128 || Mapped(k) || k >= 0xF0
  {
    var s := Encoded(k);
    assert |s| > 1 ==> (IsContinuation(s[1]) <==> s[1] != 0xFF);
    assert |s| > 2 ==> (IsContinuation(s[2]) <==> s[2] != 0xFF);
  }

  /** The length that a leading octet announces (RFC 3629, section 3): 110xxxxx for two octets, 1110xxxx for three. */
  function Announced(b: Byte): nat {
    if b as int / 0x20 == 6 then 2 else if b as int / 0x10 == 14 then 3 else 1
  }

  /** A key takes as many octets as its first one announces; of an unknown key all others are 0xFF. */
  lemma EncodedLength(k: Byte)
    ensures var s := Encoded(k);
            |s| == Announced(s[0]) && (k < 128 || !Mapped(k) ==> s[0] == k && forall i :: 0 < i < |s| ==> s[i] == 0xFF)
  {
  }

  // ---------------------------------------------------------------- the buffer

  /** The position of the last octet that is not a continuation, at n or in front of it. */
  function LeadAt(c: seq<Byte>, n: nat): (m: nat)
    requires n < |c|
    ensures m <= n
  {
    if n > 0 && IsContinuation(c[n]) then LeadAt(c, n - 1) else n
  }

  /** A backspace on the contents c. */
  function Erased(c: seq<Byte>): seq<Byte> {
    if c == [] then [] else c[..LeadAt(c, |c| - 1)]
  }

  /** A backspace takes everything from the last octet on that is no continuation (10xxxxxx), or everything. */
  lemma {:induction false} ErasedLead(c: seq<Byte>)
    requires c != []
    ensures var m := |Erased(c)|;
            && m < |c| && Erased(c) == c[..m] && (m == 0 || c[m] as int / 0x40 != 2)
            && forall i :: m < i < |c| ==> c[i] as int / 0x40 == 2
  {
    LeadLast(c, |c| - 1);
  }

  lemma {:induction false} LeadLast(c: seq<Byte>, n: nat)
    requires n < |c|
    ensures var m := LeadAt(c, n); (m == 0 || c[m] as int / 0x40 != 2) && forall i :: m < i <= n ==> c[i] as int / 0x40 == 2
  {
    if n > 0 && IsContinuation(c[n]) { LeadLast(c, n - 1); }
  }

  /**
   Entered: newline, or a key when the buffer is full; Overrun: an encoding leaves no room for
   the terminating zero, or runs over the end of the buffer; Pending: more keys are awaited.
   */
  datatype Edited = Entered(line: seq<Byte>) | Overrun | Pending(line: seq<Byte>)

  /** The loop of dbg_gets on a buffer of num octets that holds c. */
  function Edit(keys: seq<Byte>, c: seq<Byte>, num: nat): Edited {
    if keys == [] then Pending(c)
    else if keys[0] == BACKSPACE then Edit(keys[1..], Erased(c), num)
    else if keys[0] == NEWLINE || |c| == num - 1 then Entered(c)
    else if |c| + |Encoded(keys[0])| >= num then Overrun
    else Edit(keys[1..], c + Encoded(keys[0]), num)
  }

  // ---------------------------------------------------------------- refinement of a stack of characters

  /** The characters left after the keys have been typed: a backspace removes the last one, if any. */
  function Typed(keys: seq<Byte>, st: seq<Byte>): seq<Byte> {
    if keys == [] then st
    else if keys[0] == BACKSPACE then Typed(keys[1..], if st == [] then [] else st[..|st| - 1])
    else Typed(keys[1..], st + [keys[0]])
  }

  function EncodedAll(st: seq<Byte>): seq<Byte> {
    if st == [] then [] else EncodedAll(st[..|st| - 1]) + Encoded(st[|st| - 1])
  }

  lemma {:induction false} LeadFrom(c: seq<Byte>, s: seq<Byte>, n: nat)
    requires WellFormed(s) && |c| <= n < |c| + |s|
    ensures LeadAt(c + s, n) == |c|
    decreases n
  {
    if n > |c| { LeadFrom(c, s, n - 1); }
  }

  /** A backspace takes exactly a well-formed encoding off. */
  lemma ErasesWellFormed(c: seq<Byte>, s: seq<Byte>)
    requires WellFormed(s)
    ensures Erased(c + s) == c
  {
    LeadFrom(c, s, |c| + |s| - 1);
  }

  /**
   A backspace undoes a key exactly when its encoding is well-formed, or is a single octet on
   an empty line.
   */
  lemma BackspaceUndoesIff(c: seq<Byte>, k: Byte)
    ensures Erased(c + Encoded(k)) == c <==> WellFormed(Encoded(k)) || (c == [] && |Encoded(k)| == 1)
  {
    var s := Encoded(k);
    if WellFormed(s) {
      ErasesWellFormed(c, s);
    } else {
      EncodedWellFormed(k);
      assert |s| > 1 ==> !IsContinuation(s[|s| - 1]);
      assert (c + s)[|c| + |s| - 1] == s[|s| - 1];
    }
  }

  /** Every key of the run finds room for its encoding and the terminating zero. */
  predicate Fits(keys: seq<Byte>, st: seq<Byte>, num: nat) {
    keys == [] ||
    if keys[0] == BACKSPACE then Fits(keys[1..], if st == [] then [] else st[..|st| - 1], num)
    else |EncodedAll(st)| + |Encoded(keys[0])| < num && Fits(keys[1..], st + [keys[0]], num)
  }

  /** A backspace takes back the last key of st, or there is none. */
  predicate Undone(st: seq<Byte>) {
    st == [] || WellFormed(Encoded(st[|st| - 1])) || (|st| == 1 && |Encoded(st[0])| == 1)
  }

  /** Every key that is taken back has a well-formed encoding, or is a single octet alone on the line. */
  predicate TakesBack(keys: seq<Byte>, st: seq<Byte>) {
    keys == [] ||
    if keys[0] == BACKSPACE then Undone(st) && TakesBack(keys[1..], if st == [] then [] else st[..|st| - 1])
    else TakesBack(keys[1..], st + [keys[0]])
  }

  /** What one key does to the stack. */
  function Pressed(k: Byte, st: seq<Byte>): seq<Byte> {
    if k != BACKSPACE then st + [k] else if st == [] then [] else st[..|st| - 1]
  }

  lemma {:induction false} EncodedEmpty(st: seq<Byte>)
    ensures EncodedAll(st) == [] <==> st == []
  {
  }

  /** One key, seen by the buffer and by the stack. */
  lemma OneKey(k: Byte, st: seq<Byte>, num: nat)
    requires Fits([k], st, num)
    ensures var c := if k == BACKSPACE then Erased(EncodedAll(st)) else EncodedAll(st) + Encoded(k);
            && (c == EncodedAll(Pressed(k, st)) <==> k != BACKSPACE || Undone(st))
            && (k != BACKSPACE ==> |c| < num)
  {
    if k == BACKSPACE {
      if st != [] {
        EncodedEmpty(st[..|st| - 1]);
        BackspaceUndoesIff(EncodedAll(st[..|st| - 1]), st[|st| - 1]);
      }
    } else {
      assert (st + [k])[..|st|] == st;
    }
  }

  /** After keys that fit the editor goes on with the encoded stack. */
  lemma {:induction false} EditPrefix(keys: seq<Byte>, st: seq<Byte>, rest: seq<Byte>, num: nat)
    requires Fits(keys, st, num) && NEWLINE !in keys && TakesBack(keys, st)
    ensures Edit(keys + rest, EncodedAll(st), num) == Edit(rest, EncodedAll(Typed(keys, st)), num)
    ensures |EncodedAll(st)| < num ==> |EncodedAll(Typed(keys, st))| < num
  {
    var all := keys + rest;
    if keys == [] {
      assert all == rest;
    } else {
      var k := keys[0];
      assert all[0] == k && all[1..] == keys[1..] + rest && k in keys;
      OneKey(k, st, num);
      ErasedShorter(EncodedAll(st));
      EditPrefix(keys[1..], Pressed(k, st), rest, num);
    }
  }

  lemma ErasedShorter(c: seq<Byte>)
    ensures |Erased(c)| <= |c|
  {
  }

  /**
   For every sequence of keys that ends with newline, leaves room for each encoding and takes
   back only keys that a backspace undoes, the buffer holds the encoded characters that a simple
   stack of characters would hold.
   */
  lemma EditRefinesStack(keys: seq<Byte>, rest: seq<Byte>, num: nat)
    requires Fits(keys, [], num) && NEWLINE !in keys && TakesBack(keys, [])
    ensures Edit(keys + [NEWLINE] + rest, [], num) == Entered(EncodedAll(Typed(keys, [])))
  {
    EditPrefix(keys, [], [NEWLINE] + rest, num);
    assert keys + [NEWLINE] + rest == keys + ([NEWLINE] + rest);
  }

  /**
   A full buffer.  The first key whose encoding does not fit ends the line without it if there is
   room for the terminating zero only; otherwise the encoding overruns the buffer.
   */
  lemma EditFull(keys: seq<Byte>, k: Byte, rest: seq<Byte>, num: nat)
    requires num > 0 && Fits(keys, [], num) && NEWLINE !in keys && TakesBack(keys, [])
    requires k != BACKSPACE && k != NEWLINE && |EncodedAll(Typed(keys, []))| + |Encoded(k)| >= num
    ensures var c := EncodedAll(Typed(keys, []));
            Edit(keys + [k] + rest, [], num) == (if |c| == num - 1 then Entered(c) else Overrun)
            && (Edit(keys + [k] + rest, [], num).Overrun? ==> k >= 128)
  {
    EditPrefix(keys, [], [k] + rest, num);
    assert keys + [k] + rest == keys + ([k] + rest) && ([k] + rest)[0] == k;
  }

  /** After the first n keys the buffer holds the encoded stack. */
  predicate InStep(keys: seq<Byte>, st: seq<Byte>, num: nat, n: nat)
    requires n <= |keys|
  {
    Edit(keys[..n], EncodedAll(st), num) == Pending(EncodedAll(Typed(keys[..n], st)))
  }

  lemma InStepTail(keys: seq<Byte>, st: seq<Byte>, num: nat, n: nat)
    requires Fits(keys, st, num) && NEWLINE !in keys && n < |keys| && (keys[0] == BACKSPACE ==> Undone(st))
    ensures InStep(keys, st, num, n + 1) <==> InStep(keys[1..], Pressed(keys[0], st), num, n)
  {
    var p, q := keys[..n + 1], keys[1..][..n];
    assert keys[0] in keys && p[0] == keys[0] && p[1..] == q;
    Unroll(p, keys[0], q, st, num);
  }

  lemma Unroll(p: seq<Byte>, k: Byte, q: seq<Byte>, st: seq<Byte>, num: nat)
    requires p != [] && p[0] == k && p[1..] == q && k != NEWLINE && Fits([k], st, num) && (k == BACKSPACE ==> Undone(st))
    ensures Edit(p, EncodedAll(st), num) == Edit(q, EncodedAll(Pressed(k, st)), num) && Typed(p, st) == Typed(q, Pressed(k, st))
  {
    OneKey(k, st, num);
  }

  /** A backspace that does not undo its key leaves the buffer out of step at once. */
  lemma OutOfStep(keys: seq<Byte>, st: seq<Byte>, num: nat)
    requires keys != [] && Fits(keys, st, num) && keys[0] == BACKSPACE && !Undone(st)
    ensures !InStep(keys, st, num, 1)
  {
    var one := keys[..1];
    assert one[0] == BACKSPACE && one[1..] == [];
    OneKey(BACKSPACE, st, num);
    assert Edit(one, EncodedAll(st), num) == Edit([], Erased(EncodedAll(st)), num);
    assert Typed(one, st) == Typed([], Pressed(BACKSPACE, st));
  }

  /** The buffer is the encoded stack after every key. */
  predicate AlwaysInStep(keys: seq<Byte>, st: seq<Byte>, num: nat) {
    forall n: nat :: n <= |keys| ==> InStep(keys, st, num, n)
  }

  lemma StepTail(keys: seq<Byte>, st: seq<Byte>, num: nat)
    requires keys != [] && Fits(keys, st, num) && NEWLINE !in keys && (keys[0] == BACKSPACE ==> Undone(st))
    ensures AlwaysInStep(keys, st, num) <==> AlwaysInStep(keys[1..], Pressed(keys[0], st), num)
  {
    var st' := Pressed(keys[0], st);
    assert InStep(keys, st, num, 0);
    forall n: nat | n < |keys| ensures InStep(keys, st, num, n + 1) <==> InStep(keys[1..], st', num, n) {
      InStepTail(keys, st, num, n);
    }
    if AlwaysInStep(keys[1..], st', num) {
      forall n: nat | n <= |keys| ensures InStep(keys, st, num, n) {
        if n > 0 { assert InStep(keys[1..], st', num, n - 1); }
      }
    } else {
      var n: nat :| n <= |keys[1..]| && !InStep(keys[1..], st', num, n);
      assert !InStep(keys, st, num, n + 1);
    }
  }

  lemma {:induction false} EditTracksFrom(keys: seq<Byte>, st: seq<Byte>, num: nat)
    requires Fits(keys, st, num) && NEWLINE !in keys
    ensures AlwaysInStep(keys, st, num) <==> TakesBack(keys, st)
  {
    if keys == [] {
      assert InStep(keys, st, num, 0);
    } else if keys[0] == BACKSPACE && !Undone(st) {
      OutOfStep(keys, st, num);
    } else {
      StepTail(keys, st, num);
      EditTracksFrom(keys[1..], Pressed(keys[0], st), num);
    }
  }

  /**
   The condition is exact: the buffer is the encoded stack after every key if and only if only
   keys are taken back that a backspace undoes.
   */
  lemma EditTracksIff(keys: seq<Byte>, num: nat)
    requires Fits(keys, [], num) && NEWLINE !in keys
    ensures AlwaysInStep(keys, [], num) <==> TakesBack(keys, [])
  {
    EditTracksFrom(keys, [], num);
  }

  // ---------------------------------------------------------------- dbg_gets

  datatype Outcome = Line(length: nat) | OutOfRoom | Waiting

  /** The backspace branch of dbg_gets: the new fill level, which the code reaches by way of one less. */
  method Erase(buf: array<Byte>, n: nat) returns (m: nat)
    requires n <= buf.Length
    modifies buf
    ensures m <= n && buf[..m] == Erased(old(buf[..n])) && buf[n..] == old(buf[n..])
  {
    m := n;
    if m > 0 {
      m := m - 1;
      if IsContinuation(buf[m]) {
        while m > 0 && IsContinuation(buf[m])
          invariant m < n && buf[..m + 1] == old(buf[..m + 1]) && buf[n..] == old(buf[n..])
          invariant LeadAt(old(buf[..n]), n - 1) == LeadAt(old(buf[..n]), m)
        {
          buf[m] := 0;
          m := m - 1;
        }
      } else {
        buf[m] := 0;
      }
    }
  }

  /**
   The loop of dbg_gets; keys are what the keyboard thread delivers.  The counter of the code is
   unsigned: on an empty line a backspace takes it below zero, and the loop increment brings it
   back.  The method stops where the code writes behind the buffer or leaves it unterminated.
   */
  method Gets(buf: array<Byte>, num: nat, keys: seq<Byte>) returns (r: Outcome)
    requires num <= buf.Length
    modifies buf
    ensures num == 0 ==> r == Line(1) && buf[..] == old(buf[..])
    ensures num > 0 ==>
              match Edit(keys, [], num)
              case Entered(c) => |c| < num && r == Line(|c| + 1) && buf[..|c|] == c && buf[|c|] == 0
              case Overrun => r == OutOfRoom
              case Pending(c) => |c| < num && r == Waiting && buf[..|c|] == c
    ensures buf[num..] == old(buf[num..])
  {
    var n, i := 0, 0;
    while n < num
      invariant 0 <= n <= num && 0 <= i <= |keys| && (num > 0 ==> n < num)
      invariant num > 0 ==> Edit(keys, [], num) == Edit(keys[i..], buf[..n], num)
      invariant buf[num..] == old(buf[num..]) && (num == 0 ==> buf[..] == old(buf[..]))
      decreases |keys| - i
    {
      if i == |keys| { return Waiting; }
      var key := keys[i];
      assert keys[i..][0] == key && keys[i..][1..] == keys[i + 1..];
      i := i + 1;
      if key == BACKSPACE {
        n := Erase(buf, n);
      } else if key == NEWLINE || n == num - 1 {
        buf[n] := 0;
        return Line(n + 1);
      } else {
        var enc := EncodeKey(key);
        ghost var before := buf[..n];
        if n + |enc| >= num { return OutOfRoom; }
        buf[n] := enc[0];
        if |enc| >= 2 { buf[n + 1] := enc[1]; }
        if |enc| == 3 { buf[n + 2] := enc[2]; }
        assert buf[..n + |enc|] == before + enc;
        n := n + |enc|;
      }
    }
    r := Line(1);
  }
}
