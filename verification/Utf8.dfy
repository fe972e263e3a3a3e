/** mxml_string_getc and mxml_add_char of jni/xml/mxml-file.c: reading and writing UTF-8. */
module Utf8 {
  import opened CString

  const EOF: int := -1

  /** mxml_bad_char */
  predicate BadChar(ch: int) { ch < 32 && ch != 10 && ch != 13 && ch != 9 }

  /** A code point the reader returns as it is: no control character, not the byte order mark. */
  predicate Allowed(ch: int) { !BadChar(ch) && ch < 0x20_0000 && ch != 0xFEFF }

  const MARK: int := 0xFEFF

  /** A code point of a text: returned, or skipped as a byte order mark. */
  predicate Readable(ch: int) { Allowed(ch) || ch == MARK }

  /** The bytes mxml_add_char stores for ch (ch == EOF stores the byte 0xFF). */
  function Encode(ch: int): (r: seq<byte>)
    ensures 1 <= |r| <= 4
  {
    if ch < 0x80 then [ch % 0x100]
    else if ch < 0x800 then [0xC0 + ch / 0x40, 0x80 + ch % 0x40]
    else if ch < 0x1_0000 then [0xE0 + ch / 0x1000, 0x80 + ch / 0x40 % 0x40, 0x80 + ch % 0x40]
    else [0xF0 + ch / 0x4_0000 % 0x10, 0x80 + ch / 0x1000 % 0x40, 0x80 + ch / 0x40 % 0x40, 0x80 + ch % 0x40]
  }

  /** A character, or EOF, and the position of the string pointer after the call. */
  datatype Got = Got(ch: int, rest: seq<byte>)

  /** The byte at i, the terminating NUL included. */
  function At(s: seq<byte>, i: nat): byte { if i < |s| then s[i] else 0 }

  predicate IsContinuation(b: byte) { 0x80 <= b < 0xC0 }

  /** mxml_string_getc in the UTF-8 encoding. */
  function Getc(s: seq<byte>): (g: Got)
    ensures g.ch == EOF || (g.ch > 0 && |g.rest| < |s|)
    ensures |g.rest| <= |s|
    decreases |s|
  {
    var c := At(s, 0);
    if c == 0 then Got(EOF, s)
    else if c < 0x80 then Got(if BadChar(c) then EOF else c, s[1..])
    else if 0xC0 <= c < 0xE0 then
      if !IsContinuation(At(s, 1)) then Got(EOF, s[1..])
      else
        var ch := (c - 0xC0) * 0x40 + (At(s, 1) - 0x80);
        Got(if ch < 0x80 then EOF else ch, s[2..])
    else if 0xE0 <= c < 0xF0 then
      if !IsContinuation(At(s, 1)) || !IsContinuation(At(s, 2)) then Got(EOF, s[1..])
      else
        var ch := (c - 0xE0) * 0x1000 + (At(s, 1) - 0x80) * 0x40 + (At(s, 2) - 0x80);
        if ch < 0x800 then Got(EOF, s[3..])
        else if ch == 0xFEFF then Getc(s[3..])
        else Got(ch, s[3..])
    else if 0xF0 <= c < 0xF8 then
      if !IsContinuation(At(s, 1)) || !IsContinuation(At(s, 2)) || !IsContinuation(At(s, 3)) then Got(EOF, s[1..])
      else
        var ch := (c - 0xF0) * 0x4_0000 + (At(s, 1) - 0x80) * 0x1000 + (At(s, 2) - 0x80) * 0x40 + (At(s, 3) - 0x80);
        Got(if ch < 0x1_0000 then EOF else ch, s[4..])
    else Got(EOF, s[1..])
  }

  function EncodeAll(cs: seq<int>): seq<byte> {
    if cs == [] then [] else Encode(cs[0]) + EncodeAll(cs[1..])
  }

  /** All characters up to the first EOF. */
  function DecodeAll(s: seq<byte>): seq<int>
    decreases |s|
  {
    var g := Getc(s);
    if g.ch == EOF then [] else [g.ch] + DecodeAll(g.rest)
  }

  /** The reader takes back exactly what was written for one code point. */
  lemma {:induction false} GetcEncode(ch: int, rest: seq<byte>)
    requires Allowed(ch)
    ensures Getc(Encode(ch) + rest) == Got(ch, rest)
  {
    var e := Encode(ch);
    var s := e + rest;
    assert s[|e|..] == rest;
    if ch >= 0x1_0000 {
      Digits4(ch);
    } else if ch >= 0x800 {
      Digits3(ch);
    }
  }

  lemma {:induction false} Digits3(ch: nat)
    requires ch < 0x1_0000
    ensures ch / 0x1000 * 0x1000 + ch / 0x40 % 0x40 * 0x40 + ch % 0x40 == ch && ch / 0x1000 < 0x10
  {
  }

  lemma {:induction false} Digits4(ch: nat)
    requires ch < 0x20_0000
    ensures ch / 0x4_0000 % 0x10 * 0x4_0000 + ch / 0x1000 % 0x40 * 0x1000 + ch / 0x40 % 0x40 * 0x40 + ch % 0x40 == ch
    ensures ch / 0x4_0000 % 0x10 < 8
  {
    ShiftTwice(ch);
    LeadDigit(ch);
    Digits3(ch / 0x40);
  }

  lemma {:induction false} ShiftTwice(ch: nat)
    ensures ch / 0x1000 == ch / 0x40 / 0x40 && ch / 0x4_0000 == ch / 0x40 / 0x1000
  {
  }

  lemma {:induction false} LeadDigit(ch: nat)
    requires ch < 0x20_0000
    ensures ch / 0x4_0000 < 8 && ch / 0x4_0000 % 0x10 == ch / 0x4_0000
  {
  }

  /** The byte order mark is skipped. */
  lemma {:induction false} GetcSkipsMark(rest: seq<byte>)
    ensures Getc(Encode(MARK) + rest) == Getc(rest)
  {
  }

  function Marks(n: nat): seq<byte> { if n == 0 then [] else [0xEF, 0xBB, 0xBF] + Marks(n - 1) }

  lemma {:induction false} OnlyTwo(s: seq<byte>)
    requires 0xC0 <= At(s, 0) < 0xE0 && Getc(s).ch != EOF
    ensures var g := Getc(s); Allowed(g.ch) && s == Encode(g.ch) + g.rest
  {
    Compose2(s[0] - 0xC0, s[1] - 0x80);
    assert s == [s[0], s[1]] + s[2..];
  }

  lemma {:induction false} OnlyThree(s: seq<byte>)
    requires 0xE0 <= At(s, 0) < 0xF0 && Getc(s).ch != EOF
    ensures var g := Getc(s);
            (Allowed(g.ch) && s == Encode(g.ch) + g.rest)
            || (s == [0xEF, 0xBB, 0xBF] + s[3..] && g == Getc(s[3..]))
  {
    Compose3(s[0] - 0xE0, s[1] - 0x80, s[2] - 0x80);
    assert s == [s[0], s[1], s[2]] + s[3..];
  }

  lemma {:induction false} OnlyFour(s: seq<byte>)
    requires 0xF0 <= At(s, 0) && Getc(s).ch != EOF
    ensures var g := Getc(s); Allowed(g.ch) && s == Encode(g.ch) + g.rest
  {
    Compose4(s[0] - 0xF0, s[1] - 0x80, s[2] - 0x80, s[3] - 0x80);
    assert s == [s[0], s[1], s[2], s[3]] + s[4..];
  }

  /** Nothing else is read: in front of what is left stand byte order marks and the encoding of the character, which is
      one the reader may return. So stray and missing continuation bytes and overlong forms are refused. */
  lemma {:induction false} GetcOnlyEncodings(s: seq<byte>) returns (n: nat)
    requires Getc(s).ch != EOF
    ensures var g := Getc(s); Allowed(g.ch) && s == Marks(n) + (Encode(g.ch) + g.rest)
    decreases |s|, 0
  {
    n := 0;
    var g := Getc(s);
    var e := Encode(g.ch) + g.rest;
    assert Marks(0) + e == e;
    if At(s, 0) < 0x80 {
      assert s == [s[0]] + s[1..];
    } else if At(s, 0) < 0xE0 {
      OnlyTwo(s);
    } else if At(s, 0) < 0xF0 {
      OnlyThree(s);
      if s != e {
        n := BehindMark(s, s[3..]);
      }
    } else {
      OnlyFour(s);
    }
  }

  lemma {:induction false} BehindMark(s: seq<byte>, rest: seq<byte>) returns (n: nat)
    requires s == [0xEF, 0xBB, 0xBF] + rest && Getc(rest).ch != EOF
    ensures var g := Getc(rest); Allowed(g.ch) && s == Marks(n) + (Encode(g.ch) + g.rest)
    decreases |rest|, 1
  {
    var k := GetcOnlyEncodings(rest);
    n := k + 1;
    Associative([0xEF, 0xBB, 0xBF], Marks(k), Encode(Getc(rest).ch) + Getc(rest).rest);
  }

  lemma {:induction false} Compose2(a: nat, b: nat)
    requires b < 0x40
    ensures var ch := a * 0x40 + b; ch / 0x40 == a && ch % 0x40 == b
  {
  }

  lemma {:induction false} Compose3(a: nat, b: nat, c: nat)
    requires a < 0x10 && b < 0x40 && c < 0x40
    ensures var ch := a * 0x1000 + b * 0x40 + c; ch / 0x1000 == a && ch / 0x40 % 0x40 == b && ch % 0x40 == c
    ensures a * 0x1000 + b * 0x40 + c == 0xFEFF ==> a == 15 && b == 0x3B && c == 0x3F
  {
    assert a * 0x1000 + b * 0x40 + c == (a * 0x40 + b) * 0x40 + c;
    Compose2(a * 0x40 + b, c);
    Compose2(a, b);
    ShiftTwice(a * 0x1000 + b * 0x40 + c);
  }

  lemma {:induction false} Compose4(a: nat, b: nat, c: nat, d: nat)
    requires a < 8 && b < 0x40 && c < 0x40 && d < 0x40
    ensures var ch := a * 0x4_0000 + b * 0x1000 + c * 0x40 + d;
            && ch < 0x20_0000 && ch / 0x4_0000 % 0x10 == a && ch / 0x1000 % 0x40 == b && ch / 0x40 % 0x40 == c
            && ch % 0x40 == d
  {
    var ch := a * 0x4_0000 + b * 0x1000 + c * 0x40 + d;
    assert ch == (a * 0x1000 + b * 0x40 + c) * 0x40 + d;
    Compose2(a * 0x1000 + b * 0x40 + c, d);
    Compose3(a, b, c);
    ShiftTwice(ch);
  }

  function WithoutMarks(cs: seq<int>): seq<int> {
    if cs == [] then []
    else (if cs[0] == MARK then [] else [cs[0]]) + WithoutMarks(cs[1..])
  }

  /** Reading back any sequence of code points returns it with every U+FEFF removed. */
  lemma {:induction false} DecodeEncode(cs: seq<int>)
    requires forall i :: 0 <= i < |cs| ==> Readable(cs[i])
    ensures DecodeAll(EncodeAll(cs)) == WithoutMarks(cs)
    decreases |cs|
  {
    if cs != [] {
      var tail := EncodeAll(cs[1..]);
      DecodeEncode(cs[1..]);
      if cs[0] == MARK {
        GetcSkipsMark(tail);
      } else {
        GetcEncode(cs[0], tail);
      }
    }
  }

  lemma {:induction false} EncodeAllAppend(a: seq<int>, b: seq<int>)
    ensures EncodeAll(a + b) == EncodeAll(a) + EncodeAll(b)
    decreases |a|
  {
    if a == [] {
      assert a + b == b;
    } else {
      assert (a + b)[0] == a[0] && (a + b)[1..] == a[1..] + b;
      EncodeAllAppend(a[1..], b);
    }
  }

  /** A string the reader gets through character by character: the encoding of readable code points. */
  ghost predicate IsText(s: seq<byte>) {
    exists cs :: IsTextOf(s, cs)
  }

  ghost predicate IsTextOf(s: seq<byte>, cs: seq<int>) {
    (forall i :: 0 <= i < |cs| ==> Readable(cs[i])) && s == EncodeAll(cs)
  }

  // ---- byte order marks -----------------------------------------------------------------------

  const MARK_BYTES: seq<byte> := [0xEF, 0xBB, 0xBF]

  /** The text without U+FEFF. */
  function Unmark(s: seq<byte>): seq<byte>
    decreases |s|
  {
    if s == [] then [] else if MARK_BYTES <= s then Unmark(s[3..]) else [s[0]] + Unmark(s[1..])
  }

  ghost predicate MarkFree(s: seq<byte>) { forall i: nat :: !MatchAt(s, MARK_BYTES, i) }

  lemma {:induction false} UnmarkOther(b: byte, rest: seq<byte>)
    requires b != 0xEF || !(MARK_BYTES <= [b] + rest)
    ensures Unmark([b] + rest) == [b] + Unmark(rest)
  {
    assert ([b] + rest)[1..] == rest && MARK_BYTES[0] == 0xEF;
  }

  lemma {:induction false} UnmarkBehind(a: seq<byte>, rest: seq<byte>)
    requires forall i :: 0 <= i < |a| ==> a[i] != 0xEF
    ensures Unmark(a + rest) == a + Unmark(rest)
    decreases |a|
  {
    if a == [] {
      assert a + rest == rest;
    } else {
      assert a + rest == [a[0]] + (a[1..] + rest);
      UnmarkOther(a[0], a[1..] + rest);
      UnmarkBehind(a[1..], rest);
    }
  }

  /** Any other character stays. */
  lemma {:induction false} UnmarkKeeps(ch: int, rest: seq<byte>)
    requires Allowed(ch)
    ensures Unmark(Encode(ch) + rest) == Encode(ch) + Unmark(rest)
  {
    var e := Encode(ch);
    if e[0] == 0xEF {
      UnmarkKeepsLike(ch, rest);
    } else {
      LaterBytes(ch);
      UnmarkBehind(e, rest);
    }
  }

  /** Behind the first byte come continuation bytes. */
  lemma {:induction false} LaterBytes(ch: int)
    ensures forall i :: 0 < i < |Encode(ch)| ==> IsContinuation(Encode(ch)[i])
  {
  }

  lemma {:induction false} StartsLikeMark(ch: int)
    requires Allowed(ch) && Encode(ch)[0] == 0xEF
    ensures |Encode(ch)| == 3 && (Encode(ch)[1] != 0xBB || Encode(ch)[2] != 0xBF)
  {
    Digits3(ch);
  }

  /** A character whose first byte is that of the mark. */
  lemma {:induction false} UnmarkKeepsLike(ch: int, rest: seq<byte>)
    requires Allowed(ch) && Encode(ch)[0] == 0xEF
    ensures Unmark(Encode(ch) + rest) == Encode(ch) + Unmark(rest)
  {
    var e := Encode(ch);
    StartsLikeMark(ch);
    LaterBytes(ch);
    assert e + rest == [e[0]] + (e[1..] + rest) && e == [e[0]] + e[1..];
    assert (e + rest)[1] == e[1] && (e + rest)[2] == e[2];
    UnmarkOther(e[0], e[1..] + rest);
    UnmarkBehind(e[1..], rest);
  }

  lemma {:induction false} UnmarkSkips(rest: seq<byte>)
    ensures Unmark(Encode(MARK) + rest) == Unmark(rest)
  {
    assert Encode(MARK) == MARK_BYTES;
    assert (MARK_BYTES + rest)[3..] == rest;
  }

  lemma {:induction false} UnmarkIsShorter(s: seq<byte>)
    ensures |Unmark(s)| <= |s| && (|Unmark(s)| == |s| ==> Unmark(s) == s)
    decreases |s|
  {
    if s != [] {
      assert s == [s[0]] + s[1..];
      UnmarkIsShorter(s[1..]);
      if MARK_BYTES <= s {
        UnmarkIsShorter(s[3..]);
      }
    }
  }

  /** Nothing is removed exactly from a text in which U+FEFF does not occur. */
  lemma {:induction false} UnmarkFixes(s: seq<byte>)
    ensures Unmark(s) == s <==> MarkFree(s)
    decreases |s|
  {
    if s != [] {
      var t := s[1..];
      UnmarkFixes(t);
      UnmarkIsShorter(t);
      if MARK_BYTES <= s {
        UnmarkIsShorter(s[3..]);
        assert MatchAt(s, MARK_BYTES, 0);
      } else {
        assert s == [s[0]] + t;
        MarkFreeTail(s);
      }
    }
  }

  lemma {:induction false} MarkFreeTail(s: seq<byte>)
    requires s != [] && !(MARK_BYTES <= s)
    ensures MarkFree(s) <==> MarkFree(s[1..])
  {
    var t := s[1..];
    forall i: nat ensures MatchAt(t, MARK_BYTES, i) <==> MatchAt(s, MARK_BYTES, i + 1) {
      if i + 3 <= |t| {
        assert t[i] == s[i + 1] && t[i + 1] == s[i + 2] && t[i + 2] == s[i + 3];
      }
    }
    if MarkFree(t) {
      forall i: nat ensures !MatchAt(s, MARK_BYTES, i) {
        if i > 0 {
          assert !MatchAt(t, MARK_BYTES, i - 1);
        }
      }
    }
  }
}

/** The growing buffer behind mxml_add_char. */
module CharBuffer {
  import opened CString
  import opened Utf8

  class Buffer {
    var buffer: array<byte>
    var len: nat

    /** There is always room for the terminating NUL. */
    ghost predicate Valid()
      reads this
    {
      64 <= buffer.Length && len + 1 <= buffer.Length
    }

    ghost function Contents(): seq<byte>
      reads this, buffer
      requires Valid()
    {
      buffer[..len]
    }

    constructor ()
      ensures Valid() && fresh(buffer) && Contents() == []
    {
      buffer := new byte[64](_ => 0);
      len := 0;
    }

    /** Double the buffer below 1024 bytes, add 1024 bytes from there on. */
    method Grow()
      requires Valid()
      modifies this`buffer
      ensures Valid() && fresh(buffer) && Contents() == old(Contents())
      ensures buffer.Length == if old(buffer.Length) < 1024 then 2 * old(buffer.Length) else old(buffer.Length) + 1024
    {
      var bigger := new byte[if buffer.Length < 1024 then 2 * buffer.Length else buffer.Length + 1024](_ => 0);
      forall i | 0 <= i < len {
        bigger[i] := buffer[i];
      }
      assert bigger[..len] == buffer[..len];
      buffer := bigger;
    }

    /** bufptr = buffer */
    method Reset()
      requires Valid()
      modifies this`len
      ensures Valid() && Contents() == []
    {
      len := 0;
    }

    /** buffer[0] = ch, bufptr = buffer + 1: the character is not encoded. */
    method Start(ch: int)
      requires Valid()
      modifies this`len, buffer
      ensures Valid() && Contents() == [ch % 0x100]
    {
      buffer[0] := ch % 0x100;
      len := 1;
    }

    /** mxml_add_char */
    method AddChar(ch: int)
      requires Valid()
      modifies this, buffer
      ensures Valid() && Contents() == old(Contents()) + Encode(ch)
      ensures buffer == old(buffer) || fresh(buffer)
    {
      if len + 4 >= buffer.Length {
        Grow();
      }
      var bytes := Encode(ch);
      forall i | 0 <= i < |bytes| {
        buffer[len + i] := bytes[i];
      }
      len := len + |bytes|;
      assert buffer[..len] == old(Contents()) + bytes;
    }
  }
}
