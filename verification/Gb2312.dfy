/** jni/gb2312.c: GB2312 cells and code points, and the text of both encodings. */
module Gb2312Spec {
  import opened CString
  import opened Utf8

  const ERROR: int := 0xFFFF

  datatype Cell = Cell(r: int, c: int)

  datatype Found = NoCell | At(cell: Cell)

  /** The two tables: 94 rows of 94 code points, and the assigned cells by code point. */
  datatype Tables = Tables(forward: seq<seq<int>>, backward: seq<Cell>)

  predicate InSquare(x: Cell) { 0 <= x.r < 94 && 0 <= x.c < 94 }

  predicate Shaped(t: Tables) {
    && |t.forward| == 94
    && (forall r :: 0 <= r < 94 ==> |t.forward[r]| == 94)
    && (forall k :: 0 <= k < |t.backward| ==> InSquare(t.backward[k]))
  }

  function Code(t: Tables, x: Cell): int
    requires Shaped(t) && InSquare(x)
  {
    t.forward[x.r][x.c]
  }

  predicate Assigned(t: Tables, x: Cell)
    requires Shaped(t)
  {
    InSquare(x) && Code(t, x) != ERROR
  }

  /** The table holds 16-bit numbers. */
  ghost predicate Words(t: Tables) {
    Shaped(t) && forall x: Cell :: InSquare(x) ==> 0 <= Code(t, x) < 0x1_0000
  }

  /** Every assigned cell is listed once, in the order of the code points. */
  ghost predicate WellFormed(t: Tables) {
    && Words(t)
    && (forall i, j :: 0 <= i < j < |t.backward| ==> Code(t, t.backward[i]) < Code(t, t.backward[j]))
    && (forall k :: 0 <= k < |t.backward| ==> Assigned(t, t.backward[k]))
    && (forall x: Cell :: Assigned(t, x) ==> x in t.backward)
  }

  /** The cell of a code point. */
  ghost function CellOf(t: Tables, u: int): Found
    requires WellFormed(t)
  {
    if exists x :: x in t.backward && Code(t, x) == u then
      var x :| x in t.backward && Code(t, x) == u;
      At(x)
    else NoCell
  }

  /** Looking up a code point and looking up a cell undo each other. */
  lemma {:induction false} CellOfCode(t: Tables, x: Cell)
    requires WellFormed(t) && Assigned(t, x)
    ensures CellOf(t, Code(t, x)) == At(x)
  {
  }

  lemma {:induction false} CodeOfCell(t: Tables, u: int)
    requires WellFormed(t)
    ensures CellOf(t, u).At? <==> u != ERROR && exists x: Cell :: Assigned(t, x) && Code(t, x) == u
    ensures CellOf(t, u).At? ==> Assigned(t, CellOf(t, u).cell) && Code(t, CellOf(t, u).cell) == u
  {
  }

  // ---- single characters ----------------------------------------------------------------------

  /** gb2312_to_unicode on the two bytes of a character; -1 becomes ERROR in the 16 bits it is stored in. */
  function PairCode(t: Tables, b0: byte, b1: byte): (u: int)
    requires Words(t)
    ensures 0 <= u < 0x1_0000
  {
    var x := Cell((b0 - 161) % 0x100, (b1 - 161) % 0x100);
    if InSquare(x) then Code(t, x) else ERROR
  }

  /** UnicodeToUTF_8: always three bytes. */
  function Three(u: int): seq<byte>
    requires 0 <= u < 0x1_0000
  {
    var hi, lo := u / 0x100, u % 0x100;
    [0xE0 + hi / 16, 0x80 + hi % 16 * 4 + lo / 64, 0x80 + lo % 64]
  }

  /** UTF_8ToUnicode: three bytes, whatever they are. */
  function FromThree(b0: byte, b1: byte, b2: byte): (u: int)
    ensures 0 <= u < 0x1_0000
  {
    var hi, lo := b0 % 16 * 16 + b1 / 4 % 16, b1 % 4 * 64 + b2 % 64;
    hi * 0x100 + lo
  }

  lemma {:induction false} ThreeAndBack(u: int)
    requires 0 <= u < 0x1_0000
    ensures var e := Three(u); FromThree(e[0], e[1], e[2]) == u && e[0] >= 0x80
  {
    HighByte(u / 0x100, u % 0x100);
    LowByte(u / 0x100, u % 0x100);
  }

  lemma {:induction false} HighByte(hi: byte, lo: byte)
    ensures (0xE0 + hi / 16) % 16 * 16 + (0x80 + hi % 16 * 4 + lo / 64) / 4 % 16 == hi
  {
  }

  lemma {:induction false} LowByte(hi: byte, lo: byte)
    ensures (0x80 + hi % 16 * 4 + lo / 64) % 4 * 64 + (0x80 + lo % 64) % 64 == lo
  {
  }

  lemma {:induction false} ThreeDigits(u: int)
    requires 0 <= u < 0x1_0000
    ensures Three(u) == [0xE0 + u / 0x1000, 0x80 + u / 0x40 % 0x40, 0x80 + u % 0x40]
  {
    var hi, lo := u / 0x100, u % 0x100;
    assert u == hi * 0x100 + lo;
    assert u / 0x1000 == hi / 16;
    assert u / 0x40 == hi * 4 + lo / 64;
    assert u / 0x40 % 0x40 == hi % 16 * 4 + lo / 64;
    assert u % 0x40 == lo % 64;
  }

  /** The three-byte sequences of the grammar in RFC 3629, section 4: none overlong, none for a surrogate. */
  predicate IsRfcThree(e: seq<byte>) {
    && |e| == 3
    && IsContinuation(e[1]) && IsContinuation(e[2])
    && (e[0] == 0xE0 ==> 0xA0 <= e[1])
    && (e[0] == 0xED ==> e[1] <= 0x9F)
    && 0xE0 <= e[0] <= 0xEF
  }

  /** The three bytes are what the XML printer of this program writes for the code point exactly from U+0800 on, and
      RFC 3629 allows them exactly if, moreover, it is no surrogate. */
  lemma {:induction false} ThreeIsUtf8(u: int)
    requires 0 <= u < 0x1_0000
    ensures Three(u) == Encode(u) <==> u >= 0x800
    ensures IsRfcThree(Three(u)) <==> u >= 0x800 && !(0xD800 <= u < 0xE000)
  {
    ThreeDigits(u);
    if u < 0x800 {
      assert |Encode(u)| < 3;
    }
  }

  /** Below U+0800 the XML reader of this program refuses the three bytes, as the grammar of RFC 3629 does. */
  lemma {:induction false} OverlongIsRefused(u: int, rest: seq<byte>)
    requires 0 <= u < 0x800
    ensures Getc(Three(u) + rest).ch == EOF && !IsRfcThree(Three(u))
  {
    ThreeIsUtf8(u);
  }

  // ---- texts ----------------------------------------------------------------------------------

  /** GB2312ToUTF_8 on len more bytes; one byte behind the end may be read. */
  function ToUtf8(t: Tables, s: seq<byte>, len: int): seq<byte>
    requires Words(t) && |s| > len
    decreases len
  {
    if len <= 0 then []
    else if s[0] < 0x80 then [s[0]] + ToUtf8(t, s[1..], len - 1)
    else Three(PairCode(t, s[0], s[1])) + ToUtf8(t, s[2..], len - 2)
  }

  /** The two bytes UnicodeToGB2312 leaves in its buffer: those of the cell or, for a code point without one, what
      was there before, moved on by 0xA1. */
  ghost function Pair(t: Tables, u: int, old_: (byte, byte)): (byte, byte)
    requires WellFormed(t)
  {
    CodeOfCell(t, u);
    match CellOf(t, u)
    case At(x) => (x.r + 0xA1, x.c + 0xA1)
    case NoCell => ((old_.0 + 0xA1) % 0x100, (old_.1 + 0xA1) % 0x100)
  }

  /** UTF_8ToGB2312 on len more bytes; two bytes behind the end may be read. */
  ghost function FromUtf8(t: Tables, s: seq<byte>, len: int, temp: (byte, byte)): seq<byte>
    requires WellFormed(t) && |s| >= len + 2
    decreases len
  {
    if len <= 0 then []
    else if s[0] < 0x80 then [s[0]] + FromUtf8(t, s[1..], len - 1, temp)
    else
      var p := Pair(t, FromThree(s[0], s[1], s[2]), temp);
      [p.0, p.1] + FromUtf8(t, s[3..], len - 3, p)
  }

  /** Two bytes of no assigned cell become EF BF BF, the form of U+FFFF, and no others do. */
  lemma {:induction false} UnassignedPair(t: Tables, b0: byte, b1: byte)
    requires WellFormed(t)
    ensures Three(PairCode(t, b0, b1)) == [0xEF, 0xBF, 0xBF] <==>
            !(b0 >= 161 && b1 >= 161 && Assigned(t, Cell(b0 - 161, b1 - 161)))
  {
    ThreeDigits(PairCode(t, b0, b1));
  }

  /** A code point without a cell is converted to two bytes that depend on what was converted before it, and on nothing
      else; twice in a row it never becomes the same bytes. */
  lemma {:induction false} UnmappedPair(t: Tables, u: int, v: int, old_: (byte, byte))
    requires WellFormed(t) && CellOf(t, u).NoCell? && CellOf(t, v).NoCell?
    ensures Pair(t, u, old_) == Pair(t, v, old_) && Pair(t, u, Pair(t, u, old_)) != Pair(t, u, old_)
    ensures (Pair(t, u, old_).0 - old_.0 - 161) % 256 == 0 && (Pair(t, u, old_).1 - old_.1 - 161) % 256 == 0
  {
  }

  /** ASCII bytes and pairs of bytes of assigned cells. */
  predicate IsGbText(t: Tables, g: seq<byte>)
    requires Shaped(t)
    decreases |g|
  {
    g == []
    || (g[0] < 0x80 && IsGbText(t, g[1..]))
    || (|g| >= 2 && g[0] >= 0xA1 && g[1] >= 0xA1 && Assigned(t, Cell(g[0] - 161, g[1] - 161)) && IsGbText(t, g[2..]))
  }

  /** ASCII bytes and three-byte forms of code points that have a cell. */
  ghost predicate IsMappedText(t: Tables, e: seq<byte>)
    requires WellFormed(t)
    decreases |e|
  {
    e == []
    || (e[0] < 0x80 && IsMappedText(t, e[1..]))
    || (|e| >= 3 && e[0] >= 0x80 && e[..3] == Three(FromThree(e[0], e[1], e[2]))
        && CellOf(t, FromThree(e[0], e[1], e[2])).At? && IsMappedText(t, e[3..]))
  }

  /** Converting a GB2312 text to UTF-8 and back gives the text, whatever lies behind it in memory. */
  lemma {:induction false} GbRoundTrip(t: Tables, g: seq<byte>, after: seq<byte>, after': seq<byte>, temp: (byte, byte))
    requires WellFormed(t) && IsGbText(t, g) && |after| >= 1 && |after'| >= 2
    ensures var e := ToUtf8(t, g + after, |g|); FromUtf8(t, e + after', |e|, temp) == g
    decreases |g|
  {
    if g != [] {
      if g[0] < 0x80 {
        GbAscii(t, g, after, after', temp);
        GbRoundTrip(t, g[1..], after, after', temp);
        assert g == [g[0]] + g[1..];
      } else {
        var p := (g[0], g[1]);
        GbPair(t, g, after, after', temp);
        GbRoundTrip(t, g[2..], after, after', p);
        assert g == [g[0], g[1]] + g[2..];
      }
    }
  }

  lemma {:induction false} GbAscii(t: Tables, g: seq<byte>, after: seq<byte>, after': seq<byte>, temp: (byte, byte))
    requires WellFormed(t) && |after| >= 1 && |after'| >= 2 && g != [] && g[0] < 0x80
    ensures var e, e1 := ToUtf8(t, g + after, |g|), ToUtf8(t, g[1..] + after, |g| - 1);
            FromUtf8(t, e + after', |e|, temp) == [g[0]] + FromUtf8(t, e1 + after', |e1|, temp)
  {
    assert (g + after)[1..] == g[1..] + after;
    var e1 := ToUtf8(t, g[1..] + after, |g| - 1);
    Associative([g[0]], e1, after');
    assert ([g[0]] + (e1 + after'))[1..] == e1 + after';
  }

  lemma {:induction false} GbPair(t: Tables, g: seq<byte>, after: seq<byte>, after': seq<byte>, temp: (byte, byte))
    requires WellFormed(t) && |after| >= 1 && |after'| >= 2
    requires |g| >= 2 && g[0] >= 0xA1 && g[1] >= 0xA1 && Assigned(t, Cell(g[0] - 161, g[1] - 161))
    ensures var e, e1 := ToUtf8(t, g + after, |g|), ToUtf8(t, g[2..] + after, |g| - 2);
            FromUtf8(t, e + after', |e|, temp) == [g[0], g[1]] + FromUtf8(t, e1 + after', |e1|, (g[0], g[1]))
  {
    var x := Cell(g[0] - 161, g[1] - 161);
    var u := Code(t, x);
    assert PairCode(t, g[0], g[1]) == u;
    assert (g + after)[2..] == g[2..] + after;
    var e1 := ToUtf8(t, g[2..] + after, |g| - 2);
    Associative(Three(u), e1, after');
    ThreeAndBack(u);
    assert (Three(u) + (e1 + after'))[3..] == e1 + after';
    CellOfCode(t, x);
    assert Pair(t, u, temp) == (g[0], g[1]);
  }

  /** Converting mapped UTF-8 text to GB2312 and back gives the text. */
  lemma {:induction false} Utf8RoundTrip(t: Tables, e: seq<byte>, after: seq<byte>, after': seq<byte>,
                                         temp: (byte, byte))
    requires WellFormed(t) && IsMappedText(t, e) && |after| >= 2 && |after'| >= 1
    ensures var g := FromUtf8(t, e + after, |e|, temp); ToUtf8(t, g + after', |g|) == e
    decreases |e|
  {
    if e != [] {
      if e[0] < 0x80 {
        Utf8Ascii(t, e, after, after', temp);
        Utf8RoundTrip(t, e[1..], after, after', temp);
        assert e == [e[0]] + e[1..];
      } else {
        var p := Pair(t, FromThree(e[0], e[1], e[2]), temp);
        Utf8Three(t, e, after, after', temp);
        Utf8RoundTrip(t, e[3..], after, after', p);
        assert e == e[..3] + e[3..];
      }
    }
  }

  lemma {:induction false} Utf8Ascii(t: Tables, e: seq<byte>, after: seq<byte>, after': seq<byte>, temp: (byte, byte))
    requires WellFormed(t) && |after| >= 2 && |after'| >= 1 && e != [] && e[0] < 0x80
    ensures var g, g1 := FromUtf8(t, e + after, |e|, temp), FromUtf8(t, e[1..] + after, |e| - 1, temp);
            ToUtf8(t, g + after', |g|) == [e[0]] + ToUtf8(t, g1 + after', |g1|)
  {
    assert (e + after)[1..] == e[1..] + after;
    var g1 := FromUtf8(t, e[1..] + after, |e| - 1, temp);
    Associative([e[0]], g1, after');
    assert ([e[0]] + (g1 + after'))[1..] == g1 + after';
  }

  lemma {:induction false} Utf8Three(t: Tables, e: seq<byte>, after: seq<byte>, after': seq<byte>, temp: (byte, byte))
    requires WellFormed(t) && |after| >= 2 && |after'| >= 1 && |e| >= 3 && e[0] >= 0x80
    requires e[..3] == Three(FromThree(e[0], e[1], e[2])) && CellOf(t, FromThree(e[0], e[1], e[2])).At?
    ensures var p := Pair(t, FromThree(e[0], e[1], e[2]), temp);
            var g, g1 := FromUtf8(t, e + after, |e|, temp), FromUtf8(t, e[3..] + after, |e| - 3, p);
            ToUtf8(t, g + after', |g|) == e[..3] + ToUtf8(t, g1 + after', |g1|)
  {
    var u := FromThree(e[0], e[1], e[2]);
    var p := Pair(t, u, temp);
    assert (e + after)[3..] == e[3..] + after;
    var g1 := FromUtf8(t, e[3..] + after, |e| - 3, p);
    Associative([p.0, p.1], g1, after');
    assert ([p.0, p.1] + (g1 + after'))[2..] == g1 + after';
    CodeOfCell(t, u);
    assert PairCode(t, p.0, p.1) == u;
  }
}

/** The functions of jni/gb2312.c. */
module Gb2312 {
  import opened CString
  import opened Gb2312Spec

  /** unicode_to_gb2312: binary search in the second table through the first one. */
  method UnicodeToGb2312(t: Tables, unicode: int) returns (found: bool, cell: Cell)
    requires WellFormed(t)
    ensures found <==> CellOf(t, unicode).At?
    ensures found ==> cell == CellOf(t, unicode).cell
    ensures found <==> unicode != ERROR && exists x: Cell :: Assigned(t, x) && Code(t, x) == unicode
  {
    var i, j := -1, |t.backward|;
    CodeOfCell(t, unicode);
    while j - i > 1
      invariant -1 <= i < j <= |t.backward|
      invariant forall k :: 0 <= k <= i ==> Code(t, t.backward[k]) < unicode
      invariant forall k :: j <= k < |t.backward| ==> Code(t, t.backward[k]) > unicode
      decreases j - i
    {
      var k := (i + j) / 2;
      cell := t.backward[k];
      var uu := Code(t, cell);
      if unicode > uu {
        i := k;
      } else if unicode < uu {
        j := k;
      } else {
        CellOfCode(t, cell);
        return true, cell;
      }
    }
    found := false;
    cell := Cell(0, 0);
  }

  /** UnicodeToGB2312 on the buffer of its caller */
  method PutPair(t: Tables, u: int, buf: array<byte>)
    requires WellFormed(t) && buf.Length >= 2
    modifies buf
    ensures (buf[0], buf[1]) == Pair(t, u, (old(buf[0]), old(buf[1])))
  {
    var found, cell := UnicodeToGb2312(t, u);
    CodeOfCell(t, u);
    if found {
      buf[0] := cell.r;
      buf[1] := cell.c;
    }
    var r: int, c: int := buf[0], buf[1];
    buf[0] := (r + 0xA1) % 0x100;
    buf[1] := (c + 0xA1) % 0x100;
  }

  /** memset on the front of out */
  method Clear(out: array<byte>, n: nat)
    requires n <= out.Length
    modifies out
    ensures out[n..] == old(out[n..]) && forall i :: 0 <= i < n ==> out[i] == 0
  {
    forall i | 0 <= i < n {
      out[i] := 0;
    }
  }

  /** One character more is converted. */
  lemma {:induction false} ToUtf8Step(t: Tables, done: seq<byte>, rest: seq<byte>, len: int, bytes: seq<byte>, n: nat)
    requires Words(t) && 0 < len < |rest| && n == if rest[0] < 0x80 then 1 else 2
    requires bytes == if rest[0] < 0x80 then [rest[0]] else Three(PairCode(t, rest[0], rest[1]))
    ensures done + ToUtf8(t, rest, len) == (done + bytes) + ToUtf8(t, rest[n..], len - n)
  {
    Associative(done, bytes, ToUtf8(t, rest[n..], len - n));
  }

  /** Store some bytes from position j on. */
  method Put(out: array<byte>, j: nat, bytes: seq<byte>)
    requires j + |bytes| <= out.Length
    modifies out
    ensures out[..j + |bytes|] == old(out[..j]) + bytes
  {
    forall k | 0 <= k < |bytes| {
      out[j + k] := bytes[k];
    }
  }

  /** The conversion of the character at position i, and its length. */
  method OneToUtf8(t: Tables, text: seq<byte>, i: nat, ghost rest: seq<byte>) returns (bytes: seq<byte>, n: nat)
    requires Words(t) && i + 1 < |text| && rest == text[i..]
    ensures n == if rest[0] < 0x80 then 1 else 2
    ensures bytes == if rest[0] < 0x80 then [rest[0]] else Three(PairCode(t, rest[0], rest[1]))
    ensures i + n <= |text| && rest[n..] == text[i + n..]
  {
    if text[i] < 0x80 {
      bytes, n := [text[i]], 1;
    } else {
      bytes, n := Three(PairCode(t, text[i], text[i + 1])), 2;
    }
  }

  /** GB2312ToUTF_8: the text in `text` of length len, converted and closed with a NUL. */
  method Gb2312ToUtf8(t: Tables, out: array<byte>, text: seq<byte>, len: nat) returns (j: nat)
    requires WellFormed(t) && len < |text|
    requires |ToUtf8(t, text, len)| < out.Length && len + len / 4 + 2 <= out.Length
    modifies out
    ensures j == |ToUtf8(t, text, len)| && out[..j] == ToUtf8(t, text, len) && out[j] == 0
  {
    Clear(out, len + len / 4 + 2);
    var i := 0;
    j := 0;
    ghost var done, rest, all: seq<byte> := [], text, ToUtf8(t, text, len);
    while i < len
      invariant i <= |text| && j < out.Length && done == out[..j] && rest == text[i..] && |rest| > len - i
      invariant done + ToUtf8(t, rest, len - i) == all
      decreases len - i
    {
      var bytes, n := OneToUtf8(t, text, i, rest);
      ToUtf8Step(t, done, rest, len - i, bytes, n);
      Put(out, j, bytes);
      i, j, done, rest := i + n, j + |bytes|, done + bytes, rest[n..];
    }
    out[j] := 0;
    assert out[..j] == all;
  }

  /** One character more is converted back; temp and now are what the two bytes of the buffer were and are. */
  lemma {:induction false} FromUtf8Step(t: Tables, done: seq<byte>, rest: seq<byte>, len: int, temp: (byte, byte),
                                        now: (byte, byte), n: nat)
    requires WellFormed(t) && 0 < len <= |rest| - 2 && n == if rest[0] < 0x80 then 1 else 3
    requires now == if rest[0] < 0x80 then temp else Pair(t, FromThree(rest[0], rest[1], rest[2]), temp)
    ensures var bytes := if rest[0] < 0x80 then [rest[0]] else [now.0, now.1];
            done + FromUtf8(t, rest, len, temp) == (done + bytes) + FromUtf8(t, rest[n..], len - n, now)
  {
    var bytes := if rest[0] < 0x80 then [rest[0]] else [now.0, now.1];
    Associative(done, bytes, FromUtf8(t, rest[n..], len - n, now));
  }

  /** The conversion of the character at position i, which may go through the buffer, and its length. */
  method OneFromUtf8(t: Tables, text: seq<byte>, i: nat, ctemp: array<byte>, ghost rest: seq<byte>)
    returns (bytes: seq<byte>, n: nat)
    requires WellFormed(t) && i + 2 < |text| && rest == text[i..] && ctemp.Length >= 2
    modifies ctemp
    ensures n == if rest[0] < 0x80 then 1 else 3
    ensures var temp := (old(ctemp[0]), old(ctemp[1]));
            (ctemp[0], ctemp[1])
            == if rest[0] < 0x80 then temp else Pair(t, FromThree(rest[0], rest[1], rest[2]), temp)
    ensures bytes == if rest[0] < 0x80 then [rest[0]] else [ctemp[0], ctemp[1]]
    ensures i + n <= |text| && rest[n..] == text[i + n..]
  {
    bytes, n := [text[i]], 1;
    if text[i] >= 0x80 {
      PutPair(t, FromThree(text[i], text[i + 1], text[i + 2]), ctemp);
      bytes, n := [ctemp[0], ctemp[1]], 3;
    }
  }

  /** UTF_8ToGB2312 */
  method Utf8ToGb2312(t: Tables, out: array<byte>, text: seq<byte>, len: nat) returns (j: nat)
    requires WellFormed(t) && len + 2 <= |text|
    requires |FromUtf8(t, text, len, (0, 0))| < out.Length
    modifies out
    ensures j == |FromUtf8(t, text, len, (0, 0))| && out[..j] == FromUtf8(t, text, len, (0, 0)) && out[j] == 0
  {
    var ctemp := new byte[4](_ => 0);
    var i := 0;
    j := 0;
    ghost var done, rest, all: seq<byte> := [], text, FromUtf8(t, text, len, (0, 0));
    while i < len
      invariant i <= |text| && j < out.Length && done == out[..j] && rest == text[i..] && |rest| >= len - i + 2
      invariant done + FromUtf8(t, rest, len - i, (ctemp[0], ctemp[1])) == all
      decreases len - i
    {
      ghost var temp := (ctemp[0], ctemp[1]);
      var bytes, n := OneFromUtf8(t, text, i, ctemp, rest);
      FromUtf8Step(t, done, rest, len - i, temp, (ctemp[0], ctemp[1]), n);
      Put(out, j, bytes);
      i, j, done, rest := i + n, j + |bytes|, done + bytes, rest[n..];
    }
    out[j] := 0;
    assert out[..j] == all;
  }
}
