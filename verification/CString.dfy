/** Bytes, and the C library calls the text protocols are written with. */
module CString {
  type byte = b: int | 0 <= b < 0x100
  type uint16 = n: int | 0 <= n < 0x1_0000
  type uint32 = n: int | 0 <= n < 0x1_0000_0000

  /** A pointer that may be NULL, or a result that may be missing. */
  datatype Option<T> = None | Some(value: T)

  /** Pattern p occurs in s at position i. */
  predicate MatchAt(s: seq<byte>, p: seq<byte>, i: nat) {
    i + |p| <= |s| && forall k :: 0 <= k < |p| ==> s[i + k] == p[k]
  }

  /** strstr from position i on: the first occurrence, or -1. */
  function Search(s: seq<byte>, p: seq<byte>, i: nat): (r: int)
    requires i <= |s|
    ensures r == -1 || i <= r <= |s| - |p|
    decreases |s| - i
  {
    if MatchAt(s, p, i) then i
    else if i == |s| then -1
    else Search(s, p, i + 1)
  }

  function StrStr(s: seq<byte>, p: seq<byte>): (r: int)
    ensures r == -1 || 0 <= r <= |s| - |p|
  {
    Search(s, p, 0)
  }

  lemma {:induction false} SearchIsFirst(s: seq<byte>, p: seq<byte>, i: nat)
    requires i <= |s|
    ensures var r := Search(s, p, i);
            && (r >= 0 ==> MatchAt(s, p, r))
            && forall j :: i <= j && (r == -1 || j < r) ==> !MatchAt(s, p, j)
    decreases |s| - i
  {
    if !MatchAt(s, p, i) && i < |s| {
      SearchIsFirst(s, p, i + 1);
    }
  }

  /** strstr finds the first occurrence, and finds one if there is one. */
  lemma {:induction false} StrStrIsFirst(s: seq<byte>, p: seq<byte>)
    ensures var r := StrStr(s, p);
            && (r >= 0 ==> MatchAt(s, p, r))
            && forall j: nat :: r == -1 || j < r ==> !MatchAt(s, p, j)
  {
    SearchIsFirst(s, p, 0);
  }

  lemma {:induction false} FirstMatch(s: seq<byte>, p: seq<byte>, i: nat)
    requires MatchAt(s, p, i) && forall j :: 0 <= j < i ==> !MatchAt(s, p, j)
    ensures StrStr(s, p) == i
  {
    StrStrIsFirst(s, p);
  }

  /** The C string stored in s: everything in front of the first NUL. */
  function CStr(s: seq<byte>): (r: seq<byte>)
    ensures r <= s && (forall k :: 0 <= k < |r| ==> r[k] != 0)
    ensures |r| < |s| ==> s[|r|] == 0
  {
    if s == [] || s[0] == 0 then [] else [s[0]] + CStr(s[1..])
  }

  predicate IsDigit(c: byte) { 48 <= c <= 57 }

  /** isspace in the C locale */
  predicate IsSpace(c: byte) { c == 32 || 9 <= c <= 13 }

  function Digits(s: seq<byte>, acc: nat): nat
  {
    if s != [] && IsDigit(s[0]) then Digits(s[1..], 10 * acc + (s[0] - 48)) else acc
  }

  /** atoi, on unbounded integers */
  function Atoi(s: seq<byte>): int {
    if s == [] then 0
    else if IsSpace(s[0]) then Atoi(s[1..])
    else if s[0] == 45 then 0 - Digits(s[1..], 0)
    else if s[0] == 43 then Digits(s[1..], 0)
    else Digits(s, 0)
  }

  lemma {:induction false} Associative<T>(a: seq<T>, b: seq<T>, c: seq<T>)
    ensures a + (b + c) == a + b + c
  {
  }

  /** strcmp: byte by byte, the end of the string being smaller than any byte */
  function Strcmp(a: seq<byte>, b: seq<byte>): int {
    if a == [] then (if b == [] then 0 else -1)
    else if b == [] then 1
    else if a[0] != b[0] then (a[0] as int) - b[0]
    else Strcmp(a[1..], b[1..])
  }

  lemma {:induction false} StrcmpZero(a: seq<byte>, b: seq<byte>)
    ensures Strcmp(a, b) == 0 <==> a == b
  {
    if a != [] && b != [] {
      StrcmpZero(a[1..], b[1..]);
      if a[0] == b[0] {
        assert a == [a[0]] + a[1..] && b == [b[0]] + b[1..];
      }
    }
  }

  lemma {:induction false} StrcmpFlip(a: seq<byte>, b: seq<byte>)
    ensures Strcmp(a, b) < 0 <==> Strcmp(b, a) > 0
  {
    if a != [] && b != [] {
      StrcmpFlip(a[1..], b[1..]);
    }
  }

  lemma {:induction false} StrcmpTransitive(a: seq<byte>, b: seq<byte>, c: seq<byte>)
    requires Strcmp(a, b) <= 0 && Strcmp(b, c) <= 0
    ensures Strcmp(a, c) <= 0
    ensures Strcmp(a, b) < 0 || Strcmp(b, c) < 0 ==> Strcmp(a, c) < 0
  {
    if a != [] && b != [] && c != [] && a[0] == b[0] == c[0] {
      StrcmpTransitive(a[1..], b[1..], c[1..]);
    }
  }
}
