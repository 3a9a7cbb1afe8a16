/** Bytes, C strings and the few byte constants shared by every component. */
module Bytes {
  datatype Option<+T> = None | Some(value: T)

  type byte = b: int | 0 <= b < 256

  const NUL: byte := 0
  const LF: byte := 10
  const CR: byte := 13
  const CRLF: seq<byte> := [CR, LF]

  function Min(a: nat, b: nat): nat {
    if a <= b then a else b
  }

  predicate NulFree(s: seq<byte>) {
    NUL !in s
  }

  /** The contents of a NUL-terminated C string, without its terminator. */
  type cstring = s: seq<byte> | NulFree(s) witness []

  /** The bytes of `s` from `from` up to `to`, both cut down to the length of `s`. */
  function Slice(s: seq<byte>, from: nat, to: nat): seq<byte> {
    if from <= to then s[Min(from, |s|)..Min(to, |s|)] else []
  }

  /** A C string literal. */
  function Ascii(s: string): (r: cstring)
    ensures |r| == |s| && forall i :: 0 <= i < |s| && 1 <= s[i] as int < 256 ==> r[i] == s[i] as int
  {
    seq(|s|, i requires 0 <= i < |s| => if 1 <= s[i] as int < 256 then s[i] as int else 63)
  }

  /** `toupper` in the C locale. */
  function Upper(b: byte): byte { if 97 <= b <= 122 then b - 32 else b }

  /** The letters in both cases, by place. */
  const SMALL: string := "abcdefghijklmnopqrstuvwxyz"
  const BIG: string := "ABCDEFGHIJKLMNOPQRSTUVWXYZ"

  /** Digits by value: the first ten are the decimal ones, and letters may come in either case. */
  const DIGITS: string := "0123456789abcdef"

  lemma DigitsAre(d: nat)
    requires d < 16
    ensures DIGITS[d] as int == if d < 10 then 48 + d else 87 + d
  {
  }

  /** The same byte, or the same letter in the other case. */
  predicate SameLetter(a: byte, b: byte) {
    || a == b
    || exists i | 0 <= i < 26 ::
         (a == SMALL[i] as int && b == BIG[i] as int) || (a == BIG[i] as int && b == SMALL[i] as int)
  }

  lemma Letters()
    ensures forall i :: 0 <= i < 26 ==> SMALL[i] as int == 97 + i
    ensures forall i :: 0 <= i < 26 ==> BIG[i] as int == 65 + i
  {
  }

  /** `toupper` makes capitals of the small letters, and of two bytes the same only if just their case differs. */
  lemma UpperIs(a: byte, b: byte)
    ensures forall i :: 0 <= i < 26 ==> Upper(SMALL[i] as int) == BIG[i] as int
    ensures (forall i :: 0 <= i < 26 ==> a != SMALL[i] as int) ==> Upper(a) == a
    ensures Upper(a) == Upper(b) <==> SameLetter(a, b)
  {
    Letters();
    if 97 <= a <= 122 {
      assert SMALL[a - 97] as int == a && BIG[a - 97] as int == a - 32;
    }
    if 97 <= b <= 122 {
      assert SMALL[b - 97] as int == b && BIG[b - 97] as int == b - 32;
    }
  }

  lemma SliceGrows(s: seq<byte>, from: nat, mid: nat, to: nat)
    requires from <= mid <= to
    ensures Slice(s, from, mid) + Slice(s, mid, to) == Slice(s, from, to)
  {
  }

  /** `token` stands at offset `i`. */
  predicate At(s: seq<byte>, token: seq<byte>, i: nat) {
    i + |token| <= |s| && s[i..i + |token|] == token
  }

  /** `strstr(&s[i], token)` on a C string held in `s`: the first offset of `token` not behind a NUL, or -1. */
  function StrStr(s: seq<byte>, token: seq<byte>, i: nat): (r: int)
    ensures r == -1 || (i <= r && At(s, token, r) && NUL !in s[i..r])
    ensures forall j :: i <= j < r ==> !At(s, token, j)
    ensures r == -1 ==> forall j: nat :: i <= j && At(s, token, j) ==> NUL in s[i..j]
    decreases |s| - i
  {
    if At(s, token, i) then i
    else if i >= |s| || s[i] == NUL then -1
    else StrStr(s, token, i + 1)
  }

  /** `strchr` */
  function StrChr(s: seq<byte>, c: byte): (r: int)
    ensures if r < 0 then r == -1 && c !in s else r < |s| && s[r] == c && c !in s[..r]
  {
    if s == [] then -1
    else if s[0] == c then 0
    else
      var r := StrChr(s[1..], c);
      assert s == [s[0]] + s[1..];
      if r < 0 then -1
      else
        assert s[..r + 1] == [s[0]] + s[1..][..r];
        r + 1
  }

  lemma StrChrIs(s: seq<byte>, c: byte, r: nat)
    requires r < |s| && s[r] == c && c !in s[..r]
    ensures StrChr(s, c) == r
  {
  }

  lemma StrChrNone(s: seq<byte>, c: byte)
    requires c !in s
    ensures StrChr(s, c) == -1
  {
  }

  function Flat(texts: seq<seq<byte>>): seq<byte> {
    if texts == [] then [] else texts[0] + Flat(texts[1..])
  }

  lemma SliceOfSlice(s: seq<byte>, from: nat, to: nat, i: nat, n: nat)
    requires from + i + n <= to <= |s|
    ensures s[from..to][i..i + n] == s[from + i..from + i + n]
  {
    var a, b := s[from..to][i..i + n], s[from + i..from + i + n];
    assert forall k :: 0 <= k < n ==> a[k] == b[k];
  }

  /** Taking `l` bytes more from the front of what is left of `s` behind its first `i`. */
  lemma TakeMore(base: seq<byte>, s: seq<byte>, i: nat, l: nat)
    requires i + l <= |s|
    ensures base + s[..i] + s[i..][..l] == base + s[..i + l] && s[i..][l..] == s[i + l..]
  {
    assert s[..i] + s[i..][..l] == s[..i + l];
    assert base + s[..i] + s[i..][..l] == base + (s[..i] + s[i..][..l]);
  }
}
