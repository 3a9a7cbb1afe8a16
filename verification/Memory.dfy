/** C strings and `memmove` on a fixed buffer. */
module Memory {
  import opened Bytes

  /** `memmove`: the two ranges may overlap, whichever comes first. */
  method MemMove(data: array<byte>, to: nat, from: nat, n: nat)
    requires from + n <= data.Length && to + n <= data.Length
    modifies data
    ensures forall i :: 0 <= i < to ==> data[i] == old(data[i])
    ensures forall i :: to <= i < to + n ==> data[i] == old(data[i + from - to])
    ensures forall i :: to + n <= i < data.Length ==> data[i] == old(data[i])
  {
    if to <= from {
      var k := 0;
      while k < n
        invariant k <= n
        invariant forall i :: 0 <= i < to ==> data[i] == old(data[i])
        invariant forall i :: to <= i < to + k ==> data[i] == old(data[i + from - to])
        invariant forall i :: to + k <= i < data.Length ==> data[i] == old(data[i])
      {
        data[to + k] := data[from + k];
        k := k + 1;
      }
    } else {
      var k := n;
      while k > 0
        invariant 0 <= k <= n
        invariant forall i :: 0 <= i < to + k ==> data[i] == old(data[i])
        invariant forall i :: to + k <= i < to + n ==> data[i] == old(data[i + from - to])
        invariant forall i :: to + n <= i < data.Length ==> data[i] == old(data[i])
      {
        k := k - 1;
        data[to + k] := data[from + k];
      }
    }
  }

  /** `memcpy` from a buffer of its own. */
  method MemCpy(data: array<byte>, to: nat, from: seq<byte>)
    requires to + |from| <= data.Length
    modifies data
    ensures forall i :: 0 <= i < to ==> data[i] == old(data[i])
    ensures forall i :: to <= i < to + |from| ==> data[i] == from[i - to]
    ensures forall i :: to + |from| <= i < data.Length ==> data[i] == old(data[i])
  {
    var k := 0;
    while k < |from|
      invariant k <= |from|
      invariant forall i :: 0 <= i < to ==> data[i] == old(data[i])
      invariant forall i :: to <= i < to + k ==> data[i] == from[i - to]
      invariant forall i :: to + k <= i < data.Length ==> data[i] == old(data[i])
    {
      data[to + k] := from[k];
      k := k + 1;
    }
  }

  /** The memory `s` starts with the C string `text` and its terminator. */
  predicate Holds(s: seq<byte>, text: seq<byte>) {
    |text| < |s| && s[..|text|] == text && s[|text|] == NUL && NulFree(text)
  }

  /** `strlen(&data[i])` */
  method StrLen(data: array<byte>, i: nat, ghost text: seq<byte>) returns (n: nat)
    requires Holds(data[..], text) && i <= |text|
    ensures n == |text| - i
  {
    assert forall m :: 0 <= m < |text| ==> data[m] == text[m];
    n := 0;
    while data[i + n] != NUL
      invariant i + n <= |text|
      decreases |text| - n
    {
      n := n + 1;
    }
  }

  /** Replacing `k` bytes at `i` by `put`, with everything behind them, the terminator included, moved along. */
  lemma Replaced(s: seq<byte>, now: seq<byte>, text: seq<byte>, i: nat, k: nat, put: seq<byte>)
    requires Holds(s, text) && i + k <= |text| && |now| == |s| && |text| - k + |put| < |s| && NulFree(put)
    requires forall m :: 0 <= m < i ==> now[m] == s[m]
    requires forall m :: i <= m < i + |put| ==> now[m] == put[m - i]
    requires forall m :: i + |put| <= m <= |text| - k + |put| ==> now[m] == s[m + k - |put|]
    ensures Holds(now, text[..i] + put + text[i + k..])
  {
    var text' := text[..i] + put + text[i + k..];
    assert forall m :: 0 <= m < |text| ==> s[m] == s[..|text|][m] == text[m];
    assert forall m :: 0 <= m < |text'| ==> now[m] == text'[m];
    assert now[..|text'|] == text';
  }
}
