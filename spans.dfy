/**
 * A .NET Span is modelled as a window [start, Length) of an array. Copying a
 * value into a span overwrites a contiguous run of the array and nothing else.
 */
module Spans {

  /** s with the run starting at `start` replaced by `bytes`. */
  function Splice<T>(s: seq<T>, start: nat, bytes: seq<T>): (r: seq<T>)
    requires start + |bytes| <= |s|
    ensures |r| == |s|
    ensures r[..start] == s[..start]
    ensures r[start..start + |bytes|] == bytes
    ensures r[start + |bytes|..] == s[start + |bytes|..]
  {
    s[..start] + bytes + s[start + |bytes|..]
  }

  /** Splice agrees with s outside the run and with bytes inside it. */
  lemma SpliceAt<T>(s: seq<T>, start: nat, bytes: seq<T>, k: nat)
    requires start + |bytes| <= |s| && k < |s|
    ensures Splice(s, start, bytes)[k] == if start <= k < start + |bytes| then bytes[k - start] else s[k]
  {
  }

  /** Span.CopyTo: copies `bytes` into buffer[start..]. */
  method CopyTo<T>(buffer: array<T>, start: nat, bytes: seq<T>)
    requires start + |bytes| <= buffer.Length
    modifies buffer
    ensures buffer[..] == Splice(old(buffer[..]), start, bytes)
  {
    var i := 0;
    while i < |bytes|
      invariant 0 <= i <= |bytes|
      invariant forall k :: 0 <= k < buffer.Length ==>
        buffer[k] == if start <= k < start + i then bytes[k - start] else old(buffer[k])
    {
      buffer[start + i] := bytes[i];
      i := i + 1;
    }
    forall k | 0 <= k < buffer.Length
      ensures buffer[..][k] == Splice(old(buffer[..]), start, bytes)[k]
    {
      SpliceAt(old(buffer[..]), start, bytes, k);
    }
  }
}
