/** Cutting a value into segments of seven bytes. */
module Segments {
  import opened Wire

  /** Toggle bit of the k-th segment. */
  predicate Parity(k: nat) { k % 2 == 1 }

  /** Bytes of `v` carried by its first `k` segments. */
  function Upto(v: seq<Byte>, k: nat): seq<Byte> { v[..Least(7 * k, |v|)] }

  /** The k-th segment of `v`. */
  function Chunk(v: seq<Byte>, k: nat): (c: seq<Byte>)
    ensures |c| <= 7
  {
    v[Least(7 * k, |v|)..Least(7 * k + 7, |v|)]
  }

  /** Chunk `k` of the first `len` bytes of a buffer. */
  lemma SliceIsChunk(buf: seq<Byte>, len: nat, k: nat)
    requires 7 * k <= len <= |buf|
    ensures buf[7 * k..7 * k + Least(len - 7 * k, 7)] == Chunk(buf[..len], k)
  {
  }

  predicate LastChunk(v: seq<Byte>, k: nat) { |v| <= 7 * k + 7 }

  lemma ChunksConcatenate(v: seq<Byte>, k: nat)
    ensures Upto(v, 0) == []
    ensures Upto(v, k) + Chunk(v, k) == Upto(v, k + 1)
    ensures LastChunk(v, k) ==> Upto(v, k + 1) == v
    ensures !LastChunk(v, k) ==> |Chunk(v, k)| == 7 && |Upto(v, k + 1)| == 7 * k + 7
  {
  }

  // ----- segments back together -----

  /** The bytes a segment body carries. */
  function Carried(d: Payload): seq<Byte> { d[1..1 + SegmentLength(d[0])] }

  function Concat(segments: seq<Payload>): seq<Byte> {
    if segments == [] then [] else Concat(Front(segments)) + Carried(Final(segments))
  }

  lemma ConcatNothing()
    ensures Concat([]) == []
  {
  }

  lemma ConcatStep(segments: seq<Payload>, d: Payload)
    ensures Concat(segments + [d]) == Concat(segments) + Carried(d)
    ensures |Concat(segments + [d])| == |Concat(segments)| + SegmentLength(d[0])
  {
    assert Front(segments + [d]) == segments;
  }

  function Front<T>(q: seq<T>): seq<T>
    requires q != []
  {
    q[..|q| - 1]
  }

  function Final<T>(q: seq<T>): T
    requires q != []
  {
    q[|q| - 1]
  }
}
