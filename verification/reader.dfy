/** The cursor the program wraps around the metadata bytes
    (`SharedByteSliceReader`). Its `read` delegates to `Read for &[u8]`:
    copy as many bytes as fit into the destination from the front of the
    remaining slice, then drop them from the slice. The shared `RefCell` is
    modelled as one owned reader value threaded through the calls. */
module ByteReader {
  import opened Bytes

  /** The full metadata buffer and how much of it has been consumed. */
  datatype Reader = Reader(inner: seq<u8>, pos: nat)

  predicate Valid(r: Reader) {
    r.pos <= |r.inner|
  }

  /** The slice still to be read (`copy_inner`): exactly the bytes after the
      consumed prefix. */
  function Remaining(r: Reader): (rest: seq<u8>)
    requires Valid(r)
    ensures |rest| == |r.inner| - r.pos
    ensures r.inner[..r.pos] + rest == r.inner
  {
    r.inner[r.pos..]
  }

  /** A reader over a whole slice (`SharedByteSliceReader::new`): nothing
      consumed yet. */
  function New(inner: seq<u8>): (r: Reader)
    ensures Valid(r) && Remaining(r) == inner
  {
    Reader(inner, 0)
  }

  function Min(a: nat, b: nat): nat {
    if a <= b then a else b
  }

  /** Consuming up to `n` bytes from the front: the bytes handed out and the
      reader left behind. */
  function Consume(r: Reader, n: nat): (res: (Reader, seq<u8>))
    requires Valid(r)
    ensures Valid(res.0) && res.0.inner == r.inner
    ensures |res.1| == Min(n, |Remaining(r)|)
    ensures res.1 + Remaining(res.0) == Remaining(r)
  {
    var k := Min(n, |Remaining(r)|);
    (Reader(r.inner, r.pos + k), r.inner[r.pos..r.pos + k])
  }

  /** `read(&mut self, buf)`: fills the front of `dest` from the remaining
      slice, leaves the rest of `dest` as it was, and reports the count. */
  method Read(r: Reader, dest: seq<u8>) returns (next: Reader, filled: seq<u8>, k: nat)
    requires Valid(r)
    ensures k == Min(|dest|, |Remaining(r)|)
    ensures |filled| == |dest|
    ensures filled[..k] == Remaining(r)[..k]
    ensures filled[k..] == dest[k..]
    ensures Valid(next) && next.inner == r.inner
    ensures Remaining(next) == Remaining(r)[k..]
    ensures (next, filled[..k]) == Consume(r, |dest|)
  {
    var rest := Remaining(r);
    k := Min(|dest|, |rest|);
    filled := dest;
    var i := 0;
    while i < k
      invariant 0 <= i <= k
      invariant |filled| == |dest|
      invariant filled[..i] == rest[..i]
      invariant filled[i..] == dest[i..]
    {
      filled := filled[i := rest[i]];
      i := i + 1;
    }
    next := Reader(r.inner, r.pos + k);
  }

  /** Consuming a sequence of requests, one after another. */
  function ConsumeAll(r: Reader, sizes: seq<nat>): (res: (Reader, seq<u8>))
    requires Valid(r)
    ensures Valid(res.0) && res.0.inner == r.inner
    ensures res.0.pos == r.pos + |res.1| && res.1 == r.inner[r.pos..res.0.pos]
    decreases sizes
  {
    if |sizes| == 0 then (r, [])
    else
      var (r1, out1) := Consume(r, sizes[0]);
      var (r2, out2) := ConsumeAll(r1, sizes[1..]);
      (r2, out1 + out2)
  }

  /** However the reads are split, the bytes handed out are a prefix of what
      was remaining, the reader is left with the rest, and the remaining
      length drops by exactly the number of bytes handed out. */
  lemma ConsumeAllSplitsRemaining(r: Reader, sizes: seq<nat>)
    requires Valid(r)
    ensures var res := ConsumeAll(r, sizes);
            && res.0.inner == r.inner
            && res.1 + Remaining(res.0) == Remaining(r)
            && |Remaining(r)| - |Remaining(res.0)| == |res.1|
  {
    var res := ConsumeAll(r, sizes);
    assert r.inner[r.pos..] == r.inner[r.pos..res.0.pos] + r.inner[res.0.pos..];
  }

  /** Two reads in a row hand out the same bytes as one read of the combined
      size. */
  lemma ConsumeTwice(r: Reader, n: nat, m: nat)
    requires Valid(r)
    ensures var first := Consume(r, n);
            var second := Consume(first.0, m);
            (second.0, first.1 + second.1) == Consume(r, n + m)
  {
    var first := Consume(r, n);
    var second := Consume(first.0, m);
    var k1 := |first.1|;
    var k2 := |second.1|;
    assert k1 + k2 == Min(n + m, |Remaining(r)|);
    assert first.1 + second.1 == r.inner[r.pos..r.pos + k1 + k2] by {
      assert first.1 == r.inner[r.pos..r.pos + k1];
      assert second.1 == r.inner[r.pos + k1..r.pos + k1 + k2];
    }
  }
}
