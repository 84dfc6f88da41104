/** The stream plumbing a signature is loaded from and saved to: `Stream.CopyTo`,
    which reads from a source until a read returns no bytes and writes every chunk
    it reads to a destination. */
module Streams {
  import opened Wrappers
  import opened Cms

  /** Buffer size `Stream.CopyTo` uses when none is given. */
  const CopyBufferSize: nat := 81920

  /** The outcome of one `Read` on a source stream: the bytes it delivered (none
      means end of stream) or an I/O exception. */
  datatype ReadOutcome = Chunk(data: Bytes) | IoFault

  /** Everything a reader observes when it reads `source` to its end: the bytes of
      every chunk up to the first empty one, or `None` when a read faults first. */
  function Drain(source: seq<ReadOutcome>): Option<Bytes>
    decreases |source|
  {
    if |source| == 0 then Some([])
    else match source[0]
      case IoFault => None
      case Chunk(d) =>
        if |d| == 0 then Some([])
        else Prepend(d, Drain(source[1..]))
  }

  /** Places `prefix` before the bytes an outcome carries; a fault stays a fault. */
  function Prepend(prefix: Bytes, rest: Option<Bytes>): Option<Bytes> {
    match rest
    case None => None
    case Some(b) => Some(prefix + b)
  }

  lemma PrependNothing(rest: Option<Bytes>)
    ensures Prepend([], rest) == rest
  {
    if rest.Some? {
      assert [] + rest.value == rest.value;
    }
  }

  lemma PrependTwice(a: Bytes, b: Bytes, rest: Option<Bytes>)
    ensures Prepend(a, Prepend(b, rest)) == Prepend(a + b, rest)
  {
    if rest.Some? {
      assert a + (b + rest.value) == (a + b) + rest.value;
    }
  }

  /** The bytes of a sequence of writes, in order. */
  function Concat(writes: seq<Bytes>): Bytes
    decreases |writes|
  {
    if |writes| == 0 then [] else Concat(writes[..|writes| - 1]) + writes[|writes| - 1]
  }

  /** `source.CopyTo(destination)` for a destination that accepts every write:
      reads until a read returns no bytes, so that the destination ends up holding
      exactly what `Drain` describes; an I/O fault abandons the copy. */
  method CopyTo(source: seq<ReadOutcome>) returns (copied: Option<Bytes>)
    ensures copied == Drain(source)
  {
    var acc: Bytes := [];
    var i := 0;
    PrependNothing(Drain(source));
    while i < |source|
      invariant 0 <= i <= |source|
      invariant Drain(source) == Prepend(acc, Drain(source[i..]))
    {
      assert source[i..][1..] == source[i + 1..];
      match source[i]
      case IoFault =>
        return None;
      case Chunk(d) =>
        if |d| == 0 {
          assert acc + [] == acc;
          return Some(acc);
        }
        PrependTwice(acc, d, Drain(source[i + 1..]));
        acc := acc + d;
      i := i + 1;
    }
    assert acc + [] == acc;
    return Some(acc);
  }

  /** `new MemoryStream(bytes).CopyTo(destination)`: the memory stream hands out at
      most one buffer's worth per read, and every read is written on at once. */
  method CopyFromMemory(bytes: Bytes) returns (writes: seq<Bytes>)
    ensures Concat(writes) == bytes
    ensures forall k :: 0 <= k < |writes| ==> 0 < |writes[k]| <= CopyBufferSize
    ensures forall k :: 0 <= k < |writes| - 1 ==> |writes[k]| == CopyBufferSize
  {
    writes := [];
    var pos := 0;
    while pos < |bytes|
      invariant 0 <= pos <= |bytes|
      invariant Concat(writes) == bytes[..pos]
      invariant forall k :: 0 <= k < |writes| ==> 0 < |writes[k]| <= CopyBufferSize
      invariant forall k :: 0 <= k < |writes| ==> |writes[k]| == CopyBufferSize
      decreases |bytes| - pos
    {
      var n := if |bytes| - pos < CopyBufferSize then |bytes| - pos else CopyBufferSize;
      var chunk := bytes[pos..pos + n];
      if n < CopyBufferSize {
        // The last read: the copy ends after it, so only this chunk may be short.
        assert (writes + [chunk])[..|writes|] == writes;
        writes := writes + [chunk];
        assert bytes[..pos + n] == bytes[..pos] + chunk;
        assert pos + n == |bytes|;
        assert bytes[..|bytes|] == bytes;
        return;
      }
      assert (writes + [chunk])[..|writes|] == writes;
      writes := writes + [chunk];
      assert bytes[..pos + n] == bytes[..pos] + chunk;
      pos := pos + n;
    }
    assert bytes[..pos] == bytes;
  }
}
