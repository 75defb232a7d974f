/** Local files as the POSIX calls of the sources see them. */
module LocalFiles {
  import opened Bytes
  import opened Ints
  import opened Wrappers

  ghost function Zeros(n: nat): seq<Byte> {
    seq(n, _ => 0)
  }

  /** Byte p of a file after bytes were written at an offset. */
  function WrittenByte(data: seq<Byte>, offset: nat, bytes: seq<Byte>, p: nat): Byte {
    if offset <= p < offset + |bytes| then bytes[p - offset]
    else if p < |data| then data[p]
    else 0
  }

  /** The file after pwrite of all the bytes at an offset; a gap before the offset reads as zeros. */
  function PWritten(data: seq<Byte>, offset: nat, bytes: seq<Byte>): (r: seq<Byte>) {
    if bytes == [] then data
    else seq(Max(|data|, offset + |bytes|), p requires 0 <= p => WrittenByte(data, offset, bytes, p))
  }

  /** The file after ftruncate. */
  function Truncated(data: seq<Byte>, size: nat): (r: seq<Byte>)
    ensures |r| == size
  {
    seq(size, p requires 0 <= p => if p < |data| then data[p] else 0)
  }

  /** The second file differs from the first only in [lo, hi); growth outside it is zeros. */
  ghost predicate ChangedOnlyIn(a: seq<Byte>, b: seq<Byte>, lo: nat, hi: nat) {
    && |a| <= |b| <= (if lo < hi then Max(|a|, hi) else |a|)
    && forall p :: 0 <= p < |b| && !(lo <= p < hi) ==> b[p] == if p < |a| then a[p] else 0
  }

  lemma UnchangedIn(a: seq<Byte>, lo: nat, hi: nat)
    ensures ChangedOnlyIn(a, a, lo, hi)
  {
  }

  lemma ChangedTwice(a: seq<Byte>, b: seq<Byte>, c: seq<Byte>, lo: nat, hi: nat)
    requires ChangedOnlyIn(a, b, lo, hi) && ChangedOnlyIn(b, c, lo, hi)
    ensures ChangedOnlyIn(a, c, lo, hi)
  {
  }

  lemma ChangedWider(a: seq<Byte>, b: seq<Byte>, lo: nat, hi: nat, lo': nat, hi': nat)
    requires ChangedOnlyIn(a, b, lo, hi) && lo' <= lo && hi <= hi'
    ensures ChangedOnlyIn(a, b, lo', hi')
  {
  }

  lemma PWriteChanges(data: seq<Byte>, offset: nat, bytes: seq<Byte>)
    ensures ChangedOnlyIn(data, PWritten(data, offset, bytes), offset, offset + |bytes|)
  {
  }

  lemma PWrittenShape(data: seq<Byte>, offset: nat, bytes: seq<Byte>)
    requires bytes != []
    ensures |PWritten(data, offset, bytes)| == Max(|data|, offset + |bytes|)
    ensures forall p :: 0 <= p < |PWritten(data, offset, bytes)| ==>
      PWritten(data, offset, bytes)[p] == WrittenByte(data, offset, bytes, p)
  {
  }

  lemma WrittenByteTwice(data: seq<Byte>, mid: seq<Byte>, offset: nat, x: seq<Byte>, y: seq<Byte>, p: nat)
    requires |mid| == Max(|data|, offset + |x|)
    requires p < |mid| ==> mid[p] == WrittenByte(data, offset, x, p)
    ensures WrittenByte(mid, offset + |x|, y, p) == WrittenByte(data, offset, x + y, p)
  {
  }

  /** Writing two consecutive pieces is writing their concatenation. */
  lemma PWriteTwice(data: seq<Byte>, offset: nat, x: seq<Byte>, y: seq<Byte>)
    ensures PWritten(PWritten(data, offset, x), offset + |x|, y) == PWritten(data, offset, x + y)
  {
    if x == [] {
      assert x + y == y;
    } else if y == [] {
      assert x + y == x;
    } else {
      hide PWritten, WrittenByte;
      var mid := PWritten(data, offset, x);
      PWrittenShape(data, offset, x);
      PWrittenShape(mid, offset + |x|, y);
      PWrittenShape(data, offset, x + y);
      forall p | 0 <= p < |PWritten(data, offset, x + y)|
        ensures WrittenByte(mid, offset + |x|, y, p) == WrittenByte(data, offset, x + y, p)
      {
        WrittenByteTwice(data, mid, offset, x, y, p);
      }
    }
  }

  /** What was written over is forgotten. */
  lemma PWriteOver(a: seq<Byte>, b: seq<Byte>, offset: nat, bytes: seq<Byte>)
    requires ChangedOnlyIn(a, b, offset, offset + |bytes|) && bytes != []
    ensures PWritten(b, offset, bytes) == PWritten(a, offset, bytes)
  {
  }

  /** A local file. The system calls on it may fail, or write less than asked; each such call counts as a fault. */
  class LocalFile {
    var data: seq<Byte>
    ghost var faults: nat

    constructor ()
      ensures data == [] && faults == 0
    {
      data := [];
      faults := 0;
    }

    /** One pwrite call; stalls says whether it may write nothing without failing. */
    method PWrite(offset: nat, bytes: seq<Byte>, stalls: bool) returns (written: int)
      modifies this
      ensures -1 <= written <= |bytes| && (written == 0 && bytes != [] ==> stalls)
      ensures data == PWritten(old(data), offset, bytes[..Max(0, written)])
      ensures faults == old(faults) + if written < |bytes| then 1 else 0
    {
      written := *;
      if written < -1 || |bytes| < written || (written == 0 && !stalls) {
        written := |bytes|;
      }
      data := PWritten(data, offset, bytes[..Max(0, written)]);
      if written < |bytes| {
        faults := faults + 1;
      }
    }

    method FTruncate(size: nat) returns (ok: bool)
      modifies this
      ensures data == if ok then Truncated(old(data), size) else old(data)
      ensures faults == old(faults) + if ok then 0 else 1
    {
      ok := *;
      if ok {
        data := Truncated(data, size);
      } else {
        faults := faults + 1;
      }
    }

    /** An ftruncate that does not fail, as when the file was opened successfully. */
    method Resize(size: nat)
      modifies `data
      ensures data == Truncated(old(data), size)
    {
      data := Truncated(data, size);
    }

    /** Less than asked for only at the end of the file. */
    method PRead(offset: nat, size: nat) returns (bytes: Option<seq<Byte>>)
      modifies `faults
      ensures bytes.Some? ==> bytes.value == data[Min(offset, |data|)..Min(offset + size, |data|)]
      ensures faults == old(faults) + if bytes.Some? then 0 else 1
    {
      var failed: bool := *;
      if failed {
        faults := faults + 1;
        return None;
      }
      return Some(data[Min(offset, |data|)..Min(offset + size, |data|)]);
    }
  }
}
