/**
 Sending one part of an upload (src/curl.cpp): the read callback that hands slices of the file to curl,
 and the attempt loop that starts over after a failure.
 */
module PartUploads {
  import opened Bytes
  import opened Downloads
  import opened Errno
  import opened Ints
  import opened Wrappers

  /** Some first bytes of a slice of the file. */
  ghost predicate SentFrom(data: seq<Byte>, start: nat, size: nat, body: seq<Byte>) {
    && |body| <= size
    && (body != [] ==> start + |body| <= |data| && body == data[start..start + |body|])
  }

  lemma SentMore(data: seq<Byte>, start: nat, size: nat, body: seq<Byte>, block: seq<Byte>)
    requires SentFrom(data, start, size, body) && |body| + |block| <= size
    requires block != [] ==>
      start + |body| + |block| <= |data| && block == data[start + |body|..start + |body| + |block|]
    ensures SentFrom(data, start, size, body + block)
  {
    if block != [] && body != [] {
      assert data[start..start + |body| + |block|] == body + block;
    } else if block == [] {
      assert body + block == body;
    } else {
      assert body + block == block;
    }
  }

  /** A body as long as the slice is the slice. */
  lemma WholeBody(data: seq<Byte>, start: nat, size: nat, body: seq<Byte>)
    requires SentFrom(data, start, size, body) && start + size <= |data|
    ensures |body| == size <==> body == data[start..start + size]
  {
  }

  lemma Appended(data: seq<Byte>, start: nat, from: nat, want: nat, block: seq<Byte>, more: seq<Byte>)
    requires from == start + |block| && more != [] && more <= data[Min(from, |data|)..Min(from + want, |data|)]
    requires block != [] ==> from <= |data| && block == data[start..from]
    ensures from + |more| <= |data| && block + more == data[start..from + |more|]
  {
    assert more == data[from..from + |more|];
    assert block == [] || data[start..from + |more|] == data[start..from] + data[from..from + |more|];
  }

  /** The part of S3fsCurl that an upload of one part uses. */
  class PartRequest {
    const data: seq<Byte>
    const bStart: nat
    const bSize: nat
    var startpos: nat
    var size: nat
    var retryCount: nat
    /** The pread calls that failed or read less than there was. */
    ghost var faults: nat

    constructor (data: seq<Byte>, start: nat, size: nat, retryCount: nat)
      ensures this.data == data && bStart == start && bSize == size
      ensures startpos == start && this.size == size && this.retryCount == retryCount && faults == 0
    {
      this.data := data;
      bStart := start;
      bSize := size;
      startpos := start;
      this.size := size;
      this.retryCount := retryCount;
      faults := 0;
    }

    /** pread: nothing at the end of the file; it may fail, or read only part of what there is. */
    method PRead(offset: nat, want: nat) returns (bytes: Option<seq<Byte>>)
      requires 0 < want
      modifies `faults
      ensures
        var there := data[Min(offset, |data|)..Min(offset + want, |data|)];
        && (bytes.Some? ==> bytes.value <= there && (there != [] ==> bytes.value != []))
        && faults == old(faults) + if bytes == Some(there) then 0 else 1
    {
      var there := data[Min(offset, |data|)..Min(offset + want, |data|)];
      var n: int := *;
      bytes := Some(there);
      if n == -1 {
        bytes := None;
      } else if 0 < n < |there| {
        bytes := Some(there[..n]);
      }
      if bytes != Some(there) {
        faults := faults + 1;
      }
    }

    /** Hands over at most the wanted number of bytes, from where the last block ended, never beyond the slice. */
    method UploadReadCallback(want: nat) returns (block: seq<Byte>)
      modifies `startpos, `size, `faults
      ensures old(faults) <= faults
      ensures faults == old(faults) ==>
        |block| == Min(Min(want, old(size)), Max(0, |data| - old(startpos)))
      ensures |block| <= want && |block| <= old(size)
      ensures startpos == old(startpos) + |block| && size == old(size) - |block|
      ensures block != [] ==> startpos <= |data| && block == data[old(startpos)..startpos]
    {
      block := [];
      if 1 > want || 0 >= size {
        return;
      }
      var copysize := Min(want, size);
      var totalread := 0;
      while totalread < copysize
        invariant totalread <= copysize && |block| == totalread
        invariant startpos == old(startpos) && size == old(size) && old(faults) <= faults
        invariant 0 < totalread ==> startpos + totalread <= |data| && block == data[startpos..startpos + totalread]
      {
        var from := startpos + totalread;
        var read := PRead(from, copysize - totalread);
        if read.None? {
          return [];
        }
        if read.value == [] {
          break;
        }
        Appended(data, startpos, from, copysize - totalread, block, read.value);
        block := block + read.value;
        totalread := totalread + |read.value|;
      }
      startpos := startpos + totalread;
      size := size - totalread;
    }

    /** curl_easy_perform: asks for blocks of any sizes, as often as it likes, and ends with any result. */
    method Perform() returns (a: Attempt, ghost body: seq<Byte>)
      requires startpos == bStart && size == bSize
      modifies `startpos, `size, `faults
      ensures SentFrom(data, bStart, bSize, body)
    {
      hide SentFrom;
      body := [];
      NothingSent(data, bStart, bSize);
      var asks: int := *;
      while 0 < asks
        invariant startpos == bStart + |body| && size == bSize - |body|
        invariant SentFrom(data, bStart, bSize, body)
      {
        var want: int := *;
        var block := UploadReadCallback(Max(0, want));
        SentMore(data, bStart, bSize, body, block);
        body := body + block;
        asks := asks - 1;
      }
      a := *;
    }

    method RemakeHandle()
      modifies `startpos, `size, `retryCount
      ensures startpos == bStart && size == bSize && retryCount == old(retryCount) + 1
    {
      retryCount := retryCount + 1;
      startpos := bStart;
      size := bSize;
    }

    /**
     At most the given number of attempts, each from the start of the slice. On success the last one ended with
     an HTTP code below 400, and what it sent are the first bytes of the slice, whatever failed attempts had read.
     */
    method RequestPerform(retries: int)
      returns (result: int, code: int, ghost body: seq<Byte>, ghost attempts: seq<Attempt>)
      requires startpos == bStart && size == bSize
      modifies this
      ensures old(retryCount) <= retryCount <= old(retryCount) + Max(0, retries)
      ensures Attempted(attempts, CodesOf(attempts), retries, result)
      ensures attempts != [] ==> code == attempts[|attempts| - 1].http
      ensures result == 0 ==> code < 400 && SentFrom(data, bStart, bSize, body)
      ensures result == 0 ==> retryCount < old(retryCount) + retries
    {
      hide SentFrom, Attempted, AllTransient, Judge, Transient, CodesOf;
      var retrycnt := retries;
      code, body, attempts := -1, [], [];
      AttemptedNone(retries);
      CodesOfNone();
      while 0 < retrycnt
        invariant startpos == bStart && size == bSize
        invariant |attempts| == retries - retrycnt && retryCount == old(retryCount) + |attempts|
        invariant retrycnt <= retries && (0 <= retrycnt || retrycnt == retries)
        invariant AllTransient(attempts, CodesOf(attempts))
        invariant attempts != [] ==> code == attempts[|attempts| - 1].http
      {
        ghost var some := attempts;
        var a;
        a, body := Perform();
        code := a.http;
        attempts := attempts + [a];
        CodesOfSnoc(some, a);
        JudgeIs(a.code, a);
        match Judge(a.code, a) {
          case Return(rc) =>
            AttemptedLast(some, CodesOf(some), a, a.code, retries, rc);
            return rc, code, body, attempts;
          case Retry =>
        }
        RemakeHandle();
        if !a.remade {
          AttemptedLast(some, CodesOf(some), a, a.code, retries, -EIO);
          return -EIO, code, body, attempts;
        }
        AllTransientSnoc(some, CodesOf(some), a, a.code);
        retrycnt := retrycnt - 1;
      }
      if 0 < retries {
        AttemptedUp(attempts, CodesOf(attempts), retries);
      }
      return -EIO, code, body, attempts;
    }
  }

  /** The codes the attempts ended with. */
  ghost function CodesOf(attempts: seq<Attempt>): (r: seq<CurlCode>) {
    seq(|attempts|, i requires 0 <= i < |attempts| => attempts[i].code)
  }

  lemma CodesOfNone()
    ensures CodesOf([]) == []
  {
  }

  lemma CodesOfSnoc(attempts: seq<Attempt>, a: Attempt)
    ensures CodesOf(attempts + [a]) == CodesOf(attempts) + [a.code]
  {
  }

  lemma NothingSent(data: seq<Byte>, start: nat, size: nat)
    ensures SentFrom(data, start, size, [])
  {
  }
}
