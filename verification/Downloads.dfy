/**
 Ranged downloads of src/curl.cpp: the write callback that puts received blocks
 into a local file, and the attempt loop that starts over after a failure.
 */
module Downloads {
  import opened Bytes
  import opened Errno
  import opened Ints
  import opened LocalFiles

  /** The curl results RequestPerform tells apart. */
  datatype CurlCode =
    | OK
    | WriteError | OperationTimedOut | CouldntResolveHost | CouldntConnect | GotNothing
    | AbortedByCallback | PartialFile | SendError | RecvError | SslConnectError
    | SslCaCert
    | PeerFailedVerification
    | HttpReturnedError
    | OtherCode

  /**
   What the outside world does in one attempt: the blocks it delivers, the curl
   result once all of them are taken, the HTTP code (or no code), whether a CA
   bundle is already known or can be located, and whether the handle can be reset.
   */
  datatype Attempt = Attempt(blocks: seq<seq<Byte>>, code: CurlCode, hasHttp: bool, http: int,
                             bundleKnown: bool, bundleLocated: bool, remade: bool)

  datatype Verdict = Return(result: int) | Retry

  /** The switch of RequestPerform on the result of one attempt. */
  function Judge(code: CurlCode, a: Attempt): Verdict {
    match code
    case OK =>
      if !a.hasHttp then Return(-EIO)
      else if a.http < 400 then Return(0)
      else if 500 <= a.http then Retry
      else if a.http == 400 then Return(-EIO)
      else if a.http == 403 then Return(-EPERM)
      else if a.http == 404 then Return(-ENOENT)
      else if a.http == 409 then Retry
      else Return(-EIO)
    case SslCaCert =>
      if !a.bundleKnown && a.bundleLocated then Retry else Return(-EIO)
    case PeerFailedVerification => Return(-EIO)
    case HttpReturnedError =>
      if !a.hasHttp then Return(-EIO)
      else if a.http == 404 then Return(-ENOENT)
      else if a.http < 500 then Return(-EIO)
      else Retry
    case OtherCode => Return(-EIO)
    case _ => Retry
  }

  lemma {:induction false} ConcatGrows(blocks: seq<seq<Byte>>, i: nat)
    requires i < |blocks|
    ensures |Concat(blocks[..i])| + |blocks[i]| <= |Concat(blocks)|
    decreases |blocks|
  {
    var n := |blocks| - 1;
    if i < n {
      assert blocks[..n][..i] == blocks[..i];
      ConcatGrows(blocks[..n], i);
    }
  }

  // ---------- what the codes mean ----------

  /** The server accepted the request. */
  predicate Accepted(code: CurlCode, a: Attempt) {
    code == OK && a.hasHttp && a.http < 400
  }

  /** An answer after which the same request may go better. */
  predicate Transient(code: CurlCode, a: Attempt) {
    || (code in {OK, HttpReturnedError} && a.hasHttp && 500 <= a.http)
    || (code == OK && a.hasHttp && a.http == 409)
    || code in {WriteError, OperationTimedOut, CouldntResolveHost, CouldntConnect, GotNothing, AbortedByCallback,
                PartialFile, SendError, RecvError, SslConnectError}
    || (code == SslCaCert && !a.bundleKnown && a.bundleLocated)
  }

  /** What the caller is told about any other answer. */
  function Refusal(code: CurlCode, a: Attempt): int {
    if code in {OK, HttpReturnedError} && a.hasHttp && a.http == 404 then -ENOENT
    else if code == OK && a.hasHttp && a.http == 403 then -EPERM
    else -EIO
  }

  /**
   A request as a sequence of attempts, each with its answer and the code curl ended with: only transient answers
   are followed by another attempt; a request ends with the answer of its last attempt, or, after a transient one,
   with an error because the attempts are used up or the handle could not be remade.
   */
  ghost predicate Attempted(attempts: seq<Attempt>, codes: seq<CurlCode>, retries: int, result: int) {
    var n := |attempts|;
    && |codes| == n <= Max(0, retries)
    && (n == 0 ==> retries <= 0 && result == -EIO)
    && (forall i :: 0 <= i < n - 1 ==> Transient(codes[i], attempts[i]) && attempts[i].remade)
    && (0 < n && Accepted(codes[n - 1], attempts[n - 1]) ==> result == 0)
    && (0 < n && Transient(codes[n - 1], attempts[n - 1]) ==>
          result == -EIO && (n == retries || !attempts[n - 1].remade))
    && (0 < n && !Accepted(codes[n - 1], attempts[n - 1]) && !Transient(codes[n - 1], attempts[n - 1]) ==>
          result == Refusal(codes[n - 1], attempts[n - 1]))
  }

  lemma AcceptedIsFinal(code: CurlCode, a: Attempt)
    ensures Accepted(code, a) ==> !Transient(code, a)
    ensures Refusal(code, a) < 0
  {
  }

  /** The switch tells the answers apart as the codes say. */
  lemma JudgeIs(code: CurlCode, a: Attempt)
    ensures Judge(code, a) == Return(0) <==> Accepted(code, a)
    ensures Judge(code, a) == Retry <==> Transient(code, a)
    ensures !Accepted(code, a) && !Transient(code, a) ==> Judge(code, a) == Return(Refusal(code, a))
  {
  }

  /** A request succeeds exactly if its last answer is accepted. */
  lemma AttemptedSuccess(attempts: seq<Attempt>, codes: seq<CurlCode>, retries: int, result: int)
    requires Attempted(attempts, codes, retries, result)
    ensures attempts == [] ==> retries <= 0
    ensures result == 0 <==> attempts != [] && Accepted(codes[|attempts| - 1], attempts[|attempts| - 1])
  {
    if attempts != [] {
      AcceptedIsFinal(codes[|attempts| - 1], attempts[|attempts| - 1]);
    }
  }

  /** One more attempt after answers that were all transient. */
  ghost predicate AllTransient(attempts: seq<Attempt>, codes: seq<CurlCode>) {
    |codes| == |attempts| && forall i :: 0 <= i < |attempts| ==> Transient(codes[i], attempts[i]) && attempts[i].remade
  }

  lemma AttemptedLast(attempts: seq<Attempt>, codes: seq<CurlCode>, a: Attempt, code: CurlCode, retries: int,
                      result: int)
    requires AllTransient(attempts, codes) && |attempts| < retries
    requires if Transient(code, a) then result == -EIO && (!a.remade || |attempts| + 1 == retries)
             else Judge(code, a) == Return(result)
    ensures Attempted(attempts + [a], codes + [code], retries, result)
  {
    JudgeIs(code, a);
    AcceptedIsFinal(code, a);
    hide Judge, Transient, Accepted, Refusal;
    forall i | 0 <= i < |attempts|
      ensures Transient((codes + [code])[i], (attempts + [a])[i]) && (attempts + [a])[i].remade
    {
    }
  }

  lemma AttemptedNone(retries: int)
    ensures AllTransient([], []) && (retries <= 0 ==> Attempted([], [], retries, -EIO))
  {
  }

  /** All attempts were used up. */
  lemma AttemptedUp(attempts: seq<Attempt>, codes: seq<CurlCode>, retries: int)
    requires AllTransient(attempts, codes) && |attempts| == retries
    ensures Attempted(attempts, codes, retries, -EIO)
  {
    hide Transient;
    if 0 < |attempts| {
      AcceptedIsFinal(codes[|attempts| - 1], attempts[|attempts| - 1]);
    }
  }

  lemma AllTransientSnoc(attempts: seq<Attempt>, codes: seq<CurlCode>, a: Attempt, code: CurlCode)
    requires AllTransient(attempts, codes) && Transient(code, a) && a.remade
    ensures AllTransient(attempts + [a], codes + [code])
  {
  }

  function Concat(blocks: seq<seq<Byte>>): seq<Byte> {
    if blocks == [] then [] else Concat(blocks[..|blocks| - 1]) + blocks[|blocks| - 1]
  }

  lemma ConcatSnoc(blocks: seq<seq<Byte>>, i: nat)
    ensures Concat(blocks[..0]) == []
    ensures i < |blocks| ==> Concat(blocks[..i + 1]) == Concat(blocks[..i]) + blocks[i]
  {
    assert i < |blocks| ==> blocks[..i + 1][..i] == blocks[..i];
  }

  /** The servers and the network, answering the attempt made at each time on each range. */
  class Network {
    const respond: (nat, nat, nat) -> Attempt
    var clock: nat
    /** The requests in which some answer was refused or too long. */
    ghost var refusals: nat
    /** The sizes of the ranges that were requested. */
    ghost var sizes: seq<nat>

    constructor (respond: (nat, nat, nat) -> Attempt)
      ensures this.respond == respond && clock == 0 && refusals == 0 && sizes == []
    {
      this.respond := respond;
      clock, refusals, sizes := 0, 0, [];
    }

    /** Posts a chunk of an upload without cache, which may be refused. */
    method Post(body: seq<Byte>) returns (ok: bool)
      modifies `refusals
      ensures refusals == old(refusals) + if ok then 0 else 1
    {
      ok := *;
      if !ok {
        refusals := refusals + 1;
      }
    }
  }

  /**
   A server that never reports success without delivering exactly the requested bytes, as far as the remote
   object reaches.
   */
  ghost predicate Honest(respond: (nat, nat, nat) -> Attempt, remote: seq<Byte>) {
    forall start: nat, size: nat, time: nat ::
      var a := respond(start, size, time);
      start <= |remote| && Accepted(a.code, a) ==>
        Concat(a.blocks) == remote[start..Min(start + size, |remote|)]
  }

  /** An answer that is refused, or longer than the range. */
  ghost predicate Refused(a: Attempt, size: nat) {
    !Accepted(a.code, a) || size < |Concat(a.blocks)|
  }

  /** The attempts are the answers of the network from a time on; an attempt may also end with a write error. */
  ghost predicate AnsweredBy(attempts: seq<Attempt>, codes: seq<CurlCode>, respond: (nat, nat, nat) -> Attempt,
                             start: nat, size: nat, time: nat)
  {
    |codes| == |attempts| && forall i: nat :: i < |attempts| ==>
      attempts[i] == respond(start, size, time + i) && (codes[i] == attempts[i].code || codes[i] == WriteError)
  }

  lemma AnsweredSnoc(attempts: seq<Attempt>, codes: seq<CurlCode>, respond: (nat, nat, nat) -> Attempt, start: nat,
                     size: nat, time: nat, a: Attempt, code: CurlCode)
    requires AnsweredBy(attempts, codes, respond, start, size, time)
    requires a == respond(start, size, time + |attempts|) && (code == a.code || code == WriteError)
    ensures AnsweredBy(attempts + [a], codes + [code], respond, start, size, time)
  {
  }

  ghost predicate SomeRefused(attempts: seq<Attempt>, size: nat) {
    exists i :: 0 <= i < |attempts| && Refused(attempts[i], size)
  }

  /** The part of S3fsCurl that a ranged download uses. */
  class RangeRequest {
    const file: LocalFile
    const bStart: nat
    const bSize: nat
    var startpos: nat
    var size: nat
    var retryCount: nat

    constructor (file: LocalFile, start: nat, size: nat)
      ensures this.file == file && bStart == start && bSize == size
      ensures startpos == start && this.size == size && retryCount == 0
    {
      this.file := file;
      bStart := start;
      bSize := size;
      startpos := start;
      this.size := size;
      retryCount := 0;
    }

    /** Takes at most the rest of the range; anything short of the whole block makes curl fail. */
    method DownloadWriteCallback(ptr: seq<Byte>) returns (taken: nat)
      modifies `startpos, `size, file
      ensures startpos + size == old(startpos + size) && old(startpos) <= startpos
      ensures ChangedOnlyIn(old(file.data), file.data, old(startpos), old(startpos + size))
      ensures taken <= |ptr|
      ensures old(file.faults) <= file.faults
      ensures taken < |ptr| ==> old(size) < |ptr| || old(file.faults) < file.faults
      ensures taken == |ptr| ==> startpos == old(startpos) + |ptr|
      ensures taken == |ptr| ==> file.data == PWritten(old(file.data), old(startpos), ptr)
    {
      hide PWritten, ChangedOnlyIn;
      UnchangedIn(file.data, startpos, startpos + size);
      PWriteNothing(file.data, startpos);
      if 1 > |ptr| || 0 >= size {
        assert |ptr| == 0 ==> ptr == [];
        return 0;
      }
      var copysize := Min(|ptr|, size);
      var totalwrite := 0;
      assert ptr[..0] == [];
      while totalwrite < copysize
        invariant totalwrite <= copysize && startpos == old(startpos) && size == old(size)
        invariant file.data == PWritten(old(file.data), startpos, ptr[..totalwrite])
        invariant old(file.faults) <= file.faults
        invariant ChangedOnlyIn(old(file.data), file.data, startpos, startpos + size)
      {
        ghost var before := file.data;
        var written := file.PWrite(startpos + totalwrite, ptr[totalwrite..copysize], true);
        PieceOf(ptr, totalwrite, copysize, written);
        PieceWritten(old(file.data), startpos, ptr, totalwrite, Max(0, written), startpos + size);
        if written == 0 {
          break;
        }
        if written == -1 {
          return 0;
        }
        totalwrite := totalwrite + written;
      }
      startpos := startpos + totalwrite;
      size := size - totalwrite;
      assert totalwrite == |ptr| ==> ptr[..totalwrite] == ptr;
      return totalwrite;
    }

    /** curl_easy_perform: hands each block to the callback, and fails when one is not taken whole. */
    method Perform(a: Attempt) returns (code: CurlCode)
      requires startpos == bStart && size == bSize
      modifies `startpos, `size, file
      ensures ChangedOnlyIn(old(file.data), file.data, bStart, bStart + bSize)
      ensures code == a.code || code == WriteError
      ensures old(file.faults) <= file.faults
      ensures code != a.code ==> bSize < |Concat(a.blocks)| || old(file.faults) < file.faults
      ensures code == OK ==> |Concat(a.blocks)| <= bSize
      ensures code == OK ==> file.data == PWritten(old(file.data), bStart, Concat(a.blocks))
    {
      hide PWritten, ChangedOnlyIn, Concat;
      var i := 0;
      ConcatSnoc(a.blocks, 0);
      UnchangedIn(file.data, bStart, bStart + bSize);
      PWriteNothing(file.data, bStart);
      while i < |a.blocks|
        invariant i <= |a.blocks|
        invariant startpos == bStart + |Concat(a.blocks[..i])| && startpos + size == bStart + bSize
        invariant ChangedOnlyIn(old(file.data), file.data, bStart, bStart + bSize)
        invariant file.data == PWritten(old(file.data), bStart, Concat(a.blocks[..i]))
        invariant old(file.faults) <= file.faults
      {
        ghost var before := file.data;
        ghost var sofar := Concat(a.blocks[..i]);
        var taken := DownloadWriteCallback(a.blocks[i]);
        ChangedOnTail(old(file.data), before, file.data, bStart, bStart + |sofar|, bStart + bSize);
        if taken != |a.blocks[i]| {
          ConcatGrows(a.blocks, i);
          return WriteError;
        }
        ConcatSnoc(a.blocks, i);
        PWriteTwice(old(file.data), bStart, sofar, a.blocks[i]);
        i := i + 1;
      }
      assert a.blocks[..i] == a.blocks;
      return a.code;
    }

    method RemakeHandle()
      modifies `startpos, `size, `retryCount
      ensures startpos == bStart && size == bSize && retryCount == old(retryCount) + 1
    {
      retryCount := retryCount + 1;
      startpos := bStart;
      size := bSize;
    }

    /**
     At most the given number of attempts, each from the start of the range. On
     success the last attempt's data stands at the start of the range, whatever
     failed attempts left there before; no byte outside the range ever changes.
     */
    method RequestPerform(net: Network, retries: int)
      returns (result: int, ghost attempts: seq<Attempt>, ghost codes: seq<CurlCode>)
      requires startpos == bStart && size == bSize
      modifies this, file, net
      ensures old(net.clock) <= net.clock <= old(net.clock) + Max(0, retries)
      ensures old(retryCount) <= retryCount <= old(retryCount) + (net.clock - old(net.clock))
      ensures ChangedOnlyIn(old(file.data), file.data, bStart, bStart + bSize)
      ensures Attempted(attempts, codes, retries, result) && |attempts| == net.clock - old(net.clock)
      ensures AnsweredBy(attempts, codes, net.respond, bStart, bSize, old(net.clock))
      ensures old(file.faults) <= file.faults && net.sizes == old(net.sizes) + [bSize]
      ensures net.refusals == old(net.refusals) + if SomeRefused(attempts, bSize) then 1 else 0
      ensures result != 0 ==> retries <= 0 || old(file.faults) < file.faults || SomeRefused(attempts, bSize)
      ensures result == 0 ==>
        && old(net.clock) < net.clock
        && var last := net.respond(bStart, bSize, net.clock - 1);
        && Accepted(last.code, last)
        && retryCount == old(retryCount) + (net.clock - old(net.clock)) - 1
        && |Concat(last.blocks)| <= bSize
        && (Concat(last.blocks) != [] ==>
              && bStart + |Concat(last.blocks)| <= |file.data|
              && file.data[bStart..bStart + |Concat(last.blocks)|] == Concat(last.blocks))
        && (|Concat(last.blocks)| == bSize ==>
              file.data == PWritten(old(file.data), bStart, Concat(last.blocks)))
    {
      hide PWritten, ChangedOnlyIn, Concat, Attempted, AllTransient, Judge, Transient, Accepted, Refused, Refusal,
        AnsweredBy, SomeRefused;
      UnchangedIn(file.data, bStart, bStart + bSize);
      attempts, codes := [], [];
      net.sizes := net.sizes + [bSize];
      AttemptedNone(retries);
      NoneAnswered(net.respond, bStart, bSize, net.clock);
      var retrycnt := retries;
      while 0 < retrycnt
        invariant startpos == bStart && size == bSize
        invariant |attempts| == |codes| == retries - retrycnt && net.clock == old(net.clock) + |attempts|
        invariant retryCount == old(retryCount) + |attempts|
        invariant ChangedOnlyIn(old(file.data), file.data, bStart, bStart + bSize)
        invariant retrycnt <= retries && (0 <= retrycnt || retrycnt == retries)
        invariant AllTransient(attempts, codes) && net.refusals == old(net.refusals)
        invariant net.sizes == old(net.sizes) + [bSize]
        invariant old(file.faults) <= file.faults
        invariant attempts != [] ==> old(file.faults) < file.faults || SomeRefused(attempts, bSize)
        invariant AnsweredBy(attempts, codes, net.respond, bStart, bSize, old(net.clock))
      {
        ghost var before, some, ended := file.data, attempts, codes;
        var a := net.respond(bStart, bSize, net.clock);
        net.clock := net.clock + 1;
        var code := Perform(a);
        ChangedTwice(old(file.data), before, file.data, bStart, bStart + bSize);
        AnsweredSnoc(attempts, codes, net.respond, bStart, bSize, old(net.clock), a, code);
        attempts, codes := attempts + [a], codes + [code];
        JudgeIs(code, a);
        NotAccepted(code, a, bSize);
        RefusedSnoc(some, a, bSize);
        match Judge(code, a) {
          case Return(rc) =>
            AttemptedLast(some, ended, a, code, retries, rc);
            if rc == 0 {
              AcceptedCode(code, a);
              AttemptData(old(file.data), before, bStart, bSize, Concat(a.blocks));
            }
            net.refusals := net.refusals + if SomeRefused(attempts, bSize) then 1 else 0;
            return rc, attempts, codes;
          case Retry =>
        }
        RemakeHandle();
        if !a.remade {
          AttemptedLast(some, ended, a, code, retries, -EIO);
          net.refusals := net.refusals + if SomeRefused(attempts, bSize) then 1 else 0;
          return -EIO, attempts, codes;
        }
        AllTransientSnoc(some, ended, a, code);
        retrycnt := retrycnt - 1;
      }
      if 0 < retries {
        AttemptedUp(attempts, codes, retries);
      }
      net.refusals := net.refusals + if SomeRefused(attempts, bSize) then 1 else 0;
      return -EIO, attempts, codes;
    }
  }

  lemma RefusedSnoc(attempts: seq<Attempt>, a: Attempt, size: nat)
    ensures SomeRefused(attempts + [a], size) <==> SomeRefused(attempts, size) || Refused(a, size)
  {
    hide Refused;
    var more := attempts + [a];
    assert more[|attempts|] == a;
    assert forall i :: 0 <= i < |attempts| ==> more[i] == attempts[i];
  }

  lemma NoneAnswered(respond: (nat, nat, nat) -> Attempt, start: nat, size: nat, time: nat)
    ensures AnsweredBy([], [], respond, start, size, time) && !SomeRefused([], size)
  {
  }

  /** An attempt does not succeed only if its answer was refused or its blocks were not taken. */
  lemma NotAccepted(code: CurlCode, a: Attempt, size: nat)
    ensures !Accepted(code, a) ==> code != a.code || Refused(a, size)
    ensures size < |Concat(a.blocks)| ==> Refused(a, size)
    ensures Transient(code, a) ==> !Accepted(code, a)
  {
    hide Concat;
  }

  lemma AcceptedCode(code: CurlCode, a: Attempt)
    requires Accepted(code, a) && (code == a.code || code == WriteError)
    ensures code == a.code == OK
  {
  }

  lemma PieceOf(ptr: seq<Byte>, done: nat, end: nat, written: int)
    requires done <= end <= |ptr| && written <= end - done
    ensures ptr[done..end][..Max(0, written)] == ptr[done..done + Max(0, written)]
  {
  }

  /** One more piece of a block written after the first ones. */
  lemma PieceWritten(original: seq<Byte>, start: nat, ptr: seq<Byte>, done: nat, n: nat, hi: nat)
    requires done + n <= |ptr| && start + done + n <= hi
    ensures PWritten(PWritten(original, start, ptr[..done]), start + done, ptr[done..done + n])
         == PWritten(original, start, ptr[..done + n])
    ensures ChangedOnlyIn(original, PWritten(original, start, ptr[..done + n]), start, hi)
  {
    hide PWritten, ChangedOnlyIn;
    PWriteTwice(original, start, ptr[..done], ptr[done..done + n]);
    assert ptr[..done] + ptr[done..done + n] == ptr[..done + n];
    PWriteChanges(original, start, ptr[..done + n]);
    ChangedWider(original, PWritten(original, start, ptr[..done + n]), start, start + done + n, start, hi);
  }

  lemma ChangedOnTail(a: seq<Byte>, b: seq<Byte>, c: seq<Byte>, lo: nat, mid: nat, hi: nat)
    requires ChangedOnlyIn(a, b, lo, hi) && ChangedOnlyIn(b, c, mid, hi) && lo <= mid <= hi
    ensures ChangedOnlyIn(a, c, lo, hi)
  {
    ChangedWider(b, c, mid, hi, lo, hi);
    ChangedTwice(a, b, c, lo, hi);
  }

  lemma PWriteSlice(data: seq<Byte>, start: nat, bytes: seq<Byte>)
    requires bytes != []
    ensures start + |bytes| <= |PWritten(data, start, bytes)|
    ensures PWritten(data, start, bytes)[start..start + |bytes|] == bytes
  {
    var r := PWritten(data, start, bytes);
    assert forall i :: 0 <= i < |bytes| ==> r[start..start + |bytes|][i] == r[start + i] == bytes[i];
  }

  lemma PWriteNothing(data: seq<Byte>, start: nat)
    ensures PWritten(data, start, []) == data
  {
  }

  lemma AttemptData(original: seq<Byte>, before: seq<Byte>, start: nat, size: nat, bytes: seq<Byte>)
    requires ChangedOnlyIn(original, before, start, start + size) && |bytes| <= size
    ensures bytes != [] ==>
      && start + |bytes| <= |PWritten(before, start, bytes)|
      && PWritten(before, start, bytes)[start..start + |bytes|] == bytes
    ensures |bytes| == size ==> PWritten(before, start, bytes) == PWritten(original, start, bytes)
  {
    if bytes != [] {
      if |bytes| == size {
        PWriteOver(original, before, start, bytes);
      }
      PWriteSlice(before, start, bytes);
    } else if size == 0 {
      assert before == original;
    }
  }

  /** If the server is honest about some remote object, the file holds what the object has of the range. */
  ghost predicate Holds(respond: (nat, nat, nat) -> Attempt, data: seq<Byte>, start: nat, size: nat) {
    forall remote: seq<Byte> :: Honest(respond, remote) && start < |remote| && 0 < size ==>
      var end := Min(start + size, |remote|);
      end <= |data| && data[start..end] == remote[start..end]
  }

  /** If the server is honest about some remote object, the file now holds n bytes of it from start. */
  ghost predicate Fetched(respond: (nat, nat, nat) -> Attempt, a: seq<Byte>, b: seq<Byte>, start: nat, n: nat) {
    forall remote: seq<Byte> :: Honest(respond, remote) && start + n <= |remote| ==>
      b == PWritten(a, start, remote[start..start + n])
  }

  lemma FetchedNothing(respond: (nat, nat, nat) -> Attempt, a: seq<Byte>, start: nat)
    ensures Fetched(respond, a, a, start, 0)
  {
  }

  lemma FetchedTwice(respond: (nat, nat, nat) -> Attempt, a: seq<Byte>, b: seq<Byte>, c: seq<Byte>,
                     start: nat, n: nat, m: nat)
    requires Fetched(respond, a, b, start, n) && Fetched(respond, b, c, start + n, m)
    ensures Fetched(respond, a, c, start, n + m)
  {
    hide Honest, PWritten;
    forall remote: seq<Byte> | Honest(respond, remote) && start + n + m <= |remote|
      ensures c == PWritten(a, start, remote[start..start + (n + m)])
    {
      PWriteTwice(a, start, remote[start..start + n], remote[start + n..start + n + m]);
      assert remote[start..start + n] + remote[start + n..start + n + m] == remote[start..start + (n + m)];
    }
  }

  /** GetObjectRequest: one ranged download into the file. */
  method GetObjectRequest(net: Network, file: LocalFile, start: nat, size: nat, retries: int) returns (result: int)
    modifies file, net
    ensures old(net.clock) <= net.clock && result <= 0
    ensures old(net.refusals) <= net.refusals && old(file.faults) <= file.faults
    ensures result != 0 ==> retries <= 0 || old(net.refusals + file.faults) < net.refusals + file.faults
    ensures ChangedOnlyIn(old(file.data), file.data, start, start + size)
    ensures result == 0 ==> Fetched(net.respond, old(file.data), file.data, start, size)
    ensures result == 0 ==> Holds(net.respond, file.data, start, size)
    ensures net.sizes == old(net.sizes) + [size]
  {
    hide PWritten, ChangedOnlyIn, Concat, Fetched, Holds;
    var request := new RangeRequest(file, start, size);
    ghost var before := file.data;
    ghost var attempts, codes;
    result, attempts, codes := request.RequestPerform(net, retries);
    if result == 0 {
      SuccessHolds(net.respond, file.data, start, size, net.clock - 1);
      SuccessFetches(net.respond, before, file.data, start, size, net.clock - 1);
    }
  }

  lemma SuccessHolds(respond: (nat, nat, nat) -> Attempt, data: seq<Byte>, start: nat, size: nat, time: nat)
    requires
      var last := respond(start, size, time);
      && Accepted(last.code, last)
      && (Concat(last.blocks) != [] ==>
            && start + |Concat(last.blocks)| <= |data|
            && data[start..start + |Concat(last.blocks)|] == Concat(last.blocks))
    ensures Holds(respond, data, start, size)
  {
    hide Concat, Accepted;
    var last := respond(start, size, time);
    forall remote: seq<Byte> | Honest(respond, remote) && start < |remote| && 0 < size
      ensures
        var end := Min(start + size, |remote|);
        end <= |data| && data[start..end] == remote[start..end]
    {
      assert Concat(last.blocks) == remote[start..Min(start + size, |remote|)];
    }
  }

  lemma SuccessFetches(respond: (nat, nat, nat) -> Attempt, a: seq<Byte>, b: seq<Byte>, start: nat, size: nat,
                       time: nat)
    requires
      var last := respond(start, size, time);
      && Accepted(last.code, last)
      && (|Concat(last.blocks)| == size ==> b == PWritten(a, start, Concat(last.blocks)))
    ensures Fetched(respond, a, b, start, size)
  {
    hide Concat, Accepted, PWritten;
    var last := respond(start, size, time);
    forall remote: seq<Byte> | Honest(respond, remote) && start + size <= |remote|
      ensures b == PWritten(a, start, remote[start..start + size])
    {
      assert Concat(last.blocks) == remote[start..start + size];
    }
  }

  /** No range requested since is over a size. */
  ghost predicate SmallFrom(before: seq<nat>, now: seq<nat>, size: nat) {
    before <= now && forall i :: |before| <= i < |now| ==> now[i] <= size
  }

  /**
   ParallelGetObjectRequest: the range in chunks of the multipart size, batch by
   batch. The chunks of a batch are disjoint, so they are performed one by one.
   */
  method ParallelGetObjectRequest(net: Network, file: LocalFile, start: nat, size: nat, retries: int,
                                  multipartSize: nat, maxParallel: nat) returns (result: int)
    requires 0 < multipartSize && 0 < maxParallel
    modifies file, net
    ensures SmallFrom(old(net.sizes), net.sizes, multipartSize)
    ensures old(net.clock) <= net.clock && result <= 0
    ensures old(net.refusals) <= net.refusals && old(file.faults) <= file.faults
    ensures result != 0 ==> retries <= 0 || old(net.refusals + file.faults) < net.refusals + file.faults
    ensures ChangedOnlyIn(old(file.data), file.data, start, start + size)
    ensures result == 0 ==> Fetched(net.respond, old(file.data), file.data, start, size)
  {
    hide ChangedOnlyIn, Fetched, Holds;
    result := 0;
    var remaining := size;
    UnchangedIn(file.data, start, start + size);
    FetchedNothing(net.respond, file.data, start);
    while 0 < remaining
      invariant 0 <= remaining <= size && old(net.clock) <= net.clock && result == 0
      invariant old(net.refusals) <= net.refusals && old(file.faults) <= file.faults
      invariant SmallFrom(old(net.sizes), net.sizes, multipartSize)
      invariant ChangedOnlyIn(old(file.data), file.data, start, start + size)
      invariant Fetched(net.respond, old(file.data), file.data, start, size - remaining)
    {
      ghost var pending := remaining;
      var paraCnt := 0;
      var success := true;
      while paraCnt < maxParallel && 0 < remaining
        invariant 0 <= remaining <= size && old(net.clock) <= net.clock
        invariant old(net.refusals) <= net.refusals && old(file.faults) <= file.faults
        invariant SmallFrom(old(net.sizes), net.sizes, multipartSize)
        invariant !success ==> retries <= 0 || old(net.refusals + file.faults) < net.refusals + file.faults
        invariant if paraCnt == 0 then remaining == pending else remaining < pending
        invariant ChangedOnlyIn(old(file.data), file.data, start, start + size)
        invariant success ==> Fetched(net.respond, old(file.data), file.data, start, size - remaining)
        decreases maxParallel - paraCnt
      {
        var chunk := if remaining > multipartSize then multipartSize else remaining;
        ghost var before, done := file.data, size - remaining;
        var rc := GetObjectRequest(net, file, start + size - remaining, chunk, retries);
        ChangedWider(before, file.data, start + done, start + done + chunk, start, start + size);
        ChangedTwice(old(file.data), before, file.data, start, start + size);
        if success && rc == 0 {
          FetchedTwice(net.respond, old(file.data), before, file.data, start, done, chunk);
        }
        success := success && rc == 0;
        var stopped: bool := *;  // with a failure, chunks of later rounds are not requested
        if !success && stopped {
          return -EIO;
        }
        paraCnt := paraCnt + 1;
        remaining := remaining - chunk;
      }
      if !success {
        return -EIO;
      }
    }
  }
}
