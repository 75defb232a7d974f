/**
 The multi head requests of readdir (src/s3fs.cpp) on the round loop of
 S3fsMultiCurl: every SSE key is tried before a retry is counted.
 */
module HeadRequests {
  import opened Errno
  import opened Ints
  import opened Sums
  import opened Wrappers

  /** One head request: its retries so far and the position of the SSE key it uses, -1 for none. */
  datatype Head = Head(path: string, retryCount: nat, keyPos: int)

  /** multi_head_retry_callback, as long as the new request can be set up. */
  function Next(h: Head, retries: int, keyCount: nat): (again: Option<Head>)
    requires -1 <= h.keyPos
    ensures again.Some? ==> -1 <= again.value.keyPos
  {
    var pos := if h.keyPos < 0 then 0 else h.keyPos + 1;
    if 0 == keyCount || keyCount <= pos then
      if h.retryCount >= retries then None else Some(h.(keyPos := -1, retryCount := h.retryCount + 1))
    else Some(h.(keyPos := pos))
  }

  /** The requests that n further calls of the callback make of a request. */
  function Again(h: Head, n: nat, retries: int, keyCount: nat): Option<Head>
    requires -1 <= h.keyPos
    decreases n
  {
    if n == 0 then Some(h)
    else
      var next := Next(h, retries, keyCount);
      if next.None? then None else Again(next.value, n - 1, retries, keyCount)
  }

  /** All SSE keys are tried in turn before a retry is counted, and after the last retry there is none. */
  lemma {:induction false} KeysInTurn(h: Head, n: nat, retries: int, keyCount: nat)
    requires -1 <= h.keyPos && h.keyPos + n < keyCount
    ensures Again(h, n, retries, keyCount) == Some(Head(h.path, h.retryCount, h.keyPos + n))
    decreases n
  {
    if 0 < n {
      KeysInTurn(h.(keyPos := h.keyPos + 1), n - 1, retries, keyCount);
    }
  }

  lemma RetryAfterKeys(h: Head, retries: int, keyCount: nat)
    requires -1 <= h.keyPos && keyCount <= h.keyPos + 1
    ensures Next(h, retries, keyCount)
         == if h.retryCount < retries then Some(Head(h.path, h.retryCount + 1, -1)) else None
  {
  }

  /** Lexicographic in remaining retries and remaining keys, as one number. */
  function HeadWeight(h: Head, retries: int, keyCount: nat): nat {
    1 + Max(0, retries - h.retryCount) * (keyCount + 1) + Max(0, keyCount - 1 - h.keyPos)
  }

  function Weigher(retries: int, keyCount: nat): Head -> nat {
    h => HeadWeight(h, retries, keyCount)
  }

  /** Every retry lowers the weight. */
  lemma NextIsLighter(h: Head, retries: int, keyCount: nat)
    requires -1 <= h.keyPos && Next(h, retries, keyCount).Some?
    ensures -1 <= Next(h, retries, keyCount).value.keyPos
    ensures HeadWeight(Next(h, retries, keyCount).value, retries, keyCount) < HeadWeight(h, retries, keyCount)
  {
    var again := Next(h, retries, keyCount).value;
    if again.retryCount != h.retryCount {
      var left := retries - h.retryCount;
      assert left * (keyCount + 1) == (left - 1) * (keyCount + 1) + (keyCount + 1);
    }
  }

  /** Failed attempts inside RequestPerform only lower the weight. */
  lemma MoreRetriesIsLighter(h: Head, failed: nat, retries: int, keyCount: nat)
    ensures HeadWeight(h.(retryCount := h.retryCount + failed), retries, keyCount) <= HeadWeight(h, retries, keyCount)
  {
    var a, b := Max(0, retries - h.retryCount - failed), Max(0, retries - h.retryCount);
    assert (b - a) * (keyCount + 1) >= 0;
    assert b * (keyCount + 1) == a * (keyCount + 1) + (b - a) * (keyCount + 1);
  }

  ghost predicate KeysInRange(heads: seq<Head>) {
    forall i :: 0 <= i < |heads| ==> -1 <= heads[i].keyPos
  }

  /** An answer after which the request is made again; a code that is not known, or 404, is final. */
  predicate Retryable(code: Option<int>) {
    code.Some? && 400 <= code.value && code.value != 404
  }

  datatype Answer = Answer(path: string, code: Option<int>)

  /** The path got an answer that is final. */
  ghost predicate Settled(path: string, log: set<Answer>) {
    exists code :: Answer(path, code) in log && !Retryable(code)
  }

  ghost predicate Waiting(path: string, heads: seq<Head>) {
    exists i :: 0 <= i < |heads| && heads[i].path == path
  }

  ghost predicate AllSeen(queue: seq<Head>, heads: seq<Head>, log: set<Answer>) {
    forall i :: 0 <= i < |queue| ==> Settled(queue[i].path, log) || Waiting(queue[i].path, heads)
  }

  /** The answers of one round. */
  ghost function Answers(req: seq<Head>, codes: seq<Option<int>>): set<Answer>
    requires |req| == |codes|
  {
    set i | 0 <= i < |req| :: Answer(req[i].path, codes[i])
  }

  /**
   The round loop with the head callback: it ends within as many rounds as the queue weighs, whatever codes the
   server answers with, and when it succeeds every path of the queue got a final answer.
   */
  method Request(queue: seq<Head>, retries: int, keyCount: nat, maxMultireq: int)
    returns (result: int, ghost rounds: nat, ghost log: set<Answer>)
    requires KeysInRange(queue) && 1 <= maxMultireq
    ensures result == 0 || result == -EIO
    ensures rounds <= SumBy(Weigher(retries, keyCount), queue)
    ensures result == 0 ==> forall i :: 0 <= i < |queue| ==> Settled(queue[i].path, log)
  {
    hide SumBy, KeysInRange, HeadWeight, AllSeen, Retryable;
    ghost var weigh := Weigher(retries, keyCount);
    var all := queue;
    rounds, log := 0, {};
    SeenAtFirst(queue);
    while all != []
      invariant KeysInRange(all) && rounds + SumBy(weigh, all) <= SumBy(weigh, queue)
      invariant AllSeen(queue, all, log)
      decreases SumBy(weigh, all)
    {
      var cut := Min(maxMultireq, |all|);
      var req, rest := all[..cut], all[cut..];
      SplitQueue(weigh, all, cut);
      ghost var before := all;
      var failed, codes;
      failed, req, codes := MultiPerform(req, retries, keyCount);
      if failed {
        return -EIO, rounds, log;
      }
      all, failed := MultiRead(rest, req, codes, retries, keyCount);
      if failed {
        return -EIO, rounds, log;
      }
      SeenStill(queue, before, cut, req, codes, all, log, retries, keyCount);
      log := log + Answers(req, codes);
      rounds := rounds + 1;
    }
    SeenAtLast(queue, log);
    return 0, rounds, log;
  }

  lemma SeenAtFirst(queue: seq<Head>)
    ensures AllSeen(queue, queue, {})
  {
  }

  lemma SeenAtLast(queue: seq<Head>, log: set<Answer>)
    requires AllSeen(queue, [], log)
    ensures forall i :: 0 <= i < |queue| ==> Settled(queue[i].path, log)
  {
  }

  lemma SeenStill(queue: seq<Head>, all: seq<Head>, cut: nat, req: seq<Head>, codes: seq<Option<int>>,
                  after: seq<Head>, log: set<Answer>, retries: int, keyCount: nat)
    requires AllSeen(queue, all, log) && cut <= |all| && |req| == |codes| == cut && KeysInRange(req)
    requires forall i :: 0 <= i < cut ==> req[i].path == all[i].path
    requires ReadBack(all[cut..], req, codes, after, retries, keyCount)
    ensures AllSeen(queue, after, log + Answers(req, codes))
  {
    var more := log + Answers(req, codes);
    forall i | 0 <= i < |queue|
      ensures Settled(queue[i].path, more) || Waiting(queue[i].path, after)
    {
      if Settled(queue[i].path, log) {
        var code :| Answer(queue[i].path, code) in log && !Retryable(code);
        assert Answer(queue[i].path, code) in more;
      } else {
        var k :| 0 <= k < |all| && all[k].path == queue[i].path;
        StillThere(all, cut, req, codes, after, k, retries, keyCount);
        if k < cut && !Retryable(codes[k]) {
          assert Answer(queue[i].path, codes[k]) in more;
        }
      }
    }
  }

  lemma StillThere(all: seq<Head>, cut: nat, req: seq<Head>, codes: seq<Option<int>>, after: seq<Head>, k: nat,
                   retries: int, keyCount: nat)
    requires k < |all| && cut <= |all| && |req| == |codes| == cut && KeysInRange(req)
    requires forall i :: 0 <= i < cut ==> req[i].path == all[i].path
    requires ReadBack(all[cut..], req, codes, after, retries, keyCount)
    ensures (k < cut && !Retryable(codes[k])) || Waiting(all[k].path, after)
  {
    if cut <= k {
      assert all[cut..][k - cut] in after;
      var i :| 0 <= i < |after| && after[i] == all[k];
    } else if Retryable(codes[k]) {
      var again := Next(req[k], retries, keyCount).value;
      var i :| 0 <= i < |after| && after[i] == again;
      assert after[i].path == all[k].path;
    }
  }

  /** After a round is read: what waited still does, and each request to be made again waits too, and nothing else. */
  ghost predicate ReadBack(all: seq<Head>, req: seq<Head>, codes: seq<Option<int>>, after: seq<Head>, retries: int,
                           keyCount: nat)
    requires |req| == |codes| && KeysInRange(req)
  {
    && (forall h :: h in all ==> h in after)
    && (forall i :: 0 <= i < |req| && Retryable(codes[i]) ==>
          Next(req[i], retries, keyCount).Some? && Next(req[i], retries, keyCount).value in after)
    && (forall h :: h in after ==> h in all || exists i :: IsAgain(h, req, codes, i, retries, keyCount))
  }

  ghost predicate IsAgain(h: Head, req: seq<Head>, codes: seq<Option<int>>, i: int, retries: int, keyCount: nat)
    requires |req| == |codes| && KeysInRange(req)
  {
    0 <= i < |req| && Retryable(codes[i]) && Next(req[i], retries, keyCount) == Some(h)
  }

  lemma SplitQueue(weigh: Head -> nat, all: seq<Head>, cut: nat)
    requires cut <= |all| && KeysInRange(all)
    ensures KeysInRange(all[..cut]) && KeysInRange(all[cut..])
    ensures SumBy(weigh, all) == SumBy(weigh, all[..cut]) + SumBy(weigh, all[cut..])
  {
    SumConcat(weigh, all[..cut], all[cut..]);
    assert all == all[..cut] + all[cut..];
  }

  method MultiPerform(req: seq<Head>, retries: int, keyCount: nat)
    returns (failed: bool, after: seq<Head>, codes: seq<Option<int>>)
    requires KeysInRange(req)
    ensures KeysInRange(after) && |after| == |codes| == |req|
    ensures forall i :: 0 <= i < |req| ==> after[i].path == req[i].path && after[i].keyPos == req[i].keyPos
    ensures SumBy(Weigher(retries, keyCount), after) <= SumBy(Weigher(retries, keyCount), req)
  {
    hide SumBy, HeadWeight;
    failed, after, codes := false, req, [];
    for i := 0 to |req|
      invariant KeysInRange(after) && |after| == |req| && |codes| == i
      invariant forall k :: 0 <= k < |req| ==> after[k].path == req[k].path && after[k].keyPos == req[k].keyPos
      invariant SumBy(Weigher(retries, keyCount), after) <= SumBy(Weigher(retries, keyCount), req)
    {
      var attempts: int := *;  // failed attempts of this request
      var rc: int := *;
      var code: Option<int> := *;  // what curl knows of the answer
      var tried := Max(0, attempts);
      MoreRetriesIsLighter(after[i], tried, retries, keyCount);
      SumUpdate(Weigher(retries, keyCount), after, i, after[i].(retryCount := after[i].retryCount + tried));
      after := after[i := after[i].(retryCount := after[i].retryCount + tried)];
      codes := codes + [code];
      failed := failed || rc != 0;
    }
  }

  method MultiRead(all: seq<Head>, req: seq<Head>, codes: seq<Option<int>>, retries: int, keyCount: nat)
    returns (after: seq<Head>, failed: bool)
    requires KeysInRange(all) && KeysInRange(req) && |req| == |codes|
    ensures KeysInRange(after)
    ensures !failed ==> ReadBack(all, req, codes, after, retries, keyCount)
    ensures failed ==> exists i :: 0 <= i < |req| && Retryable(codes[i])
    ensures !failed ==>
      SumBy(Weigher(retries, keyCount), after) + |req|
      <= SumBy(Weigher(retries, keyCount), all) + SumBy(Weigher(retries, keyCount), req)
  {
    hide SumBy, ReadBack;
    ghost var weigh := Weigher(retries, keyCount);
    after := all;
    NoWeight(weigh, req);
    ReadNothing(all, req, codes, retries, keyCount);
    for i := 0 to |req|
      invariant KeysInRange(after)
      invariant SumBy(weigh, after) + i <= SumBy(weigh, all) + SumBy(weigh, req[..i])
      invariant ReadBack(all, req[..i], codes[..i], after, retries, keyCount)
    {
      OneMore(weigh, req, i);
      ghost var before := after;
      if codes[i].Some? && 400 <= codes[i].value && codes[i].value != 404 {
        var ready: bool := *;  // the new request may not be set up
        var again := Next(req[i], retries, keyCount);
        if again.None? || !ready {
          assert Retryable(codes[i]);
          return after, true;
        }
        NextIsLighter(req[i], retries, keyCount);
        var pos: int := *;  // the new handle may come anywhere in the map
        pos := Clamp(pos, 0, |after|);
        SumInsert(weigh, after, pos, again.value);
        assert after == after[..pos] + after[pos..];
        after := after[..pos] + [again.value] + after[pos..];
      }
      ReadOneMore(all, req, codes, i, before, after, retries, keyCount);
    }
    assert req[..|req|] == req && codes[..|codes|] == codes;
    failed := false;
  }

  lemma ReadNothing(all: seq<Head>, req: seq<Head>, codes: seq<Option<int>>, retries: int, keyCount: nat)
    requires |req| == |codes| && KeysInRange(req)
    ensures KeysInRange(req[..0]) && ReadBack(all, req[..0], codes[..0], all, retries, keyCount)
  {
  }

  lemma ReadOneMore(all: seq<Head>, req: seq<Head>, codes: seq<Option<int>>, i: nat, before: seq<Head>,
                    after: seq<Head>, retries: int, keyCount: nat)
    requires i < |req| == |codes| && KeysInRange(req) && KeysInRange(req[..i])
    requires ReadBack(all, req[..i], codes[..i], before, retries, keyCount)
    requires
      var again := Next(req[i], retries, keyCount);
      if Retryable(codes[i]) then again.Some? && forall h :: h in after <==> h in before || h == again.value
      else after == before
    ensures KeysInRange(req[..i + 1]) && ReadBack(all, req[..i + 1], codes[..i + 1], after, retries, keyCount)
  {
    hide Next;
    var some, more, now := req[..i], req[..i + 1], codes[..i + 1];
    assert forall k :: 0 <= k < i ==> more[k] == some[k] && now[k] == codes[..i][k];
    forall h | h in after && h !in all
      ensures exists k :: IsAgain(h, more, now, k, retries, keyCount)
    {
      if h in before {
        var k :| IsAgain(h, some, codes[..i], k, retries, keyCount);
        assert IsAgain(h, more, now, k, retries, keyCount);
      } else {
        assert IsAgain(h, more, now, i, retries, keyCount);
      }
    }
  }

  lemma NoWeight(weigh: Head -> nat, req: seq<Head>)
    ensures SumBy(weigh, req[..0]) == 0
  {
  }

  lemma OneMore(weigh: Head -> nat, req: seq<Head>, i: nat)
    requires i < |req|
    ensures SumBy(weigh, req[..i + 1]) == SumBy(weigh, req[..i]) + weigh(req[i])
  {
    assert req[..i + 1] == req[..i] + [req[i]];
    SumConcat(weigh, req[..i], [req[i]]);
    SumOne(weigh, req[i]);
  }
}
