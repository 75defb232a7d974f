/**
 Parallel multipart upload of src/curl.cpp: slicing into batches, rounds with
 retries against a server that may answer anything, and the completion request.
 */
module MultipartUploads {
  import opened Bytes
  import opened Errno
  import opened EtagHeaders
  import opened Ints
  import opened Downloads
  import opened PartUploads
  import opened Sums
  import opened Wrappers

  /** Only the last part of an upload may be smaller. */
  const MIN_MULTIPART_SIZE: nat := 1048576

  /**
   One S3fsCurl object of an upload: its slot in the etag list, the part number in its address, its slice,
   how often it was retried, the HTTP code of its last answer, and whether the server accepted it and with
   which ETag.
   */
  datatype Part = Part(slot: nat, number: nat, start: nat, size: nat, retryCount: nat, code: int, accepted: bool,
                       etag: Option<string>)

  /** An upload the server accepted: its number and slice, the bytes sent, and the ETag of the answer, if any. */
  datatype Upload = Upload(slot: nat, number: nat, start: nat, size: nat, body: seq<Byte>, etag: Option<string>)

  datatype Slice = Slice(start: nat, size: nat) {
    /** The byte after the slice. */
    function Next(): nat {
      start + size
    }
  }

  // ---------- retry weight ----------

  /** How many more times a part can be sent. */
  function PartWeight(p: Part, retries: int): nat {
    1 + Max(0, retries - p.retryCount)
  }

  function Weigher(retries: int): Part -> nat {
    p => PartWeight(p, retries)
  }

  function Weight(parts: seq<Part>, retries: int): nat {
    SumBy(Weigher(retries), parts)
  }

  // ---------- what holds of the pending parts ----------

  /** A pending part uploads the slice registered with its slot, and its slot is still empty. */
  ghost predicate Registered(parts: seq<Part>, slices: seq<Slice>, etags: seq<string>) {
    forall i :: 0 <= i < |parts| ==>
      && parts[i].slot < |slices| && parts[i].slot < |etags| && parts[i].number == parts[i].slot + 1
      && slices[parts[i].slot] == Slice(parts[i].start, parts[i].size)
      && etags[parts[i].slot] == ""
  }

  ghost predicate DistinctSlots(parts: seq<Part>) {
    forall i, j :: 0 <= i < j < |parts| ==> parts[i].slot != parts[j].slot
  }

  /** The slots of some parts, in order. */
  ghost function Slots(parts: seq<Part>): (r: seq<nat>) {
    seq(|parts|, i requires 0 <= i < |parts| => parts[i].slot)
  }

  /** The parts have exactly the slots of a range. */
  ghost predicate SlotsFrom(parts: seq<Part>, lo: nat, hi: nat) {
    && (forall i :: 0 <= i < |parts| ==> lo <= parts[i].slot < hi)
    && (forall k :: lo <= k < hi ==> k in Slots(parts))
  }

  ghost predicate DisjointSlots(a: seq<Part>, b: seq<Part>) {
    forall i, j :: 0 <= i < |a| && 0 <= j < |b| ==> a[i].slot != b[j].slot
  }

  ghost predicate Pending(all: seq<Part>, req: seq<Part>, slices: seq<Slice>, etags: seq<string>) {
    && Registered(all, slices, etags) && Registered(req, slices, etags)
    && DistinctSlots(all) && DistinctSlots(req) && DisjointSlots(all, req)
  }

  /** An ETag is the one the server answered, or, without one in the answer, the digest computed beforehand. */
  ghost predicate Answers(answer: Option<string>, etag: string, digest: string) {
    && (answer.Some? ==> etag == answer.value)
    && (answer.None? ==> etag == digest)
  }

  /** Every filled slot holds the ETag of an accepted upload of its own slice under its own number. */
  ghost predicate Earned(etags: seq<string>, slices: seq<Slice>, log: set<Upload>, digest: nat -> string) {
    && |etags| == |slices|
    && forall k :: 0 <= k < |etags| && etags[k] != "" ==> EarnedAt(etags[k], k, slices[k], log, digest(k))
  }

  ghost predicate UploadedAs(etag: string, slot: nat, number: nat, slice: Slice, log: set<Upload>, digest: string) {
    exists answer, body ::
      Upload(slot, number, slice.start, slice.size, body, answer) in log && Answers(answer, etag, digest)
  }

  ghost predicate EarnedAt(etag: string, slot: nat, slice: Slice, log: set<Upload>, digest: string) {
    UploadedAs(etag, slot, slot + 1, slice, log, digest)
  }

  /** The log has the answer of every accepted part. */
  ghost predicate Answered(parts: seq<Part>, log: set<Upload>) {
    forall i :: 0 <= i < |parts| && parts[i].accepted ==> AnsweredOne(parts[i], log)
  }

  ghost predicate AnsweredOne(p: Part, log: set<Upload>) {
    exists body :: UploadOf(p, body) in log
  }

  function UploadOf(p: Part, body: seq<Byte>): Upload {
    Upload(p.slot, p.number, p.start, p.size, body, p.etag)
  }

  /** What was sent in every accepted upload are the first bytes of its slice of the file. */
  ghost predicate Truthful(log: set<Upload>, data: seq<Byte>) {
    forall u :: u in log ==> SentFrom(data, u.start, u.size, u.body)
  }

  /** Every part got an answer that counts as success. */
  ghost predicate AllGood(parts: seq<Part>) {
    forall i :: 0 <= i < |parts| ==> parts[i].code < 400
  }

  /** An answered ETag is not empty. */
  ghost predicate Tagged(p: Part) {
    p.etag.Some? ==> p.etag.value != ""
  }

  ghost predicate AllTagged(parts: seq<Part>) {
    forall i :: 0 <= i < |parts| ==> Tagged(parts[i])
  }

  /** The slots of some parts have ETags. */
  ghost predicate Filled(slots: seq<nat>, etags: seq<string>) {
    forall i :: 0 <= i < |slots| ==> slots[i] < |etags| && etags[slots[i]] != ""
  }

  /** A digest is at hand for every part. */
  ghost predicate AllDigests(digest: nat -> string) {
    forall k :: digest(k) != ""
  }

  ghost predicate AllAccepted(parts: seq<Part>) {
    forall i :: 0 <= i < |parts| ==> parts[i].accepted
  }

  /** The same part with one more retry. */
  predicate IsRetryOf(q: Part, p: Part) {
    SameSlice(q, p) && q.retryCount == p.retryCount + 1
  }

  /**
   What becomes of a sent part: given up when its code is not known or 404, stored when the code is below 400,
   else queued again.
   */
  ghost predicate Handled(p: Part, etags: seq<string>, all: seq<Part>, digest: nat -> string, unknown: set<nat>) {
    && p.slot < |etags|
    && if p.slot in unknown || p.code == 404 then etags[p.slot] == ""
       else if p.code < 400 then Answers(p.etag, etags[p.slot], digest(p.slot))
       else etags[p.slot] == "" && exists q :: q in all && IsRetryOf(q, p)
  }

  ghost predicate AllHandled(sent: seq<Part>, n: nat, etags: seq<string>, all: seq<Part>, digest: nat -> string,
                             unknown: set<nat>)
  {
    && (forall i :: 0 <= i < n && i < |sent| ==> Handled(sent[i], etags, all, digest, unknown))
    && (forall i :: n <= i < |sent| ==> sent[i].slot !in unknown)
  }

  /** Parts that were answered well and read have their ETags in their slots. */
  lemma HandledFills(sent: seq<Part>, etags: seq<string>, all: seq<Part>, digest: nat -> string)
    requires AllHandled(sent, |sent|, etags, all, digest, {}) && AllGood(sent) && AllTagged(sent) && AllDigests(digest)
    ensures Filled(Slots(sent), etags)
  {
    forall i | 0 <= i < |Slots(sent)|
      ensures Slots(sent)[i] < |etags| && etags[Slots(sent)[i]] != ""
    {
      assert Handled(sent[i], etags, all, digest, {});
      assert Tagged(sent[i]);
    }
  }

  /** Nothing is queued but what was, and retries of parts that were refused with a code other than 404. */
  ghost predicate OnlyRetries(sent: seq<Part>, before: seq<Part>, all: seq<Part>) {
    forall q :: q in all && q !in before ==> RetriesSome(q, sent)
  }

  ghost predicate RetriesSome(q: Part, sent: seq<Part>) {
    exists i :: 0 <= i < |sent| && IsRetryOf(q, sent[i]) && 400 <= sent[i].code && sent[i].code != 404
  }

  lemma OnlyMore(sent: seq<Part>, n: nat, before: seq<Part>, all: seq<Part>, more: seq<Part>)
    requires n < |sent| && OnlyRetries(sent, before, all)
    requires forall q :: q in more && q !in all ==>
      IsRetryOf(q, sent[n]) && 400 <= sent[n].code && sent[n].code != 404
    ensures OnlyRetries(sent, before, more)
  {
  }

  lemma NothingHandled(sent: seq<Part>, etags: seq<string>, all: seq<Part>, digest: nat -> string, unknown: set<nat>)
    ensures unknown == {} ==> AllHandled(sent, 0, etags, all, digest, unknown)
  {
  }

  lemma QueueSlots(all: seq<Part>, req: seq<Part>, slices: seq<Slice>, etags: seq<string>)
    requires Pending(all, req, slices, etags)
    ensures DistinctSlots(all)
  {
  }

  lemma SentSlots(all: seq<Part>, req: seq<Part>, slices: seq<Slice>, etags: seq<string>)
    requires Pending(all, req, slices, etags)
    ensures DistinctSlots(req)
  {
  }

  /** Handling one part leaves those handled before, which have other slots. */
  lemma HandledStep(sent: seq<Part>, n: nat, etags: seq<string>, etags': seq<string>, all: seq<Part>, all': seq<Part>,
                    digest: nat -> string, unknown: set<nat>, unknown': set<nat>)
    requires DistinctSlots(sent) && n < |sent| && AllHandled(sent, n, etags, all, digest, unknown)
    requires |etags'| == |etags| && forall k :: 0 <= k < |etags| && k != sent[n].slot ==> etags'[k] == etags[k]
    requires forall q :: q in all ==> q in all'
    requires unknown' == unknown || unknown' == unknown + {sent[n].slot}
    requires Handled(sent[n], etags', all', digest, unknown')
    ensures AllHandled(sent, n + 1, etags', all', digest, unknown')
  {
    forall i | 0 <= i < n
      ensures Handled(sent[i], etags', all', digest, unknown')
    {
      assert sent[i].slot != sent[n].slot;
      assert Handled(sent[i], etags, all, digest, unknown);
    }
  }

  lemma Spliced(all: seq<Part>, pos: nat, p: Part)
    requires pos <= |all|
    ensures forall q :: q in all || q == p <==> q in all[..pos] + [p] + all[pos..]
  {
    assert all == all[..pos] + all[pos..];
  }

  lemma DoneOne(before: seq<Part>, after: seq<Part>, i: nat)
    requires i < |before| == |after| && after == before[i := after[i]]
    ensures AllAccepted(before[..i]) && after[i].accepted ==> AllAccepted(after[..i + 1])
    ensures AllGood(before[..i]) && after[i].code < 400 ==> AllGood(after[..i + 1])
    ensures AllTagged(before[..i]) && Tagged(after[i]) ==> AllTagged(after[..i + 1])
  {
    assert forall k :: 0 <= k < i ==> after[k] == before[..i][k];
  }

  lemma AnsweredMore(parts: seq<Part>, log: set<Upload>, more: set<Upload>)
    requires Answered(parts, log) && log <= more
    ensures Answered(parts, more)
  {
    forall i | 0 <= i < |parts| && parts[i].accepted
      ensures AnsweredOne(parts[i], more)
    {
      var body :| UploadOf(parts[i], body) in log;
      assert UploadOf(parts[i], body) in more;
    }
  }

  lemma AnsweredUpdate(parts: seq<Part>, i: nat, p: Part, log: set<Upload>)
    requires Answered(parts, log) && i < |parts| && (p.accepted ==> AnsweredOne(p, log))
    ensures Answered(parts[i := p], log)
  {
  }

  lemma SlotsAt(parts: seq<Part>)
    ensures |Slots(parts)| == |parts| && forall i :: 0 <= i < |parts| ==> Slots(parts)[i] == parts[i].slot
  {
  }

  lemma SlotsAdd(parts: seq<Part>, lo: nat, hi: nat, pos: nat, p: Part)
    requires SlotsFrom(parts, lo, hi) && lo <= hi == p.slot && pos <= |parts|
    ensures SlotsFrom(parts[..pos] + [p] + parts[pos..], lo, hi + 1)
  {
    var more := parts[..pos] + [p] + parts[pos..];
    assert forall k :: 0 <= k < |more| ==>
      more[k] == if k < pos then parts[k] else if k == pos then p else parts[k - 1];
    forall k | lo <= k < hi + 1
      ensures k in Slots(more)
    {
      if k == hi {
        assert Slots(more)[pos] == k;
      } else {
        assert k in Slots(parts);
        var i :| 0 <= i < |Slots(parts)| && Slots(parts)[i] == k;
        assert Slots(more)[if i < pos then i else i + 1] == k;
      }
    }
  }

  /** No slot of an upload was sent twice. */
  ghost predicate SentOnce(sent: seq<nat>, n: nat) {
    && (forall i :: 0 <= i < |sent| ==> sent[i] < n)
    && (forall i, j :: 0 <= i < j < |sent| ==> sent[i] != sent[j])
  }

  ghost predicate AllSent(sent: seq<nat>, n: nat) {
    forall k :: 0 <= k < n ==> k in sent
  }

  lemma BatchSent(sent: seq<nat>, more: seq<nat>, parts: seq<Part>, lo: nat, hi: nat, success: bool)
    requires SentOnce(sent, lo) && SlotsFrom(parts, lo, hi) && DistinctSlots(parts) && lo <= hi
    requires InTurn(parts, sent, more, success)
    ensures SentOnce(more, hi)
    ensures AllSent(sent, lo) && success ==> AllSent(more, hi)
  {
    forall i | 0 <= i < |more|
      ensures more[i] < hi && (i < |sent| ==> more[i] == sent[i])
      ensures |sent| <= i ==> i - |sent| < |parts| && more[i] == parts[i - |sent|].slot
    {
      assert more[i] == (sent + Slots(parts))[i];
    }
  }

  /** Some parts were sent in order, from the first on, and all of them when it succeeded. */
  ghost predicate InTurn(parts: seq<Part>, sent: seq<nat>, more: seq<nat>, success: bool) {
    sent <= more <= sent + Slots(parts) && (success ==> more == sent + Slots(parts))
  }

  /** Between the rounds: the first parts of the queue are sent, and the others wait. */
  ghost predicate Underway(queue: seq<Part>, done: nat, all: seq<Part>, start: seq<nat>, sent: seq<nat>) {
    done <= |queue| && all == queue[done..] && |all| == |queue| - done && sent == start + Slots(queue[..done])
  }

  lemma UnderwayStart(queue: seq<Part>, sent: seq<nat>)
    ensures Underway(queue, 0, queue, sent, sent)
  {
  }

  lemma UnderwayStep(queue: seq<Part>, done: nat, all: seq<Part>, rest: seq<Part>, start: seq<nat>, sent: seq<nat>,
                     more: seq<nat>, batch: nat, success: bool)
    requires Underway(queue, done, all, start, sent) && batch <= |all| && InTurn(all[..batch], sent, more, success)
    requires success ==> rest == all[batch..]
    ensures success ==> Underway(queue, done + batch, rest, start, more)
    ensures InTurn(queue, start, more, false)
  {
    assert queue[..done] + all[..batch] == queue[..done + batch];
    SlotsConcat(queue[..done], all[..batch]);
    assert queue[..done + batch] + queue[done + batch..] == queue;
    SlotsConcat(queue[..done + batch], queue[done + batch..]);
    assert start + Slots(queue[..done + batch]) <= start + Slots(queue);
    hide Slots;
    assert start == sent[..|start|] == more[..|start|];
  }

  lemma SlotsConcat(a: seq<Part>, b: seq<Part>)
    ensures Slots(a + b) == Slots(a) + Slots(b)
  {
  }

  /** The first parts of the queue have their ETags. */
  ghost predicate FilledUpTo(queue: seq<Part>, done: nat, etags: seq<string>) {
    done <= |queue| && Filled(Slots(queue[..done]), etags)
  }

  lemma FilledStart(queue: seq<Part>, etags: seq<string>)
    ensures FilledUpTo(queue, 0, etags)
  {
  }

  lemma FilledStep(queue: seq<Part>, done: nat, all: seq<Part>, start: seq<nat>, sent: seq<nat>, batch: nat,
                   before: seq<string>, etags: seq<string>)
    requires Underway(queue, done, all, start, sent) && batch <= |all| && KeepsFilled(before, etags)
    requires FilledUpTo(queue, done, before) && Filled(Slots(all[..batch]), etags)
    ensures FilledUpTo(queue, done + batch, etags)
  {
    forall i | 0 <= i < done + batch
      ensures queue[i].slot < |etags| && etags[queue[i].slot] != ""
    {
      if i < done {
        assert Slots(queue[..done])[i] == queue[i].slot;
      } else {
        assert Slots(all[..batch])[i - done] == queue[i].slot;
      }
    }
  }

  lemma FilledEnd(queue: seq<Part>, done: nat, start: seq<nat>, sent: seq<nat>, etags: seq<string>)
    requires Underway(queue, done, [], start, sent)
    ensures FilledUpTo(queue, done, etags) ==> Filled(Slots(queue), etags)
  {
    assert queue[..done] == queue;
  }

  lemma UnderwayLeft(queue: seq<Part>, done: nat, all: seq<Part>, start: seq<nat>, sent: seq<nat>)
    requires Underway(queue, done, all, start, sent)
    ensures |all| == |queue| - done
  {
  }

  lemma UnderwayEnd(queue: seq<Part>, done: nat, all: seq<Part>, start: seq<nat>, sent: seq<nat>)
    requires Underway(queue, done, all, start, sent) && all == []
    ensures InTurn(queue, start, sent, true)
  {
    assert queue[..done] == queue;
  }

  /** All rounds so far had full batches, except for the one that emptied the queue. */
  ghost predicate FullBatches(rounds: nat, batch: nat, done: nat, n: nat) {
    done <= n && (done == n || done == rounds * batch) && rounds * batch < n + batch
  }

  /** Where the rounds stand: what is sent, what waits, and, if nothing went wrong, what has its ETag. */
  ghost predicate Progress(queue: seq<Part>, retries: int, batch: nat, rounds: nat, done: nat, all: seq<Part>,
                           start: seq<nat>, sent: seq<nat>, etags: seq<string>, now: seq<string>, calm: bool)
  {
    && FullBatches(rounds, batch, done, |queue|)
    && Underway(queue, done, all, start, sent)
    && KeepsFilled(etags, now)
    && rounds + Weight(all, retries) <= Weight(queue, retries)
    && (calm ==> FilledUpTo(queue, done, now))
  }

  lemma ProgressStart(queue: seq<Part>, retries: int, batch: int, sent: seq<nat>, etags: seq<string>)
    requires 0 < batch
    ensures forall calm :: Progress(queue, retries, batch, 0, 0, queue, sent, sent, etags, etags, calm)
  {
    hide Weight, Filled, Slots;
    UnderwayStart(queue, sent);
    FilledStart(queue, etags);
    KeepsAll(etags);
  }

  lemma ProgressStep(queue: seq<Part>, retries: int, batch: nat, rounds: nat, done: nat, all: seq<Part>,
                     rest: seq<Part>, start: seq<nat>, sent: seq<nat>, more: seq<nat>, etags: seq<string>,
                     before: seq<string>, now: seq<string>, calm: bool, still: bool)
    requires Progress(queue, retries, batch, rounds, done, all, start, sent, etags, before, calm) && all != []
    requires KeepsFilled(before, now) && rest == all[Min(batch, |all|)..]
    requires Weight(rest, retries) < Weight(all, retries)
    requires InTurn(all[..Min(batch, |all|)], sent, more, true)
    requires still ==> calm && Filled(Slots(all[..Min(batch, |all|)]), now)
    ensures Progress(queue, retries, batch, rounds + 1, done + Min(batch, |all|), rest, start, more, etags, now, still)
  {
    hide Weight, Filled, Slots, InTurn, KeepsFilled;
    UnderwayLeft(queue, done, all, start, sent);
    UnderwayStep(queue, done, all, rest, start, sent, more, Min(batch, |all|), true);
    OneRoundMore(rounds, batch, done, |queue|);
    KeepsTwice(etags, before, now);
    if still {
      FilledStep(queue, done, all, start, sent, Min(batch, |all|), before, now);
    }
  }

  lemma ProgressFailed(queue: seq<Part>, retries: int, batch: nat, rounds: nat, done: nat, all: seq<Part>,
                       start: seq<nat>, sent: seq<nat>, more: seq<nat>, etags: seq<string>, before: seq<string>,
                       now: seq<string>, calm: bool)
    requires Progress(queue, retries, batch, rounds, done, all, start, sent, etags, before, calm)
    requires KeepsFilled(before, now) && InTurn(all[..Min(batch, |all|)], sent, more, false)
    ensures InTurn(queue, start, more, false) && KeepsFilled(etags, now)
    ensures rounds <= Weight(queue, retries) && rounds * batch < |queue| + batch
  {
    hide Weight, Filled, Slots, InTurn, KeepsFilled;
    UnderwayStep(queue, done, all, all, start, sent, more, Min(batch, |all|), false);
    KeepsTwice(etags, before, now);
    LastRound(rounds, batch, done, |queue|);
  }

  lemma ProgressEnd(queue: seq<Part>, retries: int, batch: nat, rounds: nat, done: nat, start: seq<nat>,
                    sent: seq<nat>, etags: seq<string>, now: seq<string>, calm: bool)
    requires Progress(queue, retries, batch, rounds, done, [], start, sent, etags, now, calm)
    ensures InTurn(queue, start, sent, true) && KeepsFilled(etags, now)
    ensures rounds <= Weight(queue, retries) && rounds * batch < |queue| + batch
    ensures calm ==> Filled(Slots(queue), now)
  {
    hide Weight, Filled, Slots, InTurn, KeepsFilled;
    UnderwayEnd(queue, done, [], start, sent);
    LastRound(rounds, batch, done, |queue|);
    FilledEnd(queue, done, start, sent, now);
  }

  lemma LastRound(rounds: nat, batch: nat, done: nat, n: nat)
    requires FullBatches(rounds, batch, done, n)
    ensures rounds * batch < n + batch
  {
  }

  lemma OneRoundMore(rounds: nat, batch: nat, done: nat, n: nat)
    requires FullBatches(rounds, batch, done, n) && done < n
    ensures FullBatches(rounds + 1, batch, done + Min(batch, n - done), n)
  {
    assert (rounds + 1) * batch == rounds * batch + batch;
  }

  predicate SameSlice(p: Part, q: Part) {
    p.slot == q.slot && p.number == q.number && p.start == q.start && p.size == q.size
  }

  // ---------- how steps keep it ----------

  lemma PendingSend(all: seq<Part>, req: seq<Part>, slices: seq<Slice>, etags: seq<string>)
    requires Pending(all, req, slices, etags) && all != []
    ensures Pending(all[1..], req + [all[0]], slices, etags)
  {
  }

  lemma PendingUpdate(all: seq<Part>, req: seq<Part>, slices: seq<Slice>, etags: seq<string>, i: nat, p: Part)
    requires Pending(all, req, slices, etags) && i < |req| && SameSlice(p, req[i])
    ensures Pending(all, req[i := p], slices, etags)
  {
  }

  /** The first sent part is finished, whatever is stored in its slot. */
  lemma PendingFinish(all: seq<Part>, req: seq<Part>, slices: seq<Slice>, etags: seq<string>, etag: string)
    requires Pending(all, req, slices, etags) && req != []
    ensures req[0].slot < |etags| && etags[req[0].slot] == ""
    ensures Pending(all, req[1..], slices, etags[req[0].slot := etag])
    ensures Pending(all, req[1..], slices, etags)
  {
  }

  /** The first sent part is replaced by a new pending part for the same slice. */
  lemma PendingRetry(all: seq<Part>, req: seq<Part>, slices: seq<Slice>, etags: seq<string>, pos: nat, p: Part)
    requires Pending(all, req, slices, etags) && req != [] && pos <= |all| && SameSlice(p, req[0])
    ensures Pending(all[..pos] + [p] + all[pos..], req[1..], slices, etags)
  {
    var more := all[..pos] + [p] + all[pos..];
    assert forall k :: 0 <= k < |more| ==> more[k] == if k < pos then all[k] else if k == pos then p else all[k - 1];
  }

  /** A new slot, still empty, and the part that is to fill it. */
  lemma PendingAdd(all: seq<Part>, slices: seq<Slice>, etags: seq<string>, pos: nat, p: Part)
    requires Pending(all, [], slices, etags) && |slices| == |etags| && p.slot == |etags| && p.number == |etags| + 1
    requires pos <= |all|
    ensures Pending(all[..pos] + [p] + all[pos..], [], slices + [Slice(p.start, p.size)], etags + [""])
  {
    var more := all[..pos] + [p] + all[pos..];
    assert forall k :: 0 <= k < |more| ==> more[k] == if k < pos then all[k] else if k == pos then p else all[k - 1];
  }

  lemma EarnedStore(etags: seq<string>, slices: seq<Slice>, log: set<Upload>, digest: nat -> string, p: Part,
                    etag: string)
    requires Earned(etags, slices, log, digest) && p.slot < |etags| && AnsweredOne(p, log)
    requires p.number == p.slot + 1 && slices[p.slot] == Slice(p.start, p.size)
    requires Answers(p.etag, etag, digest(p.slot))
    ensures Earned(etags[p.slot := etag], slices, log, digest)
  {
    var now := etags[p.slot := etag];
    forall k | 0 <= k < |now| && now[k] != ""
      ensures EarnedAt(now[k], k, slices[k], log, digest(k))
    {
      if k == p.slot {
        var body :| UploadOf(p, body) in log;
        assert Upload(k, k + 1, slices[k].start, slices[k].size, body, p.etag) in log;
      } else {
        assert EarnedAt(etags[k], k, slices[k], log, digest(k));
      }
    }
  }

  lemma EarnedMore(etags: seq<string>, slices: seq<Slice>, log: set<Upload>, more: set<Upload>, digest: nat -> string)
    requires Earned(etags, slices, log, digest) && log <= more
    ensures Earned(etags, slices, more, digest)
  {
    forall k | 0 <= k < |etags| && etags[k] != ""
      ensures EarnedAt(etags[k], k, slices[k], more, digest(k))
    {
      assert EarnedAt(etags[k], k, slices[k], log, digest(k));
      var answer, body :|
        Upload(k, k + 1, slices[k].start, slices[k].size, body, answer) in log && Answers(answer, etags[k], digest(k));
      assert Upload(k, k + 1, slices[k].start, slices[k].size, body, answer) in more;
    }
  }

  lemma EarnedAdd(etags: seq<string>, slices: seq<Slice>, log: set<Upload>, digest: nat -> string, slice: Slice)
    requires Earned(etags, slices, log, digest)
    ensures Earned(etags + [""], slices + [slice], log, digest)
  {
    var es, ss := etags + [""], slices + [slice];
    forall k | 0 <= k < |es| && es[k] != ""
      ensures EarnedAt(es[k], k, ss[k], log, digest(k))
    {
      assert EarnedAt(etags[k], k, slices[k], log, digest(k));
    }
  }

  class MultiCurl {
    /** The file that is uploaded. */
    const data: seq<Byte>
    const retries: int
    const maxMultireq: int
    const digest: nat -> string
    var etaglist: seq<string>
    var cMapAll: seq<Part>
    var cMapReq: seq<Part>
    ghost var slices: seq<Slice>
    ghost var log: set<Upload>
    /** The slots of the parts that were sent so far, each as often as it was. */
    ghost var sent: seq<nat>
    /** What went wrong outside so far. */
    ghost var troubles: nat

    ghost predicate Valid()
      reads this
    {
      && Pending(cMapAll, cMapReq, slices, etaglist)
      && Earned(etaglist, slices, log, digest)
      && Answered(cMapAll, log) && Answered(cMapReq, log)
      && Truthful(log, data)
    }

    constructor (data: seq<Byte>, retries: int, maxMultireq: int, digest: nat -> string)
      ensures Valid() && etaglist == [] && cMapAll == [] && cMapReq == [] && slices == [] && log == {} && sent == []
      ensures troubles == 0
      ensures this.data == data && this.retries == retries && this.maxMultireq == maxMultireq && this.digest == digest
    {
      this.data := data;
      this.retries := retries;
      this.maxMultireq := maxMultireq;
      this.digest := digest;
      etaglist, cMapAll, cMapReq, slices, log, sent, troubles := [], [], [], [], {}, [], 0;
    }

    /** Something outside the program that may go wrong: a thread to start, a handle to set up, a request to perform. */
    method Outside() returns (ok: bool)
      modifies `troubles
      ensures troubles == old(troubles) + if ok then 0 else 1
    {
      ok := *;
      if !ok {
        troubles := troubles + 1;
      }
    }

    /** add_etag_list and SetS3fsCurlObject: a new empty slot and the part that is to fill it, anywhere in the map. */
    method AddPart(start: nat, size: nat) returns (ghost pos: nat)
      requires Valid() && cMapReq == []
      modifies this
      ensures Valid() && cMapReq == []
      ensures etaglist == old(etaglist) + [""] && slices == old(slices) + [Slice(start, size)]
      ensures pos <= old(|cMapAll|)
      ensures
        var p := Part(old(|etaglist|), old(|etaglist|) + 1, start, size, 0, -1, false, None);
        cMapAll == old(cMapAll)[..pos] + [p] + old(cMapAll)[pos..]
      ensures log == old(log) && sent == old(sent) && troubles == old(troubles)
    {
      var p := Part(|etaglist|, |etaglist| + 1, start, size, 0, -1, false, None);
      var at: int := *;  // the new handle may come anywhere in the map
      at := Clamp(at, 0, |cMapAll|);
      pos := at;
      PendingAdd(cMapAll, slices, etaglist, at, p);
      AnsweredInsert(cMapAll, at, p, log);
      EarnedAdd(etaglist, slices, log, digest, Slice(start, size));
      etaglist := etaglist + [""];
      slices := slices + [Slice(start, size)];
      cMapAll := cMapAll[..at] + [p] + cMapAll[at..];
    }

    /** RequestPerform of one sent part: on success an HTTP code below 400, and the log has what was sent. */
    method PerformOne(i: nat) returns (rc: int)
      requires Valid() && i < |cMapReq|
      modifies `cMapReq, `log, `sent, `troubles
      ensures old(troubles) <= troubles && (rc != 0 ==> retries <= 0 || old(troubles) < troubles)
      ensures Valid() && |cMapReq| == old(|cMapReq|) && sent == old(sent) + [old(cMapReq)[i].slot]
      ensures Tagged(cMapReq[i])
      ensures cMapReq == old(cMapReq)[i := cMapReq[i]] && SameSlice(cMapReq[i], old(cMapReq)[i])
      ensures Weight(cMapReq, retries) <= old(Weight(cMapReq, retries))
      ensures rc == 0 ==> cMapReq[i].accepted && cMapReq[i].code < 400
      ensures old(log) <= log
    {
      hide Pending, Earned, SumBy, SentFrom, Answered, Attempted, Accepted;
      var p := cMapReq[i];
      var request := new PartRequest(data, p.start, p.size, p.retryCount);
      var code;
      ghost var body;
      ghost var attempts;
      rc, code, body, attempts := request.RequestPerform(retries);
      sent := sent + [p.slot];
      AttemptedSuccess(attempts, CodesOf(attempts), retries, rc);
      if attempts != [] && !Accepted(attempts[|attempts| - 1].code, attempts[|attempts| - 1]) {
        troubles := troubles + 1;
      }
      var head: string := *;  // the header text of the answer
      var after :=
        p.(retryCount := request.retryCount, code := code, accepted := rc == 0, etag := AnsweredEtag(head));
      if rc == 0 {
        ghost var more := log + {UploadOf(after, body)};
        EarnedMore(etaglist, slices, log, more, digest);
        AnsweredMore(cMapAll, log, more);
        AnsweredMore(cMapReq, log, more);
        assert AnsweredOne(after, more);
        log := more;
      }
      PendingUpdate(cMapAll, cMapReq, slices, etaglist, i, after);
      AnsweredUpdate(cMapReq, i, after, log);
      SumUpdate(Weigher(retries), cMapReq, i, after);
      cMapReq := cMapReq[i := after];
    }

    /**
     One thread for each sent part, each with its own attempts. Fails if any thread
     could not be started or any request failed in the end.
     */
    method MultiPerform() returns (result: int)
      requires Valid()
      modifies `cMapReq, `log, `sent, `troubles
      ensures Valid()
      ensures Slots(cMapReq) == old(Slots(cMapReq)) && (result == 0 ==> AllTagged(cMapReq))
      ensures old(troubles) <= troubles && (result != 0 ==> retries <= 0 || old(troubles) < troubles)
      ensures old(sent) <= sent <= old(sent + Slots(cMapReq))
      ensures result == 0 ==> sent == old(sent + Slots(cMapReq))
      ensures |cMapReq| == old(|cMapReq|) && Weight(cMapReq, retries) <= old(Weight(cMapReq, retries))
      ensures result == 0 || result == -EIO
      ensures result == 0 ==> AllAccepted(cMapReq) && AllGood(cMapReq)
      ensures old(log) <= log
    {
      hide Pending, Earned, SumBy, Answered, SentFrom, Truthful;
      var success := true;
      var i := 0;
      ghost var slots := Slots(cMapReq);
      SlotsAt(cMapReq);
      while i < |cMapReq|
        invariant i <= |cMapReq| == old(|cMapReq|) && Valid()
        invariant Slots(cMapReq) == slots && sent == old(sent) + slots[..i]
        invariant Weight(cMapReq, retries) <= old(Weight(cMapReq, retries))
        invariant success ==> AllAccepted(cMapReq[..i]) && AllGood(cMapReq[..i])
        invariant AllTagged(cMapReq[..i]) && old(troubles) <= troubles
        invariant !success ==> retries <= 0 || old(troubles) < troubles
        invariant old(log) <= log
      {
        var created := Outside();  // pthread_create
        if !created {
          success := false;
          break;
        }
        ghost var before := cMapReq;
        var rc := PerformOne(i);
        SlotsAt(cMapReq);
        DoneOne(before, cMapReq, i);
        if rc != 0 {
          success := false;
        }
        i := i + 1;
      }
      assert i == |cMapReq| ==> cMapReq[..i] == cMapReq;
      result := if success then 0 else -EIO;
    }

    /** UploadMultipartPostCallback: stores the answered ETag in the part's slot, or else the digest. */
    method SuccessCallback(p: Part)
      requires Valid() && cMapReq != [] && p == cMapReq[0] && p.accepted
      modifies `etaglist, `cMapReq
      ensures Valid() && cMapReq == old(cMapReq)[1..]
      ensures p.slot < |old(etaglist)| && old(etaglist)[p.slot] == ""
      ensures etaglist == old(etaglist)[p.slot := etaglist[p.slot]]
      ensures p.etag.Some? ==> etaglist[p.slot] == p.etag.value
      ensures p.etag.None? ==> etaglist[p.slot] == digest(p.slot)
    {
      hide Pending, Earned;
      PendingFirst(cMapAll, cMapReq, slices, etaglist);
      var etag := digest(p.slot);
      if p.etag.Some? {
        etag := p.etag.value;
      }
      PendingFinish(cMapAll, cMapReq, slices, etaglist, etag);
      EarnedStore(etaglist, slices, log, digest, p, etag);
      etaglist := etaglist[p.slot := etag];
      cMapReq := cMapReq[1..];
    }

    /** UploadMultipartPostRetryCallback: a new part for the same slice, unless the retries are used up. */
    method RetryCallback(p: Part) returns (again: Option<Part>)
      modifies `troubles
      ensures old(troubles) <= troubles
      ensures again.None? <==> retries <= p.retryCount || old(troubles) < troubles
      ensures again.None? || (IsRetryOf(again.value, p) && !again.value.accepted)
      ensures again.Some? ==> PartWeight(again.value, retries) < PartWeight(p, retries)
    {
      if p.retryCount >= retries {
        return None;
      }
      var ready := Outside();  // setting up the new request
      if !ready {
        return None;
      }
      return Some(p.(retryCount := p.retryCount + 1, accepted := false, etag := None));
    }

    /** Queues the first sent part again, if its retry can be set up. */
    method Requeue(p: Part) returns (ok: bool)
      requires Valid() && cMapReq != [] && p == cMapReq[0]
      modifies `cMapAll, `cMapReq, `troubles
      ensures old(troubles) <= troubles && (!ok ==> retries <= p.retryCount || old(troubles) < troubles)
      ensures Valid() && (!ok ==> cMapAll == old(cMapAll) && cMapReq == old(cMapReq))
      ensures ok ==> cMapReq == old(cMapReq)[1..] && (exists q :: q in cMapAll && IsRetryOf(q, p))
      ensures ok ==> forall q :: q in old(cMapAll) ==> q in cMapAll
      ensures forall q :: q in cMapAll && q !in old(cMapAll) ==> IsRetryOf(q, p)
      ensures ok ==> Weight(cMapAll, retries) < old(Weight(cMapAll, retries)) + PartWeight(p, retries)
    {
      hide Pending, Earned, SumBy, Answered, Truthful;
      var again := RetryCallback(p);
      if again.None? {
        return false;
      }
      var pos: int := *;  // the new handle may come anywhere in the map
      pos := Clamp(pos, 0, |cMapAll|);
      PendingRetry(cMapAll, cMapReq, slices, etaglist, pos, again.value);
      SumInsert(Weigher(retries), cMapAll, pos, again.value);
      AnsweredInsert(cMapAll, pos, again.value, log);
      AnsweredRest(cMapReq, log);
      Spliced(cMapAll, pos, again.value);
      cMapAll := cMapAll[..pos] + [again.value] + cMapAll[pos..];
      cMapReq := cMapReq[1..];
      return true;
    }

    /** One round of the loop of MultiRead. */
    method ReadOne(ghost unread: set<nat>) returns (ok: bool, ghost unknown: set<nat>)
      requires Valid() && cMapReq != [] && cMapReq[0].accepted && cMapReq[0].slot !in unread
      modifies this
      ensures Valid() && log == old(log) && slices == old(slices) && KeepsFilled(old(etaglist), etaglist)
      ensures sent == old(sent) && old(troubles) <= troubles
      ensures troubles == old(troubles) ==> unknown == unread
      ensures !ok ==> cMapReq == old(cMapReq)
      ensures ok ==> cMapReq == old(cMapReq)[1..]
      ensures ok ==> Handled(old(cMapReq)[0], etaglist, cMapAll, digest, unknown)
      ensures unknown == unread || unknown == unread + {old(cMapReq)[0].slot}
      ensures forall k :: 0 <= k < |etaglist| && k != old(cMapReq)[0].slot ==> etaglist[k] == old(etaglist)[k]
      ensures forall q :: q in old(cMapAll) ==> q in cMapAll
      ensures old(cMapReq)[0].code < 400 ==> ok && cMapAll == old(cMapAll)
      ensures forall q :: q in cMapAll && q !in old(cMapAll) ==>
        IsRetryOf(q, old(cMapReq)[0]) && 400 <= old(cMapReq)[0].code && old(cMapReq)[0].code != 404
      ensures ok ==> Weight(cMapAll, retries) < old(Weight(cMapAll, retries)) + PartWeight(old(cMapReq)[0], retries)
    {
      hide Pending, Earned, SumBy, Answered, KeepsFilled, Truthful;
      var p := cMapReq[0];
      AnsweredRest(cMapReq, log);
      PendingFirst(cMapAll, cMapReq, slices, etaglist);
      KeepsAll(etaglist);
      var isRetry := false;
      var known := Outside();  // asking curl for the response code
      unknown := if known then unread else unread + {p.slot};
      if known && 400 > p.code {
        ghost var before := etaglist;
        SuccessCallback(p);
        KeepsStore(before, before, p.slot, etaglist[p.slot]);
      } else if known && 404 != p.code {
        isRetry := true;
      }
      ok := true;
      if isRetry {
        ok := Requeue(p);
      } else if !(known && 400 > p.code) {
        PendingFinish(cMapAll, cMapReq, slices, etaglist, "");
        cMapReq := cMapReq[1..];
      }
    }

    /**
     Looks at the answer of every sent part: stores it, gives the part up, or queues it again. When all codes
     are below 400, as they are after a MultiPerform that succeeded, nothing is queued again.
     */
    method MultiRead() returns (result: int, ghost unknown: set<nat>)
      requires Valid() && AllAccepted(cMapReq)
      modifies this
      ensures Valid() && log == old(log) && slices == old(slices) && this.sent == old(this.sent)
      ensures KeepsFilled(old(etaglist), etaglist)
      ensures old(troubles) <= troubles && (troubles == old(troubles) ==> unknown == {})
      ensures result == 0 || result == -EIO
      ensures result == 0 ==> cMapReq == []
      ensures result == 0 ==> AllHandled(old(cMapReq), old(|cMapReq|), etaglist, cMapAll, digest, unknown)
      ensures OnlyRetries(old(cMapReq), old(cMapAll), cMapAll)
      ensures old(AllGood(cMapReq)) ==> result == 0 && cMapAll == old(cMapAll)
      ensures result == 0 ==>
        Weight(cMapAll, retries) + old(|cMapReq|) <= old(Weight(cMapAll, retries) + Weight(cMapReq, retries))
      ensures result != 0 ==> cMapReq != []
    {
      ghost var sent, total := cMapReq, Weight(cMapAll, retries) + Weight(cMapReq, retries);
      ghost var n := 0;
      SentSlots(cMapAll, cMapReq, slices, etaglist);
      hide Pending, Earned, SumBy, Answered, KeepsFilled, Truthful, DistinctSlots, RetriesSome, IsRetryOf;
      KeepsAll(etaglist);
      unknown := {};
      NothingHandled(sent, etaglist, cMapAll, digest, unknown);
      while cMapReq != []
        invariant Valid() && AllAccepted(cMapReq) && log == old(log) && slices == old(slices)
        invariant this.sent == old(this.sent) && old(troubles) <= troubles
        invariant troubles == old(troubles) ==> unknown == {}
        invariant KeepsFilled(old(etaglist), etaglist)
        invariant 0 <= n <= |sent| && cMapReq == sent[n..]
        invariant AllHandled(sent, n, etaglist, cMapAll, digest, unknown)
        invariant AllGood(sent) ==> cMapAll == old(cMapAll)
        invariant OnlyRetries(sent, old(cMapAll), cMapAll)
        invariant Weight(cMapAll, retries) + Weight(cMapReq, retries) + n <= total
        decreases |cMapReq|
      {
        WeightFirst(cMapReq, retries);
        ghost var etags, all, unread := etaglist, cMapAll, unknown;
        assert cMapReq[0] == sent[n];
        var ok;
        ok, unknown := ReadOne(unknown);
        OnlyMore(sent, n, old(cMapAll), all, cMapAll);
        if !ok {
          return -EIO, unknown;
        }
        KeepsTwice(old(etaglist), etags, etaglist);
        HandledStep(sent, n, etags, etaglist, all, cMapAll, digest, unread, unknown);
        n := n + 1;
      }
      WeightNone(cMapReq, retries);
      return 0, unknown;
    }

    /**
     Sends all queued parts in rounds of at most maxMultireq. The weight of the queue
     falls in every round, so the rounds end whatever the server does; since a round only goes on when all its
     codes are below 400, each part is sent at most once, in the order of the queue, and there are no more rounds
     than full batches. A failure leaves an empty slot behind.
     */
    method Request() returns (result: int, ghost rounds: nat)
      requires Valid() && cMapReq == [] && 1 <= maxMultireq
      modifies this
      ensures Valid() && cMapAll == [] && cMapReq == []
      ensures slices == old(slices) && old(log) <= log && KeepsFilled(old(etaglist), etaglist)
      ensures result == 0 || result == -EIO
      ensures result != 0 ==> "" in etaglist
      ensures InTurn(old(cMapAll), old(sent), sent, result == 0)
      ensures old(troubles) <= troubles
      ensures Untroubled(old(troubles)) ==> result == 0 && Filled(Slots(old(cMapAll)), etaglist)
      ensures DistinctSlots(old(cMapAll))
      ensures rounds <= old(Weight(cMapAll, retries))
      ensures rounds * maxMultireq < old(|cMapAll|) + maxMultireq
    {
      hide Pending, Earned, SumBy, Answered, KeepsFilled, AllAccepted, AllGood, Truthful, AllHandled, Slots, Weight,
        DistinctSlots, InTurn, Filled, AllDigests, Progress;
      QueueSlots(cMapAll, cMapReq, slices, etaglist);
      rounds := 0;
      ghost var queue, start, etags, before := cMapAll, sent, etaglist, troubles;
      ghost var done: nat := 0;
      ProgressStart(queue, retries, maxMultireq, start, etags);
      while cMapAll != []
        invariant Valid() && cMapReq == []
        invariant slices == old(slices) && old(log) <= log && before <= troubles
        invariant Progress(queue, retries, maxMultireq, rounds, done, cMapAll, start, sent, etags, etaglist,
                           Untroubled(before))
        decreases Weight(cMapAll, retries)
      {
        ghost var all, soFar, were, calm := cMapAll, sent, etaglist, Untroubled(before);
        result := Round();
        if 0 != result {
          ProgressFailed(queue, retries, maxMultireq, rounds, done, all, start, soFar, sent, etags, were, etaglist,
                         calm);
          Clear();
          return;
        }
        ProgressStep(queue, retries, maxMultireq, rounds, done, all, cMapAll, start, soFar, sent, etags, were, etaglist,
                     calm, Untroubled(before));
        done := done + Min(maxMultireq, |all|);
        rounds := rounds + 1;
      }
      ProgressEnd(queue, retries, maxMultireq, rounds, done, start, sent, etags, etaglist, Untroubled(before));
      return 0, rounds;
    }

    /** Nothing went wrong outside since, and every part can be sent and has a digest. */
    ghost predicate Untroubled(before: nat)
      reads this
    {
      troubles == before && 0 < retries && AllDigests(digest)
    }

    /** One round of the loop of Request: a batch is sent, and its answers are looked at. */
    method Round() returns (result: int)
      requires Valid() && cMapReq == [] && cMapAll != [] && 1 <= maxMultireq
      modifies this
      ensures Valid() && slices == old(slices) && old(log) <= log && KeepsFilled(old(etaglist), etaglist)
      ensures result == 0 || (result == -EIO && "" in etaglist)
      ensures result == 0 ==> cMapReq == []
      ensures old(troubles) <= troubles
      ensures Untroubled(old(troubles)) ==>
        result == 0 && Filled(Slots(old(cMapAll)[..Min(maxMultireq, |old(cMapAll)|)]), etaglist)
      ensures InTurn(old(cMapAll)[..Min(maxMultireq, |old(cMapAll)|)], old(sent), sent, result == 0)
      ensures result == 0 ==> cMapAll == old(cMapAll)[Min(maxMultireq, |old(cMapAll)|)..]
      ensures result == 0 ==> Weight(cMapAll, retries) < old(Weight(cMapAll, retries))
    {
      hide Pending, Earned, SumBy, Answered, KeepsFilled, AllAccepted, AllGood, Truthful, AllHandled, Slots, Weight,
        Filled, AllTagged, AllDigests;
      Send();
      KeepsAll(etaglist);
      result := MultiPerform();
      if 0 == result {
        ghost var unknown, answered := {}, cMapReq;
        result, unknown := MultiRead();
        if Untroubled(old(troubles)) {
          HandledFills(answered, etaglist, cMapAll, digest);
        }
      }
      if 0 != result {
        PendingLeavesHole(cMapAll, cMapReq, slices, etaglist);
      }
    }

    /** Moves the first queued parts, at most maxMultireq, into the sent ones. */
    method Send()
      requires Valid() && cMapReq == [] && cMapAll != [] && 1 <= maxMultireq
      modifies `cMapAll, `cMapReq
      ensures Valid() && cMapReq != []
      ensures |cMapReq| == Min(maxMultireq, old(|cMapAll|))
      ensures cMapReq == old(cMapAll)[..|cMapReq|] && cMapAll == old(cMapAll)[|cMapReq|..]
      ensures Weight(cMapAll, retries) + Weight(cMapReq, retries) == old(Weight(cMapAll, retries))
    {
      hide Pending, Earned, SumBy, Answered;
      WeightNone(cMapReq, retries);
      var cnt := 0;
      while cnt < maxMultireq && cMapAll != []
        invariant Valid() && 0 <= cnt <= maxMultireq && |cMapReq| == cnt <= old(|cMapAll|)
        invariant cMapReq == old(cMapAll)[..cnt] && cMapAll == old(cMapAll)[cnt..]
        invariant Weight(cMapAll, retries) + Weight(cMapReq, retries) == old(Weight(cMapAll, retries))
        decreases maxMultireq - cnt
      {
        var p := cMapAll[0];
        PendingSend(cMapAll, cMapReq, slices, etaglist);
        WeightFirst(cMapAll, retries);
        SumConcat(Weigher(retries), cMapReq, [p]);
        SumOne(Weigher(retries), p);
        AnsweredMove(cMapAll, cMapReq, log);
        cMapReq := cMapReq + [p];
        cMapAll := cMapAll[1..];
        cnt := cnt + 1;
      }
    }

    /** Drops all queued and sent parts. */
    method Clear()
      requires Valid()
      modifies `cMapAll, `cMapReq
      ensures Valid() && cMapAll == [] && cMapReq == []
    {
      cMapReq := [];
      cMapAll := [];
    }
  }

  /** No filled slot is emptied or overwritten. */
  ghost predicate KeepsFilled(before: seq<string>, after: seq<string>) {
    && |after| == |before|
    && forall k :: 0 <= k < |before| && before[k] != "" ==> after[k] == before[k]
  }

  lemma KeepsAll(etags: seq<string>)
    ensures KeepsFilled(etags, etags)
  {
  }

  lemma KeepsTwice(a: seq<string>, b: seq<string>, c: seq<string>)
    requires KeepsFilled(a, b) && KeepsFilled(b, c)
    ensures KeepsFilled(a, c)
  {
  }

  lemma KeepsStore(a: seq<string>, b: seq<string>, slot: nat, etag: string)
    requires KeepsFilled(a, b) && slot < |b| && b[slot] == ""
    ensures KeepsFilled(a, b[slot := etag])
  {
  }

  lemma WeightFirst(parts: seq<Part>, retries: int)
    requires parts != []
    ensures Weight(parts, retries) == PartWeight(parts[0], retries) + Weight(parts[1..], retries)
    ensures 1 <= PartWeight(parts[0], retries)
  {
  }

  lemma WeightNone(parts: seq<Part>, retries: int)
    ensures parts == [] ==> Weight(parts, retries) == 0
  {
  }

  lemma AnsweredRest(parts: seq<Part>, log: set<Upload>)
    requires Answered(parts, log) && parts != []
    ensures Answered(parts[1..], log)
  {
  }

  lemma AnsweredInsert(parts: seq<Part>, pos: nat, p: Part, log: set<Upload>)
    requires Answered(parts, log) && !p.accepted && pos <= |parts|
    ensures Answered(parts[..pos] + [p] + parts[pos..], log)
  {
  }

  lemma AnsweredMove(all: seq<Part>, req: seq<Part>, log: set<Upload>)
    requires Answered(all, log) && Answered(req, log) && all != []
    ensures Answered(all[1..], log) && Answered(req + [all[0]], log)
  {
  }

  /** A pending part's slot is empty. */
  lemma PendingLeavesHole(all: seq<Part>, req: seq<Part>, slices: seq<Slice>, etags: seq<string>)
    requires Pending(all, req, slices, etags) && req != []
    ensures "" in etags
  {
    assert etags[req[0].slot] == "";
  }

  lemma PendingFirst(all: seq<Part>, req: seq<Part>, slices: seq<Slice>, etags: seq<string>)
    requires Pending(all, req, slices, etags) && req != []
    ensures req[0].slot < |slices| && slices[req[0].slot] == Slice(req[0].start, req[0].size)
    ensures req[0].slot < |etags| && etags[req[0].slot] == "" && req[0].number == req[0].slot + 1
  {
  }
}
