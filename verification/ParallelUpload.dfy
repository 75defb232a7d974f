/** A whole parallel upload: slicing, batches, and the completion request at the end. */
module ParallelUpload {
  import opened Bytes
  import opened Downloads
  import opened Errno
  import opened MultipartUploads
  import opened PartUploads
  import opened Wrappers

  const MAX_MULTIPART_CNT: nat := 10000

  // ---------- slices ----------

  /** The slices follow each other from 0 to the end; all but the last have the multipart size. */
  ghost predicate Tiles(slices: seq<Slice>, end: nat, multipartSize: nat) {
    && (slices == [] ==> end == 0)
    && (slices != [] ==> slices[0].start == 0 && end == slices[|slices| - 1].Next())
    && (forall i, j :: 0 <= i < j < |slices| && j == i + 1 ==> slices[j].start == slices[i].Next())
    && (forall i :: 0 <= i < |slices| ==> 0 < slices[i].size <= multipartSize)
    && (forall i :: 0 <= i < |slices| - 1 ==> slices[i].size == multipartSize)
  }

  lemma TilesSnoc(slices: seq<Slice>, end: nat, multipartSize: nat, size: nat)
    requires Tiles(slices, end, multipartSize) && 0 < size <= multipartSize
    requires slices != [] ==> slices[|slices| - 1].size == multipartSize
    ensures Tiles(slices + [Slice(end, size)], end + size, multipartSize)
  {
  }

  lemma {:induction false} SliceStart(slices: seq<Slice>, end: nat, multipartSize: nat, k: nat)
    requires Tiles(slices, end, multipartSize) && k < |slices|
    ensures slices[k].start == k * multipartSize
  {
    if 0 < k {
      SliceStart(slices, end, multipartSize, k - 1);
      assert k * multipartSize == (k - 1) * multipartSize + multipartSize;
    }
  }

  ghost predicate InSlice(p: nat, s: Slice) {
    s.start <= p < s.Next()
  }

  /** A slice with byte p inside is the one at p divided by the multipart size. */
  lemma SliceIndex(slices: seq<Slice>, end: nat, multipartSize: nat, p: nat, i: nat)
    requires Tiles(slices, end, multipartSize) && 0 < multipartSize && i < |slices| && InSlice(p, slices[i])
    ensures i == p / multipartSize
  {
    SliceStart(slices, end, multipartSize, i);
    DivUnique(p, multipartSize, i);
  }

  lemma DivUnique(p: nat, m: nat, i: nat)
    requires 0 < m && i * m <= p < i * m + m
    ensures i == p / m
  {
    var k := p / m;
    if i < k {
      MulMono(i + 1, k, m);
    } else if k < i {
      MulMono(k + 1, i, m);
    }
  }

  /** Every byte of the file lies in exactly one slice. */
  lemma TilesCover(slices: seq<Slice>, end: nat, multipartSize: nat, p: nat) returns (k: nat)
    requires Tiles(slices, end, multipartSize) && p < end && 0 < multipartSize
    ensures k < |slices| && InSlice(p, slices[k])
    ensures forall i :: 0 <= i < |slices| && InSlice(p, slices[i]) ==> i == k
  {
    k := SliceAt(slices, end, multipartSize, p);
    SliceIndex(slices, end, multipartSize, p, k);
    forall i | 0 <= i < |slices| && InSlice(p, slices[i])
      ensures i == k
    {
      SliceIndex(slices, end, multipartSize, p, i);
    }
  }

  lemma {:induction false} SliceAt(slices: seq<Slice>, end: nat, multipartSize: nat, p: nat) returns (k: nat)
    requires Tiles(slices, end, multipartSize) && p < end
    ensures k < |slices| && InSlice(p, slices[k])
  {
    var n := |slices| - 1;
    if slices[n].start <= p {
      k := n;
    } else {
      k := SliceAt(slices[..n], slices[n].start, multipartSize, p);
    }
  }

  lemma MulMono(a: int, b: int, m: nat)
    requires a <= b
    ensures a * m <= b * m
  {
  }

  // ---------- the upload decision ----------

  datatype FlushMode = TooLarge | Parallel | Single

  /** RowFlush: how a file of this size is uploaded when no upload is under way. */
  function ModeFor(size: nat, multipartSize: nat, nomultipart: bool): FlushMode {
    if size > MAX_MULTIPART_CNT * multipartSize then TooLarge
    else if size >= 2 * multipartSize && !nomultipart then Parallel
    else Single
  }

  /**
   A file is refused exactly if it has more than 10000 slices, and uploaded in parallel exactly if it has
   2 to 10000 and, when it has two, both are full.
   */
  lemma PartCount(slices: seq<Slice>, size: nat, multipartSize: nat)
    requires Tiles(slices, size, multipartSize) && 0 < multipartSize
    ensures ModeFor(size, multipartSize, false) == TooLarge <==> MAX_MULTIPART_CNT < |slices|
    ensures ModeFor(size, multipartSize, false) == Parallel
      <==> 2 <= |slices| <= MAX_MULTIPART_CNT && (|slices| == 2 ==> size == 2 * multipartSize)
  {
    if slices != [] {
      var n := |slices| - 1;
      SliceStart(slices, size, multipartSize, n);
      var last := slices[n].size;
      hide Tiles;
      Exceeds(size, n, multipartSize, last, MAX_MULTIPART_CNT);
      Exceeds(size, n, multipartSize, last, 1);
      Exceeds(size, n, multipartSize, last, 2);
    }
  }

  /** A size of n full parts and a last one is over a number of parts exactly if n reaches it. */
  lemma Exceeds(size: nat, n: nat, multipartSize: nat, last: nat, limit: nat)
    requires size == n * multipartSize + last && 0 < last <= multipartSize
    ensures limit * multipartSize < size <==> limit <= n
  {
    if limit <= n {
      MulMono(limit, n, multipartSize);
    } else {
      MulMono(n + 1, limit, multipartSize);
    }
  }

  // ---------- completion ----------

  datatype PostedPart = PostedPart(number: nat, etag: string)

  /** Posts the numbered etags, or refuses when a slot is empty. */
  method CompleteMultipartPostRequest(multi: MultiCurl, parts: seq<string>)
    returns (result: int, body: Option<seq<PostedPart>>)
    modifies multi`troubles
    ensures old(multi.troubles) <= multi.troubles
    ensures "" !in parts && multi.troubles == old(multi.troubles) ==> result == 0
    ensures "" in parts ==> body.None? && result == -1
    ensures body.Some? ==> |body.value| == |parts|
    ensures body.Some? ==>
      forall k :: 0 <= k < |parts| ==> body.value[k] == PostedPart(k + 1, parts[k]) && parts[k] != ""
    ensures result == 0 ==> body.Some?
  {
    var content: seq<PostedPart> := [];
    var cnt := 0;
    while cnt < |parts|
      invariant cnt <= |parts| && |content| == cnt
      invariant forall k :: 0 <= k < cnt ==> content[k] == PostedPart(k + 1, parts[k]) && parts[k] != ""
    {
      if 0 == |parts[cnt]| {
        return -1, None;
      }
      content := content + [PostedPart(cnt + 1, parts[cnt])];
      cnt := cnt + 1;
    }
    var created := multi.Outside();  // CreateCurlHandle
    if !created {
      return -1, None;
    }
    var accepted := multi.Outside();  // RequestPerform
    result := if accepted then 0 else -EIO;
    body := Some(content);
  }

  // ---------- the whole upload ----------

  /** The posted parts are 1..n, they tile the file, and each etag was earned by its slice. */
  ghost predicate Complete(body: seq<PostedPart>, slices: seq<Slice>, log: set<Upload>, digest: nat -> string,
                           fileSize: nat, multipartSize: nat)
  {
    && Tiles(slices, fileSize, multipartSize)
    && |body| == |slices|
    && forall k :: 0 <= k < |body| ==>
      body[k].number == k + 1 && body[k].etag != "" && EarnedAt(body[k].etag, k, slices[k], log, digest(k))
  }

  lemma EarnedBody(body: seq<PostedPart>, etags: seq<string>, slices: seq<Slice>, log: set<Upload>,
                   digest: nat -> string, fileSize: nat, multipartSize: nat)
    requires Earned(etags, slices, log, digest) && Tiles(slices, fileSize, multipartSize)
    requires |body| == |etags|
    requires forall k :: 0 <= k < |etags| ==> body[k] == PostedPart(k + 1, etags[k]) && etags[k] != ""
    ensures Complete(body, slices, log, digest, fileSize, multipartSize)
  {
  }

  lemma NoSlots(n: nat)
    ensures SlotsFrom([], n, n) && SentOnce([], 0) && AllSent([], 0)
  {
  }

  /** One batch: parts are added until the batch is full or the file is used up. */
  method FillBatch(multi: MultiCurl, fileSize: nat, remaining: nat, multipartSize: nat, maxParallel: nat)
    returns (ok: bool, rest: nat)
    requires multi.Valid() && multi.cMapReq == [] && multi.cMapAll == []
    requires 0 < remaining <= fileSize && 0 < multipartSize && 0 < maxParallel
    requires Tiles(multi.slices, fileSize - remaining, multipartSize)
    requires forall k :: 0 <= k < |multi.slices| ==> multi.slices[k].size == multipartSize
    modifies multi
    ensures multi.Valid() && multi.cMapReq == [] && multi.sent == old(multi.sent)
    ensures old(|multi.etaglist|) <= |multi.etaglist| == |multi.slices|
    ensures SlotsFrom(multi.cMapAll, old(|multi.etaglist|), |multi.etaglist|)
    ensures rest <= remaining && (ok ==> rest < remaining)
    ensures old(multi.troubles) <= multi.troubles && (ok <==> multi.troubles == old(multi.troubles))
    ensures forall k :: 0 <= k < old(|multi.etaglist|) ==> multi.etaglist[k] == old(multi.etaglist)[k]
    ensures Tiles(multi.slices, fileSize - rest, multipartSize)
    ensures 0 < rest ==> forall k :: 0 <= k < |multi.slices| ==> multi.slices[k].size == multipartSize
  {
    hide Tiles, Pending, Answered, Truthful, EarnedAt, SlotsFrom, Slots;
    var paraCnt := 0;
    NoSlots(|multi.etaglist|);
    rest := remaining;
    while paraCnt < maxParallel && 0 < rest
      invariant multi.Valid() && multi.cMapReq == [] && multi.sent == old(multi.sent)
      invariant old(|multi.etaglist|) <= |multi.etaglist| == |multi.slices|
      invariant SlotsFrom(multi.cMapAll, old(|multi.etaglist|), |multi.etaglist|)
      invariant rest <= remaining && (0 < paraCnt ==> rest < remaining)
      invariant multi.troubles == old(multi.troubles)
      invariant forall k :: 0 <= k < old(|multi.etaglist|) ==> multi.etaglist[k] == old(multi.etaglist)[k]
      invariant Tiles(multi.slices, fileSize - rest, multipartSize)
      invariant 0 < rest ==> forall k :: 0 <= k < |multi.slices| ==> multi.slices[k].size == multipartSize
      decreases maxParallel - paraCnt
    {
      var chunk := if rest > multipartSize then multipartSize else rest;
      TilesSnoc(multi.slices, fileSize - rest, multipartSize, chunk);
      ghost var queue := multi.cMapAll;
      ghost var pos := multi.AddPart(fileSize - rest, chunk);
      SlotsAdd(queue, old(|multi.etaglist|), |multi.etaglist| - 1, pos, multi.cMapAll[pos]);
      paraCnt := paraCnt + 1;
      rest := rest - chunk;
      var ready := multi.Outside();  // setting up the request
      if !ready {
        return false, rest;
      }
    }
    return true, rest;
  }

  /**
   Uploads a file. A completion body is posted only if its parts tile the file and every etag comes from
   an accepted upload of its own slice under its own number; what was sent in an accepted upload is read
   from its slice of the file. No part is sent twice, and all are before a body is posted. When nothing goes
   wrong outside, the upload succeeds.
   */
  method ParallelMultipartUploadRequest(multi: MultiCurl, multipartSize: nat, maxParallel: nat)
    returns (result: int, body: Option<seq<PostedPart>>)
    requires multi.Valid() && multi.cMapReq == [] && multi.cMapAll == [] && multi.slices == []
    requires 0 < multipartSize && 0 < maxParallel && 1 <= multi.maxMultireq && multi.sent == []
    modifies multi
    ensures SentOnce(multi.sent, |multi.slices|) && (body.Some? ==> AllSent(multi.sent, |multi.slices|))
    ensures body.Some? ==> Complete(body.value, multi.slices, multi.log, multi.digest, |multi.data|, multipartSize)
    ensures body.Some? ==> AllAnswered(body.value, multi.slices, multi.log, multi.digest)
    ensures Truthful(multi.log, multi.data)
    ensures result == 0 ==> body.Some?
    ensures multi.Untroubled(old(multi.troubles)) ==> result == 0
    ensures body.Some? && ModeFor(|multi.data|, multipartSize, false) == Parallel ==>
      2 <= |body.value| <= MAX_MULTIPART_CNT
  {
    hide Tiles, Pending, Answered, Complete, KeepsFilled, Weight, Truthful, SentOnce, AllSent, DistinctSlots;
    hide SlotsFrom, EarnedAt, Slots, AllAnswered, Filled, AllDigests, InTurn;
    NoSlots(0);
    var begun := multi.Outside();  // PreMultipartPostRequest
    if !begun {
      return -EIO, None;
    }
    result := 0;
    NoSlices(multi.slices, multipartSize);
    var fileSize := |multi.data|;
    var remaining := fileSize;
    while 0 < remaining
      invariant multi.Valid() && multi.cMapReq == [] && multi.cMapAll == [] && 0 <= remaining <= fileSize
      invariant SentOnce(multi.sent, |multi.slices|) && AllSent(multi.sent, |multi.slices|)
      invariant Tiles(multi.slices, fileSize - remaining, multipartSize)
      invariant 0 < remaining ==> forall k :: 0 <= k < |multi.slices| ==> multi.slices[k].size == multipartSize
      invariant old(multi.troubles) <= multi.troubles
      invariant multi.Untroubled(old(multi.troubles)) ==> "" !in multi.etaglist
      decreases remaining
    {
      var ok;
      ghost var sent, lo := multi.sent, |multi.etaglist|;
      ok, remaining := FillBatch(multi, fileSize, remaining, multipartSize, maxParallel);
      if !ok {
        SentWider(sent, lo, |multi.slices|);
        return -1, None;
      }
      ghost var rounds, queue, etags := 0, multi.cMapAll, multi.etaglist;
      result, rounds := multi.Request();
      BatchSent(sent, multi.sent, queue, lo, |multi.slices|, result == 0);
      if multi.Untroubled(old(multi.troubles)) {
        NoneEmpty(queue, lo, etags, multi.etaglist);
      }
      if 0 != result {
        break;
      }
    }
    result, body := CompleteMultipartPostRequest(multi, multi.etaglist);
    if body.Some? {
      EarnedBody(body.value, multi.etaglist, multi.slices, multi.log, multi.digest, fileSize, multipartSize);
      CompleteIsAnswered(body.value, multi.slices, multi.log, multi.digest, fileSize, multipartSize);
      PartCount(multi.slices, fileSize, multipartSize);
    }
  }

  /** When the slots of a batch are filled and no other one was empty, none is. */
  lemma NoneEmpty(queue: seq<MultipartUploads.Part>, lo: nat, before: seq<string>, after: seq<string>)
    requires SlotsFrom(queue, lo, |after|) && Filled(Slots(queue), after) && KeepsFilled(before, after)
    requires lo <= |before| && forall k :: 0 <= k < lo ==> before[k] != ""
    ensures "" !in after
  {
    forall k | 0 <= k < |after|
      ensures after[k] != ""
    {
      if lo <= k {
        assert k in Slots(queue);
      }
    }
  }

  lemma SentWider(sent: seq<nat>, lo: nat, hi: nat)
    requires SentOnce(sent, lo) && lo <= hi
    ensures SentOnce(sent, hi)
  {
  }

  lemma NoSlices(slices: seq<Slice>, multipartSize: nat)
    ensures slices == [] ==> Tiles(slices, 0, multipartSize)
  {
  }

  // ---------- what the server puts together ----------

  /** The bytes of a slice of the file. */
  function Part(data: seq<Byte>, s: Slice): seq<Byte>
    requires s.Next() <= |data|
  {
    data[s.start..s.Next()]
  }

  lemma {:induction false} SlicesWithin(slices: seq<Slice>, end: nat, multipartSize: nat, k: nat)
    requires Tiles(slices, end, multipartSize) && k < |slices|
    ensures slices[k].Next() <= end
  {
    var n := |slices| - 1;
    if k < n {
      SlicesWithin(slices[..n], slices[n].start, multipartSize, k);
    }
  }

  /** Accepted uploads of whole bodies, one for each posted part, put together by their numbers, are the file. */
  lemma AssembledIsFile(uploads: seq<Upload>, slices: seq<Slice>, log: set<Upload>, data: seq<Byte>, multipartSize: nat)
    requires Tiles(slices, |data|, multipartSize) && Truthful(log, data) && |uploads| == |slices|
    requires forall k :: 0 <= k < |slices| ==>
      && uploads[k] in log && uploads[k].start == slices[k].start && uploads[k].size == slices[k].size
      && |uploads[k].body| == uploads[k].size
    ensures Concat(Bodies(uploads)) == data
  {
    forall k | 0 <= k < |slices|
      ensures slices[k].Next() <= |data| && Bodies(uploads)[k] == Part(data, slices[k])
    {
      SlicesWithin(slices, |data|, multipartSize, k);
      WholeBody(data, slices[k].start, slices[k].size, uploads[k].body);
    }
    ConcatSlices(Bodies(uploads), slices, data, |data|, multipartSize);
    assert data[..|data|] == data;
  }

  /** Accepted uploads with the numbers and ETags of the posted parts, each of its own slice. */
  ghost predicate Matches(uploads: seq<Upload>, body: seq<PostedPart>, slices: seq<Slice>, log: set<Upload>,
                          digest: nat -> string)
  {
    && |uploads| == |body| == |slices|
    && forall k :: 0 <= k < |uploads| ==> MatchesAt(uploads[k], body[k], slices[k], log, digest(k))
  }

  ghost predicate MatchesAt(u: Upload, part: PostedPart, slice: Slice, log: set<Upload>, digest: string) {
    && u in log && u.number == part.number
    && (u.etag.Some? ==> part.etag == u.etag.value)
    && (u.etag.None? ==> part.etag == digest)
    && u.start == slice.start && u.size == slice.size
  }

  /** For every part there is an accepted upload of its slice under its number, whose answer is the posted ETag. */
  ghost predicate AllAnswered(body: seq<PostedPart>, slices: seq<Slice>, log: set<Upload>, digest: nat -> string) {
    && |body| == |slices|
    && forall k :: 0 <= k < |body| ==>
      body[k].number == k + 1 && IsAnswered(body[k], slices[k], log, digest(k))
  }

  ghost predicate IsAnswered(part: PostedPart, slice: Slice, log: set<Upload>, digest: string) {
    exists u :: MatchesAt(u, part, slice, log, digest)
  }

  lemma CompleteIsAnswered(body: seq<PostedPart>, slices: seq<Slice>, log: set<Upload>, digest: nat -> string,
                           fileSize: nat, multipartSize: nat)
    requires Complete(body, slices, log, digest, fileSize, multipartSize)
    ensures AllAnswered(body, slices, log, digest)
  {
    var uploads := PostedUploads(body, slices, log, digest, fileSize, multipartSize);
    hide Tiles, EarnedAt;
    forall k | 0 <= k < |body|
      ensures body[k].number == k + 1 && IsAnswered(body[k], slices[k], log, digest(k))
    {
      assert MatchesAt(uploads[k], body[k], slices[k], log, digest(k));
    }
  }

  /** Every completion body that is posted has such uploads. */
  lemma PostedUploads(body: seq<PostedPart>, slices: seq<Slice>, log: set<Upload>, digest: nat -> string,
                      fileSize: nat, multipartSize: nat) returns (uploads: seq<Upload>)
    requires Complete(body, slices, log, digest, fileSize, multipartSize)
    ensures Matches(uploads, body, slices, log, digest)
  {
    hide Tiles;
    uploads := [];
    while |uploads| < |body|
      invariant |uploads| <= |body|
      invariant forall k :: 0 <= k < |uploads| ==> MatchesAt(uploads[k], body[k], slices[k], log, digest(k))
    {
      var k := |uploads|;
      assert EarnedAt(body[k].etag, k, slices[k], log, digest(k));
      var answer, bytes :|
        Upload(k, k + 1, slices[k].start, slices[k].size, bytes, answer) in log
        && Answers(answer, body[k].etag, digest(k));
      uploads := uploads + [Upload(k, k + 1, slices[k].start, slices[k].size, bytes, answer)];
    }
  }

  /** What they sent, put together in the order of the posted numbers, is the file exactly if all bodies are whole. */
  lemma PostedIsFile(uploads: seq<Upload>, body: seq<PostedPart>, slices: seq<Slice>, log: set<Upload>,
                     digest: nat -> string, data: seq<Byte>, multipartSize: nat)
    requires Complete(body, slices, log, digest, |data|, multipartSize) && Truthful(log, data)
    requires Matches(uploads, body, slices, log, digest)
    ensures forall k :: 0 <= k < |body| ==> body[k].number == k + 1 == uploads[k].number
    ensures Concat(Bodies(uploads)) == data <==> forall k :: 0 <= k < |uploads| ==> |uploads[k].body| == uploads[k].size
  {
    hide Tiles, EarnedAt, Concat;
    forall k | 0 <= k < |uploads|
      ensures |uploads[k].body| <= slices[k].size == uploads[k].size
    {
      assert MatchesAt(uploads[k], body[k], slices[k], log, digest(k));
      assert SentFrom(data, uploads[k].start, uploads[k].size, uploads[k].body);
    }
    if forall k :: 0 <= k < |uploads| ==> |uploads[k].body| == uploads[k].size {
      AssembledIsFile(uploads, slices, log, data, multipartSize);
    } else {
      var k :| 0 <= k < |uploads| && |uploads[k].body| != uploads[k].size;
      TooShort(Bodies(uploads), slices, |data|, multipartSize, k);
    }
  }

  /** Bodies no longer than their slices add up to the end only if none is shorter. */
  lemma {:induction false} TooShort(bodies: seq<seq<Byte>>, slices: seq<Slice>, end: nat, multipartSize: nat, k: nat)
    requires Tiles(slices, end, multipartSize) && |bodies| == |slices|
    requires forall i :: 0 <= i < |slices| ==> |bodies[i]| <= slices[i].size
    ensures |Concat(bodies)| <= end
    ensures k < |slices| && |bodies[k]| < slices[k].size ==> |Concat(bodies)| < end
  {
    if slices != [] {
      var n := |slices| - 1;
      TooShort(bodies[..n], slices[..n], slices[n].start, multipartSize, k);
      assert Concat(bodies) == Concat(bodies[..n]) + bodies[n];
    }
  }

  ghost function Bodies(uploads: seq<Upload>): (r: seq<seq<Byte>>)
    ensures |r| == |uploads|
  {
    seq(|uploads|, k requires 0 <= k < |uploads| => uploads[k].body)
  }

  lemma {:induction false} ConcatSlices(bodies: seq<seq<Byte>>, slices: seq<Slice>, data: seq<Byte>, end: nat,
                                        multipartSize: nat)
    requires Tiles(slices, end, multipartSize) && end <= |data| && |bodies| == |slices|
    requires forall k :: 0 <= k < |slices| ==> slices[k].Next() <= |data| && bodies[k] == Part(data, slices[k])
    ensures Concat(bodies) == data[..end]
  {
    if slices != [] {
      var n := |slices| - 1;
      ConcatSlices(bodies[..n], slices[..n], data, slices[n].start, multipartSize);
      assert Concat(bodies) == Concat(bodies[..n]) + bodies[n];
      hide Concat, Tiles;
      JoinAt(data, slices[n].start, end);
    }
  }

  lemma JoinAt(data: seq<Byte>, mid: nat, end: nat)
    requires mid <= end <= |data|
    ensures data[..mid] + data[mid..end] == data[..end]
  {
  }
}
