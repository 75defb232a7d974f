/**
 The chunks in which src/fdcache.cpp posts the pages of a file without a local cache, page by page.
 */
module PostPlans {
  import opened Ints
  import opened MultipartUploads
  import opened PageLists
  import opened Pages
  import ParallelUpload

  /** No part of an upload may be larger. */
  const FIVE_GB: nat := 5368709120

  /** The limits of the service: parts from 1 MB to 5 GB, and at most 10000 of them. */
  lemma Limits()
    ensures MIN_MULTIPART_SIZE == 1024 * 1024 && FIVE_GB == 5 * 1024 * 1024 * 1024
    ensures ParallelUpload.MAX_MULTIPART_CNT == 10 * 1000
  {
  }

  // ---------- the chunks of a page ----------

  /** The next chunk when this much of a page is left: a short tail is joined to it or shared evenly. */
  function OneRead(rest: nat, multipartSize: nat): nat {
    var oneread := Min(rest, multipartSize);
    if rest - oneread < MIN_MULTIPART_SIZE then
      if FIVE_GB < rest then rest / 2 else rest
    else oneread
  }

  lemma OneReadFits(rest: nat, multipartSize: nat)
    requires 0 < rest && MIN_MULTIPART_SIZE <= multipartSize
    ensures 0 < OneRead(rest, multipartSize) <= rest
    ensures OneRead(rest, multipartSize) < rest ==>
      && MIN_MULTIPART_SIZE <= OneRead(rest, multipartSize)
      && MIN_MULTIPART_SIZE <= rest - OneRead(rest, multipartSize)
    ensures OneRead(rest, multipartSize) < multipartSize + MIN_MULTIPART_SIZE
    ensures OneRead(rest, multipartSize) <= Max(multipartSize, FIVE_GB)
  {
  }

  /** The chunks of the last rest bytes before an end. */
  function Chunks(offset: nat, rest: nat, multipartSize: nat): seq<Slice>
    requires MIN_MULTIPART_SIZE <= multipartSize
    decreases rest
  {
    if rest == 0 then []
    else
      OneReadFits(rest, multipartSize);
      var oneread := OneRead(rest, multipartSize);
      [Slice(offset, oneread)] + Chunks(offset + oneread, rest - oneread, multipartSize)
  }

  /** The slices follow each other without gap or overlap, and none is empty. */
  ghost predicate Covers(slices: seq<Slice>, lo: nat, hi: nat) {
    && (slices == [] ==> lo == hi)
    && (slices != [] ==> slices[0].start == lo && slices[|slices| - 1].Next() == hi)
    && (forall i, j :: 0 <= i < j < |slices| && j == i + 1 ==> slices[j].start == slices[i].Next())
    && (forall i :: 0 <= i < |slices| ==> 0 < slices[i].size)
  }

  lemma CoversConcat(a: seq<Slice>, b: seq<Slice>, lo: nat, mid: nat, hi: nat)
    requires Covers(a, lo, mid) && Covers(b, mid, hi)
    ensures Covers(a + b, lo, hi)
  {
    var ab := a + b;
    forall i, j | 0 <= i < j < |ab| && j == i + 1
      ensures ab[j].start == ab[i].Next()
    {
      if j < |a| {
      } else if j == |a| {
        assert ab[j] == b[0] && ab[i] == a[|a| - 1];
      } else {
        assert ab[i] == b[i - |a|] && ab[j] == b[j - |a|];
      }
    }
    if b == [] {
      assert ab == a;
    }
  }

  lemma CoversOne(s: Slice)
    requires 0 < s.size
    ensures Covers([s], s.start, s.Next())
  {
  }

  lemma {:induction false} ChunksCover(offset: nat, rest: nat, multipartSize: nat)
    requires MIN_MULTIPART_SIZE <= multipartSize
    ensures Covers(Chunks(offset, rest, multipartSize), offset, offset + rest)
    decreases rest
  {
    if 0 < rest {
      OneReadFits(rest, multipartSize);
      var oneread := OneRead(rest, multipartSize);
      hide OneRead, Covers;
      ChunksCover(offset + oneread, rest - oneread, multipartSize);
      CoversOne(Slice(offset, oneread));
      CoversConcat([Slice(offset, oneread)], Chunks(offset + oneread, rest - oneread, multipartSize),
                   offset, offset + oneread, offset + rest);
    } else {
      assert Chunks(offset, rest, multipartSize) == [];
    }
  }

  ghost predicate SizesWithin(slices: seq<Slice>, lo: nat, hi: nat) {
    forall i :: 0 <= i < |slices| ==> lo <= slices[i].size <= hi
  }

  lemma WithinCons(s: Slice, slices: seq<Slice>, lo: nat, hi: nat)
    requires lo <= s.size <= hi && SizesWithin(slices, lo, hi)
    ensures SizesWithin([s] + slices, lo, hi)
  {
  }

  /** The largest chunk there can be. */
  function MaxChunk(multipartSize: nat): nat {
    Min(multipartSize + MIN_MULTIPART_SIZE - 1, Max(multipartSize, FIVE_GB))
  }

  /** The chunks of a page reach the minimum if the page does, else it is one chunk; no chunk is over the maximum. */
  lemma {:induction false} ChunkSizes(offset: nat, rest: nat, multipartSize: nat)
    requires MIN_MULTIPART_SIZE <= multipartSize && 0 < rest
    ensures SizesWithin(Chunks(offset, rest, multipartSize), Min(rest, MIN_MULTIPART_SIZE), MaxChunk(multipartSize))
    ensures rest < MIN_MULTIPART_SIZE ==> Chunks(offset, rest, multipartSize) == [Slice(offset, rest)]
    decreases rest
  {
    OneReadFits(rest, multipartSize);
    var oneread := OneRead(rest, multipartSize);
    var tail := Chunks(offset + oneread, rest - oneread, multipartSize);
    assert Chunks(offset, rest, multipartSize) == [Slice(offset, oneread)] + tail;
    if oneread < rest {
      hide OneRead, Chunks, SizesWithin;
      ChunkSizes(offset + oneread, rest - oneread, multipartSize);
    } else {
      assert tail == [];
    }
    WithinCons(Slice(offset, oneread), tail, Min(rest, MIN_MULTIPART_SIZE), MaxChunk(multipartSize));
  }

  /**
   What the next chunk of a page must be, by what is left of the page: a full multipart size as long as at least
   the minimum part size remains behind it, else all that is left, or half of it if that is more than one request
   may carry.
   */
  ghost predicate IsNextChunk(s: Slice, end: nat, multipartSize: nat) {
    && s.start < end
    && (s.start + multipartSize + MIN_MULTIPART_SIZE <= end ==> s.size == multipartSize)
    && (end < s.start + multipartSize + MIN_MULTIPART_SIZE && end <= s.start + FIVE_GB ==> s.Next() == end)
    && (end < s.start + multipartSize + MIN_MULTIPART_SIZE && s.start + FIVE_GB < end ==>
          s.size == (end - s.start) / 2)
  }

  ghost predicate AllNextChunks(slices: seq<Slice>, end: nat, multipartSize: nat) {
    forall i :: 0 <= i < |slices| ==> IsNextChunk(slices[i], end, multipartSize)
  }

  /** Every chunk of a page is the next one where it starts. */
  lemma {:induction false} ChunksAreNext(offset: nat, rest: nat, multipartSize: nat)
    requires MIN_MULTIPART_SIZE <= multipartSize
    ensures AllNextChunks(Chunks(offset, rest, multipartSize), offset + rest, multipartSize)
    decreases rest
  {
    if 0 < rest {
      OneReadFits(rest, multipartSize);
      var oneread := OneRead(rest, multipartSize);
      assert IsNextChunk(Slice(offset, oneread), offset + rest, multipartSize);
      hide OneRead, IsNextChunk;
      ChunksAreNext(offset + oneread, rest - oneread, multipartSize);
    } else {
      assert Chunks(offset, rest, multipartSize) == [];
    }
  }

  /** How many full chunks a page of this size has: as many as leave the minimum part size behind. */
  function FullChunks(rest: nat, multipartSize: nat): nat
    requires 0 < multipartSize
  {
    if rest < MIN_MULTIPART_SIZE then 0 else (rest - MIN_MULTIPART_SIZE) / multipartSize
  }

  /**
   The chunks of a page: first the full ones, then what is left, which is one chunk, or two halves if it is more
   than one request may carry. So their number is determined by the size of the page.
   */
  lemma {:induction false} ChunksAre(offset: nat, rest: nat, multipartSize: nat)
    requires MIN_MULTIPART_SIZE <= multipartSize && 0 < rest
    ensures ChunkSizesAre(Chunks(offset, rest, multipartSize), rest, FullChunks(rest, multipartSize), multipartSize)
    decreases rest
  {
    OneReadFits(rest, multipartSize);
    var oneread := OneRead(rest, multipartSize);
    var tail := Chunks(offset + oneread, rest - oneread, multipartSize);
    assert Chunks(offset, rest, multipartSize) == [Slice(offset, oneread)] + tail;
    FullLess(rest, multipartSize);
    hide Chunks, FullChunks;
    if multipartSize + MIN_MULTIPART_SIZE <= rest {
      assert oneread == multipartSize;
      hide OneRead;
      ChunksAre(offset + multipartSize, rest - multipartSize, multipartSize);
      SizesCons(Slice(offset, oneread), tail, rest, FullChunks(rest, multipartSize), multipartSize);
    } else if FIVE_GB < rest {
      LastChunk(offset + oneread, rest - oneread, multipartSize);
    } else {
      LastChunk(offset + oneread, 0, multipartSize);
    }
  }

  /** k full chunks, and then what is left in one chunk or two halves. */
  ghost predicate ChunkSizesAre(chunks: seq<Slice>, rest: nat, k: nat, multipartSize: nat) {
    var left := rest - k * multipartSize;
    && 0 < left < multipartSize + MIN_MULTIPART_SIZE && k < |chunks|
    && (forall i :: 0 <= i < k ==> chunks[i].size == multipartSize)
    && (left <= FIVE_GB ==> |chunks| == k + 1 && chunks[k].size == left)
    && (FIVE_GB < left <= 2 * FIVE_GB ==>
          |chunks| == k + 2 && chunks[k].size == left / 2 && chunks[k + 1].size == left - left / 2)
  }

  lemma SizesCons(s: Slice, tail: seq<Slice>, rest: nat, k: nat, multipartSize: nat)
    requires 0 < k && multipartSize <= rest && s.size == multipartSize
    requires ChunkSizesAre(tail, rest - multipartSize, k - 1, multipartSize)
    ensures ChunkSizesAre([s] + tail, rest, k, multipartSize)
  {
    assert k * multipartSize == (k - 1) * multipartSize + multipartSize;
  }

  lemma FullLess(rest: nat, multipartSize: nat)
    requires 0 < multipartSize
    ensures rest < multipartSize + MIN_MULTIPART_SIZE ==> FullChunks(rest, multipartSize) == 0
    ensures multipartSize + MIN_MULTIPART_SIZE <= rest ==>
      FullChunks(rest, multipartSize) == FullChunks(rest - multipartSize, multipartSize) + 1
  {
    if multipartSize + MIN_MULTIPART_SIZE <= rest {
      DivStep(rest - MIN_MULTIPART_SIZE, multipartSize);
    }
  }

  lemma DivStep(n: nat, m: nat)
    requires 0 < m <= n
    ensures n / m == (n - m) / m + 1
  {
    var q := (n - m) / m;
    assert n - m == q * m + (n - m) % m;
    assert (q + 1) * m == q * m + m;
    ParallelUpload.DivUnique(n, m, q + 1);
  }

  lemma LastChunk(offset: nat, rest: nat, multipartSize: nat)
    requires MIN_MULTIPART_SIZE <= multipartSize && rest <= multipartSize
    ensures rest == 0 ==> Chunks(offset, rest, multipartSize) == []
    ensures 0 < rest <= FIVE_GB ==> Chunks(offset, rest, multipartSize) == [Slice(offset, rest)]
  {
    if 0 < rest <= FIVE_GB {
      assert OneRead(rest, multipartSize) == rest;
      assert Chunks(offset + rest, 0, multipartSize) == [];
    }
  }

  // ---------- the chunks of a file ----------

  /** The page loop ends at the first page at or after the size, unless that is zero. */
  predicate Reached(p: Page, size: nat) {
    size == 0 || p.offset < size
  }

  /** What is posted when nothing fails. */
  function Plan(pages: seq<Page>, size: nat, multipartSize: nat): seq<Slice>
    requires MIN_MULTIPART_SIZE <= multipartSize
  {
    if pages == [] then []
    else
      var p := pages[|pages| - 1];
      Plan(pages[..|pages| - 1], size, multipartSize)
        + if Reached(p, size) then Chunks(p.offset, p.bytes, multipartSize) else []
  }

  /** A chunk of some page that is posted. */
  ghost predicate ChunkOfPage(s: Slice, pages: seq<Page>, size: nat, multipartSize: nat) {
    exists k :: 0 <= k < |pages| && Reached(pages[k], size) && pages[k].offset <= s.start
      && IsNextChunk(s, pages[k].Next(), multipartSize)
  }

  ghost predicate AllOfPages(posts: seq<Slice>, pages: seq<Page>, size: nat, multipartSize: nat) {
    forall i :: 0 <= i < |posts| ==> ChunkOfPage(posts[i], pages, size, multipartSize)
  }

  lemma MorePages(s: Slice, pages: seq<Page>, size: nat, multipartSize: nat)
    requires pages != [] && ChunkOfPage(s, pages[..|pages| - 1], size, multipartSize)
    ensures ChunkOfPage(s, pages, size, multipartSize)
  {
    var some := pages[..|pages| - 1];
    var k :| 0 <= k < |some| && Reached(some[k], size) && some[k].offset <= s.start
      && IsNextChunk(s, some[k].Next(), multipartSize);
    assert pages[k] == some[k];
  }

  /** Every planned chunk is the next one of its page where it starts. */
  lemma {:induction false} PlanIsNext(pages: seq<Page>, size: nat, multipartSize: nat)
    requires MIN_MULTIPART_SIZE <= multipartSize
    ensures AllOfPages(Plan(pages, size, multipartSize), pages, size, multipartSize)
  {
    if pages != [] {
      var n := |pages| - 1;
      var p := pages[n];
      var some, chunks := Plan(pages[..n], size, multipartSize), Chunks(p.offset, p.bytes, multipartSize);
      PlanIsNext(pages[..n], size, multipartSize);
      ChunksAreNext(p.offset, p.bytes, multipartSize);
      ChunksCover(p.offset, p.bytes, multipartSize);
      var plan := Plan(pages, size, multipartSize);
      hide Chunks, Plan, IsNextChunk;
      forall i | 0 <= i < |plan|
        ensures ChunkOfPage(plan[i], pages, size, multipartSize)
      {
        if i < |some| {
          assert plan[i] == some[i];
          MorePages(plan[i], pages, size, multipartSize);
        } else {
          assert plan[i] == chunks[i - |some|];
          StartsWithin(chunks, p.offset, p.Next(), i - |some|);
        }
      }
    }
  }

  lemma {:induction false} StartsWithin(slices: seq<Slice>, lo: nat, hi: nat, i: nat)
    requires Covers(slices, lo, hi) && i < |slices|
    ensures lo <= slices[i].start
  {
    if 0 < i {
      StartsWithin(slices, lo, hi, i - 1);
    }
  }

  lemma PrefixOfPages(posts: seq<Slice>, plan: seq<Slice>, pages: seq<Page>, size: nat, multipartSize: nat)
    requires posts <= plan && AllOfPages(plan, pages, size, multipartSize)
    ensures AllOfPages(posts, pages, size, multipartSize)
  {
    assert forall i :: 0 <= i < |posts| ==> posts[i] == plan[i];
  }

  lemma PlanStep(pages: seq<Page>, i: nat, size: nat, multipartSize: nat)
    requires MIN_MULTIPART_SIZE <= multipartSize && i < |pages|
    ensures Plan(pages[..i + 1], size, multipartSize)
         == Plan(pages[..i], size, multipartSize)
          + if Reached(pages[i], size) then Chunks(pages[i].offset, pages[i].bytes, multipartSize) else []
  {
    assert pages[..i + 1][..i] == pages[..i];
  }

  lemma {:induction false} PlanPrefix(pages: seq<Page>, i: nat, size: nat, multipartSize: nat)
    requires MIN_MULTIPART_SIZE <= multipartSize && i <= |pages|
    ensures Plan(pages[..i], size, multipartSize) <= Plan(pages, size, multipartSize)
    decreases |pages|
  {
    hide Chunks;
    if i < |pages| {
      var n := |pages| - 1;
      assert pages[..n][..i] == pages[..i];
      PlanPrefix(pages[..n], i, size, multipartSize);
    } else {
      assert pages[..i] == pages;
    }
  }

  /** Pages after the first one not reached add nothing. */
  lemma {:induction false} PlanEnds(pages: seq<Page>, i: nat, size: nat, multipartSize: nat)
    requires MIN_MULTIPART_SIZE <= multipartSize && i <= |pages| && Tiled(pages)
    requires i < |pages| ==> !Reached(pages[i], size)
    ensures Plan(pages, size, multipartSize) == Plan(pages[..i], size, multipartSize)
    decreases |pages|
  {
    hide Chunks;
    if i < |pages| {
      var n := |pages| - 1;
      if i < n {
        OffsetsAscend(pages, i, n);
      }
      assert pages[..n][..i] == pages[..i];
      PlanEnds(pages[..n], i, size, multipartSize);
    } else {
      assert pages[..i] == pages;
    }
  }

  /** Without a size the whole file is posted, every byte once and in order. */
  lemma {:induction false} PlanCovers(pages: seq<Page>, multipartSize: nat)
    requires MIN_MULTIPART_SIZE <= multipartSize && Tiled(pages)
    ensures Covers(Plan(pages, 0, multipartSize), 0, EndOf(pages))
  {
    hide Chunks, Covers;
    if pages == [] {
      NothingCovers();
    } else {
      var n := |pages| - 1;
      assert Tiled(pages[..n]);
      assert Plan(pages, 0, multipartSize)
          == Plan(pages[..n], 0, multipartSize) + Chunks(pages[n].offset, pages[n].bytes, multipartSize);
      assert EndOf(pages) == pages[n].Next();
      OffsetIsEnd(pages, n);
      hide Plan, Tiled, EndOf;
      PlanCovers(pages[..n], multipartSize);
      ChunksCover(pages[n].offset, pages[n].bytes, multipartSize);
      CoversConcat(Plan(pages[..n], 0, multipartSize), Chunks(pages[n].offset, pages[n].bytes, multipartSize),
                   0, pages[n].offset, pages[n].Next());
    }
  }

  lemma NothingCovers()
    ensures Covers([], 0, 0)
  {
  }

  ghost predicate AllReached(pages: seq<Page>, size: nat) {
    forall i :: 0 <= i < |pages| ==> Reached(pages[i], size)
  }

  /** Pages that are all reached are posted as if there were no size. */
  lemma {:induction false} PlanReached(pages: seq<Page>, size: nat, multipartSize: nat)
    requires MIN_MULTIPART_SIZE <= multipartSize
    requires AllReached(pages, size)
    ensures Plan(pages, size, multipartSize) == Plan(pages, 0, multipartSize)
  {
    if pages != [] {
      PlanReached(pages[..|pages| - 1], size, multipartSize);
    }
  }

  lemma ReachedUpTo(pages: seq<Page>, k: nat, size: nat)
    requires Tiled(pages) && k < |pages| && pages[k].offset < size
    ensures AllReached(pages[..k + 1], size)
  {
    var upTo := pages[..k + 1];
    forall i | 0 <= i < |upTo|
      ensures Reached(upTo[i], size)
    {
      if i < k {
        OffsetsAscend(pages, i, k);
      }
    }
  }

  /** With a size the posted parts end with the page that holds the last byte below it. */
  lemma PlanUpTo(pages: seq<Page>, size: nat, multipartSize: nat) returns (k: nat)
    requires MIN_MULTIPART_SIZE <= multipartSize && Tiled(pages) && 0 < size <= EndOf(pages)
    ensures k < |pages| && pages[k].offset < size <= pages[k].Next()
    ensures Covers(Plan(pages, size, multipartSize), 0, pages[k].Next())
  {
    k := PageOf(pages, size - 1);
    if k + 1 < |pages| {
      OffsetsAscend(pages, k, k + 1);
    }
    assert Tiled(pages[..k + 1]);
    assert EndOf(pages[..k + 1]) == pages[k].Next();
    hide Plan, Covers, Tiled, EndOf;
    ReachedUpTo(pages, k, size);
    PlanEnds(pages, k + 1, size, multipartSize);
    PlanReached(pages[..k + 1], size, multipartSize);
    PlanCovers(pages[..k + 1], multipartSize);
  }

  /** With a size exactly that many bytes are posted if and only if a page ends there; otherwise more are. */
  lemma PlanExact(pages: seq<Page>, size: nat, multipartSize: nat)
    requires MIN_MULTIPART_SIZE <= multipartSize && Tiled(pages) && NonEmpty(pages) && 0 < size <= EndOf(pages)
    ensures Covers(Plan(pages, size, multipartSize), 0, size)
      <==> exists k :: 0 <= k < |pages| && pages[k].Next() == size
  {
    var k := PlanUpTo(pages, size, multipartSize);
    hide Plan;
    if m :| 0 <= m < |pages| && pages[m].Next() == size && m != k {
      if k < m {
        OffsetsAscend(pages, k, m);
      } else {
        OffsetsAscend(pages, m, k);
      }
    }
  }

  // ---------- the minimum part size ----------

  /** All parts but the last have the minimum size. */
  ghost predicate PartsAccepted(slices: seq<Slice>) {
    forall i :: 0 <= i < |slices| - 1 ==> MIN_MULTIPART_SIZE <= slices[i].size
  }

  ghost predicate PagesLargeEnough(pages: seq<Page>) {
    forall i :: 0 <= i < |pages| - 1 ==> MIN_MULTIPART_SIZE <= pages[i].bytes
  }

  lemma AcceptedConcat(a: seq<Slice>, b: seq<Slice>)
    requires b != []
    ensures PartsAccepted(a + b)
      <==> (forall i :: 0 <= i < |a| ==> MIN_MULTIPART_SIZE <= a[i].size) && PartsAccepted(b)
  {
    var ab := a + b;
    if PartsAccepted(ab) {
      forall i | 0 <= i < |a|
        ensures MIN_MULTIPART_SIZE <= a[i].size
      {
        assert ab[i] == a[i];
      }
      forall i | 0 <= i < |b| - 1
        ensures MIN_MULTIPART_SIZE <= b[i].size
      {
        assert ab[|a| + i] == b[i];
      }
    }
  }

  /** All chunks reach the minimum exactly if all pages do. */
  lemma {:induction false} PlanMinimum(pages: seq<Page>, multipartSize: nat)
    requires MIN_MULTIPART_SIZE <= multipartSize && NonEmpty(pages)
    ensures SizesWithin(Plan(pages, 0, multipartSize), MIN_MULTIPART_SIZE, MaxChunk(multipartSize))
      <==> forall i :: 0 <= i < |pages| ==> MIN_MULTIPART_SIZE <= pages[i].bytes
  {
    hide Chunks, SizesWithin;
    if pages != [] {
      var n := |pages| - 1;
      PlanMinimum(pages[..n], multipartSize);
      ChunksMinimum(pages[n], multipartSize);
      WithinConcat(Plan(pages[..n], 0, multipartSize), Chunks(pages[n].offset, pages[n].bytes, multipartSize),
                   MIN_MULTIPART_SIZE, MaxChunk(multipartSize));
      assert forall i :: 0 <= i < |pages| ==> pages[i] == if i < n then pages[..n][i] else pages[n];
    } else {
      WithinNone(MIN_MULTIPART_SIZE, MaxChunk(multipartSize));
    }
  }

  lemma WithinNone(lo: nat, hi: nat)
    ensures SizesWithin([], lo, hi)
  {
  }

  lemma WithinConcat(a: seq<Slice>, b: seq<Slice>, lo: nat, hi: nat)
    ensures SizesWithin(a + b, lo, hi) <==> SizesWithin(a, lo, hi) && SizesWithin(b, lo, hi)
  {
    if SizesWithin(a + b, lo, hi) {
      assert forall i :: 0 <= i < |a| ==> (a + b)[i] == a[i];
      assert forall i :: 0 <= i < |b| ==> (a + b)[|a| + i] == b[i];
    }
  }

  lemma ChunksMinimum(p: Page, multipartSize: nat)
    requires MIN_MULTIPART_SIZE <= multipartSize && 0 < p.bytes
    ensures Chunks(p.offset, p.bytes, multipartSize) != []
    ensures SizesWithin(Chunks(p.offset, p.bytes, multipartSize), MIN_MULTIPART_SIZE, MaxChunk(multipartSize))
      <==> MIN_MULTIPART_SIZE <= p.bytes
    ensures PartsAccepted(Chunks(p.offset, p.bytes, multipartSize))
  {
    ChunkSizes(p.offset, p.bytes, multipartSize);
    assert Chunks(p.offset, p.bytes, multipartSize)[0].size == OneRead(p.bytes, multipartSize);
  }

  /** The parts of a whole file are acceptable exactly if every page but the last has the minimum size. */
  lemma PlanAccepted(pages: seq<Page>, multipartSize: nat)
    requires MIN_MULTIPART_SIZE <= multipartSize && NonEmpty(pages) && pages != []
    ensures PartsAccepted(Plan(pages, 0, multipartSize)) <==> PagesLargeEnough(pages)
  {
    var n := |pages| - 1;
    var a, b := Plan(pages[..n], 0, multipartSize), Chunks(pages[n].offset, pages[n].bytes, multipartSize);
    hide Chunks;
    PlanMinimum(pages[..n], multipartSize);
    ChunksMinimum(pages[n], multipartSize);
    PlanBounded(pages[..n], multipartSize);
    assert Plan(pages, 0, multipartSize) == a + b;
    hide Plan;
    AcceptedConcat(a, b);
    assert SizesWithin(a, MIN_MULTIPART_SIZE, MaxChunk(multipartSize))
      <==> forall i :: 0 <= i < |a| ==> MIN_MULTIPART_SIZE <= a[i].size;
    assert forall i :: 0 <= i < n ==> pages[..n][i] == pages[i];
    assert forall i :: 0 <= i < n ==> pages[i] == pages[..n][i];
    assert PartsAccepted(b) && b != [];
    assert PagesLargeEnough(pages) <==> forall i :: 0 <= i < |pages[..n]| ==> MIN_MULTIPART_SIZE <= pages[..n][i].bytes;
  }

  /** No chunk is over the maximum. */
  lemma {:induction false} PlanBounded(pages: seq<Page>, multipartSize: nat)
    requires MIN_MULTIPART_SIZE <= multipartSize && NonEmpty(pages)
    ensures SizesWithin(Plan(pages, 0, multipartSize), 1, MaxChunk(multipartSize))
  {
    hide Chunks;
    if pages != [] {
      var n := |pages| - 1;
      PlanBounded(pages[..n], multipartSize);
      ChunkSizes(pages[n].offset, pages[n].bytes, multipartSize);
      WithinConcat(Plan(pages[..n], 0, multipartSize), Chunks(pages[n].offset, pages[n].bytes, multipartSize),
                   1, MaxChunk(multipartSize));
    }
  }
}
