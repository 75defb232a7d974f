/**
 The upload without local cache of src/fdcache.cpp: every page of a file is posted in chunks, straight
 from the remote object or from what is held locally. Both callers start at byte 0, and so does this model.
 */
module NoCachePosts {
  import opened Bytes
  import opened Downloads
  import opened Errno
  import opened FdEntities
  import opened Ints
  import opened LocalFiles
  import opened MultipartUploads
  import opened PageLists
  import opened Pages
  import opened PostPlans
  import opened Sequences

  // ---------- the loops ----------

  /** The flags with the first n bytes marked as loaded. */
  ghost function LoadedUpTo(flags: seq<bool>, n: nat): seq<bool>
    requires n <= |flags|
  {
    Fill(n, true) + flags[n..]
  }

  lemma MarkedPart(flags: seq<bool>, now: seq<bool>, after: seq<bool>, x: seq<bool>, y: seq<bool>, o: nat, n: nat,
                   v: bool)
    requires |x| == o <= |flags| && now == x + Fill(n, v) + y && now == LoadedUpTo(flags, o)
    requires after == x + Fill(n, true) + y
    ensures o + n <= |flags| && after == LoadedUpTo(flags, o + n)
  {
    assert |now| == |flags|;
    forall p | 0 <= p < |flags|
      ensures after[p] == LoadedUpTo(flags, o + n)[p]
    {
      assert p < o || o + n <= p ==> now[p] == after[p];
    }
  }

  /** The pages with one of them marked as loaded. */
  function MarkedAt(pages: seq<Page>, i: nat): seq<Page>
    requires i < |pages|
  {
    pages[i := pages[i].(loaded := true)]
  }

  lemma MarkedForm(pages: seq<Page>, i: nat)
    requires i < |pages|
    ensures WellFormed(pages) ==> WellFormed(MarkedAt(pages, i))
  {
  }

  lemma FlagsJoin(a: seq<Page>, p: Page, b: seq<Page>)
    ensures Flags(a + [p] + b) == Flags(a) + Fill(p.bytes, p.loaded) + Flags(b)
  {
    hide Flags, Fill;
    FlagsAround(a, [p], b);
    FlagsOne(p);
  }

  lemma PagesAround(pages: seq<Page>, i: nat)
    requires i < |pages|
    ensures pages == pages[..i] + [pages[i]] + pages[i + 1..]
  {
  }

  lemma FlagsParts(pages: seq<Page>, i: nat)
    requires i < |pages|
    ensures Flags(pages) == Flags(pages[..i]) + Fill(pages[i].bytes, pages[i].loaded) + Flags(pages[i + 1..])
  {
    hide Flags, Fill;
    var a, p, b := pages[..i], pages[i], pages[i + 1..];
    PagesAround(pages, i);
    FlagsJoin(a, p, b);
  }

  lemma MarkedParts(pages: seq<Page>, i: nat)
    requires i < |pages|
    ensures MarkedAt(pages, i)[..i] == pages[..i] && MarkedAt(pages, i)[i + 1..] == pages[i + 1..]
    ensures MarkedAt(pages, i)[i] == pages[i].(loaded := true) && |MarkedAt(pages, i)| == |pages|
  {
  }

  lemma FlagsMarked(pages: seq<Page>, i: nat)
    requires i < |pages|
    ensures Flags(MarkedAt(pages, i)) == Flags(pages[..i]) + Fill(pages[i].bytes, true) + Flags(pages[i + 1..])
  {
    hide Flags, Fill;
    MarkedParts(pages, i);
    hide MarkedAt;
    FlagsParts(MarkedAt(pages, i), i);
  }

  lemma PrefixLength(pages: seq<Page>, i: nat)
    requires Tiled(pages) && i < |pages|
    ensures |Flags(pages[..i])| == pages[i].offset
  {
    OffsetIsEnd(pages, i);
    assert Tiled(pages[..i]);
    FlagsLength(pages[..i]);
  }

  /** Marking the page where the loaded part ends. */
  lemma MarkNext(pages: seq<Page>, i: nat, flags: seq<bool>)
    requires Tiled(pages) && i < |pages|
    requires pages[i].offset <= |flags| && Flags(pages) == LoadedUpTo(flags, pages[i].offset)
    ensures pages[i].Next() <= |flags|
    ensures Flags(MarkedAt(pages, i)) == LoadedUpTo(flags, pages[i].Next())
  {
    hide Flags, Tiled, MarkedAt, LoadedUpTo, Fill;
    var p := pages[i];
    PrefixLength(pages, i);
    FlagsParts(pages, i);
    FlagsMarked(pages, i);
    MarkedPart(flags, Flags(pages), Flags(MarkedAt(pages, i)), Flags(pages[..i]), Flags(pages[i + 1..]),
               p.offset, p.bytes, p.loaded);
  }

  lemma NextChunk(posts: seq<Slice>, offset: nat, rest: nat, multipartSize: nat)
    requires MIN_MULTIPART_SIZE <= multipartSize && 0 < rest
    ensures
      var oneread := OneRead(rest, multipartSize);
      && 0 < oneread <= rest
      && posts + Chunks(offset, rest, multipartSize)
         == posts + [Slice(offset, oneread)] + Chunks(offset + oneread, rest - oneread, multipartSize)
  {
    OneReadFits(rest, multipartSize);
    var oneread := OneRead(rest, multipartSize);
    var tail := Chunks(offset + oneread, rest - oneread, multipartSize);
    assert Chunks(offset, rest, multipartSize) == [Slice(offset, oneread)] + tail;
    hide Chunks, OneRead;
    Associative(posts, [Slice(offset, oneread)], tail);
  }

  lemma NoChunks(offset: nat, multipartSize: nat)
    requires MIN_MULTIPART_SIZE <= multipartSize
    ensures Chunks(offset, 0, multipartSize) == []
  {
  }

  /** A page shows in the flat file what is held locally, or the backing bytes. */
  ghost predicate Shows(flat: seq<Byte>, p: Page, disk: seq<Byte>, remote: seq<Byte>) {
    && p.Next() <= |flat|
    && (p.loaded && 0 < p.bytes ==> p.Next() <= |disk|)
    && forall q :: p.offset <= q < p.Next() ==> flat[q] == if p.loaded then disk[q] else Backing(remote, q)
  }

  lemma PageShows(pages: seq<Page>, k: nat, disk: seq<Byte>, remote: seq<Byte>)
    requires Tiled(pages) && Held(Flags(pages), disk) && k < |pages|
    ensures Shows(View(Flags(pages), disk, remote), pages[k], disk, remote)
  {
    var p, flags := pages[k], Flags(pages);
    FlagsLength(pages);
    NextBelowEnd(pages, k);
    forall q | p.offset <= q < p.Next()
      ensures flags[q] == p.loaded
    {
      FlagAt(pages, k, q);
    }
    if p.loaded && 0 < p.bytes {
      assert flags[p.Next() - 1];
    }
  }

  /** A temporary file that got the remote part of a chunk and zeros behind it holds the backing bytes. */
  lemma ChunkFilled(fetched: seq<Byte>, data: seq<Byte>, remote: seq<Byte>, offset: nat, need: nat, n: nat)
    requires need <= n && offset + n <= |fetched|
    requires if offset < |remote| then need == Min(n, |remote| - offset) else need == 0
    requires 0 < need ==> offset + need <= |remote| && fetched[offset..offset + need] == remote[offset..offset + need]
    requires data == PWritten(fetched, offset + need, Zeros(n - need))
    ensures offset + n <= |data| && forall q :: offset <= q < offset + n ==> data[q] == Backing(remote, q)
  {
    forall q | offset <= q < offset + need
      ensures fetched[q] == remote[q]
    {
      assert fetched[offset..offset + need][q - offset] == remote[offset..offset + need][q - offset];
    }
  }

  /** What went wrong outside so far, with the temporary file or with the entity. */
  ghost function Wrong(e: FdEntity, tmp: LocalFile): nat
    reads e, e.file, e.net, tmp
  {
    e.Troubles() + tmp.faults
  }

  /** Downloads, fills and posts one chunk; any step may fail. What is posted is that slice of the flat file. */
  method PostChunk(e: FdEntity, tmp: LocalFile, p: Page, offset: nat, oneread: nat, ghost flat: seq<Byte>)
    returns (result: int, body: seq<Byte>)
    requires p.offset <= offset && 0 < oneread && offset + oneread <= p.Next()
    requires Shows(flat, p, e.file.data, e.remote) && Honest(e.net.respond, e.remote) && tmp != e.file
    modifies tmp, e.net, e`isModify
    ensures result == 0 ==> body == flat[offset..offset + oneread]
    ensures e.isModify ==> old(e.isModify)
    ensures result == 0 ==> (e.isModify <==> old(e.isModify) && (p.loaded || offset + oneread <= |e.remote|))
    ensures old(e.Troubles()) <= e.Troubles() && old(tmp.faults) <= tmp.faults
    ensures result != 0 ==> e.retries <= 0 || old(Wrong(e, tmp)) < Wrong(e, tmp)
  {
    hide Honest, ChangedOnlyIn, PWritten, Fetched, Holds;
    body := [];
    result := 0;
    if !p.loaded {
      var need := 0;
      if offset < |e.remote| {
        need := if |e.remote| < offset + oneread then |e.remote| - offset else oneread;
      }
      var over := oneread - need;
      var ok := tmp.FTruncate(0);
      if ok {
        ok := tmp.FTruncate(offset + oneread);
      }
      if !ok {
        return -EIO, body;
      }
      ghost var cut := tmp.data;
      if 0 < need {
        result := GetObjectRequest(e.net, tmp, offset, oneread, e.retries);
        if 0 != result {
          return;
        }
        HeldChunk(e.net.respond, cut, tmp.data, e.remote, offset, need, oneread);
      }
      ghost var fetched := tmp.data;
      if 0 < over {
        result := FillFile(tmp, over, offset + need);
        if 0 != result {
          return;
        }
        e.isModify := false;
      } else {
        PWriteNothing(fetched, offset + need);
        assert Zeros(0) == [];
      }
      ChunkFilled(fetched, tmp.data, e.remote, offset, need, oneread);
      body := tmp.data[offset..offset + oneread];
      SameSlice(body, tmp.data, flat, offset, oneread);
    } else {
      body := e.file.data[offset..offset + oneread];
      SameSlice(body, e.file.data, flat, offset, oneread);
    }
    var posted := e.net.Post(body);
    if !posted {
      result := -EIO;
    }
  }

  lemma SameSlice(body: seq<Byte>, a: seq<Byte>, b: seq<Byte>, offset: nat, n: nat)
    requires offset + n <= |a| && offset + n <= |b| && body == a[offset..offset + n]
    requires forall q :: offset <= q < offset + n ==> a[q] == b[q]
    ensures body == b[offset..offset + n]
  {
  }

  /** What a download that succeeds puts into a temporary file that is long enough already. */
  lemma HeldChunk(respond: (nat, nat, nat) -> Attempt, cut: seq<Byte>, data: seq<Byte>, remote: seq<Byte>,
                  offset: nat, need: nat, n: nat)
    requires ChangedOnlyIn(cut, data, offset, offset + n) && offset + n <= |cut|
    requires offset < |remote| && 0 < need == Min(n, |remote| - offset)
    ensures offset + n <= |data| && offset + need <= |remote|
    ensures Holds(respond, data, offset, n) && Honest(respond, remote) ==>
      data[offset..offset + need] == remote[offset..offset + need]
  {
    hide Honest, ChangedOnlyIn, Holds;
    NeverShorter(cut, data, offset, offset + n);
    HeldRange(respond, data, remote, offset, n);
  }

  lemma NeverShorter(a: seq<Byte>, b: seq<Byte>, lo: nat, hi: nat)
    requires ChangedOnlyIn(a, b, lo, hi)
    ensures |a| <= |b|
  {
  }

  lemma HeldRange(respond: (nat, nat, nat) -> Attempt, data: seq<Byte>, remote: seq<Byte>, offset: nat, n: nat)
    requires offset < |remote| && 0 < n
    ensures
      var end := Min(offset + n, |remote|);
      Holds(respond, data, offset, n) && Honest(respond, remote) ==>
        end <= |data| && data[offset..end] == remote[offset..end]
  {
    hide Honest;
  }

  /** The posted bytes are the slices of the flat file. */
  ghost predicate Posted(flat: seq<Byte>, posts: seq<Slice>, bodies: seq<seq<Byte>>) {
    && |bodies| == |posts|
    && forall k :: 0 <= k < |posts| ==> posts[k].Next() <= |flat| && bodies[k] == flat[posts[k].start..posts[k].Next()]
  }

  lemma PostedConcat(flat: seq<Byte>, a: seq<Slice>, x: seq<seq<Byte>>, b: seq<Slice>, y: seq<seq<Byte>>)
    requires Posted(flat, a, x) && Posted(flat, b, y)
    ensures Posted(flat, a + b, x + y)
  {
  }

  /** The chunks before some offset of a page are posted. */
  ghost predicate PostedUpTo(posts: seq<Slice>, p: Page, done: nat, multipartSize: nat)
    requires MIN_MULTIPART_SIZE <= multipartSize && done <= p.bytes
  {
    posts + Chunks(p.offset + done, p.bytes - done, multipartSize) == Chunks(p.offset, p.bytes, multipartSize)
  }

  lemma PostedStart(p: Page, multipartSize: nat)
    requires MIN_MULTIPART_SIZE <= multipartSize
    ensures PostedUpTo([], p, 0, multipartSize)
  {
  }

  lemma PostedNext(posts: seq<Slice>, p: Page, done: nat, multipartSize: nat)
    requires MIN_MULTIPART_SIZE <= multipartSize && done < p.bytes && PostedUpTo(posts, p, done, multipartSize)
    ensures
      var oneread := OneRead(p.bytes - done, multipartSize);
      && 0 < oneread <= p.bytes - done
      && PostedUpTo(posts + [Slice(p.offset + done, oneread)], p, done + oneread, multipartSize)
    ensures posts <= Chunks(p.offset, p.bytes, multipartSize)
  {
    hide Chunks, OneRead;
    NextChunk(posts, p.offset + done, p.bytes - done, multipartSize);
  }

  lemma PostedAll(posts: seq<Slice>, p: Page, multipartSize: nat)
    requires MIN_MULTIPART_SIZE <= multipartSize && PostedUpTo(posts, p, p.bytes, multipartSize)
    ensures posts == Chunks(p.offset, p.bytes, multipartSize)
  {
    NoChunks(p.offset + p.bytes, multipartSize);
  }

  /** A page that is posted without filling anything with zero. */
  predicate Within(p: Page, n: nat) {
    p.loaded || p.bytes == 0 || p.Next() <= n
  }

  /** Of the pages that are posted, none is filled with zero. */
  ghost predicate AllWithin(pages: seq<Page>, size: nat, n: nat) {
    forall k :: 0 <= k < |pages| && Reached(pages[k], size) ==> Within(pages[k], n)
  }

  lemma NoneWithin(size: nat, n: nat)
    ensures AllWithin([], size, n)
  {
  }

  lemma WithinStep(pages: seq<Page>, j: nat, size: nat, n: nat)
    requires j < |pages| && Reached(pages[j], size)
    ensures AllWithin(pages[..j + 1], size, n) <==> AllWithin(pages[..j], size, n) && Within(pages[j], n)
  {
    if AllWithin(pages[..j + 1], size, n) {
      assert forall k :: 0 <= k < j ==> pages[..j][k] == pages[..j + 1][k];
      assert pages[..j + 1][j] == pages[j];
    }
  }

  lemma WithinEnd(pages: seq<Page>, j: nat, size: nat, n: nat)
    requires Tiled(pages) && j <= |pages| && (j < |pages| ==> !Reached(pages[j], size))
    ensures AllWithin(pages[..j], size, n) <==> AllWithin(pages, size, n)
  {
    forall k | j < k < |pages|
      ensures !Reached(pages[k], size)
    {
      OffsetsAscend(pages, j, k);
    }
    if AllWithin(pages[..j], size, n) {
      assert forall k :: 0 <= k < j ==> pages[..j][k] == pages[k];
    }
  }

  /** Downloads, fills and posts one page, chunk by chunk. */
  method PostPage(e: FdEntity, tmp: LocalFile, p: Page, ghost flat: seq<Byte>)
    returns (result: int, posts: seq<Slice>, bodies: seq<seq<Byte>>)
    requires MIN_MULTIPART_SIZE <= e.multipartSize
    requires Shows(flat, p, e.file.data, e.remote) && Honest(e.net.respond, e.remote) && tmp != e.file
    modifies tmp, e.net, e`isModify
    ensures posts <= Chunks(p.offset, p.bytes, e.multipartSize)
    ensures result == 0 ==> posts == Chunks(p.offset, p.bytes, e.multipartSize)
    ensures Posted(flat, posts, bodies)
    ensures e.isModify ==> old(e.isModify)
    ensures result == 0 ==> (e.isModify <==> old(e.isModify) && Within(p, |e.remote|))
    ensures old(e.Troubles()) <= e.Troubles() && old(tmp.faults) <= tmp.faults
    ensures result != 0 ==> e.retries <= 0 || old(Wrong(e, tmp)) < Wrong(e, tmp)
  {
    hide Honest;
    result, posts, bodies := 0, [], [];
    var totalread := 0;
    PostedStart(p, e.multipartSize);
    hide Chunks, Shows, Posted, OneRead, PostedUpTo;
    NothingPosted(flat);
    while totalread < p.bytes
      invariant totalread <= p.bytes && result == 0
      invariant PostedUpTo(posts, p, totalread, e.multipartSize)
      invariant Posted(flat, posts, bodies)
      invariant e.isModify <==> old(e.isModify) && (p.loaded || totalread == 0 || p.offset + totalread <= |e.remote|)
      invariant old(e.Troubles()) <= e.Troubles() && old(tmp.faults) <= tmp.faults
      decreases p.bytes - totalread
    {
      var offset := p.offset + totalread;
      var oneread := OneRead(p.bytes - totalread, e.multipartSize);
      PostedNext(posts, p, totalread, e.multipartSize);
      var body;
      result, body := PostChunk(e, tmp, p, offset, oneread, flat);
      if 0 != result {
        return;
      }
      PostedMore(flat, p, e.file.data, e.remote, posts, bodies, Slice(offset, oneread), body);
      posts := posts + [Slice(offset, oneread)];
      bodies := bodies + [body];
      totalread := totalread + oneread;
    }
    PostedAll(posts, p, e.multipartSize);
  }

  lemma NothingPosted(flat: seq<Byte>)
    ensures Posted(flat, [], [])
  {
  }

  lemma PostedMore(flat: seq<Byte>, p: Page, disk: seq<Byte>, remote: seq<Byte>, posts: seq<Slice>,
                   bodies: seq<seq<Byte>>, s: Slice, body: seq<Byte>)
    requires Posted(flat, posts, bodies)
    requires Shows(flat, p, disk, remote) && s.Next() <= p.Next() && body == flat[s.start..s.Next()]
    ensures Posted(flat, posts + [s], bodies + [body])
  {
  }

  /** How far a run of a given size reaches. */
  function Extent(total: nat, size: nat): nat {
    if size == 0 then total else Min(size, total)
  }

  /** Where the page loop stands: j pages are posted, and the list is marked as far as the size allows. */
  ghost predicate Standing(orig: seq<Page>, pages: seq<Page>, i: nat, j: nat, size: nat) {
    && i <= |pages| && j <= |orig| && pages[i..] == orig[j..]
    && WellFormed(pages)
    && EndOf(orig[..j]) <= |Flags(orig)|
    && Flags(pages) == LoadedUpTo(Flags(orig), Extent(EndOf(orig[..j]), size))
  }

  lemma StandStart(orig: seq<Page>, size: nat)
    requires WellFormed(orig)
    ensures Standing(orig, orig, 0, 0, size)
  {
    assert orig[..0] == [];
    assert LoadedUpTo(Flags(orig), 0) == Flags(orig);
  }

  lemma Between(flags: seq<bool>, a: nat, m: nat, b: nat)
    requires a <= m <= b <= |flags| && LoadedUpTo(flags, a) == LoadedUpTo(flags, b)
    ensures LoadedUpTo(flags, m) == LoadedUpTo(flags, a)
  {
    var x, y, z := LoadedUpTo(flags, a), LoadedUpTo(flags, b), LoadedUpTo(flags, m);
    forall p | 0 <= p < |flags|
      ensures z[p] == x[p]
    {
      assert p < m ==> y[p] == z[p];
      assert m <= p ==> x[p] == z[p];
    }
  }

  /** The page the loop is at, in both lists. */
  lemma AtPage(orig: seq<Page>, pages: seq<Page>, i: nat, j: nat, size: nat)
    requires Tiled(orig) && Standing(orig, pages, i, j, size) && i < |pages|
    ensures j < |orig| && orig[j] == pages[i] && pages[i].offset == EndOf(orig[..j])
    ensures EndOf(orig[..j + 1]) == pages[i].Next() && pages[i + 1..] == orig[j + 1..]
  {
    hide Flags;
    assert pages[i..][0] == pages[i];
    assert pages[i..][1..] == pages[i + 1..];
    assert orig[j..][1..] == orig[j + 1..];
    OffsetIsEnd(orig, j);
  }

  /** One page posted: it counts as loaded, up to the size. */
  lemma StandLoaded(orig: seq<Page>, pages: seq<Page>, i: nat, j: nat, size: nat)
    requires Tiled(orig) && Standing(orig, pages, i, j, size)
    requires i < |pages| && Reached(pages[i], size) && pages[i].loaded
    ensures Standing(orig, pages, i + 1, j + 1, size)
  {
    AtPage(orig, pages, i, j, size);
    hide Flags, LoadedUpTo;
    MarkNext(pages, i, Flags(orig));
    assert MarkedAt(pages, i) == pages;
    Between(Flags(orig), pages[i].offset, Extent(pages[i].Next(), size), pages[i].Next());
  }

  lemma StandMarked(orig: seq<Page>, pages: seq<Page>, i: nat, j: nat, size: nat)
    requires Tiled(orig) && Standing(orig, pages, i, j, size)
    requires i < |pages| && Reached(pages[i], size) && (size == 0 || pages[i].Next() <= size)
    ensures Standing(orig, MarkedAt(pages, i), i + 1, j + 1, size)
  {
    AtPage(orig, pages, i, j, size);
    MarkedForm(pages, i);
    MarkedParts(pages, i);
    hide Flags, LoadedUpTo, WellFormed, MarkedAt;
    assert Tiled(pages);
    MarkNext(pages, i, Flags(orig));
  }

  lemma StandSplit(orig: seq<Page>, pages: seq<Page>, i: nat, j: nat, size: nat)
    requires Tiled(orig) && Standing(orig, pages, i, j, size)
    requires i < |pages| && pages[i].offset < size < pages[i].Next()
    ensures Standing(orig, MarkedAt(SplitPage(pages, i, size), i), i + 2, j + 1, size)
  {
    AtPage(orig, pages, i, j, size);
    var split := SplitPage(pages, i, size);
    SplitKeepsForm(pages, i, size);
    SplitKeepsFlags(pages, i, size);
    MarkedForm(split, i);
    assert MarkedAt(split, i)[i + 2..] == pages[i + 1..];
    FlagsLength(orig);
    NextBelowEnd(orig, j);
    assert Tiled(split);
    hide Flags, LoadedUpTo, WellFormed, MarkedAt;
    MarkNext(split, i, Flags(orig));
  }

  lemma StandValid(orig: seq<Page>, pages: seq<Page>, i: nat, j: nat, size: nat)
    requires Standing(orig, pages, i, j, size)
    ensures WellFormed(pages)
  {
  }

  lemma StandEnd(orig: seq<Page>, pages: seq<Page>, i: nat, j: nat, size: nat)
    requires Tiled(orig) && Standing(orig, pages, i, j, size)
    requires i < |pages| ==> !Reached(pages[i], size)
    ensures j <= |orig| && (j < |orig| ==> !Reached(orig[j], size)) && WellFormed(pages)
    ensures EndOf(orig) <= |Flags(orig)|
    ensures Flags(pages) == LoadedUpTo(Flags(orig), Extent(EndOf(orig), size))
  {
    FlagsLength(orig);
    if i < |pages| {
      AtPage(orig, pages, i, j, size);
      NextBelowEnd(orig, j);
    } else {
      assert |orig[j..]| == |orig| - j == 0;
      assert orig[..j] == orig;
    }
  }

  /**
   Posts every page up to a size, zero for the whole file. What was posted is always a prefix of the plan,
   on success all of it, with the bytes of the flat file. Then the bytes up to the size count as loaded, while
   the local file is cut to nothing, unless that fails.
   */
  method NoCacheLoadAndPost(e: FdEntity, size: nat)
    returns (result: int, posts: seq<Slice>, bodies: seq<seq<Byte>>, emptied: bool, ghost tmp: LocalFile)
    requires e.Valid() && MIN_MULTIPART_SIZE <= e.multipartSize
    modifies e.pagelist, e.file, e.net, e`isModify
    ensures e.pagelist.Valid() && fresh(tmp) && old(e.Troubles()) <= e.Troubles()
    ensures result != 0 ==> e.retries <= 0 || old(e.Troubles()) < Wrong(e, tmp)
    ensures result == 0 && !emptied ==> old(e.Troubles()) < Wrong(e, tmp)
    ensures posts <= Plan(old(e.pagelist.pages), size, e.multipartSize)
    ensures Posted(old(e.Logical()), posts, bodies)
    ensures AllOfPages(posts, old(e.pagelist.pages), size, e.multipartSize)
    ensures result == 0 && e.pagelist.Bits() != [] ==> e.pagelist.pages == Runs(e.pagelist.Bits())
    ensures result == 0 ==>
      && posts == Plan(old(e.pagelist.pages), size, e.multipartSize)
      && EndOf(old(e.pagelist.pages)) <= |old(e.pagelist.Bits())|
      && e.pagelist.Bits() == LoadedUpTo(old(e.pagelist.Bits()), Extent(EndOf(old(e.pagelist.pages)), size))
    ensures emptied ==> result == 0 && (e.Valid() <==> old(e.pagelist.Bits()) == [])
    ensures e.file.data == if emptied then [] else old(e.file.data)
    ensures e.isModify ==> old(e.isModify)
    ensures result == 0 ==>
      (e.isModify <==> old(e.isModify) && AllWithin(old(e.pagelist.pages), size, |e.remote|))
  {
    hide Standing, Plan, Chunks, LoadedUpTo, Flags, MarkedAt, Honest, View, Held, Posted, Shows, AllOfPages, AllWithin;
    ghost var orig, j, flat, disk := e.pagelist.pages, 0, e.Logical(), e.file.data;
    result, posts, bodies, emptied := 0, [], [], false;
    var tmpfd := new LocalFile();
    tmp := tmpfd;
    var i := 0;
    StandStart(orig, size);
    NoPlan(orig, size, e.multipartSize);
    NoneWithin(size, |e.remote|);
    assert orig[..0] == [];
    NothingPosted(flat);
    while i < |e.pagelist.pages|
      invariant 0 <= i <= |e.pagelist.pages| && 0 <= j <= |orig| && result == 0
      invariant Standing(orig, e.pagelist.pages, i, j, size)
      invariant posts == Plan(orig[..j], size, e.multipartSize) && Posted(flat, posts, bodies)
      invariant e.file.data == disk && Honest(e.net.respond, e.remote)
      invariant e.isModify <==> old(e.isModify) && AllWithin(orig[..j], size, |e.remote|)
      invariant old(e.Troubles()) <= e.Troubles() && tmp == tmpfd && fresh(tmp)
      decreases |orig| - j
      modifies e.pagelist, tmpfd, e.net, e`isModify
    {
      var p := e.pagelist.pages[i];
      AtPage(orig, e.pagelist.pages, i, j, size);
      if 0 != size && size <= p.offset {
        break;
      }
      PlanStep(orig, j, size, e.multipartSize);
      WithinStep(orig, j, size, |e.remote|);
      PlanPrefix(orig, j + 1, size, e.multipartSize);
      PageShows(orig, j, disk, e.remote);
      var more, content;
      result, more, content := PostPage(e, tmpfd, p, flat);
      PrefixAppend(posts, more, Chunks(p.offset, p.bytes, e.multipartSize));
      PostedConcat(flat, posts, bodies, more, content);
      posts := posts + more;
      bodies := bodies + content;
      PrefixTransitive(posts, Plan(orig[..j + 1], size, e.multipartSize), Plan(orig, size, e.multipartSize));
      if 0 != result {
        break;
      }
      if !p.loaded {
        if 0 != size && size < p.Next() {
          StandSplit(orig, e.pagelist.pages, i, j, size);
          SplitMarked(e.pagelist.pages, i, size);
          e.pagelist.pages := e.pagelist.pages[..i]
            + [Page(p.offset, size - p.offset, true), Page(size, p.Next() - size, p.loaded)]
            + e.pagelist.pages[i + 1..];
          i := i + 1;
        } else {
          StandMarked(orig, e.pagelist.pages, i, j, size);
          MarkedIs(e.pagelist.pages, i);
          e.pagelist.pages := e.pagelist.pages[i := p.(loaded := true)];
        }
      } else {
        StandLoaded(orig, e.pagelist.pages, i, j, size);
      }
      i := i + 1;
      j := j + 1;
    }
    StandValid(orig, e.pagelist.pages, i, j, size);
    if 0 == result {
      StandEnd(orig, e.pagelist.pages, i, j, size);
      PlanEnds(orig, j, size, e.multipartSize);
      WithinEnd(orig, j, size, |e.remote|);
      e.pagelist.Compress();
      emptied := e.file.FTruncate(0);
      CutSizes(disk);
      if emptied {
        WholeLength(orig);
        EmptiedIsNotHeld(Flags(orig), size);
      }
    }
    PlanIsNext(orig, size, e.multipartSize);
    PrefixOfPages(posts, Plan(orig, size, e.multipartSize), orig, size, e.multipartSize);
  }

  /** With the local file emptied, the page list promises bytes that are not there, unless the file was empty. */
  lemma EmptiedIsNotHeld(bits: seq<bool>, size: nat)
    ensures Held(LoadedUpTo(bits, Extent(|bits|, size)), []) <==> bits == []
  {
    if bits != [] {
      assert LoadedUpTo(bits, Extent(|bits|, size))[0];
    }
  }

  lemma WholeLength(pages: seq<Page>)
    requires Tiled(pages)
    ensures EndOf(pages) == |Flags(pages)|
  {
    FlagsLength(pages);
  }

  lemma PrefixAppend(a: seq<Slice>, b: seq<Slice>, c: seq<Slice>)
    requires b <= c
    ensures a + b <= a + c
  {
  }

  lemma PrefixTransitive(a: seq<Slice>, b: seq<Slice>, c: seq<Slice>)
    requires a <= b <= c
    ensures a <= c
  {
    assert b == c[..|b|];
  }

  lemma NoPlan(pages: seq<Page>, size: nat, multipartSize: nat)
    requires MIN_MULTIPART_SIZE <= multipartSize
    ensures Plan(pages[..0], size, multipartSize) == []
  {
  }

  lemma MarkedIs(pages: seq<Page>, i: nat)
    requires i < |pages|
    ensures MarkedAt(pages, i) == pages[i := pages[i].(loaded := true)]
  {
  }

  lemma SplitMarked(pages: seq<Page>, i: nat, pos: nat)
    requires i < |pages| && pages[i].offset < pos < pages[i].Next()
    ensures
      var p := pages[i];
      MarkedAt(SplitPage(pages, i, pos), i)
      == pages[..i] + [Page(p.offset, pos - p.offset, true), Page(pos, p.Next() - pos, p.loaded)] + pages[i + 1..]
  {
  }
}
