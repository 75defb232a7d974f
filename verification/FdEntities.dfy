/**
 The file entity of src/fdcache.cpp: a local file, a page list and a remote
 object that together behave like one flat file.
 */
module FdEntities {
  import opened Bytes
  import opened Errno
  import opened Ints
  import opened LocalFiles
  import opened Pages
  import opened PageLists
  import opened Downloads
  import PageListText

  // ---------- the flat file ----------

  /** A byte that is not held locally: the remote byte, or zero beyond the remote object. */
  function Backing(remote: seq<Byte>, p: nat): Byte {
    if p < |remote| then remote[p] else 0
  }

  /** The flat file of an entity: the local byte where loaded, else the backing byte. */
  ghost function View(bits: seq<bool>, disk: seq<Byte>, remote: seq<Byte>): (r: seq<Byte>) {
    seq(|bits|, p requires 0 <= p < |bits| => if bits[p] && p < |disk| then disk[p] else Backing(remote, p))
  }

  /** A flat file of which nothing has been changed locally. */
  ghost function Pristine(remote: seq<Byte>, size: nat): (r: seq<Byte>) {
    seq(size, p requires 0 <= p => Backing(remote, p))
  }

  function OverlayByte(flat: seq<Byte>, remote: seq<Byte>, offset: nat, bytes: seq<Byte>, p: nat): Byte {
    if offset <= p < offset + |bytes| then bytes[p - offset]
    else if p < |flat| then flat[p]
    else Backing(remote, p)
  }

  /** The flat file after bytes were written; a gap before the offset shows the backing bytes. */
  ghost function Overlay(flat: seq<Byte>, remote: seq<Byte>, offset: nat, bytes: seq<Byte>): (r: seq<Byte>) {
    if bytes == [] then flat
    else seq(Max(|flat|, offset + |bytes|), p requires 0 <= p => OverlayByte(flat, remote, offset, bytes, p))
  }

  /** The flat file after it was cut, or grown with the backing bytes. */
  ghost function Resized(flat: seq<Byte>, remote: seq<Byte>, size: nat): (r: seq<Byte>) {
    seq(size, p requires 0 <= p => if p < |flat| then flat[p] else Backing(remote, p))
  }

  /** No loaded byte lies beyond the end of the local file. */
  ghost predicate Held(bits: seq<bool>, disk: seq<Byte>) {
    && |disk| <= |bits|
    && forall p :: 0 <= p < |bits| && bits[p] ==> p < |disk|
  }

  /** Writing below unloaded bytes cannot be seen. */
  lemma ViewIgnoresUnloaded(bits: seq<bool>, a: seq<Byte>, b: seq<Byte>, remote: seq<Byte>, lo: nat, hi: nat)
    requires Held(bits, a) && ChangedOnlyIn(a, b, lo, hi) && hi <= |bits|
    requires forall p :: lo <= p < hi ==> !bits[p]
    ensures Held(bits, b) && View(bits, b, remote) == View(bits, a, remote)
  {
  }

  /** Marking bytes as loaded cannot be seen when the local file holds their backing bytes. */
  lemma ViewAfterLoading(bits: seq<bool>, disk: seq<Byte>, remote: seq<Byte>, lo: nat, n: nat)
    requires Held(bits, disk) && lo + n <= |disk|
    requires forall p :: lo <= p < lo + n ==> disk[p] == Backing(remote, p)
    requires forall p :: lo <= p < lo + n ==> !bits[p]
    ensures Held(SetRange(bits, lo, n, true), disk)
    ensures View(SetRange(bits, lo, n, true), disk, remote) == View(bits, disk, remote)
  {
  }

  /** A write seen through the view. */
  lemma ViewAfterWrite(bits: seq<bool>, disk: seq<Byte>, remote: seq<Byte>, offset: nat, bytes: seq<Byte>)
    requires Held(bits, disk) && bytes != []
    ensures Held(SetRange(bits, offset, |bytes|, true), PWritten(disk, offset, bytes))
    ensures View(SetRange(bits, offset, |bytes|, true), PWritten(disk, offset, bytes), remote)
         == Overlay(View(bits, disk, remote), remote, offset, bytes)
  {
  }

  lemma ViewAfterTruncate(bits: seq<bool>, disk: seq<Byte>, remote: seq<Byte>, size: nat)
    requires Held(bits, disk)
    ensures Held(ResizeFlags(bits, size, false), Truncated(disk, size))
    ensures View(ResizeFlags(bits, size, false), Truncated(disk, size), remote)
         == Resized(View(bits, disk, remote), remote, size)
  {
  }

  /** A downloaded run followed by its zero-filled rest is the run's backing bytes. */
  lemma FilledRun(a: seq<Byte>, b: seq<Byte>, c: seq<Byte>, remote: seq<Byte>, lo: nat, need: nat, n: nat)
    requires need <= n
    requires if lo < |remote| then need == Min(n, |remote| - lo) else need == 0
    requires b == if 0 < need then PWritten(a, lo, remote[lo..lo + need]) else a
    requires c == PWritten(b, lo + need, Zeros(n - need))
    requires 0 < n
    ensures lo + n <= |c| && forall p :: lo <= p < lo + n ==> c[p] == Backing(remote, p)
    ensures ChangedOnlyIn(a, c, lo, lo + n)
  {
  }

  /** FillFile: writes the zeros in pieces of at most 32 KB. */
  method FillFile(file: LocalFile, size: nat, start: nat) returns (result: int)
    modifies file
    ensures ChangedOnlyIn(old(file.data), file.data, start, start + size)
    ensures result == 0 ==> file.data == PWritten(old(file.data), start, Zeros(size))
    ensures result <= 0 && old(file.faults) <= file.faults && (result != 0 ==> old(file.faults) < file.faults)
  {
    hide PWritten, ChangedOnlyIn;
    UnchangedIn(file.data, start, start + size);
    PWriteNothing(file.data, start);
    assert Zeros(0) == [];
    var total := 0;
    while total < size
      invariant total <= size
      invariant file.data == PWritten(old(file.data), start, Zeros(total))
      invariant ChangedOnlyIn(old(file.data), file.data, start, start + size) && old(file.faults) <= file.faults
    {
      var want := Min(1024 * 32, size - total);
      var onewrote := file.PWrite(start + total, seq(want, _ => 0), false);
      SomeZeros(want, onewrote);
      ZerosWritten(old(file.data), start, total, Max(0, onewrote), size);
      if -1 == onewrote {
        return -EIO;
      }
      total := total + onewrote;
    }
    return 0;
  }

  lemma SomeZeros(want: nat, n: int)
    requires n <= want
    ensures seq(want, _ => 0)[..Max(0, n)] == Zeros(Max(0, n))
  {
  }

  lemma ZerosWritten(data: seq<Byte>, start: nat, done: nat, n: nat, size: nat)
    requires done + n <= size
    ensures PWritten(PWritten(data, start, Zeros(done)), start + done, Zeros(n))
         == PWritten(data, start, Zeros(done + n))
    ensures ChangedOnlyIn(data, PWritten(data, start, Zeros(done + n)), start, start + size)
  {
    hide PWritten, ChangedOnlyIn;
    PWriteTwice(data, start, Zeros(done), Zeros(n));
    assert Zeros(done) + Zeros(n) == Zeros(done + n);
    PWriteChanges(data, start, Zeros(done + n));
    ChangedWider(data, PWritten(data, start, Zeros(done + n)), start, start + done + n, start, start + size);
  }

  class FdEntity {
    const file: LocalFile
    const pagelist: PageList
    const net: Network
    /** The remote object, as long as the original headers say. */
    const remote: seq<Byte>
    const retries: int
    const multipartSize: nat
    const maxParallel: nat
    const maxPrefetch: nat
    const nomultipart: bool
    var isModify: bool
    var refcnt: int
    var uploading: bool  // upload_id is not empty

    ghost predicate Valid()
      reads this, file, pagelist
    {
      && 0 < multipartSize && 0 < maxParallel
      && pagelist.Valid() && Held(pagelist.Bits(), file.data)
      && Honest(net.respond, remote)
    }

    ghost function Logical(): seq<Byte>
      reads this, file, pagelist
    {
      View(pagelist.Bits(), file.data, remote)
    }

    /** What went wrong outside so far. */
    ghost function Troubles(): nat
      reads file, net
    {
      file.faults + net.refusals
    }

    /** A failure is due to something outside, or to a setting that allows no attempt at all. */
    twostate predicate Excused()
      reads this, file, net
    {
      retries <= 0 || old(Troubles()) < Troubles()
    }

    /** Opening without a cache file: an unloaded list and a local file of the given size. */
    constructor (net: Network, remote: seq<Byte>, size: nat, retries: int,
                 multipartSize: nat, maxParallel: nat, maxPrefetch: nat, nomultipart: bool)
      requires 0 < multipartSize && 0 < maxParallel && Honest(net.respond, remote)
      ensures Valid() && fresh(file) && fresh(pagelist)
      ensures this.net == net && this.remote == remote && !isModify && refcnt == 1 && !uploading
      ensures Logical() == Pristine(remote, size) && |file.data| == size && file.faults == 0 && this.retries == retries
    {
      file := new LocalFile();
      pagelist := new PageList(0, false);
      this.net := net;
      this.remote := remote;
      this.retries := retries;
      this.multipartSize := multipartSize;
      this.maxParallel := maxParallel;
      this.maxPrefetch := maxPrefetch;
      this.nomultipart := nomultipart;
      isModify := false;
      refcnt := 1;
      uploading := false;
      new;
      hide Honest, Flags, Runs, WellFormed, View, Held, Pristine, Truncated, ResizeFlags, Fill;
      NothingOpened(remote, size);
      pagelist.Resize(size, false);
      file.Resize(size);
    }

    /**
     Opening with a cache file and its stat file; size -1 is not known. When the stat file cannot be read or the
     cache file cannot be opened, an empty cache file is made, but the pages that were read stay.
     */
    constructor OpenCached(net: Network, remote: seq<Byte>, stat: string, cached: seq<Byte>, openable: bool, size: int,
                           retries: int, multipartSize: nat, maxParallel: nat, maxPrefetch: nat, nomultipart: bool)
      requires 0 < multipartSize && 0 < maxParallel && Honest(net.respond, remote) && -1 <= size
      ensures Valid() && fresh(file) && fresh(pagelist)
      ensures this.net == net && this.remote == remote && !isModify && refcnt == 1 && !uploading
      ensures
        var found := openable && PageListText.Restored(stat).Some?;
        var target := if 0 <= size then size else if found then |cached| else 0;
        && |file.data| == |pagelist.Bits()| == target
        && pagelist.Bits() == (if found || 0 <= size then ResizeFlags(StatBits(stat), target, false) else [])
        && file.data == Truncated(if found then cached else [], target)
    {
      file := new LocalFile();
      pagelist := new PageList(0, false);
      this.net := net;
      this.remote := remote;
      this.retries := retries;
      this.multipartSize := multipartSize;
      this.maxParallel := maxParallel;
      this.maxPrefetch := maxPrefetch;
      this.nomultipart := nomultipart;
      isModify := false;
      refcnt := 1;
      uploading := false;
      new;
      hide PageListText.Restored, Flags, Honest, Truncated, ResizeFlags;
      Restore(stat, cached, openable, size);
    }

    /** The page list from the stat file and the local file from the cache file, both brought to the size. */
    method Restore(stat: string, cached: seq<Byte>, openable: bool, size: int)
      requires pagelist.Valid() && file.data == [] && -1 <= size
      modifies file, pagelist
      ensures pagelist.Valid() && Held(pagelist.Bits(), file.data)
      ensures
        var found := openable && PageListText.Restored(stat).Some?;
        var target := if 0 <= size then size else if found then |cached| else 0;
        && |file.data| == |pagelist.Bits()| == target
        && pagelist.Bits() == (if found || 0 <= size then ResizeFlags(StatBits(stat), target, false) else [])
        && file.data == Truncated(if found then cached else [], target)
    {
      hide PageListText.Restored, Flags;
      NoFlags();
      var ok := PageListText.SerializeIn(pagelist, stat);
      SameSize(pagelist.Bits());
      if ok && openable {
        file.data := cached;
        SameLength(cached);
        if -1 == size {
          if |cached| != pagelist.Size() {
            pagelist.Resize(|cached|, false);
          }
        } else {
          if size != pagelist.Size() {
            pagelist.Resize(size, false);
          }
          if size != |cached| {
            file.Resize(size);
          }
        }
      } else {
        SameLength([]);
        if -1 == size {
          pagelist.Init(0, false);
        } else {
          pagelist.Resize(size, false);
          file.Resize(size);
        }
      }
    }

    method Dup()
      modifies `refcnt
      ensures refcnt == old(refcnt) + 1
    {
      refcnt := refcnt + 1;
    }

    /** Gets a part of the remote object, in parallel when it is large. */
    method Download(start: nat, size: nat) returns (result: int)
      requires Honest(net.respond, remote) && 0 < multipartSize && 0 < maxParallel
      requires 0 < size ==> start + size <= |remote|
      modifies file, net
      ensures result <= 0 && ChangedOnlyIn(old(file.data), file.data, start, start + size)
      ensures old(Troubles()) <= Troubles() && (result != 0 ==> Excused())
      ensures !nomultipart ==> SmallFrom(old(net.sizes), net.sizes, 2 * multipartSize)
      ensures !nomultipart && 2 * multipartSize < size ==> SmallFrom(old(net.sizes), net.sizes, multipartSize)
      ensures nomultipart || size <= 2 * multipartSize ==>
        net.sizes == old(net.sizes) + if 0 < size then [size] else []
      ensures result == 0 ==>
        file.data == if 0 < size then PWritten(old(file.data), start, remote[start..start + size]) else old(file.data)
    {
      hide PWritten, ChangedOnlyIn, Fetched, Holds, Honest;
      ghost var disk := file.data;
      UnchangedIn(disk, start, start + size);
      result := 0;
      if 2 * multipartSize < size && !nomultipart {
        result := ParallelGetObjectRequest(net, file, start, size, retries, multipartSize, maxParallel);
      } else {
        if 0 < size {
          result := GetObjectRequest(net, file, start, size, retries);
        } else {
          result := 0;
        }
      }
      if 0 == result && 0 < size {
        FetchedFromHonest(net.respond, disk, file.data, remote, start, size);
      }
    }

    /** Downloads or zero-fills one unloaded run, then marks it loaded. */
    method LoadRun(run: Page) returns (result: int)
      requires Valid() && 0 < run.bytes && run.Next() <= |pagelist.Bits()|
      requires forall p :: run.offset <= p < run.Next() ==> !pagelist.Bits()[p]
      modifies file, pagelist, net, `isModify
      ensures Valid() && Logical() == old(Logical())
      ensures |file.data| >= old(|file.data|) && result <= 0
      ensures old(Troubles()) <= Troubles() && (result != 0 ==> Excused())
      ensures pagelist.Bits()
           == if result == 0 then SetRange(old(pagelist.Bits()), run.offset, run.bytes, true) else old(pagelist.Bits())
      ensures isModify <==> old(isModify) && (result == 0 ==> run.Next() <= |remote|)
    {
      hide PWritten, ChangedOnlyIn, View, Held, Fetched, SetRange, Honest;
      result := 0;
      ghost var bits, disk := pagelist.Bits(), file.data;
      var needLoadSize := 0;
      if run.offset < |remote| {
        needLoadSize := if run.Next() <= |remote| then run.bytes else |remote| - run.offset;
      }
      var overSize := run.bytes - needLoadSize;
      result := Download(run.offset, needLoadSize);
      ghost var fetched := file.data;
      ChangedWider(disk, fetched, run.offset, run.offset + needLoadSize, run.offset, run.Next());
      ViewIgnoresUnloaded(bits, disk, fetched, remote, run.offset, run.Next());
      if 0 != result {
        return;
      }
      if 0 < overSize {
        result := FillFile(file, overSize, run.offset + needLoadSize);
        ChangedWider(fetched, file.data, run.offset + needLoadSize, run.Next(), run.offset, run.Next());
        ViewIgnoresUnloaded(bits, fetched, file.data, remote, run.offset, run.Next());
        if 0 != result {
          return;
        }
        isModify := false;
      } else {
        PWriteNothing(fetched, run.Next());
        assert Zeros(0) == [];
      }
      FilledRun(disk, fetched, file.data, remote, run.offset, needLoadSize, run.bytes);
      ViewAfterLoading(bits, file.data, remote, run.offset, run.bytes);
      pagelist.SetPageLoadedStatus(run.offset, run.bytes, true, true);
    }

    /** size 0 loads to the end. The flat file never changes, whether or not the downloads succeed. */
    method Load(start: nat, size: nat) returns (result: int)
      requires Valid()
      modifies file, pagelist, net, `isModify
      ensures Valid() && Logical() == old(Logical())
      ensures |file.data| >= old(|file.data|) && |pagelist.Bits()| == old(|pagelist.Bits()|) && result <= 0
      ensures old(Troubles()) <= Troubles() && (result != 0 ==> Excused())
      ensures LoadedWithin(old(pagelist.Bits()), pagelist.Bits(), old(ClipLo(pagelist.Bits(), start)),
                           old(ClipHi(pagelist.Bits(), start, size)))
      ensures result == 0 ==>
        pagelist.Bits() == LoadedBits(old(pagelist.Bits()), start, size)
        && AllLoaded(pagelist.Bits(), ClipLo(pagelist.Bits(), start), ClipHi(pagelist.Bits(), start, size))
      ensures isModify <==> old(isModify) && !LoadedBeyond(old(pagelist.Bits()), pagelist.Bits(), |remote|)
      ensures result == 0 ==> (isModify <==>
        old(isModify) && !UnloadedBeyond(old(pagelist.Bits()), old(ClipLo(pagelist.Bits(), start)),
                                         old(ClipHi(pagelist.Bits(), start, size)), |remote|))
    {
      hide View, Held, UnloadedRuns, LoadedSoFar, Honest, AllLoaded, LoadedWithin, LoadedBeyond, UnloadedBeyond;
      hide MaximalUnloaded, RunsBelow, SetRange, ClipLo, ClipHi;
      result := 0;
      var unloaded, count := pagelist.GetUnloadedPages(start, size);
      ghost var bits0, lo, hi := pagelist.Bits(), ClipLo(pagelist.Bits(), start), ClipHi(pagelist.Bits(), start, size);
      UnloadedRunsAreMaximal(bits0, lo, hi);
      ClipEnd(bits0, start, size);
      LoadedStart(bits0, unloaded, lo, hi, |remote|);
      var i := 0;
      while i < |unloaded|
        invariant i <= |unloaded| && result == 0
        invariant Valid() && Logical() == old(Logical())
        invariant |file.data| >= old(|file.data|) && old(Troubles()) <= Troubles()
        invariant LoadedSoFar(bits0, pagelist.Bits(), unloaded, i)
        invariant isModify <==> old(isModify) && RunsBelow(unloaded, i, |remote|)
      {
        RunAhead(bits0, pagelist.Bits(), unloaded, i, lo, hi);
        if 0 != size && start + size <= unloaded[i].offset {
          break;
        }
        ghost var before := pagelist.Bits();
        result := LoadRun(unloaded[i]);
        if 0 != result {
          break;
        }
        LoadedStep(bits0, before, unloaded, i, lo, hi, |remote|);
        i := i + 1;
      }
      LoadedEnd(bits0, pagelist.Bits(), unloaded, i, lo, hi, |remote|);
      SameClip(bits0, pagelist.Bits(), start, size);
      if 0 == result {
        LoadedAll(bits0, pagelist.Bits(), unloaded, lo, hi, |remote|);
      }
    }

    /** Too little disk space: forgets everything held locally. The two ftruncate calls may fail. */
    method Evict() returns (ok: bool)
      requires Valid()
      modifies file, pagelist
      ensures Valid()
      ensures pagelist.Bits() == Fill(old(|pagelist.Bits()|), false)
      ensures Logical() == Pristine(remote, |pagelist.Bits()|)
      ensures ok ==> |file.data| == |pagelist.Bits()|
      ensures old(file.faults) <= file.faults && (!ok ==> old(file.faults) < file.faults)
    {
      hide View, Honest, Held, Truncated, Fill;
      HeldSizes(pagelist.Bits(), file.data);
      pagelist.Init(pagelist.Size(), false);
      ForgottenView(pagelist.Bits(), file.data, remote);
      CutSizes(file.data);
      ok := file.FTruncate(0);
      ForgottenView(pagelist.Bits(), file.data, remote);
      if !ok {
        return;
      }
      ok := file.FTruncate(pagelist.Size());
      CutSizes(file.data);
      ForgottenView(pagelist.Bits(), file.data, remote);
    }

    /** GetPretchSize: how far a read may load ahead. */
    function PrefetchSize(): (r: nat)
      ensures r <= multipartSize * maxParallel && r <= maxPrefetch
      ensures r == multipartSize * maxParallel || r == maxPrefetch
    {
      Min(multipartSize * maxParallel, maxPrefetch)
    }

    /**
     Reads from the flat file. With too little disk space an unmodified entity first
     forgets what it holds, and with it every local byte that differs from its backing.
     A forced load forgets the range that is read.
     */
    method Read(start: nat, size: nat, forceLoad: bool, isSafe: bool) returns (rsize: int, bytes: seq<Byte>)
      requires Valid()
      modifies file, pagelist, net, `isModify
      ensures Valid()
      ensures old(Troubles()) <= Troubles() && (rsize < 0 ==> Excused())
      ensures rsize == -EIO || (rsize == -ENOSPC && !isSafe && !old(isModify)) || rsize == |bytes|
      ensures Logical() == FlatRead(old(pagelist.Bits()), old(file.data), remote, start, size, forceLoad,
                                    isSafe || old(isModify))
      ensures 0 <= rsize ==> bytes == Logical()[Min(start, |Logical()|)..Min(start + size, |Logical()|)]
      ensures |pagelist.Bits()| == |Forced(old(pagelist.Bits()), start, size, forceLoad)|
      ensures 0 <= rsize ==>
        pagelist.Bits() == ReadBits(Forced(old(pagelist.Bits()), start, size, forceLoad), start, size,
                                    !isSafe && !old(isModify), PrefetchSize())
      ensures rsize < 0 ==>
        ReadWithin(Forced(old(pagelist.Bits()), start, size, forceLoad), pagelist.Bits(), start, size,
                   !isSafe && !old(isModify), PrefetchSize())
      ensures isModify
        <==> (old(isModify)
          && !LoadedBeyond(Forced(old(pagelist.Bits()), start, size, forceLoad), pagelist.Bits(), |remote|))
      ensures 0 <= rsize ==>
        (isModify <==>
          old(isModify) && !ReadsBeyond(Forced(old(pagelist.Bits()), start, size, forceLoad), start, size,
                                        PrefetchSize(), |remote|))
      ensures !forceLoad && old(|file.data| == |pagelist.Bits()|) && rsize != -ENOSPC ==>
        |file.data| == |pagelist.Bits()|
    {
      hide View, Held, Honest, AllLoaded, LoadedWithin, LoadedBeyond, UnloadedBeyond, Missing, SetRange, ClipLo, ClipHi,
        ReadBits, ReadWithin, ReadsBeyond, Pristine;
      if forceLoad {
        ForgetKeepsHeld(pagelist.Bits(), file.data, start, size);
        pagelist.SetPageLoadedStatus(start, size, false, true);
      }
      bytes := [];
      ReadBitsWithin(pagelist.Bits(), start, size, !isSafe && !isModify, PrefetchSize());
      rsize := MakeLoaded(start, size, isSafe);
      if 0 != rsize {
        return;
      }
      ReadSlice(pagelist.Bits(), file.data, remote, start, size);
      var got := file.PRead(start, size);
      if got.None? {
        return -EIO, [];
      }
      bytes := got.value;
      rsize := |bytes|;
    }

    /** What a read does before the data is there: with too little disk space it may evict, and then it loads ahead. */
    method MakeLoaded(start: nat, size: nat, isSafe: bool) returns (result: int)
      requires Valid()
      modifies file, pagelist, net, `isModify
      ensures Valid()
      ensures old(Troubles()) <= Troubles() && (result != 0 ==> Excused())
      ensures result == 0 || result == -EIO || (result == -ENOSPC && !isSafe && !old(isModify))
      ensures Logical() == if !isSafe && !old(isModify) && 0 < Missing(old(pagelist.Bits()), start, size)
        then Pristine(remote, old(|pagelist.Bits()|)) else old(Logical())
      ensures |pagelist.Bits()| == old(|pagelist.Bits()|)
      ensures result == 0 && 0 < size ==>
        AllLoaded(pagelist.Bits(), ClipLo(pagelist.Bits(), start), ClipHi(pagelist.Bits(), start, size))
      ensures result == 0 ==>
        pagelist.Bits() == ReadBits(old(pagelist.Bits()), start, size, !isSafe && !old(isModify), PrefetchSize())
      ensures result != 0 ==>
        ReadWithin(old(pagelist.Bits()), pagelist.Bits(), start, size, !isSafe && !old(isModify), PrefetchSize())
      ensures isModify <==> old(isModify) && !LoadedBeyond(old(pagelist.Bits()), pagelist.Bits(), |remote|)
      ensures result == 0 ==>
        (isModify <==> old(isModify) && !ReadsBeyond(old(pagelist.Bits()), start, size, PrefetchSize(), |remote|))
      ensures old(|file.data| == |pagelist.Bits()|) && result != -ENOSPC ==> |file.data| == |pagelist.Bits()|
    {
      hide View, Held, Honest, AllLoaded, LoadedWithin, LoadedBeyond, UnloadedBeyond, CountUnloaded, SetRange, ClipLo,
        ClipHi, LoadSize, Pristine;
      result := 0;
      NothingLoaded(pagelist.Bits(), |remote|);
      ghost var now := pagelist.Bits();
      var missing := pagelist.GetTotalUnloadedPageSize(start, size);
      NoneMissing(pagelist.Bits(), start, size);
      if 0 < missing {
        if !isSafe {
          if !isModify {
            var ok := Evict();
            NothingLoaded(pagelist.Bits(), |remote|);
            if !ok {
              return -ENOSPC;
            }
          }
        }
        var loadSize := LoadSize(start, size, pagelist.Size(), PrefetchSize());
        if 0 < size {
          SameClip(now, pagelist.Bits(), start, loadSize);
          result := Load(start, loadSize);
          HeldSizes(pagelist.Bits(), file.data);
          if 0 != result {
            return -EIO;
          }
          LoadedLess(pagelist.Bits(), start, size, loadSize);
        }
      }
    }

    /**
     Writes into the flat file. Covers the branch with enough disk space; the result
     is the number of bytes pwrite took, or a negated error.
     */
    method Write(bytes: seq<Byte>, start: nat) returns (wsize: int)
      requires Valid() && !uploading
      modifies file, pagelist, net, `isModify
      ensures Valid()
      ensures wsize <= |bytes| && old(Troubles()) <= Troubles() && (wsize < |bytes| ==> Excused())
      ensures Logical() == Overlay(old(Logical()), remote, start, bytes[..Max(0, wsize)])
      ensures 0 <= wsize ==> isModify && pagelist.Bits() == WrittenBits(old(pagelist.Bits()), start, wsize)
      ensures wsize < 0 ==>
        LoadedWithin(old(pagelist.Bits()), pagelist.Bits(), 0, old(Min(start, |pagelist.Bits()|)))
      ensures wsize < 0 ==>
        (isModify <==> old(isModify) && !LoadedBeyond(old(pagelist.Bits()), pagelist.Bits(), |remote|))
      ensures old(|file.data| == |pagelist.Bits()|) ==> |file.data| == |pagelist.Bits()|
    {
      hide View, Held, Honest, AllLoaded, LoadedWithin, LoadedBeyond, UnloadedBeyond, SetRange, PWritten, OverlayByte;
      assert bytes[..0] == [];
      NothingLoaded(pagelist.Bits(), |remote|);
      if 0 < start {
        var result := Load(0, start);
        HeldSizes(pagelist.Bits(), file.data);
        if 0 != result {
          return result;
        }
      }
      ghost var bits, disk := pagelist.Bits(), file.data;
      wsize := file.PWrite(start, bytes, true);
      if -1 == wsize {
        PWriteNothing(disk, start);
        return -EIO;
      }
      isModify := true;
      if 0 < wsize {
        ViewAfterWrite(bits, disk, remote, start, bytes[..wsize]);
        if |bits| == |disk| {
          SizesAfterWrite(bits, disk, start, bytes[..wsize]);
        }
        pagelist.SetPageLoadedStatus(start, wsize, true, true);
      } else {
        assert bytes[..wsize] == [];
        PWriteNothing(disk, start);
      }
    }

    /**
     Cuts or grows the flat file. When the data cannot be synced the local file is resized
     all the same, but the page list is not.
     */
    method Ftruncate(size: nat, synced: bool) returns (result: int)
      requires Valid()
      modifies file, pagelist, `isModify
      ensures synced || result == 0 ==> Valid()
      ensures synced || result == 0 ==>
        Logical() == if result == 0 then Resized(old(Logical()), remote, size) else old(Logical())
      ensures result != 0 ==> file.data == old(file.data) || (!synced && file.data == Truncated(old(file.data), size))
      ensures size == old(|Logical()|) ==> result == 0
      ensures size != old(|Logical()|) && 1 < refcnt && !uploading && result != 0 ==>
        !synced || old(file.faults) < file.faults
      ensures old(file.faults) <= file.faults
      ensures isModify <==> old(isModify) || (result == 0 && size != old(|Logical()|))
      ensures pagelist.Bits()
           == if result == 0 then ResizeFlags(old(pagelist.Bits()), size, false) else old(pagelist.Bits())
      ensures size != old(|Logical()|) && refcnt <= 1 ==> result == -EIO
      ensures size != old(|Logical()|) && 1 < refcnt && uploading ==> result == -ENOSPC
      ensures size != old(|Logical()|) && result == 0 ==> |file.data| == size
      ensures old(|file.data| == |pagelist.Bits()|) && (synced || result == 0) ==> |file.data| == |pagelist.Bits()|
    {
      SameSize(pagelist.Bits());
      if size == pagelist.Size() {
        return 0;
      }
      if refcnt <= 1 {
        return -EIO;
      }
      if uploading {
        return -ENOSPC;
      }
      ViewAfterTruncate(pagelist.Bits(), file.data, remote, size);
      var ok := file.FTruncate(size);
      if !ok || !synced {
        return -EIO;
      }
      isModify := true;
      pagelist.Resize(size, false);
      return 0;
    }
  }

  /** The flags after a write took n bytes; what lies before it was loaded first. */
  ghost function WrittenBits(bits: seq<bool>, start: nat, n: nat): seq<bool> {
    var loaded := if 0 < start then LoadedBits(bits, 0, start) else bits;
    if 0 < n then SetRange(loaded, start, n, true) else loaded
  }

  /** A local file resized behind the page list's back still fits exactly if nothing is loaded beyond its new end. */
  lemma UnsyncedTruncate(bits: seq<bool>, disk: seq<Byte>, remote: seq<Byte>, size: nat)
    requires Held(bits, disk)
    ensures Held(bits, Truncated(disk, size)) <==> size <= |bits| && forall p :: size <= p < |bits| ==> !bits[p]
    ensures Held(bits, Truncated(disk, size)) ==> View(bits, Truncated(disk, size), remote) == View(bits, disk, remote)
  {
    var cut := Truncated(disk, size);
    if Held(bits, cut) {
      assert forall p :: 0 <= p < |bits| && bits[p] ==> cut[p] == disk[p];
    }
  }

  lemma NothingLoaded(bits: seq<bool>, limit: nat)
    ensures !LoadedBeyond(bits, bits, limit)
    ensures forall lo, hi :: LoadedWithin(bits, bits, lo, hi)
  {
  }

  lemma SameSize(bits: seq<bool>)
    ensures ResizeFlags(bits, |bits|, false) == bits
  {
  }

  /** The flags a stat file restores; none if it is not accepted. */
  ghost function StatBits(stat: string): seq<bool> {
    var restored := PageListText.Restored(stat);
    if restored.Some? then Flags(restored.value) else []
  }

  /** An unloaded list and a local file of a size show the backing bytes. */
  lemma NothingOpened(remote: seq<Byte>, size: nat)
    ensures
      var bits, disk := ResizeFlags(Fill(0, false), size, false), Truncated([], size);
      Held(bits, disk) && View(bits, disk, remote) == Pristine(remote, size) && |disk| == size
  {
  }

  lemma NoFlags()
    ensures Flags([]) == []
  {
  }

  lemma SameLength(data: seq<Byte>)
    ensures Truncated(data, |data|) == data
  {
  }

  /** A file closed with its stat file and opened again is the same flat file. */
  lemma ReopenedIsSame(pages: seq<Page>, disk: seq<Byte>, remote: seq<Byte>)
    requires WellFormed(pages) && |disk| == |Flags(pages)|
    ensures
      var stat := PageListText.Printed(pages);
      && PageListText.Restored(stat).Some?
      && View(ResizeFlags(StatBits(stat), |disk|, false), Truncated(disk, |disk|), remote)
         == View(Flags(pages), disk, remote)
  {
    hide PageListText.Restored, PageListText.Printed, Flags, View, Truncated, ResizeFlags;
    PageListText.PrintedIsRestored(pages);
    SameSize(Flags(pages));
    SameLength(disk);
  }

  /**
   Opened with a stat file but without its cache file, a file shows any remote object of size n as it is, exactly
   if the stat file says of no byte of the object that it is loaded.
   */
  lemma OpenedWithoutCacheFile(bits: seq<bool>, n: nat)
    ensures (forall remote: seq<Byte> | |remote| == n :: View(bits, Zeros(|bits|), remote) == Pristine(remote, |bits|))
      <==> forall p :: 0 <= p < |bits| && p < n ==> !bits[p]
  {
    var ones: seq<Byte> := seq(n, _ => 1);
    if View(bits, Zeros(|bits|), ones) == Pristine(ones, |bits|) {
      forall p | 0 <= p < |bits| && p < n
        ensures !bits[p]
      {
        assert View(bits, Zeros(|bits|), ones)[p] == Pristine(ones, |bits|)[p];
      }
    }
    assert |ones| == n;
  }

  /** The bits a read works with. */
  ghost function Forced(bits: seq<bool>, start: nat, size: nat, force: bool): seq<bool> {
    if force then SetRange(bits, start, size, false) else bits
  }

  ghost function Missing(bits: seq<bool>, start: nat, size: nat): nat {
    CountUnloaded(bits, ClipLo(bits, start), ClipHi(bits, start, size))
  }

  /** How much to load for a read: more than asked for, as far as the prefetch limit and the file allow. */
  function LoadSize(start: nat, size: nat, total: nat, ahead: nat): (loadSize: nat)
    ensures size <= loadSize && (start + size <= total ==> start + loadSize <= total)
    ensures total <= start + size ==> loadSize == size
    ensures start + size < total ==> start + loadSize == Min(total, start + Max(size, ahead))
  {
    if start + size < total then
      var prefetch := Max(size, ahead);
      if start + prefetch < total then prefetch else total - start
    else size
  }

  /** The flags a read starts to load from: all cleared when it evicts. */
  ghost function Kept(bits: seq<bool>, start: nat, size: nat, evicts: bool): seq<bool> {
    if evicts && 0 < Missing(bits, start, size) then Fill(|bits|, false) else bits
  }

  /** The flags after a read that succeeded. */
  ghost function ReadBits(bits: seq<bool>, start: nat, size: nat, evicts: bool, ahead: nat): seq<bool> {
    if 0 < size && 0 < Missing(bits, start, size) then
      LoadedBits(Kept(bits, start, size, evicts), start, LoadSize(start, size, |bits|, ahead))
    else Kept(bits, start, size, evicts)
  }

  /** The flags after any read. */
  ghost predicate ReadWithin(bits: seq<bool>, now: seq<bool>, start: nat, size: nat, evicts: bool, ahead: nat) {
    if 0 < size && 0 < Missing(bits, start, size) then
      LoadedWithin(Kept(bits, start, size, evicts), now, ClipLo(bits, start),
                   ClipHi(bits, start, LoadSize(start, size, |bits|, ahead)))
    else now == Kept(bits, start, size, evicts)
  }

  /** The flags after a read that succeeded are among those after any read. */
  lemma ReadBitsWithin(bits: seq<bool>, start: nat, size: nat, evicts: bool, ahead: nat)
    ensures ReadWithin(bits, ReadBits(bits, start, size, evicts, ahead), start, size, evicts, ahead)
  {
    hide Missing, LoadSize;
    var kept := Kept(bits, start, size, evicts);
    SameClip(bits, kept, start, LoadSize(start, size, |bits|, ahead));
  }

  /** A read of unloaded bytes that loads, perhaps ahead, an unloaded byte beyond the remote object. */
  ghost predicate ReadsBeyond(bits: seq<bool>, start: nat, size: nat, ahead: nat, limit: nat) {
    && 0 < size && 0 < Missing(bits, start, size)
    && UnloadedBeyond(bits, ClipLo(bits, start), ClipHi(bits, start, LoadSize(start, size, |bits|, ahead)), limit)
  }

  /** The flat file after a read; keep says whether eviction is ruled out. */
  ghost function FlatRead(bits: seq<bool>, disk: seq<Byte>, remote: seq<Byte>, start: nat, size: nat,
                          force: bool, keep: bool): seq<Byte>
  {
    var now := Forced(bits, start, size, force);
    if !keep && 0 < Missing(now, start, size) then Pristine(remote, |now|) else View(now, disk, remote)
  }

  lemma ForgottenView(bits: seq<bool>, disk: seq<Byte>, remote: seq<Byte>)
    requires bits == Fill(|bits|, false) && |disk| <= |bits|
    ensures Held(bits, disk) && View(bits, disk, remote) == Pristine(remote, |bits|)
  {
  }

  lemma ClipEnd(bits: seq<bool>, start: nat, size: nat)
    ensures size != 0 ==> ClipHi(bits, start, size) <= start + size || ClipHi(bits, start, size) == ClipLo(bits, start)
  {
  }

  lemma SameClip(a: seq<bool>, b: seq<bool>, start: nat, size: nat)
    requires |a| == |b|
    ensures ClipLo(a, start) == ClipLo(b, start) && ClipHi(a, start, size) == ClipHi(b, start, size)
  {
  }

  lemma CutSizes(disk: seq<Byte>)
    ensures |Truncated(disk, 0)| == 0 && forall n: nat :: |Truncated(disk, n)| == n
  {
  }

  lemma HeldSizes(bits: seq<bool>, disk: seq<Byte>)
    requires Held(bits, disk)
    ensures |disk| <= |bits| && |Fill(|bits|, false)| == |bits|
  {
  }

  lemma ForgetKeepsHeld(bits: seq<bool>, disk: seq<Byte>, start: nat, size: nat)
    requires Held(bits, disk)
    ensures Held(SetRange(bits, start, size, false), disk)
  {
  }

  lemma NoneMissing(bits: seq<bool>, start: nat, size: nat)
    ensures CountUnloaded(bits, ClipLo(bits, start), ClipHi(bits, start, size)) == 0
        ==> AllLoaded(bits, ClipLo(bits, start), ClipHi(bits, start, size))
  {
    CountZero(bits, ClipLo(bits, start), ClipHi(bits, start, size));
  }

  lemma LoadedLess(bits: seq<bool>, start: nat, size: nat, more: nat)
    requires 0 < size <= more
    requires AllLoaded(bits, ClipLo(bits, start), ClipHi(bits, start, more))
    ensures AllLoaded(bits, ClipLo(bits, start), ClipHi(bits, start, size))
  {
  }

  /** Where everything is loaded, the local file shows the flat file. */
  lemma ReadSlice(bits: seq<bool>, disk: seq<Byte>, remote: seq<Byte>, start: nat, size: nat)
    requires Held(bits, disk)
    requires size == 0 || AllLoaded(bits, ClipLo(bits, start), ClipHi(bits, start, size))
    ensures |View(bits, disk, remote)| == |bits|
    ensures disk[Min(start, |disk|)..Min(start + size, |disk|)]
         == View(bits, disk, remote)[Min(start, |bits|)..Min(start + size, |bits|)]
  {
    if 0 < size && start < |bits| {
      assert bits[Min(start + size, |bits|) - 1];
    }
  }

  lemma SizesAfterWrite(bits: seq<bool>, disk: seq<Byte>, start: nat, bytes: seq<Byte>)
    requires bytes != [] && |bits| == |disk|
    ensures |SetRange(bits, start, |bytes|, true)| == |PWritten(disk, start, bytes)|
  {
  }

  /** Bytes of a range got loaded, and no other flag changed. */
  ghost predicate LoadedWithin(before: seq<bool>, now: seq<bool>, lo: nat, hi: nat) {
    && |now| == |before|
    && forall p :: 0 <= p < |before| ==> (before[p] ==> now[p]) && (now[p] && !before[p] ==> lo <= p < hi)
  }

  /** The flags after the clipped range was loaded. */
  ghost function LoadedBits(bits: seq<bool>, start: nat, size: nat): seq<bool> {
    SetRange(bits, ClipLo(bits, start), ClipHi(bits, start, size) - ClipLo(bits, start), true)
  }

  /** Some byte beyond the remote object got loaded, so it was filled with zero. */
  ghost predicate LoadedBeyond(before: seq<bool>, now: seq<bool>, limit: nat) {
    exists p :: limit <= p < |before| && p < |now| && now[p] && !before[p]
  }

  ghost predicate AllLoaded(bits: seq<bool>, lo: nat, hi: nat)
    requires lo <= hi <= |bits|
  {
    forall p :: lo <= p < hi ==> bits[p]
  }

  /** Some byte of the range is not loaded and lies beyond the remote object. */
  ghost predicate UnloadedBeyond(bits: seq<bool>, lo: nat, hi: nat, limit: nat)
    requires lo <= hi <= |bits|
  {
    exists p :: lo <= p < hi && limit <= p && !bits[p]
  }

  /** Of the given disjoint runs, the first i are loaded and the others are not; nothing got unloaded. */
  ghost predicate LoadedSoFar(bits0: seq<bool>, bits: seq<bool>, runs: seq<Page>, i: nat) {
    && |bits| == |bits0|
    && (forall p :: 0 <= p < |bits0| && bits0[p] ==> bits[p])
    && (forall p :: 0 <= p < |bits0| && bits[p] && !bits0[p] ==> InFirst(runs, i, p))
    && (forall k, p :: 0 <= k < i && k < |runs| && runs[k].offset <= p < runs[k].Next() && p < |bits| ==> bits[p])
    && (forall k, p :: i <= k < |runs| && runs[k].offset <= p < runs[k].Next() && p < |bits| ==> !bits[p])
  }

  ghost predicate InFirst(runs: seq<Page>, i: nat, p: nat) {
    exists k :: 0 <= k < i && k < |runs| && runs[k].offset <= p < runs[k].Next()
  }

  ghost predicate RunsBelow(runs: seq<Page>, i: nat, limit: nat) {
    forall k :: 0 <= k < i && k < |runs| ==> runs[k].Next() <= limit
  }

  lemma LoadedStart(bits0: seq<bool>, runs: seq<Page>, lo: nat, hi: nat, limit: nat)
    requires lo <= hi <= |bits0| && MaximalUnloaded(runs, bits0, lo, hi)
    ensures LoadedSoFar(bits0, bits0, runs, 0) && RunsBelow(runs, 0, limit)
  {
    forall k, p | 0 <= k < |runs| && runs[k].offset <= p < runs[k].Next() && p < |bits0|
      ensures !bits0[p]
    {
      assert UnloadedRun(runs[k], bits0, lo, hi);
    }
  }

  lemma RunAhead(bits0: seq<bool>, bits: seq<bool>, runs: seq<Page>, i: nat, lo: nat, hi: nat)
    requires lo <= hi <= |bits0| && MaximalUnloaded(runs, bits0, lo, hi) && i < |runs|
    requires LoadedSoFar(bits0, bits, runs, i)
    ensures 0 < runs[i].bytes && lo <= runs[i].offset && runs[i].Next() <= hi <= |bits|
    ensures forall p :: runs[i].offset <= p < runs[i].Next() ==> !bits[p]
  {
    assert UnloadedRun(runs[i], bits0, lo, hi);
  }

  lemma LoadedStep(bits0: seq<bool>, bits: seq<bool>, runs: seq<Page>, i: nat, lo: nat, hi: nat, limit: nat)
    requires lo <= hi <= |bits0| && MaximalUnloaded(runs, bits0, lo, hi) && i < |runs|
    requires LoadedSoFar(bits0, bits, runs, i)
    ensures LoadedSoFar(bits0, SetRange(bits, runs[i].offset, runs[i].bytes, true), runs, i + 1)
    ensures RunsBelow(runs, i + 1, limit) <==> RunsBelow(runs, i, limit) && runs[i].Next() <= limit
  {
    assert UnloadedRun(runs[i], bits0, lo, hi);
    var after := SetRange(bits, runs[i].offset, runs[i].bytes, true);
    forall p | 0 <= p < |bits0| && after[p] && !bits0[p]
      ensures InFirst(runs, i + 1, p)
    {
      if runs[i].offset <= p < runs[i].Next() {
        assert InFirst(runs, i + 1, p);
      } else {
        var k :| 0 <= k < i && k < |runs| && runs[k].offset <= p < runs[k].Next();
        assert InFirst(runs, i + 1, p);
      }
    }
    forall k, p | i + 1 <= k < |runs| && runs[k].offset <= p < runs[k].Next() && p < |after|
      ensures !after[p]
    {
      assert runs[i].Next() < runs[k].offset;
    }
  }

  /** When the loop ends, also early, only bytes of the range got loaded, and beyond the limit only if a run is. */
  lemma LoadedEnd(bits0: seq<bool>, bits: seq<bool>, runs: seq<Page>, i: nat, lo: nat, hi: nat, limit: nat)
    requires lo <= hi <= |bits0| && MaximalUnloaded(runs, bits0, lo, hi) && i <= |runs|
    requires LoadedSoFar(bits0, bits, runs, i)
    ensures LoadedWithin(bits0, bits, lo, hi)
    ensures RunsBelow(runs, i, limit) <==> !LoadedBeyond(bits0, bits, limit)
  {
    forall p | 0 <= p < |bits0| && bits[p] && !bits0[p]
      ensures lo <= p < hi && InFirst(runs, i, p)
    {
      var k :| 0 <= k < i && k < |runs| && runs[k].offset <= p < runs[k].Next();
      assert UnloadedRun(runs[k], bits0, lo, hi);
    }
    if !RunsBelow(runs, i, limit) {
      var k :| 0 <= k < i && !(runs[k].Next() <= limit);
      assert UnloadedRun(runs[k], bits0, lo, hi);
      var p := runs[k].Next() - 1;
      assert limit <= p < |bits0| && bits[p] && !bits0[p];
    }
  }

  /** When all runs are done the whole range is loaded. */
  lemma LoadedAll(bits0: seq<bool>, bits: seq<bool>, runs: seq<Page>, lo: nat, hi: nat, limit: nat)
    requires lo <= hi <= |bits0| && MaximalUnloaded(runs, bits0, lo, hi)
    requires LoadedSoFar(bits0, bits, runs, |runs|) && LoadedWithin(bits0, bits, lo, hi)
    ensures AllLoaded(bits, lo, hi)
    ensures bits == SetRange(bits0, lo, hi - lo, true)
    ensures LoadedBeyond(bits0, bits, limit) <==> UnloadedBeyond(bits0, lo, hi, limit)
  {
    forall p | lo <= p < hi
      ensures bits[p]
    {
      assert !bits0[p] ==> InSomeRun(runs, p);
    }
    SetRangeIs(bits0, lo, hi - lo, true, bits);
  }

  lemma FetchedFromHonest(respond: (nat, nat, nat) -> Attempt, a: seq<Byte>, b: seq<Byte>, remote: seq<Byte>,
                          start: nat, n: nat)
    requires start + n <= |remote|
    ensures Fetched(respond, a, b, start, n) && Honest(respond, remote) ==>
      b == PWritten(a, start, remote[start..start + n])
  {
  }
}
