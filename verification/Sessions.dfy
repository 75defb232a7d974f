/**
 Whole runs of a file entity: any sequence of loads, reads, writes and truncates
 behaves like the same sequence on one flat file, and when that file behaves like
 a plain POSIX file.
 */
module Sessions {
  import opened Bytes
  import opened Downloads
  import opened Errno
  import opened Ints
  import opened LocalFiles
  import opened PageLists
  import opened FdEntities

  /** A read says whether there is enough disk space for it. */
  datatype Request =
    | LoadRange(start: nat, size: nat)
    | ReadAt(start: nat, size: nat, isSafe: bool)
    | WriteAt(start: nat, bytes: seq<Byte>)
    | TruncateTo(size: nat)

  /** The bytes of a write that were taken. */
  function Taken(bytes: seq<Byte>, result: int): seq<Byte> {
    bytes[..Clamp(result, 0, |bytes|)]
  }

  /** One request on the flat file of an entity, given the result it returned. */
  ghost function FlatStep(flat: seq<Byte>, remote: seq<Byte>, request: Request, result: int): seq<Byte> {
    match request
    case LoadRange(_, _) => flat
    case ReadAt(_, _, _) => flat
    case WriteAt(start, bytes) => Overlay(flat, remote, start, Taken(bytes, result))
    case TruncateTo(size) => if result == 0 then Resized(flat, remote, size) else flat
  }

  /** The same request on a plain local file. */
  ghost function PosixStep(flat: seq<Byte>, request: Request, result: int): seq<Byte> {
    match request
    case LoadRange(_, _) => flat
    case ReadAt(_, _, _) => flat
    case WriteAt(start, bytes) => PWritten(flat, start, Taken(bytes, result))
    case TruncateTo(size) => if result == 0 then Truncated(flat, size) else flat
  }

  ghost function FlatRun(flat: seq<Byte>, remote: seq<Byte>, requests: seq<Request>, results: seq<int>): seq<Byte>
    requires |requests| == |results|
  {
    if requests == [] then flat
    else
      var n := |requests| - 1;
      FlatStep(FlatRun(flat, remote, requests[..n], results[..n]), remote, requests[n], results[n])
  }

  ghost function PosixRun(flat: seq<Byte>, requests: seq<Request>, results: seq<int>): seq<Byte>
    requires |requests| == |results|
  {
    if requests == [] then flat
    else
      var n := |requests| - 1;
      PosixStep(PosixRun(flat, requests[..n], results[..n]), requests[n], results[n])
  }

  /** A write zero-extends the file exactly if the gap it opens has zero backing bytes. */
  lemma OverlayIsPosix(flat: seq<Byte>, remote: seq<Byte>, start: nat, bytes: seq<Byte>)
    ensures Overlay(flat, remote, start, bytes) == PWritten(flat, start, bytes)
      <==> bytes == [] || forall p :: |flat| <= p < start ==> Backing(remote, p) == 0
  {
    if bytes != [] {
      var a, b := Overlay(flat, remote, start, bytes), PWritten(flat, start, bytes);
      forall p | 0 <= p < |a|
        ensures a[p] == OverlayByte(flat, remote, start, bytes, p) && b[p] == WrittenByte(flat, start, bytes, p)
      {
      }
      if a == b {
        forall p | |flat| <= p < start
          ensures Backing(remote, p) == 0
        {
          assert a[p] == b[p];
        }
      }
    }
  }

  /** A truncate zero-extends the file exactly if the bytes it adds have zero backing bytes. */
  lemma ResizedIsPosix(flat: seq<Byte>, remote: seq<Byte>, size: nat)
    ensures Resized(flat, remote, size) == Truncated(flat, size)
      <==> forall p :: |flat| <= p < size ==> Backing(remote, p) == 0
  {
    var a, b := Resized(flat, remote, size), Truncated(flat, size);
    if a == b {
      forall p | |flat| <= p < size
        ensures Backing(remote, p) == 0
      {
        assert a[p] == b[p];
      }
    }
  }

  /** Shrinking below the remote object and growing again brings remote bytes back instead of zeros. */
  lemma ShrinkThenGrow()
    ensures
      var requests, results := [TruncateTo(0), TruncateTo(1)], [0, 0];
      FlatRun([7], [7], requests, results) == [7] && PosixRun([7], requests, results) == [0]
  {
    var requests, results := [TruncateTo(0), TruncateTo(1)], [0, 0];
    assert requests[..1] == [TruncateTo(0)] && results[..1] == [0];
    assert requests[..1][..0] == [] && results[..1][..0] == [];
    assert FlatRun([7], [7], requests[..1], results[..1]) == Resized([7], [7], 0) == [];
    assert PosixRun([7], requests[..1], results[..1]) == Truncated([7], 0) == [];
    assert Resized([], [7], 1) == [7];
    assert Truncated([], 1) == [0];
  }

  lemma {:induction false} StepIsPosix(flat: seq<Byte>, remote: seq<Byte>, request: Request, result: int)
    requires |remote| <= |flat|
    requires request.TruncateTo? ==> |remote| <= request.size
    ensures FlatStep(flat, remote, request, result) == PosixStep(flat, request, result)
    ensures |remote| <= |FlatStep(flat, remote, request, result)|
  {
    match request
    case LoadRange(_, _) =>
    case ReadAt(_, _, _) =>
    case WriteAt(start, bytes) =>
      OverlayIsPosix(flat, remote, start, Taken(bytes, result));
    case TruncateTo(size) =>
      ResizedIsPosix(flat, remote, size);
  }

  /** A run that never cuts the file below the remote object is a run of a plain POSIX file. */
  lemma {:induction false} RunIsPosix(flat: seq<Byte>, remote: seq<Byte>, requests: seq<Request>, results: seq<int>)
    requires |requests| == |results| && |remote| <= |flat|
    requires forall i :: 0 <= i < |requests| && requests[i].TruncateTo? ==> |remote| <= requests[i].size
    ensures FlatRun(flat, remote, requests, results) == PosixRun(flat, requests, results)
    ensures |remote| <= |FlatRun(flat, remote, requests, results)|
  {
    if requests != [] {
      var n := |requests| - 1;
      RunIsPosix(flat, remote, requests[..n], results[..n]);
      StepIsPosix(FlatRun(flat, remote, requests[..n], results[..n]), remote, requests[n], results[n]);
    }
  }

  /** A freshly opened entity of the remote object's size is the remote object. */
  lemma OpenedIsRemote(remote: seq<Byte>)
    ensures Pristine(remote, |remote|) == remote
  {
  }

  /** Forgetting everything held locally changes nothing exactly if every loaded byte equals its backing byte. */
  lemma EvictionHarmless(bits: seq<bool>, disk: seq<Byte>, remote: seq<Byte>)
    requires Held(bits, disk)
    ensures View(bits, disk, remote) == Pristine(remote, |bits|)
      <==> forall p :: 0 <= p < |bits| && bits[p] ==> disk[p] == Backing(remote, p)
  {
    var a, b := View(bits, disk, remote), Pristine(remote, |bits|);
    if a == b {
      forall p | 0 <= p < |bits| && bits[p]
        ensures disk[p] == Backing(remote, p)
      {
        assert a[p] == b[p];
      }
    }
  }

  // ---------- every content of the remote object ----------

  /** An object without a zero byte. */
  ghost function Ones(n: nat): (r: seq<Byte>) {
    seq(n, _ => 1)
  }

  /** A write that goes on beyond the end leaves a gap below the size of the remote object. */
  predicate GapBelow(len: nat, n: nat, start: nat, bytes: seq<Byte>) {
    bytes != [] && len < start && len < n
  }

  /** Whatever the remote object of a size holds, a write zero-extends, unless it leaves a gap below that size. */
  lemma OverlayForEvery(flat: seq<Byte>, n: nat, start: nat, bytes: seq<Byte>)
    ensures (forall remote: seq<Byte> | |remote| == n ::
        Overlay(flat, remote, start, bytes) == PWritten(flat, start, bytes))
      <==> !GapBelow(|flat|, n, start, bytes)
  {
    hide Overlay, PWritten;
    OverlayIsPosix(flat, Ones(n), start, bytes);
    assert GapBelow(|flat|, n, start, bytes) ==> Backing(Ones(n), |flat|) != 0;
    if !GapBelow(|flat|, n, start, bytes) {
      forall remote: seq<Byte> | |remote| == n
        ensures Overlay(flat, remote, start, bytes) == PWritten(flat, start, bytes)
      {
        OverlayIsPosix(flat, remote, start, bytes);
      }
    }
  }

  /** Whatever the remote object of a size holds, a truncate zero-extends, unless it grows a file shorter than that. */
  lemma ResizedForEvery(flat: seq<Byte>, n: nat, size: nat)
    ensures (forall remote: seq<Byte> | |remote| == n :: Resized(flat, remote, size) == Truncated(flat, size))
      <==> size <= |flat| || n <= |flat|
  {
    hide Resized, Truncated;
    ResizedIsPosix(flat, Ones(n), size);
    assert |flat| < n ==> Backing(Ones(n), |flat|) != 0;
    if size <= |flat| || n <= |flat| {
      forall remote: seq<Byte> | |remote| == n
        ensures Resized(flat, remote, size) == Truncated(flat, size)
      {
        ResizedIsPosix(flat, remote, size);
      }
    }
  }

  /** A request that makes a file of this length longer while it is shorter than the remote object. */
  predicate GrowsBelow(len: nat, n: nat, request: Request, result: int) {
    match request
    case LoadRange(_, _) => false
    case ReadAt(_, _, _) => false
    case WriteAt(start, bytes) => GapBelow(len, n, start, Taken(bytes, result))
    case TruncateTo(size) => result == 0 && len < size && len < n
  }

  /** One request is the POSIX one, for every remote object of a size, exactly if it does not grow below it. */
  lemma StepForEvery(flat: seq<Byte>, n: nat, request: Request, result: int)
    ensures (forall remote: seq<Byte> | |remote| == n ::
        FlatStep(flat, remote, request, result) == PosixStep(flat, request, result))
      <==> !GrowsBelow(|flat|, n, request, result)
  {
    hide Overlay, PWritten, Resized, Truncated;
    match request
    case LoadRange(_, _) =>
    case ReadAt(_, _, _) =>
    case WriteAt(start, bytes) => OverlayForEvery(flat, n, start, Taken(bytes, result));
    case TruncateTo(size) => ResizedForEvery(flat, n, size);
  }

  function LengthStep(len: nat, request: Request, result: int): nat {
    match request
    case LoadRange(_, _) => len
    case ReadAt(_, _, _) => len
    case WriteAt(start, bytes) =>
      if Taken(bytes, result) == [] then len else Max(len, start + |Taken(bytes, result)|)
    case TruncateTo(size) => if result == 0 then size else len
  }

  /** The length of the file after some requests. */
  function LengthRun(len: nat, requests: seq<Request>, results: seq<int>): nat
    requires |requests| == |results|
  {
    if requests == [] then len
    else
      var n := |requests| - 1;
      LengthStep(LengthRun(len, requests[..n], results[..n]), requests[n], results[n])
  }

  lemma {:induction false} PosixLength(flat: seq<Byte>, requests: seq<Request>, results: seq<int>)
    requires |requests| == |results|
    ensures |PosixRun(flat, requests, results)| == LengthRun(|flat|, requests, results)
  {
    if requests != [] {
      var n := |requests| - 1;
      PosixLength(flat, requests[..n], results[..n]);
    }
  }

  /** No request grows the file while it is shorter than the remote object. */
  ghost predicate NeverGrowsBelow(len: nat, n: nat, requests: seq<Request>, results: seq<int>)
    requires |requests| == |results|
  {
    forall i :: 0 <= i < |requests| ==>
      !GrowsBelow(LengthRun(len, requests[..i], results[..i]), n, requests[i], results[i])
  }

  /** At every moment of a run the flat file is the plain POSIX one. */
  ghost predicate PosixThroughout(flat: seq<Byte>, remote: seq<Byte>, requests: seq<Request>, results: seq<int>)
    requires |requests| == |results|
  {
    forall i :: 0 <= i <= |requests| ==>
      FlatRun(flat, remote, requests[..i], results[..i]) == PosixRun(flat, requests[..i], results[..i])
  }

  lemma RunStep(flat: seq<Byte>, remote: seq<Byte>, requests: seq<Request>, results: seq<int>, i: nat)
    requires |requests| == |results| && i < |requests|
    ensures FlatRun(flat, remote, requests[..i + 1], results[..i + 1])
         == FlatStep(FlatRun(flat, remote, requests[..i], results[..i]), remote, requests[i], results[i])
    ensures PosixRun(flat, requests[..i + 1], results[..i + 1])
         == PosixStep(PosixRun(flat, requests[..i], results[..i]), requests[i], results[i])
  {
    assert requests[..i + 1][..i] == requests[..i] && results[..i + 1][..i] == results[..i];
  }

  lemma {:induction false} PosixUpTo(flat: seq<Byte>, remote: seq<Byte>, requests: seq<Request>, results: seq<int>,
                                     i: nat)
    requires |requests| == |results| && i <= |requests|
    requires NeverGrowsBelow(|flat|, |remote|, requests, results)
    ensures FlatRun(flat, remote, requests[..i], results[..i]) == PosixRun(flat, requests[..i], results[..i])
  {
    if 0 < i {
      PosixUpTo(flat, remote, requests, results, i - 1);
      RunStep(flat, remote, requests, results, i - 1);
      PosixLength(flat, requests[..i - 1], results[..i - 1]);
      StepForEvery(PosixRun(flat, requests[..i - 1], results[..i - 1]), |remote|, requests[i - 1], results[i - 1]);
    }
  }

  /** A run that grows below the remote object is not the POSIX run when that object has no zero byte. */
  lemma OnesTellApart(flat: seq<Byte>, n: nat, requests: seq<Request>, results: seq<int>)
    requires |requests| == |results| && PosixThroughout(flat, Ones(n), requests, results)
    ensures NeverGrowsBelow(|flat|, n, requests, results)
  {
    forall i | 0 <= i < |requests|
      ensures !GrowsBelow(LengthRun(|flat|, requests[..i], results[..i]), n, requests[i], results[i])
    {
      RunStep(flat, Ones(n), requests, results, i);
      PosixLength(flat, requests[..i], results[..i]);
      StepTellsApart(PosixRun(flat, requests[..i], results[..i]), n, requests[i], results[i]);
    }
  }

  lemma StepTellsApart(flat: seq<Byte>, n: nat, request: Request, result: int)
    ensures GrowsBelow(|flat|, n, request, result) ==>
      FlatStep(flat, Ones(n), request, result) != PosixStep(flat, request, result)
  {
    assert |flat| < n ==> Backing(Ones(n), |flat|) != 0;
    hide Overlay, PWritten, Resized, Truncated;
    match request
    case LoadRange(_, _) =>
    case ReadAt(_, _, _) =>
    case WriteAt(start, bytes) => OverlayIsPosix(flat, Ones(n), start, Taken(bytes, result));
    case TruncateTo(size) => ResizedIsPosix(flat, Ones(n), size);
  }

  /**
   A run on a file opened with some size is a POSIX run at every moment, whatever the remote
   object of size n holds, exactly if no request grows the file while it is shorter than n.
   */
  lemma OpenedRunForEvery(size: nat, n: nat, requests: seq<Request>, results: seq<int>)
    requires |requests| == |results|
    ensures (forall remote: seq<Byte> | |remote| == n ::
        PosixThroughout(Pristine(remote, size), remote, requests, results))
      <==> NeverGrowsBelow(size, n, requests, results)
  {
    if NeverGrowsBelow(size, n, requests, results) {
      forall remote: seq<Byte> | |remote| == n
        ensures PosixThroughout(Pristine(remote, size), remote, requests, results)
      {
        forall i | 0 <= i <= |requests|
          ensures FlatRun(Pristine(remote, size), remote, requests[..i], results[..i])
               == PosixRun(Pristine(remote, size), requests[..i], results[..i])
        {
          PosixUpTo(Pristine(remote, size), remote, requests, results, i);
        }
      }
    }
    if PosixThroughout(Pristine(Ones(n), size), Ones(n), requests, results) {
      OnesTellApart(Pristine(Ones(n), size), n, requests, results);
    }
    assert |Ones(n)| == n;
  }

  // ---------- runs of the entity ----------

  /** What a run depends on: the loaded flags, the flat file, and whether it counts as modified. */
  datatype State = State(bits: seq<bool>, flat: seq<Byte>, modified: bool)

  ghost function StateOf(e: FdEntity): State
    reads e, e.file, e.pagelist
  {
    State(e.pagelist.Bits(), e.Logical(), e.isModify)
  }

  /** A read without enough disk space drops all pages of a file that does not count as modified. */
  ghost predicate Evicts(s: State, request: Request) {
    request.ReadAt? && !request.isSafe && !s.modified && 0 < Missing(s.bits, request.start, request.size)
  }

  /** Loading keeps the modify flag unless it fills bytes beyond the remote object. */
  ghost predicate Flagged(s: State, t: State, n: nat) {
    t.modified <==> s.modified && !LoadedBeyond(s.bits, t.bits, n)
  }

  /** One request takes the entity from one state to another; a read may load so much ahead. */
  ghost predicate Moves(s: State, remote: seq<Byte>, ahead: nat, request: Request, result: int, t: State) {
    && |t.bits| == |t.flat|
    && match request
      case LoadRange(start, size) =>
        && t.flat == s.flat && Flagged(s, t, |remote|)
        && LoadedWithin(s.bits, t.bits, ClipLo(s.bits, start), ClipHi(s.bits, start, size))
        && (0 <= result ==> t.bits == LoadedBits(s.bits, start, size))
      case ReadAt(start, size, isSafe) =>
        && t.flat == (if Evicts(s, request) then Pristine(remote, |s.flat|) else s.flat)
        && Flagged(s, t, |remote|)
        && (if 0 <= result then t.bits == ReadBits(s.bits, start, size, !isSafe && !s.modified, ahead)
            else ReadWithin(s.bits, t.bits, start, size, !isSafe && !s.modified, ahead))
      case WriteAt(start, bytes) =>
        && t.flat == Overlay(s.flat, remote, start, Taken(bytes, result))
        && (if 0 <= result then t.modified && t.bits == WrittenBits(s.bits, start, result)
            else Flagged(s, t, |remote|) && LoadedWithin(s.bits, t.bits, 0, Min(start, |s.bits|)))
      case TruncateTo(size) =>
        && t.flat == (if result == 0 then Resized(s.flat, remote, size) else s.flat)
        && t.bits == (if result == 0 then ResizeFlags(s.bits, size, false) else s.bits)
        && (t.modified <==> s.modified || (result == 0 && size != |s.flat|))
  }

  /** The states between the requests of a run. */
  ghost predicate Trace(trace: seq<State>, remote: seq<Byte>, ahead: nat, requests: seq<Request>, results: seq<int>) {
    && |requests| == |results| && |trace| == |requests| + 1
    && |trace[0].bits| == |trace[0].flat|
    && forall i, j :: 0 <= i < |requests| && j == i + 1 ==>
      Moves(trace[i], remote, ahead, requests[i], results[i], trace[j])
  }

  /** Every read that succeeds returns its slice of the flat file. */
  ghost predicate Answers(trace: seq<State>, requests: seq<Request>, results: seq<int>, outputs: seq<seq<Byte>>)
    requires |requests| == |results| == |outputs| && |trace| == |requests| + 1
  {
    forall i, j :: 0 <= i < |requests| && j == i + 1 && requests[i].ReadAt? && 0 <= results[i] ==>
      outputs[i] == SliceOf(trace[j].flat, requests[i].start, requests[i].size)
  }

  /** No truncate that succeeds changes the length of the file. */
  ghost predicate NeverResized(trace: seq<State>, requests: seq<Request>, results: seq<int>)
    requires |requests| == |results| && |trace| == |requests| + 1
  {
    forall i :: 0 <= i < |requests| && requests[i].TruncateTo? && results[i] == 0 ==>
      requests[i].size == |trace[i].flat|
  }

  /**
   A request that succeeds: it returns no error, a write takes all bytes, and a truncate to another length is
   refused exactly if nobody else holds the file.
   */
  ghost predicate Succeeds(request: Request, result: int, len: nat, shared: bool) {
    match request
    case LoadRange(_, _) => result == 0
    case ReadAt(_, _, _) => 0 <= result
    case WriteAt(_, bytes) => result == |bytes|
    case TruncateTo(size) => if shared || size == len then result == 0 else result == -EIO
  }

  ghost predicate AllSucceed(trace: seq<State>, requests: seq<Request>, results: seq<int>, shared: bool)
    requires |requests| == |results| && |trace| == |requests| + 1
  {
    forall i :: 0 <= i < |requests| ==> Succeeds(requests[i], results[i], |trace[i].flat|, shared)
  }

  function SliceOf(flat: seq<Byte>, start: nat, size: nat): seq<Byte> {
    flat[Min(start, |flat|)..Min(start + size, |flat|)]
  }

  /** Serves the requests one after the other; fsync never fails after a truncate that succeeded. */
  method Serve(e: FdEntity, requests: seq<Request>)
    returns (results: seq<int>, outputs: seq<seq<Byte>>, ghost trace: seq<State>)
    requires e.Valid() && !e.uploading
    modifies e`isModify, e.file, e.pagelist, e.net
    ensures e.Valid()
    ensures |results| == |outputs| == |requests|
    ensures Trace(trace, e.remote, e.PrefetchSize(), requests, results)
    ensures trace[0] == old(StateOf(e)) && trace[|requests|] == StateOf(e)
    ensures Answers(trace, requests, results, outputs)
    ensures e.refcnt <= 1 ==> NeverResized(trace, requests, results)
    ensures old(e.Troubles()) <= e.Troubles()
    ensures e.Troubles() == old(e.Troubles()) && 0 < e.retries ==> AllSucceed(trace, requests, results, 1 < e.refcnt)
    ensures Undisturbed(trace, e.remote, requests) ==>
      e.Logical() == FlatRun(old(e.Logical()), e.remote, requests, results)
    ensures old(|e.file.data| == |e.pagelist.Bits()|) && -ENOSPC !in results ==> |e.file.data| == |e.pagelist.Bits()|
  {
    hide Moves, View, Held, SliceOf, Undisturbed, FlatRun, Succeeds;
    results, outputs := [], [];
    trace := [StateOf(e)];
    StateSizes(e);
    var i := 0;
    while i < |requests|
      invariant i <= |requests| && |results| == |outputs| == i
      invariant e.Valid() && !e.uploading
      invariant Trace(trace, e.remote, e.PrefetchSize(), requests[..i], results)
      invariant trace[0] == old(StateOf(e)) && trace[i] == StateOf(e)
      invariant Answers(trace, requests[..i], results, outputs)
      invariant e.refcnt <= 1 ==> NeverResized(trace, requests[..i], results)
      invariant old(e.Troubles()) <= e.Troubles()
      invariant e.Troubles() == old(e.Troubles()) && 0 < e.retries ==>
        AllSucceed(trace, requests[..i], results, 1 < e.refcnt)
      invariant old(|e.file.data| == |e.pagelist.Bits()|) && -ENOSPC !in results ==>
        |e.file.data| == |e.pagelist.Bits()|
    {
      var result, bytes := ServeOne(e, requests[i]);
      TraceSnoc(trace, e.remote, e.PrefetchSize(), requests, results, outputs, i, result, bytes, StateOf(e));
      results := results + [result];
      outputs := outputs + [bytes];
      trace := trace + [StateOf(e)];
      i := i + 1;
    }
    assert requests[..i] == requests && results[..i] == results;
    if Undisturbed(trace, e.remote, requests) {
      TraceIsFlatRun(trace, e.remote, e.PrefetchSize(), requests, results, i);
    }
  }

  lemma StateSizes(e: FdEntity)
    ensures |StateOf(e).bits| == |StateOf(e).flat|
  {
  }

  lemma TraceSnoc(trace: seq<State>, remote: seq<Byte>, ahead: nat, requests: seq<Request>, results: seq<int>,
                  outputs: seq<seq<Byte>>, i: nat, result: int, bytes: seq<Byte>, t: State)
    requires i < |requests| && |results| == |outputs| == i
    requires Trace(trace, remote, ahead, requests[..i], results) && Answers(trace, requests[..i], results, outputs)
    requires Moves(trace[i], remote, ahead, requests[i], result, t)
    requires requests[i].ReadAt? && 0 <= result ==> bytes == SliceOf(t.flat, requests[i].start, requests[i].size)
    ensures Trace(trace + [t], remote, ahead, requests[..i + 1], results + [result])
    ensures Answers(trace + [t], requests[..i + 1], results + [result], outputs + [bytes])
  {
    hide Moves, SliceOf;
    var more := requests[..i + 1];
    assert forall k :: 0 <= k < i ==> more[k] == requests[..i][k];
  }

  method ServeOne(e: FdEntity, request: Request) returns (result: int, bytes: seq<Byte>)
    requires e.Valid() && !e.uploading
    modifies e`isModify, e.file, e.pagelist, e.net
    ensures e.Valid()
    ensures e.refcnt <= 1 && request.TruncateTo? && result == 0 ==> request.size == old(|StateOf(e).flat|)
    ensures old(e.Troubles()) <= e.Troubles()
    ensures e.Troubles() == old(e.Troubles()) && 0 < e.retries ==>
      Succeeds(request, result, old(|StateOf(e).flat|), 1 < e.refcnt)
    ensures Moves(old(StateOf(e)), e.remote, e.PrefetchSize(), request, result, StateOf(e))
    ensures request.ReadAt? && 0 <= result ==> bytes == SliceOf(e.Logical(), request.start, request.size)
    ensures old(|e.file.data| == |e.pagelist.Bits()|) && result != -ENOSPC ==> |e.file.data| == |e.pagelist.Bits()|
  {
    hide View, Overlay, Resized, Held, LoadedBeyond, LoadedBits, WrittenBits, LoadedWithin, Pristine, Missing;
    hide FlatRead, ResizeFlags, AllLoaded, UnloadedBeyond, ClipLo, ClipHi, SetRange, ReadBits, ReadWithin, ReadsBeyond;
    bytes := [];
    StateSizes(e);
    match request {
      case LoadRange(start, size) =>
        result := e.Load(start, size);
        HeldKeepsLength(e.pagelist.Bits(), e.file.data);
      case ReadAt(start, size, isSafe) =>
        FlatReadIs(StateOf(e), request, e.file.data, e.remote);
        result, bytes := e.Read(start, size, false, isSafe);
      case WriteAt(start, data) =>
        result := e.Write(data, start);
      case TruncateTo(size) =>
        result := e.Ftruncate(size, true);
    }
    StateSizes(e);
  }

  lemma FlatReadIs(s: State, request: Request, disk: seq<Byte>, remote: seq<Byte>)
    requires request.ReadAt? && s.flat == View(s.bits, disk, remote)
    ensures Forced(s.bits, request.start, request.size, false) == s.bits
    ensures FlatRead(s.bits, disk, remote, request.start, request.size, false, request.isSafe || s.modified)
         == if Evicts(s, request) then Pristine(remote, |s.flat|) else s.flat
  {
  }

  lemma HeldKeepsLength(bits: seq<bool>, disk: seq<Byte>)
    requires Held(bits, disk)
    ensures |disk| <= |bits|
  {
  }

  // ---------- "not modified" ----------

  /** The file counts as modified, or dropping its pages would change nothing. */
  ghost predicate Harmless(s: State, remote: seq<Byte>) {
    s.modified || s.flat == Pristine(remote, |s.flat|)
  }

  /** A request that fills bytes beyond the remote object with zero and does not end in a write. */
  ghost predicate ZeroFills(s: State, request: Request, result: int, t: State, n: nat) {
    && !request.TruncateTo?
    && !(request.WriteAt? && 0 <= result)
    && LoadedBeyond(s.bits, t.bits, n)
  }

  /** ... on a file that counts as modified and differs from the remote object. */
  ghost predicate Spoils(s: State, remote: seq<Byte>, request: Request, result: int, t: State) {
    && s.modified && s.flat != Pristine(remote, |s.flat|)
    && ZeroFills(s, request, result, t, |remote|)
  }

  lemma OverlayNothing(flat: seq<Byte>, remote: seq<Byte>, start: nat)
    ensures Overlay(flat, remote, start, []) == flat && Resized(flat, remote, |flat|) == flat
  {
  }

  /** "Not modified" goes on meaning "dropping is harmless" exactly if the request does not spoil it. */
  lemma StepHarmless(s: State, remote: seq<Byte>, ahead: nat, request: Request, result: int, t: State)
    requires |s.bits| == |s.flat| && Moves(s, remote, ahead, request, result, t) && Harmless(s, remote)
    ensures Harmless(t, remote) <==> !Spoils(s, remote, request, result, t)
  {
    hide Overlay, Resized, LoadedBits, WrittenBits, LoadedBeyond, Missing;
    match request
    case LoadRange(_, _) =>
    case ReadAt(_, _, _) =>
    case WriteAt(start, _) => OverlayNothing(s.flat, remote, start);
    case TruncateTo(_) => OverlayNothing(s.flat, remote, 0);
  }

  /** In every run from a harmless state, all states are harmless exactly if no request spoils it. */
  lemma {:induction false} RunHarmless(trace: seq<State>, remote: seq<Byte>, ahead: nat, requests: seq<Request>,
                                       results: seq<int>, n: nat)
    requires Trace(trace, remote, ahead, requests, results) && Harmless(trace[0], remote) && n <= |requests|
    ensures (forall i :: 0 <= i <= n ==> Harmless(trace[i], remote))
      <==> forall i, j :: 0 <= i < n && j == i + 1 ==> !Spoils(trace[i], remote, requests[i], results[i], trace[j])
  {
    hide Moves, Harmless, Spoils;
    if 0 < n {
      RunHarmless(trace, remote, ahead, requests, results, n - 1);
      TraceSizes(trace, remote, ahead, requests, results, n - 1);
      if Harmless(trace[n - 1], remote) {
        StepHarmless(trace[n - 1], remote, ahead, requests[n - 1], results[n - 1], trace[n]);
      }
    }
  }

  lemma TraceSizes(trace: seq<State>, remote: seq<Byte>, ahead: nat, requests: seq<Request>, results: seq<int>, i: nat)
    requires Trace(trace, remote, ahead, requests, results) && i <= |requests|
    ensures |trace[i].bits| == |trace[i].flat|
  {
    if 0 < i {
      assert Moves(trace[i - 1], remote, ahead, requests[i - 1], results[i - 1], trace[i]);
    }
  }

  // ---------- what a caller sees before a request ----------

  /** The request loads a range with an unloaded byte beyond the remote object. */
  ghost predicate Reaches(bits: seq<bool>, request: Request, ahead: nat, n: nat) {
    match request
    case LoadRange(start, size) => UnloadedBeyond(bits, ClipLo(bits, start), ClipHi(bits, start, size), n)
    case ReadAt(start, size, _) => ReadsBeyond(bits, start, size, ahead, n)
    case WriteAt(start, _) => UnloadedBeyond(bits, 0, Min(start, |bits|), n)
    case TruncateTo(_) => false
  }

  /** On a modified file only such a request fills bytes with zero, and a load or read that succeeds always does. */
  lemma FillsIfReached(s: State, remote: seq<Byte>, ahead: nat, request: Request, result: int, t: State)
    requires s.modified && |s.bits| == |s.flat| && Moves(s, remote, ahead, request, result, t)
    ensures ZeroFills(s, request, result, t, |remote|) ==> Reaches(s.bits, request, ahead, |remote|)
    ensures 0 <= result && !request.WriteAt? ==>
      (ZeroFills(s, request, result, t, |remote|) <==> Reaches(s.bits, request, ahead, |remote|))
  {
    hide Missing, Overlay, Resized, Pristine, ClipLo, ClipHi, LoadSize;
    match request {
      case LoadRange(start, size) =>
        BeyondIsLoaded(s.bits, t.bits, ClipLo(s.bits, start), ClipHi(s.bits, start, size), |remote|);
      case ReadAt(start, size, _) =>
        BeyondIsLoaded(s.bits, t.bits, ClipLo(s.bits, start),
                       ClipHi(s.bits, start, LoadSize(start, size, |s.bits|, ahead)), |remote|);
      case WriteAt(start, _) =>
        BeyondIsLoaded(s.bits, t.bits, 0, Min(start, |s.bits|), |remote|);
      case TruncateTo(_) =>
    }
  }

  lemma BeyondIsLoaded(before: seq<bool>, now: seq<bool>, lo: nat, hi: nat, limit: nat)
    requires lo <= hi <= |before|
    ensures LoadedWithin(before, now, lo, hi) && LoadedBeyond(before, now, limit) ==>
      UnloadedBeyond(before, lo, hi, limit)
    ensures now == SetRange(before, lo, hi - lo, true) ==>
      (LoadedBeyond(before, now, limit) <==> UnloadedBeyond(before, lo, hi, limit))
  {
    if now == SetRange(before, lo, hi - lo, true) && UnloadedBeyond(before, lo, hi, limit) {
      var p :| lo <= p < hi && limit <= p && !before[p];
      assert now[p];
    }
  }

  /** After a load that succeeds. */
  lemma LoadZeroFills(s: State, remote: seq<Byte>, ahead: nat, start: nat, size: nat, t: State)
    requires |s.bits| == |s.flat| && Moves(s, remote, ahead, LoadRange(start, size), 0, t)
    ensures Harmless(t, remote)
      <==> (s.flat == Pristine(remote, |s.flat|)
        || (s.modified && !UnloadedBeyond(s.bits, ClipLo(s.bits, start), ClipHi(s.bits, start, size), |remote|)))
  {
    hide Pristine, ClipLo, ClipHi, ZeroFills, UnloadedBeyond, LoadedBits;
    if s.modified {
      FillsIfReached(s, remote, ahead, LoadRange(start, size), 0, t);
      StepFlag(s, remote, ahead, LoadRange(start, size), 0, t);
    }
  }

  /** After a read that succeeds: it evicted, or changed nothing, or left alone what lies beyond the object. */
  lemma ReadZeroFills(s: State, remote: seq<Byte>, ahead: nat, start: nat, size: nat, isSafe: bool, result: nat,
                      t: State)
    requires |s.bits| == |s.flat| && Moves(s, remote, ahead, ReadAt(start, size, isSafe), result, t)
    ensures Harmless(t, remote)
      <==> (s.flat == Pristine(remote, |s.flat|)
        || Evicts(s, ReadAt(start, size, isSafe))
        || (s.modified && !ReadsBeyond(s.bits, start, size, ahead, |remote|)))
  {
    PristineLength(remote, |s.flat|);
    hide Pristine, ZeroFills, ReadsBeyond, ReadBits, ReadWithin, Missing;
    if s.modified {
      FillsIfReached(s, remote, ahead, ReadAt(start, size, isSafe), result, t);
      StepFlag(s, remote, ahead, ReadAt(start, size, isSafe), result, t);
    }
  }

  lemma PristineLength(remote: seq<Byte>, size: nat)
    ensures |Pristine(remote, size)| == size
  {
  }

  /** The modify flag is cleared exactly by filling with zero. */
  lemma StepFlag(s: State, remote: seq<Byte>, ahead: nat, request: Request, result: int, t: State)
    requires s.modified && Moves(s, remote, ahead, request, result, t)
    ensures t.modified <==> !ZeroFills(s, request, result, t, |remote|)
    ensures ZeroFills(s, request, result, t, |remote|) ==> |remote| < |t.flat|
  {
    hide Overlay, Resized, Pristine, Missing, ReadBits, ReadWithin, LoadedBits, LoadedWithin;
  }

  // ---------- nothing to upload ----------

  /** A file that does not count as modified, so that a flush uploads nothing, is the remote object. */
  predicate Clean(s: State, remote: seq<Byte>) {
    s.modified || s.flat == remote
  }

  /** The request loads, on a modified file, an unloaded byte beyond the remote object; a write mends it. */
  ghost predicate Fills(s: State, request: Request, result: int, ahead: nat, n: nat) {
    s.modified && !(request.WriteAt? && 0 <= result) && Reaches(s.bits, request, ahead, n)
  }

  lemma CleanIsHarmless(s: State, remote: seq<Byte>)
    requires Clean(s, remote)
    ensures Harmless(s, remote)
  {
    OpenedIsRemote(remote);
  }

  /** From a clean state, whatever the file and the remote object hold, only clearing the flag leaves it. */
  lemma StepClean(s: State, remote: seq<Byte>, ahead: nat, request: Request, result: int, t: State)
    requires |s.bits| == |s.flat| && Moves(s, remote, ahead, request, result, t) && Clean(s, remote)
    ensures Clean(t, remote) <==> !(s.modified && ZeroFills(s, request, result, t, |remote|))
    ensures !Fills(s, request, result, ahead, |remote|) ==> Clean(t, remote)
    ensures 0 <= result ==> (Clean(t, remote) <==> !Fills(s, request, result, ahead, |remote|))
  {
    if s.modified {
      FillsIfReached(s, remote, ahead, request, result, t);
      StepFlag(s, remote, ahead, request, result, t);
    } else {
      OpenedIsRemote(remote);
      hide Pristine, LoadedBeyond, Missing, ReadBits, ReadWithin, LoadedBits, LoadedWithin, ZeroFills, Reaches;
      match request
      case LoadRange(_, _) =>
      case ReadAt(_, _, _) =>
      case WriteAt(start, _) => OverlayNothing(s.flat, remote, start);
      case TruncateTo(_) => OverlayNothing(s.flat, remote, 0);
    }
  }

  /** So what spoils a file can be seen before a request that succeeds. */
  lemma SpoilsIfFills(s: State, remote: seq<Byte>, ahead: nat, request: Request, result: int, t: State)
    requires |s.bits| == |s.flat| && Moves(s, remote, ahead, request, result, t)
    ensures Spoils(s, remote, request, result, t) ==> Fills(s, request, result, ahead, |remote|)
    ensures 0 <= result ==>
      (Spoils(s, remote, request, result, t)
      <==> s.flat != Pristine(remote, |s.flat|) && Fills(s, request, result, ahead, |remote|))
  {
    hide Moves, Pristine, Reaches, LoadedBeyond;
    if s.modified {
      FillsIfReached(s, remote, ahead, request, result, t);
      NoTruncateReaches(s.bits, request, ahead, |remote|);
    }
  }

  lemma NoTruncateReaches(bits: seq<bool>, request: Request, ahead: nat, n: nat)
    ensures request.TruncateTo? ==> !Reaches(bits, request, ahead, n)
  {
  }

  /** In every run from a clean state. */
  lemma {:induction false} RunClean(trace: seq<State>, remote: seq<Byte>, ahead: nat, requests: seq<Request>,
                                    results: seq<int>, n: nat)
    requires Trace(trace, remote, ahead, requests, results) && Clean(trace[0], remote) && n <= |requests|
    ensures (forall i :: 0 <= i < n ==> !Fills(trace[i], requests[i], results[i], ahead, |remote|)) ==>
      forall i :: 0 <= i <= n ==> Clean(trace[i], remote)
    ensures (forall i :: 0 <= i < n ==> 0 <= results[i]) ==>
      ((forall i :: 0 <= i <= n ==> Clean(trace[i], remote))
      <==> forall i :: 0 <= i < n ==> !Fills(trace[i], requests[i], results[i], ahead, |remote|))
  {
    hide Moves, Clean, Fills;
    if 0 < n {
      RunClean(trace, remote, ahead, requests, results, n - 1);
      TraceSizes(trace, remote, ahead, requests, results, n - 1);
      if Clean(trace[n - 1], remote) {
        StepClean(trace[n - 1], remote, ahead, requests[n - 1], results[n - 1], trace[n]);
      }
    }
  }

  /** A file never longer than the remote object is never spoilt. */
  lemma ShortNeverSpoils(s: State, remote: seq<Byte>, request: Request, result: int, t: State)
    requires |s.bits| == |s.flat| <= |remote|
    ensures !Spoils(s, remote, request, result, t)
  {
  }

  /** From a state that is not harmless, a read of any unloaded byte without enough space changes the file. */
  lemma HarmDone(s: State, remote: seq<Byte>, ahead: nat, p: nat, result: int, t: State)
    requires |s.bits| == |s.flat| && !Harmless(s, remote) && p < |s.bits| && !s.bits[p]
    requires Moves(s, remote, ahead, ReadAt(p, 1, false), result, t)
    ensures Evicts(s, ReadAt(p, 1, false)) && t.flat != s.flat
  {
    hide Pristine, CountUnloaded;
    CountZero(s.bits, ClipLo(s.bits, p), ClipHi(s.bits, p, 1));
  }

  /** No read drops a page that differs from the remote object. */
  ghost predicate Undisturbed(trace: seq<State>, remote: seq<Byte>, requests: seq<Request>)
    requires |trace| == |requests| + 1
  {
    forall i :: 0 <= i < |requests| && Evicts(trace[i], requests[i]) ==>
      trace[i].flat == Pristine(remote, |trace[i].flat|)
  }

  lemma SafeIsUndisturbed(trace: seq<State>, remote: seq<Byte>, requests: seq<Request>)
    requires |trace| == |requests| + 1 && forall i :: 0 <= i < |requests| && requests[i].ReadAt? ==> requests[i].isSafe
    ensures Undisturbed(trace, remote, requests)
  {
  }

  lemma HarmlessIsUndisturbed(trace: seq<State>, remote: seq<Byte>, requests: seq<Request>)
    requires |trace| == |requests| + 1 && forall i :: 0 <= i < |requests| ==> Harmless(trace[i], remote)
    ensures Undisturbed(trace, remote, requests)
  {
  }

  /** Then the states hold what the requests make of the flat file. */
  lemma {:induction false} TraceIsFlatRun(trace: seq<State>, remote: seq<Byte>, ahead: nat, requests: seq<Request>,
                                          results: seq<int>, i: nat)
    requires Trace(trace, remote, ahead, requests, results) && Undisturbed(trace, remote, requests) && i <= |requests|
    ensures trace[i].flat == FlatRun(trace[0].flat, remote, requests[..i], results[..i])
  {
    hide Overlay, Resized, Pristine, Missing, LoadedBits, WrittenBits, LoadedBeyond, PosixRun, PosixStep;
    if 0 < i {
      TraceIsFlatRun(trace, remote, ahead, requests, results, i - 1);
      RunStep(trace[0].flat, remote, requests, results, i - 1);
      hide FlatRun;
      assert Moves(trace[i - 1], remote, ahead, requests[i - 1], results[i - 1], trace[i]);
    }
  }

  /** Bytes that are not loaded show their backing bytes. */
  ghost predicate Backed(bits: seq<bool>, flat: seq<Byte>, remote: seq<Byte>) {
    |flat| == |bits| && forall p :: 0 <= p < |bits| && !bits[p] ==> flat[p] == Backing(remote, p)
  }

  /**
   Whatever a modified file and its remote object hold, it is harmless after a load that succeeds, exactly if
   the load reaches no unloaded byte beyond the remote object or nothing was loaded before.
   */
  lemma LoadForEvery(bits: seq<bool>, n: nat, start: nat, size: nat)
    ensures
      var beyond := UnloadedBeyond(bits, ClipLo(bits, start), ClipHi(bits, start, size), n);
      (forall flat, remote | |remote| == n && Backed(bits, flat, remote) ::
        Harmless(State(LoadedBits(bits, start, size), flat, !beyond), remote))
      <==> (!beyond || forall p :: 0 <= p < |bits| ==> !bits[p])
  {
    var beyond := UnloadedBeyond(bits, ClipLo(bits, start), ClipHi(bits, start, size), n);
    hide UnloadedBeyond, LoadedBits;
    if p :| 0 <= p < |bits| && bits[p] {
      var remote := Ones(n);
      var flat := Pristine(remote, |bits|)[p := 2];
      assert Backed(bits, flat, remote) && flat[p] != Pristine(remote, |bits|)[p];
      assert |remote| == n && (!beyond || !Harmless(State(LoadedBits(bits, start, size), flat, !beyond), remote));
    } else {
      forall flat, remote | |remote| == n && Backed(bits, flat, remote)
        ensures Harmless(State(LoadedBits(bits, start, size), flat, !beyond), remote)
      {
        assert flat == Pristine(remote, |flat|);
      }
    }
  }

  // ---------- a whole session ----------

  /**
   In a session on a file that never grows while shorter than the remote object and whose
   evictions are harmless, every read returns what a plain POSIX file would.
   */
  lemma SessionIsPosix(trace: seq<State>, remote: seq<Byte>, ahead: nat, requests: seq<Request>, results: seq<int>,
                       outputs: seq<seq<Byte>>)
    requires Trace(trace, remote, ahead, requests, results) && |outputs| == |requests|
    requires Answers(trace, requests, results, outputs) && Undisturbed(trace, remote, requests)
    requires NeverGrowsBelow(|trace[0].flat|, |remote|, requests, results)
    ensures PosixAnswers(trace[0].flat, requests, results, outputs)
    ensures trace[|requests|].flat == PosixRun(trace[0].flat, requests, results)
  {
    hide Moves, FlatRun, PosixRun, SliceOf;
    forall i | 0 <= i <= |requests|
      ensures trace[i].flat == PosixRun(trace[0].flat, requests[..i], results[..i])
    {
      TraceIsFlatRun(trace, remote, ahead, requests, results, i);
      PosixUpTo(trace[0].flat, remote, requests, results, i);
    }
    forall i | 0 <= i < |requests| && requests[i].ReadAt? && 0 <= results[i]
      ensures outputs[i]
           == SliceOf(PosixRun(trace[0].flat, requests[..i], results[..i]), requests[i].start, requests[i].size)
    {
      ReadLeaves(trace, remote, ahead, requests, results, i);
      var j := i + 1;
      assert outputs[i] == SliceOf(trace[j].flat, requests[i].start, requests[i].size);
    }
    assert requests[..|requests|] == requests && results[..|requests|] == results;
  }

  lemma ReadLeaves(trace: seq<State>, remote: seq<Byte>, ahead: nat, requests: seq<Request>, results: seq<int>, i: nat)
    requires Trace(trace, remote, ahead, requests, results) && Undisturbed(trace, remote, requests)
    requires i < |requests| && requests[i].ReadAt?
    ensures trace[i + 1].flat == trace[i].flat
  {
    hide Pristine, Missing;
    assert Moves(trace[i], remote, ahead, requests[i], results[i], trace[i + 1]);
  }

  ghost predicate PosixAnswers(flat: seq<Byte>, requests: seq<Request>, results: seq<int>, outputs: seq<seq<Byte>>)
    requires |requests| == |results| == |outputs|
  {
    forall i :: 0 <= i < |requests| && requests[i].ReadAt? && 0 <= results[i] ==>
      outputs[i] == SliceOf(PosixRun(flat, requests[..i], results[..i]), requests[i].start, requests[i].size)
  }

  /** Without a truncate that changes the length, a file is never shorter than it was opened. */
  lemma {:induction false} StaysLong(trace: seq<State>, remote: seq<Byte>, ahead: nat, requests: seq<Request>,
                                     results: seq<int>, i: nat)
    requires Trace(trace, remote, ahead, requests, results) && NeverResized(trace, requests, results)
    requires i <= |requests|
    ensures |trace[0].flat| <= |trace[i].flat| == LengthRun(|trace[0].flat|, requests[..i], results[..i])
  {
    if 0 < i {
      var n := i - 1;
      StaysLong(trace, remote, ahead, requests, results, n);
      assert requests[..i][..n] == requests[..n] && results[..i][..n] == results[..n];
      assert requests[..i][n] == requests[n] && results[..i][n] == results[n];
      StepLength(trace[n], remote, ahead, requests[n], results[n], trace[i]);
    } else {
      assert requests[..0] == [];
    }
  }

  lemma StepLength(s: State, remote: seq<Byte>, ahead: nat, request: Request, result: int, t: State)
    requires Moves(s, remote, ahead, request, result, t)
    ensures |t.flat| == LengthStep(|s.flat|, request, result)
  {
    hide Missing, ReadBits, ReadWithin, LoadedBits, LoadedWithin, LoadedBeyond, WrittenBits, OverlayByte;
  }

  /** So it never grows while shorter than the remote object either. */
  lemma NeverResizedIsPosix(trace: seq<State>, remote: seq<Byte>, ahead: nat, requests: seq<Request>,
                            results: seq<int>)
    requires Trace(trace, remote, ahead, requests, results) && NeverResized(trace, requests, results)
    requires |remote| <= |trace[0].flat|
    ensures NeverGrowsBelow(|trace[0].flat|, |remote|, requests, results)
  {
    forall i | 0 <= i < |requests|
      ensures !GrowsBelow(LengthRun(|trace[0].flat|, requests[..i], results[..i]), |remote|, requests[i], results[i])
    {
      StaysLong(trace, remote, ahead, requests, results, i);
    }
  }

  /** No read drops pages that differ from the remote object: there is enough space, or no request spoils the file. */
  ghost predicate Calm(trace: seq<State>, remote: seq<Byte>, requests: seq<Request>, results: seq<int>)
    requires |requests| == |results| && |trace| == |requests| + 1
  {
    || (forall i :: 0 <= i < |requests| && requests[i].ReadAt? ==> requests[i].isSafe)
    || (forall i, j :: 0 <= i < |requests| && j == i + 1 ==>
      !Spoils(trace[i], remote, requests[i], results[i], trace[j]))
  }

  lemma CalmIsUndisturbed(trace: seq<State>, remote: seq<Byte>, ahead: nat, requests: seq<Request>, results: seq<int>)
    requires Trace(trace, remote, ahead, requests, results) && Harmless(trace[0], remote)
    requires Calm(trace, remote, requests, results)
    ensures Undisturbed(trace, remote, requests)
  {
    if forall i :: 0 <= i < |requests| && requests[i].ReadAt? ==> requests[i].isSafe {
      SafeIsUndisturbed(trace, remote, requests);
    } else {
      hide Moves, Spoils, Harmless;
      RunHarmless(trace, remote, ahead, requests, results, |requests|);
      HarmlessIsUndisturbed(trace, remote, requests);
    }
  }

  /**
   Opens a file that others may hold as well and serves requests: as long as there is enough space for every read,
   or no request spoils the file, and no request grows the file while it is shorter than the remote object, every
   read answers as on a POSIX file that starts as the remote object. Nobody can do the latter alone. As long as
   no system call and no server fails, every request succeeds.
   */
  method OpenAndServe(net: Network, remote: seq<Byte>, retries: int, multipartSize: nat, maxParallel: nat,
                      maxPrefetch: nat, nomultipart: bool, holders: nat, requests: seq<Request>)
    returns (e: FdEntity, results: seq<int>, outputs: seq<seq<Byte>>, ghost trace: seq<State>)
    requires 0 < multipartSize && 0 < maxParallel && Honest(net.respond, remote)
    modifies net
    ensures e.Valid() && |results| == |outputs| == |requests| && e.refcnt == 1 + holders
    ensures Trace(trace, remote, e.PrefetchSize(), requests, results)
    ensures trace[0].flat == remote && trace[|requests|] == StateOf(e)
    ensures e.file.faults == 0 && net.refusals == old(net.refusals) && 0 < retries ==>
      AllSucceed(trace, requests, results, 0 < holders)
    ensures Calm(trace, remote, requests, results)
      && (holders == 0 || NeverGrowsBelow(|remote|, |remote|, requests, results))
      ==> PosixAnswers(remote, requests, results, outputs) && e.Logical() == PosixRun(remote, requests, results)
  {
    hide Honest, Moves, View, Held, Harmless, Calm, PosixRun, PosixAnswers, Answers, NeverGrowsBelow, NeverResized,
      AllSucceed;
    e := new FdEntity(net, remote, |remote|, retries, multipartSize, maxParallel, maxPrefetch, nomultipart);
    OpenedIsRemote(remote);
    var k := 0;
    while k < holders
      invariant e.Valid() && !e.uploading && e.Logical() == remote && k <= holders && e.refcnt == 1 + k
      modifies e`refcnt
    {
      e.Dup();
      k := k + 1;
    }
    results, outputs, trace := Serve(e, requests);
    OpenedHarmless(trace[0], remote);
    if holders == 0 {
      NeverResizedIsPosix(trace, remote, e.PrefetchSize(), requests, results);
    }
    if Calm(trace, remote, requests, results) && NeverGrowsBelow(|remote|, |remote|, requests, results) {
      CalmIsUndisturbed(trace, remote, e.PrefetchSize(), requests, results);
      SessionIsPosix(trace, remote, e.PrefetchSize(), requests, results, outputs);
    }
  }

  lemma OpenedHarmless(s: State, remote: seq<Byte>)
    requires s.flat == remote
    ensures Harmless(s, remote)
  {
    OpenedIsRemote(remote);
  }
}
