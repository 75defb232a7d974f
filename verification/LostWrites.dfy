/**
 A write that is lost although every call succeeds: a zero-filling read makes the file count as not modified,
 so that a flush uploads nothing, and a read without enough disk space drops the written byte.
 */
module LostWrites {
  import opened Bytes
  import opened Downloads
  import opened FdEntities
  import opened LocalFiles
  import opened MultipartUploads
  import opened PageLists
  import opened Pages
  import opened Sessions

  /** The size to which the file is grown: more than a read of one byte loads ahead. */
  function Grown(ahead: nat): nat {
    ahead + 3
  }

  /** Writes a byte, grows the file as a truncate does, reads one of the new bytes, and then the last one. */
  function Losing(ahead: nat): seq<Request> {
    [WriteAt(0, [7]), LoadRange(0, Grown(ahead)), TruncateTo(Grown(ahead)), ReadAt(1, 1, true),
     ReadAt(Grown(ahead) - 1, 1, false)]
  }

  /** The flat file with the written byte. */
  ghost function Data(ahead: nat): seq<Byte> {
    Resized([7], [], Grown(ahead))
  }

  /** The flags after the growth. */
  ghost function GrownBits(ahead: nat): seq<bool> {
    ResizeFlags([true], Grown(ahead), false)
  }

  lemma Written(ahead: nat, s: State, t: State)
    requires s == State([], [], false) && Moves(s, [], ahead, WriteAt(0, [7]), 1, t)
    ensures t == State([true], [7], true)
  {
    assert Taken([7], 1) == [7];
  }

  lemma Loaded(ahead: nat, s: State, t: State)
    requires s == State([true], [7], true) && Moves(s, [], ahead, LoadRange(0, Grown(ahead)), 0, t)
    ensures t == s
  {
  }

  lemma Longer(ahead: nat, s: State, t: State)
    requires s == State([true], [7], true) && Moves(s, [], ahead, TruncateTo(Grown(ahead)), 0, t)
    ensures t == State(GrownBits(ahead), Data(ahead), true)
  {
  }

  /** The first read fills its byte with zero, and perhaps more, but not the last one. */
  lemma Cleared(ahead: nat, s: State, result: nat, t: State)
    requires s == State(GrownBits(ahead), Data(ahead), true) && Moves(s, [], ahead, ReadAt(1, 1, true), result, t)
    ensures t.flat == Data(ahead) && !t.modified && |t.bits| == Grown(ahead) && !t.bits[Grown(ahead) - 1]
  {
    hide Missing;
    IsMissing(s.bits, 1);
    FirstRead(ahead);
    assert t.bits == LoadedBits(s.bits, 1, LoadSize(1, 1, Grown(ahead), ahead));
    assert t.bits[1] && !s.bits[1];
  }

  lemma FirstRead(ahead: nat)
    ensures 1 <= LoadSize(1, 1, Grown(ahead), ahead) && 1 + LoadSize(1, 1, Grown(ahead), ahead) < Grown(ahead)
    ensures |GrownBits(ahead)| == Grown(ahead) && forall p :: 1 <= p < Grown(ahead) ==> !GrownBits(ahead)[p]
  {
  }

  lemma IsMissing(bits: seq<bool>, p: nat)
    requires p < |bits| && !bits[p]
    ensures 0 < Missing(bits, p, 1)
  {
    hide CountUnloaded;
    CountZero(bits, ClipLo(bits, p), ClipHi(bits, p, 1));
    assert ClipLo(bits, p) == p && ClipHi(bits, p, 1) == p + 1;
  }

  lemma Lost(ahead: nat, s: State, result: int, t: State)
    requires s.flat == Data(ahead) && !s.modified && |s.bits| == Grown(ahead) && !s.bits[Grown(ahead) - 1]
    requires Moves(s, [], ahead, ReadAt(Grown(ahead) - 1, 1, false), result, t)
    ensures t.flat == Zeros(Grown(ahead))
  {
    hide Missing, ReadBits, ReadWithin;
    IsMissing(s.bits, Grown(ahead) - 1);
    assert Pristine([], Grown(ahead)) == Zeros(Grown(ahead));
  }

  /**
   However far reads load ahead: on an empty remote object this run, if everything in it succeeds, first leaves a
   file that differs from the object but would not be uploaded, and then loses the written byte.
   */
  lemma WriteIsLost(trace: seq<State>, ahead: nat, results: seq<int>)
    requires Trace(trace, [], ahead, Losing(ahead), results) && trace[0] == State([], [], false)
    requires results[0] == 1 && results[1] == results[2] == 0 && 0 <= results[3]
    ensures trace[4].flat == Data(ahead) && Data(ahead)[0] == 7 && !Clean(trace[4], [])
    ensures trace[5].flat == Zeros(Grown(ahead))
  {
    hide Moves;
    assert Moves(trace[0], [], ahead, Losing(ahead)[0], 1, trace[1]);
    Written(ahead, trace[0], trace[1]);
    assert Moves(trace[1], [], ahead, Losing(ahead)[1], 0, trace[2]);
    Loaded(ahead, trace[1], trace[2]);
    assert Moves(trace[2], [], ahead, Losing(ahead)[2], 0, trace[3]);
    Longer(ahead, trace[2], trace[3]);
    assert Moves(trace[3], [], ahead, Losing(ahead)[3], results[3], trace[4]);
    Cleared(ahead, trace[3], results[3], trace[4]);
    assert Moves(trace[4], [], ahead, Losing(ahead)[4], results[4], trace[5]);
    Lost(ahead, trace[4], results[4], trace[5]);
  }

  /** There is such a run. */
  lemma LosingTrace(ahead: nat) returns (trace: seq<State>)
    ensures Trace(trace, [], ahead, Losing(ahead), [1, 0, 0, 1, 1]) && trace[0] == State([], [], false)
    ensures trace[4].flat == Data(ahead) && trace[5].flat == Zeros(Grown(ahead))
  {
    var n := Grown(ahead);
    var some := LoadedBits(GrownBits(ahead), 1, LoadSize(1, 1, n, ahead));
    var last := LoadedBits(Fill(n, false), n - 1, LoadSize(n - 1, 1, n, ahead));
    var s := [State([], [], false), State([true], [7], true), State([true], [7], true),
              State(GrownBits(ahead), Data(ahead), true), State(some, Data(ahead), false),
              State(last, Zeros(n), false)];
    assert Moves(s[0], [], ahead, WriteAt(0, [7]), 1, s[1]) by {
      assert Taken([7], 1) == [7];
    }
    assert Moves(s[1], [], ahead, LoadRange(0, n), 0, s[2]) by {
      assert LoadedBits([true], 0, n) == [true];
    }
    assert Moves(s[2], [], ahead, TruncateTo(n), 0, s[3]);
    MovesFirst(ahead, s[3], some, s[4]);
    MovesLast(ahead, s[4], last, s[5]);
    hide Moves;
    trace := s;
  }

  lemma MovesFirst(ahead: nat, s: State, some: seq<bool>, t: State)
    requires s == State(GrownBits(ahead), Data(ahead), true)
    requires some == LoadedBits(GrownBits(ahead), 1, LoadSize(1, 1, Grown(ahead), ahead))
    requires t == State(some, Data(ahead), false)
    ensures Moves(s, [], ahead, ReadAt(1, 1, true), 1, t)
    ensures |some| == Grown(ahead) && !some[Grown(ahead) - 1]
  {
    hide Missing;
    IsMissing(s.bits, 1);
    FirstRead(ahead);
    assert some[1] && !s.bits[1];
  }

  lemma MovesLast(ahead: nat, s: State, last: seq<bool>, t: State)
    requires s.flat == Data(ahead) && !s.modified && |s.bits| == Grown(ahead) && !s.bits[Grown(ahead) - 1]
    requires
      var n := Grown(ahead);
      last == LoadedBits(Fill(n, false), n - 1, LoadSize(n - 1, 1, n, ahead))
    requires t == State(last, Zeros(Grown(ahead)), false)
    ensures Moves(s, [], ahead, ReadAt(Grown(ahead) - 1, 1, false), 1, t)
  {
    hide Missing;
    IsMissing(s.bits, Grown(ahead) - 1);
    assert Pristine([], Grown(ahead)) == Zeros(Grown(ahead));
  }

  /** The same run on an entity, with any settings: it succeeds unless a system call or a server fails. */
  method LoseWrite(net: Network, retries: int, multipartSize: nat, maxParallel: nat, maxPrefetch: nat)
    returns (ok: bool, e: FdEntity, ghost trace: seq<State>)
    requires Honest(net.respond, []) && MIN_MULTIPART_SIZE <= multipartSize && 0 < maxParallel
    modifies net
    ensures |trace| == 6
    ensures ok ==> trace[4].flat == Data(e.PrefetchSize()) && !Clean(trace[4], [])
    ensures ok ==> e.Logical() == Zeros(Grown(e.PrefetchSize()))
    ensures e.file.faults == 0 && net.refusals == old(net.refusals) && 0 < retries ==> ok
  {
    hide Honest, Held, Moves, View, Data;
    e := new FdEntity(net, [], 0, retries, multipartSize, maxParallel, maxPrefetch, false);
    e.Dup();
    StateSizes(e);
    var results, outputs;
    results, outputs, trace := Serve(e, Losing(e.PrefetchSize()));
    ok := results[0] == 1 && results[1] == 0 && results[2] == 0 && 0 <= results[3];
    if ok {
      WriteIsLost(trace, e.PrefetchSize(), results);
    }
  }
}
