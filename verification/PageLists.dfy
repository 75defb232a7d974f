/**
 The mutable page list of src/fdcache.cpp. Every mutator is tied to the byte
 view of the list, and every compressing one to the canonical list of that view.
 */
module PageLists {
  import opened Ints
  import opened Pages

  /** The byte view after [start, start+size) got status v; new bytes before start are unloaded. */
  ghost function SetRange(flags: seq<bool>, start: nat, size: nat, v: bool): (r: seq<bool>) {
    seq(Max(|flags|, start + size), i requires 0 <= i =>
      if start <= i < start + size then v else i < |flags| && flags[i])
  }

  lemma SetRangeIs(flags: seq<bool>, start: nat, size: nat, v: bool, r: seq<bool>)
    requires |r| == Max(|flags|, start + size)
    requires forall p :: 0 <= p < |r| ==> r[p] == if start <= p < start + size then v else p < |flags| && flags[p]
    ensures r == SetRange(flags, start, size, v)
  {
  }

  /** The byte view cut to, or extended to, the given size. */
  ghost function ResizeFlags(flags: seq<bool>, size: nat, v: bool): seq<bool> {
    if size <= |flags| then flags[..size] else flags + Fill(size - |flags|, v)
  }

  /** The list every compressing mutator leaves: the maximal runs, or one empty page for an empty file. */
  ghost function Canonical(flags: seq<bool>, v: bool): seq<Page> {
    if flags == [] then [Page(0, 0, v)] else Runs(flags)
  }

  /** Unloaded bytes in [lo, hi). */
  ghost function CountUnloaded(flags: seq<bool>, lo: nat, hi: nat): nat
    requires lo <= hi <= |flags|
  {
    if lo == hi then 0
    else CountUnloaded(flags, lo, hi - 1) + (if flags[hi - 1] then 0 else 1)
  }

  lemma FlagsAround(a: seq<Page>, m: seq<Page>, b: seq<Page>)
    ensures Flags(a + m + b) == Flags(a) + Flags(m) + Flags(b)
  {
    FlagsConcat(a + m, b);
    FlagsConcat(a, m);
  }

  /** Two neighbours with equal flags describe the same bytes as their union. */
  lemma JoinPair(a: seq<Page>, x: Page, y: Page, joined: Page, b: seq<Page>)
    requires x.loaded == y.loaded == joined.loaded && joined.bytes == x.bytes + y.bytes
    ensures Flags(a + [x, y] + b) == Flags(a + [joined] + b)
  {
    FlagsAround(a, [x, y], b);
    FlagsAround(a, [joined], b);
    assert Flags([x, y]) == Flags([joined]) by {
      FlagsConcat([x], [y]);
      FlagsOne(x);
      FlagsOne(y);
      FlagsOne(joined);
      assert [x] + [y] == [x, y];
      assert Fill(x.bytes, x.loaded) + Fill(y.bytes, x.loaded) == Fill(joined.bytes, x.loaded);
    }
  }

  /** Page i merged into page i-1. */
  function MergePages(pages: seq<Page>, i: nat): (r: seq<Page>)
    requires 0 < i < |pages|
    ensures |r| == |pages| - 1 && r[i - 1].loaded == pages[i - 1].loaded && r[..i - 1] == pages[..i - 1]
  {
    pages[..i - 1] + [pages[i - 1].(bytes := pages[i - 1].bytes + pages[i].bytes)] + pages[i + 1..]
  }

  lemma MergeKeepsFlags(pages: seq<Page>, i: nat)
    requires 0 < i < |pages| && pages[i - 1].loaded == pages[i].loaded
    ensures Flags(MergePages(pages, i)) == Flags(pages)
  {
    hide Flags;
    var x, y := pages[i - 1], pages[i];
    assert pages == pages[..i - 1] + [x, y] + pages[i + 1..];
    JoinPair(pages[..i - 1], x, y, x.(bytes := x.bytes + y.bytes), pages[i + 1..]);
  }

  lemma MergeKeepsForm(pages: seq<Page>, i: nat)
    requires 0 < i < |pages| && WellFormed(pages)
    ensures WellFormed(MergePages(pages, i))
  {
    var merged := MergePages(pages, i);
    forall k, l | 0 <= k < l < |merged| && l == k + 1
      ensures merged[l].offset == merged[k].Next()
    {
      if i <= l {
        assert merged[l] == pages[l + 1];
      }
    }
  }

  lemma CompressedSnoc(pages: seq<Page>, i: nat)
    requires i < |pages| && Compressed(pages[..i])
    requires 0 < i ==> pages[i - 1].loaded != pages[i].loaded
    ensures Compressed(pages[..i + 1])
  {
    assert pages[..i + 1][..i] == pages[..i];
  }

  lemma CompressedMerge(pages: seq<Page>, i: nat)
    requires 0 < i < |pages| && Compressed(pages[..i])
    ensures Compressed(MergePages(pages, i)[..i])
  {
    var a, b := pages[..i], MergePages(pages, i)[..i];
    assert forall k :: 0 <= k < i ==> b[k].loaded == a[k].loaded;
  }

  /** Page i cut in two at a position strictly inside it. */
  function SplitPage(pages: seq<Page>, i: nat, pos: nat): seq<Page>
    requires i < |pages| && pages[i].offset < pos < pages[i].Next()
  {
    var p := pages[i];
    pages[..i] + [Page(p.offset, pos - p.offset, p.loaded), Page(pos, p.Next() - pos, p.loaded)] + pages[i + 1..]
  }

  lemma SplitKeepsFlags(pages: seq<Page>, i: nat, pos: nat)
    requires i < |pages| && pages[i].offset < pos < pages[i].Next()
    ensures Flags(SplitPage(pages, i, pos)) == Flags(pages)
  {
    hide Flags;
    var p := pages[i];
    assert pages == pages[..i] + [p] + pages[i + 1..];
    JoinPair(pages[..i], Page(p.offset, pos - p.offset, p.loaded), Page(pos, p.Next() - pos, p.loaded), p,
             pages[i + 1..]);
  }

  lemma SplitKeepsForm(pages: seq<Page>, i: nat, pos: nat)
    requires i < |pages| && pages[i].offset < pos < pages[i].Next()
    requires WellFormed(pages)
    ensures WellFormed(SplitPage(pages, i, pos))
  {
    var split := SplitPage(pages, i, pos);
    forall k, l | 0 <= k < l < |split| && l == k + 1
      ensures split[l].offset == split[k].Next()
    {
      if i + 1 <= k {
        assert split[l] == pages[k];
      }
    }
  }

  lemma SplitStarts(pages: seq<Page>, i: nat, pos: nat)
    requires i < |pages| && pages[i].offset < pos < pages[i].Next()
    ensures Starts(SplitPage(pages, i, pos)) == Starts(pages) + {pos}
  {
    var split := SplitPage(pages, i, pos);
    forall o | o in Starts(pages)
      ensures o in Starts(split)
    {
      var k :| 0 <= k < |pages| && pages[k].offset == o;
      assert (if k < i then split[k] else if k == i then split[i] else split[k + 1]).offset == o;
    }
    assert split[i + 1].offset == pos;
    forall o | o in Starts(split)
      ensures o in Starts(pages) + {pos}
    {
      var k :| 0 <= k < |split| && split[k].offset == o;
      assert k == i + 1 || (if k < i then pages[k] else if k == i then pages[i] else pages[k - 1]).offset == o;
    }
  }

  /** No page starts or ends beyond the end of the list. */
  lemma NextBelowEnd(pages: seq<Page>, k: nat)
    requires Tiled(pages) && k < |pages|
    ensures pages[k].Next() <= EndOf(pages)
  {
    if k + 1 < |pages| {
      OffsetsAscend(pages, k, |pages| - 1);
    }
  }

  lemma CompressedNil(pages: seq<Page>)
    requires pages == []
    ensures Compressed(pages)
  {
  }

  lemma CompressedIsCanonical(pages: seq<Page>)
    requires WellFormed(pages) && Compressed(pages) && Flags(pages) != []
    ensures pages == Runs(Flags(pages))
  {
    FlagsLength(pages);
    CompressedIsRuns(pages);
  }

  /** Only the empty list and the single empty page describe an empty file. */
  lemma EmptyView(pages: seq<Page>)
    requires WellFormed(pages) && Flags(pages) == []
    ensures |pages| <= 1
  {
    FlagsLength(pages);
  }

  lemma EmptyPageAlone(pages: seq<Page>, i: nat)
    requires WellFormed(pages) && i < |pages|
    ensures pages[i].bytes == 0 ==> |pages| == 1 && i == 0 && EndOf(pages) == 0
    ensures if i == 0 then pages[i].offset == 0 else pages[i - 1].Next() == pages[i].offset
  {
  }

  lemma NoPages(pages: seq<Page>)
    requires pages == []
    ensures EndOf(pages) == 0
  {
  }

  /** The single empty, unloaded page with which a new file starts. */
  predicate UnloadedEmptyFile(pages: seq<Page>) {
    |pages| == 1 && pages[0].bytes == 0 && !pages[0].loaded
  }

  // ---------- cutting ----------

  /**
   State of the cutting loop: the first i pages are final and describe the first
   flags; the others are the original pages from j on, the first of them possibly
   already shortened to end at the new size.
   */
  ghost predicate Cutting(orig: seq<Page>, pages: seq<Page>, i: nat, j: nat, size: nat) {
    && i <= |pages| && j <= |orig|
    && Tiled(pages[..i]) && NonEmpty(pages[..i])
    && EndOf(pages[..i]) <= |Flags(orig)|
    && Flags(pages[..i]) == Flags(orig)[..EndOf(pages[..i])]
    && (|| (pages[i..] == orig[j..] && EndOf(pages[..i]) == Min(size, EndOf(orig[..j])))
        || (&& j < |orig| && orig[j].offset < size < orig[j].Next()
            && pages[i..] == [orig[j].(bytes := size - orig[j].offset)] + orig[j + 1..]
            && EndOf(pages[..i]) == orig[j].offset))
  }

  lemma PrefixSnoc(pages: seq<Page>, i: nat)
    requires i < |pages|
    ensures pages[..i + 1] == pages[..i] + [pages[i]]
    ensures pages[i..] == [pages[i]] + pages[i + 1..]
    ensures EndOf(pages[..i + 1]) == pages[i].Next()
    ensures Tiled(pages[..i]) && pages[i].offset == EndOf(pages[..i]) ==> Tiled(pages[..i + 1])
    ensures NonEmpty(pages[..i]) && 0 < pages[i].bytes ==> NonEmpty(pages[..i + 1])
    ensures Flags(pages[..i + 1]) == Flags(pages[..i]) + Fill(pages[i].bytes, pages[i].loaded)
  {
    assert pages[..i + 1] == pages[..i] + [pages[i]];
    FlagsConcat(pages[..i], [pages[i]]);
    FlagsOne(pages[i]);
  }

  lemma TakeMore(flags: seq<bool>, tail: seq<bool>, o: nat, n: nat, m: nat, v: bool)
    requires n <= m && o <= |flags| && flags == flags[..o] + Fill(m, v) + tail
    ensures o + n <= |flags| && flags[..o + n] == flags[..o] + Fill(n, v)
  {
    assert |flags| == o + m + |tail|;
    forall p | o <= p < o + n
      ensures flags[p] == v
    {
      assert flags[p] == (flags[..o] + Fill(m, v))[p];
    }
  }

  lemma CutKeep(orig: seq<Page>, pages: seq<Page>, i: nat, j: nat, size: nat)
    requires Tiled(orig) && NonEmpty(orig) && size <= EndOf(orig)
    requires Cutting(orig, pages, i, j, size) && i < |pages| && pages[i].Next() <= size
    ensures Cutting(orig, pages, i + 1, j + 1, size)
  {
    hide Flags, Tiled;
    PrefixSnoc(pages, i);
    assert j < |orig|;
    PrefixSnoc(orig, j);
    FlagsLength(orig);
    FlagsSplit(orig, j);
    OffsetIsEnd(orig, j);
    assert pages[i..][0] == pages[i];
    assert pages[i..][1..] == pages[i + 1..];
    TakeMore(Flags(orig), Flags(orig[j + 1..]), orig[j].offset, pages[i].bytes, orig[j].bytes, orig[j].loaded);
  }

  lemma OffsetIsEnd(pages: seq<Page>, k: nat)
    requires Tiled(pages) && k < |pages|
    ensures pages[k].offset == EndOf(pages[..k])
  {
  }

  lemma CutErase(orig: seq<Page>, pages: seq<Page>, i: nat, j: nat, size: nat)
    requires Tiled(orig) && NonEmpty(orig) && size <= EndOf(orig)
    requires Cutting(orig, pages, i, j, size) && i < |pages| && size < pages[i].Next() && size <= pages[i].offset
    ensures j < |orig| && Cutting(orig, pages[..i] + pages[i + 1..], i, j + 1, size)
  {
    var shorter := pages[..i] + pages[i + 1..];
    assert pages[i..][0] == pages[i];
    assert shorter[..i] == pages[..i];
    assert shorter[i..] == pages[i..][1..];
    assert orig[j + 1..] == orig[j..][1..];
    FlagsSplit(orig, j);
    FlagsLength(orig[..j]);
    assert orig[..j + 1] == orig[..j] + [orig[j]];
  }

  lemma CutShorten(orig: seq<Page>, pages: seq<Page>, i: nat, j: nat, size: nat)
    requires Tiled(orig) && NonEmpty(orig) && size <= EndOf(orig)
    requires Cutting(orig, pages, i, j, size) && i < |pages|
    requires pages[i].offset < size < pages[i].Next()
    ensures j < |orig| && Cutting(orig, pages[i := pages[i].(bytes := size - pages[i].offset)], i, j, size)
  {
    var p := pages[i].(bytes := size - pages[i].offset);
    assert pages[i..][0] == pages[i];
    assert pages[i := p][..i] == pages[..i];
    assert pages[i := p][i..] == [p] + pages[i..][1..];
    assert orig[j + 1..] == orig[j..][1..];
    FlagsSplit(orig, j);
    FlagsLength(orig[..j]);
  }

  lemma CutDone(orig: seq<Page>, pages: seq<Page>, j: nat, size: nat)
    requires Tiled(orig) && NonEmpty(orig) && size <= EndOf(orig)
    requires Cutting(orig, pages, |pages|, j, size)
    ensures Tiled(pages) && NonEmpty(pages) && Flags(pages) == Flags(orig)[..size]
  {
    assert pages[..|pages|] == pages;
    assert orig[j..] == [] ==> orig[..j] == orig;
  }

  lemma CutStart(orig: seq<Page>, size: nat)
    ensures Cutting(orig, orig, 0, 0, size)
  {
    assert orig[..0] == [];
    assert orig[0..] == orig;
  }

  // ---------- marking ----------

  /** Page k with the flag the marking loop gives it. */
  ghost function Marked(p: Page, start: nat, stop: nat, v: bool): Page {
    if start <= p.offset < stop then p.(loaded := v) else p
  }

  /** A byte lies after a page boundary exactly if its page starts at or after it. */
  lemma BoundarySplits(pages: seq<Page>, k: nat, p: nat, start: nat)
    requires Tiled(pages) && start in Starts(pages)
    requires k < |pages| && pages[k].offset <= p < pages[k].Next()
    ensures start <= p <==> start <= pages[k].offset
  {
    var m :| 0 <= m < |pages| && pages[m].offset == start;
    if k < m {
      OffsetsAscend(pages, k, m);
    } else if m < k {
      OffsetsAscend(pages, m, k);
    }
  }

  lemma MarkKeepsForm(before: seq<Page>, after: seq<Page>, start: nat, stop: nat, v: bool)
    requires |after| == |before|
    requires forall k :: 0 <= k < |before| ==> after[k] == Marked(before[k], start, stop, v)
    ensures Tiled(before) ==> Tiled(after)
    ensures EndOf(after) == EndOf(before)
    ensures NonEmpty(before) ==> NonEmpty(after)
  {
  }

  lemma MarkAt(before: seq<Page>, after: seq<Page>, start: nat, stop: nat, v: bool, p: nat)
    requires Tiled(before) && start in Starts(before) && stop in Starts(before)
    requires Tiled(after) && |after| == |before|
    requires forall k :: 0 <= k < |before| ==> after[k] == Marked(before[k], start, stop, v)
    requires p < EndOf(before)
    ensures p < |Flags(before)| && p < |Flags(after)|
    ensures Flags(after)[p] == if start <= p < stop then v else Flags(before)[p]
  {
    hide Flags;
    var k := PageOf(before, p);
    FlagAt(before, k, p);
    FlagAt(after, k, p);
    BoundarySplits(before, k, p, start);
    BoundarySplits(before, k, p, stop);
  }

  /** Marking whole pages between two page boundaries sets exactly the bytes between them. */
  lemma MarkFlags(before: seq<Page>, after: seq<Page>, start: nat, stop: nat, v: bool)
    requires Tiled(before) && start in Starts(before) && stop in Starts(before)
    requires |after| == |before|
    requires forall k :: 0 <= k < |before| ==> after[k] == Marked(before[k], start, stop, v)
    requires start <= stop <= EndOf(before)
    ensures Flags(after) == SetRange(Flags(before), start, stop - start, v)
  {
    MarkKeepsForm(before, after, start, stop, v);
    hide Flags, Tiled, EndOf, Starts, Marked;
    FlagsLength(before);
    FlagsLength(after);
    var b, a := Flags(before), Flags(after);
    forall p | 0 <= p < |a|
      ensures a[p] == if start <= p < stop then v else b[p]
    {
      MarkAt(before, after, start, stop, v, p);
    }
    SetRangeIs(b, start, stop - start, v, a);
  }

  // ---------- counting and listing unloaded bytes ----------

  ghost function ClipLo(flags: seq<bool>, start: nat): (r: nat)
    ensures r <= |flags|
  {
    Min(start, |flags|)
  }

  /** The end of a query range; size 0 means to the end of the list. */
  ghost function ClipHi(flags: seq<bool>, start: nat, size: nat): (r: nat)
    ensures ClipLo(flags, start) <= r <= |flags|
  {
    if size == 0 then |flags| else Min(start + size, |flags|)
  }

  /** Where the part of a page in the query range begins and ends. */
  lemma ClampPage(flags: seq<bool>, p: Page, start: nat, size: nat)
    requires p.Next() <= |flags|
    ensures
      var lo, hi := ClipLo(flags, start), ClipHi(flags, start, size);
      var a, b := Clamp(p.offset, lo, hi), Clamp(p.Next(), lo, hi);
      && lo <= a <= b <= hi
      && (p.Next() <= start ==> a == b == lo)
      && (0 < p.bytes && start < p.Next() && (size != 0 ==> p.offset < start + size) ==> a < b)
      && (size != 0 && start + size <= p.Next() ==> b == hi)
  {
  }

  lemma {:induction false} CountUniform(flags: seq<bool>, lo: nat, a: nat, b: nat, v: bool)
    requires lo <= a <= b <= |flags|
    requires forall p :: a <= p < b ==> flags[p] == v
    ensures CountUnloaded(flags, lo, b) == CountUnloaded(flags, lo, a) + (if v then 0 else b - a)
  {
    if a < b {
      CountUniform(flags, lo, a, b - 1, v);
    }
  }

  lemma CountNone(flags: seq<bool>, lo: nat)
    requires lo <= |flags|
    ensures CountUnloaded(flags, lo, lo) == 0
  {
  }

  lemma {:induction false} CountGrows(flags: seq<bool>, lo: nat, a: nat, b: nat)
    requires lo <= a <= b <= |flags|
    ensures CountUnloaded(flags, lo, a) <= CountUnloaded(flags, lo, b)
  {
    if a < b {
      CountGrows(flags, lo, a, b - 1);
    }
  }

  /** Nothing unloaded in a range exactly if every flag in it is set. */
  lemma {:induction false} CountZero(flags: seq<bool>, lo: nat, hi: nat)
    requires lo <= hi <= |flags|
    ensures CountUnloaded(flags, lo, hi) == 0 <==> forall p :: lo <= p < hi ==> flags[p]
  {
    if lo < hi {
      CountZero(flags, lo, hi - 1);
    }
  }

  /** The maximal unloaded runs in [lo, hi), collected byte by byte. */
  ghost function UnloadedRuns(flags: seq<bool>, lo: nat, hi: nat): seq<Page>
    requires lo <= hi <= |flags|
  {
    if lo == hi then []
    else AddUnloaded(UnloadedRuns(flags, lo, hi - 1), hi - 1, if flags[hi - 1] then 0 else 1)
  }

  /** The list after n more unloaded bytes at position pos. */
  function AddUnloaded(runs: seq<Page>, pos: nat, n: nat): seq<Page> {
    if n == 0 then runs
    else if runs != [] && runs[|runs| - 1].Next() == pos then
      runs[..|runs| - 1] + [runs[|runs| - 1].(bytes := runs[|runs| - 1].bytes + n)]
    else runs + [Page(pos, n, false)]
  }

  lemma NoRuns(flags: seq<bool>, lo: nat)
    requires lo <= |flags|
    ensures UnloadedRuns(flags, lo, lo) == []
  {
  }

  lemma AddUnloadedNone(runs: seq<Page>, pos: nat)
    ensures AddUnloaded(runs, pos, 0) == runs
  {
  }

  lemma AddUnloadedTwice(runs: seq<Page>, pos: nat, n: nat)
    requires 0 < n
    ensures AddUnloaded(AddUnloaded(runs, pos, n), pos + n, 1) == AddUnloaded(runs, pos, n + 1)
  {
    var first := AddUnloaded(runs, pos, n);
    var k := |first| - 1;
    assert first[k].Next() == pos + n;
    if runs != [] && runs[|runs| - 1].Next() == pos {
      assert first[..k] == runs[..k];
      assert first[k] == runs[k].(bytes := runs[k].bytes + n);
    } else {
      assert first[..k] == runs;
      assert first[k] == Page(pos, n, false);
    }
  }

  lemma RunsStep(flags: seq<bool>, lo: nat, hi: nat)
    requires lo <= hi < |flags|
    ensures UnloadedRuns(flags, lo, hi + 1)
         == AddUnloaded(UnloadedRuns(flags, lo, hi), hi, if flags[hi] then 0 else 1)
  {
  }

  lemma {:induction false} RunsUniform(flags: seq<bool>, lo: nat, a: nat, b: nat, v: bool)
    requires lo <= a <= b <= |flags|
    requires forall p :: a <= p < b ==> flags[p] == v
    ensures UnloadedRuns(flags, lo, b) == AddUnloaded(UnloadedRuns(flags, lo, a), a, if v then 0 else b - a)
  {
    hide UnloadedRuns, AddUnloaded;
    AddUnloadedNone(UnloadedRuns(flags, lo, a), a);
    if a < b {
      RunsUniform(flags, lo, a, b - 1, v);
      RunsStep(flags, lo, b - 1);
      AddUnloadedNone(UnloadedRuns(flags, lo, b - 1), b - 1);
      if !v && a < b - 1 {
        AddUnloadedTwice(UnloadedRuns(flags, lo, a), a, b - 1 - a);
      }
    }
  }

  /** One page of a scan over the pages: what it adds to the count and to the runs of [lo, hi). */
  lemma StepOver(pages: seq<Page>, i: nat, lo: nat, hi: nat)
    requires Tiled(pages) && i < |pages| && lo <= hi <= |Flags(pages)|
    ensures EndOf(pages[..i]) == pages[i].offset && EndOf(pages[..i + 1]) == pages[i].Next() <= |Flags(pages)|
    ensures
      var a, b := Clamp(pages[i].offset, lo, hi), Clamp(pages[i].Next(), lo, hi);
      && lo <= a <= b <= hi
      && CountUnloaded(Flags(pages), lo, b)
         == CountUnloaded(Flags(pages), lo, a) + (if pages[i].loaded then 0 else b - a)
      && UnloadedRuns(Flags(pages), lo, b)
         == AddUnloaded(UnloadedRuns(Flags(pages), lo, a), a, if pages[i].loaded then 0 else b - a)
  {
    hide Flags, CountUnloaded, UnloadedRuns, Tiled;
    var a, b := Clamp(pages[i].offset, lo, hi), Clamp(pages[i].Next(), lo, hi);
    OffsetIsEnd(pages, i);
    PrefixSnoc(pages, i);
    NextBelowEnd(pages, i);
    FlagsLength(pages);
    forall p | a <= p < b
      ensures Flags(pages)[p] == pages[i].loaded
    {
      FlagAt(pages, i, p);
    }
    CountUniform(Flags(pages), lo, a, b, pages[i].loaded);
    RunsUniform(Flags(pages), lo, a, b, pages[i].loaded);
  }

  /** What the loaded check knows after i pages without an answer. */
  ghost predicate Scanned(pages: seq<Page>, i: nat, start: nat, size: nat)
    requires WellFormed(pages) && i <= |pages|
  {
    var flags := Flags(pages);
    var lo, hi := ClipLo(flags, start), ClipHi(flags, start, size);
    && (0 < i ==> !(UnloadedEmptyFile(pages) && start == 0))
    && (0 < i && size != 0 && start <= pages[i - 1].End() ==> pages[i - 1].Next() < start + size)
    && CountUnloaded(flags, lo, Clamp(EndOf(pages[..i]), lo, hi)) == 0
  }

  /** The answer of the loaded check. */
  ghost predicate RangeLoaded(pages: seq<Page>, start: nat, size: nat) {
    && !(UnloadedEmptyFile(pages) && start == 0)
    && CountUnloaded(Flags(pages), ClipLo(Flags(pages), start), ClipHi(Flags(pages), start, size)) == 0
  }

  lemma ScanStart(pages: seq<Page>, start: nat, size: nat)
    requires WellFormed(pages)
    ensures Scanned(pages, 0, start, size)
  {
    CountNone(Flags(pages), ClipLo(Flags(pages), start));
    assert pages[..0] == [];
  }

  lemma ScanStep(pages: seq<Page>, i: nat, start: nat, size: nat)
    requires WellFormed(pages) && i < |pages| && Scanned(pages, i, start, size)
    ensures pages[i].End() < start ==> Scanned(pages, i + 1, start, size)
    ensures start <= pages[i].End() && !pages[i].loaded ==> !RangeLoaded(pages, start, size)
    ensures start <= pages[i].End() && pages[i].loaded ==>
      if 0 != size && start + size <= pages[i].Next() then RangeLoaded(pages, start, size)
      else Scanned(pages, i + 1, start, size)
  {
    hide Flags, CountUnloaded, UnloadedRuns, Tiled, EndOf, NonEmpty, AddUnloaded, Clamp;
    var flags := Flags(pages);
    var lo, hi := ClipLo(flags, start), ClipHi(flags, start, size);
    FlagsLength(pages);
    StepOver(pages, i, lo, hi);
    ClampPage(flags, pages[i], start, size);
    EmptyPageAlone(pages, i);
    if 0 < i {
      EmptyPageAlone(pages, i - 1);
    }
    CountGrows(flags, lo, Clamp(pages[i].Next(), lo, hi), hi);
  }

  lemma ScanEnd(pages: seq<Page>, start: nat, size: nat)
    requires WellFormed(pages) && Scanned(pages, |pages|, start, size)
    ensures RangeLoaded(pages, start, size)
  {
    assert pages[..|pages|] == pages;
    FlagsLength(pages);
  }

  function SumBytes(runs: seq<Page>): nat {
    if runs == [] then 0 else SumBytes(runs[..|runs| - 1]) + runs[|runs| - 1].bytes
  }

  ghost predicate InSomeRun(runs: seq<Page>, p: nat) {
    exists k :: 0 <= k < |runs| && runs[k].offset <= p < runs[k].Next()
  }

  /** Run k is non-empty, lies in the range and covers unloaded bytes only. */
  ghost predicate UnloadedRun(r: Page, flags: seq<bool>, lo: nat, hi: nat)
    requires lo <= hi <= |flags|
  {
    && 0 < r.bytes && !r.loaded && lo <= r.offset && r.Next() <= hi
    && forall p :: r.offset <= p < r.Next() ==> !flags[p]
  }

  /** The runs cover exactly the unloaded bytes of the range and do not touch each other. */
  ghost predicate MaximalUnloaded(runs: seq<Page>, flags: seq<bool>, lo: nat, hi: nat)
    requires lo <= hi <= |flags|
  {
    && (forall k :: 0 <= k < |runs| ==> UnloadedRun(runs[k], flags, lo, hi))
    && (forall p :: lo <= p < hi && !flags[p] ==> InSomeRun(runs, p))
    && (forall k, l :: 0 <= k < l < |runs| ==> runs[k].Next() < runs[l].offset)
  }

  lemma MaximalSkip(runs: seq<Page>, flags: seq<bool>, lo: nat, hi: nat)
    requires lo <= hi < |flags| && flags[hi]
    requires MaximalUnloaded(runs, flags, lo, hi)
    ensures MaximalUnloaded(runs, flags, lo, hi + 1)
  {
    assert forall k :: 0 <= k < |runs| ==>
      UnloadedRun(runs[k], flags, lo, hi) ==> UnloadedRun(runs[k], flags, lo, hi + 1);
  }

  /** Run lists that agree except for a wider last run cover what the narrower one covers. */
  lemma WiderCovers(runs: seq<Page>, after: seq<Page>, p: nat)
    requires |runs| <= |after|
    requires forall k :: 0 <= k < |runs| ==> after[k].offset == runs[k].offset && runs[k].bytes <= after[k].bytes
    requires InSomeRun(runs, p)
    ensures InSomeRun(after, p)
  {
    var k :| 0 <= k < |runs| && runs[k].offset <= p < runs[k].Next();
    assert after[k].offset <= p < after[k].Next();
  }

  lemma MaximalPush(runs: seq<Page>, flags: seq<bool>, lo: nat, hi: nat)
    requires lo <= hi < |flags| && !flags[hi]
    requires MaximalUnloaded(runs, flags, lo, hi)
    requires runs == [] || runs[|runs| - 1].Next() != hi
    ensures MaximalUnloaded(runs + [Page(hi, 1, false)], flags, lo, hi + 1)
  {
    var after, n := runs + [Page(hi, 1, false)], |runs|;
    forall p | lo <= p < hi + 1 && !flags[p]
      ensures InSomeRun(after, p)
    {
      if p < hi {
        WiderCovers(runs, after, p);
      } else {
        assert after[n].offset <= p < after[n].Next();
      }
    }
    forall k | 0 <= k < |after|
      ensures UnloadedRun(after[k], flags, lo, hi + 1)
    {
      assert k < n ==> UnloadedRun(runs[k], flags, lo, hi);
    }
    forall k, l | 0 <= k < l < |after|
      ensures after[k].Next() < after[l].offset
    {
      assert UnloadedRun(runs[n - 1], flags, lo, hi);
      assert k < n - 1 ==> runs[k].Next() < runs[n - 1].offset;
    }
  }

  lemma MaximalGrow(runs: seq<Page>, flags: seq<bool>, lo: nat, hi: nat)
    requires lo <= hi < |flags| && !flags[hi]
    requires MaximalUnloaded(runs, flags, lo, hi)
    requires runs != [] && runs[|runs| - 1].Next() == hi
    ensures MaximalUnloaded(AddUnloaded(runs, hi, 1), flags, lo, hi + 1)
  {
    var after, n := AddUnloaded(runs, hi, 1), |runs| - 1;
    assert forall k :: 0 <= k < n ==> after[k] == runs[k];
    assert after[n] == runs[n].(bytes := runs[n].bytes + 1);
    hide AddUnloaded;
    forall p | lo <= p < hi + 1 && !flags[p]
      ensures InSomeRun(after, p)
    {
      if p < hi {
        WiderCovers(runs, after, p);
      } else {
        assert after[n].offset <= p < after[n].Next();
      }
    }
    forall k | 0 <= k < |after|
      ensures UnloadedRun(after[k], flags, lo, hi + 1)
    {
      assert UnloadedRun(runs[k], flags, lo, hi);
    }
  }

  /** What GetUnloadedPages lists: exactly the maximal unloaded runs. */
  lemma {:induction false} UnloadedRunsAreMaximal(flags: seq<bool>, lo: nat, hi: nat)
    requires lo <= hi <= |flags|
    ensures MaximalUnloaded(UnloadedRuns(flags, lo, hi), flags, lo, hi)
  {
    hide MaximalUnloaded;
    if lo == hi {
      MaximalNone(flags, lo);
    } else {
      UnloadedRunsAreMaximal(flags, lo, hi - 1);
      var before := UnloadedRuns(flags, lo, hi - 1);
      if flags[hi - 1] {
        MaximalSkip(before, flags, lo, hi - 1);
      } else if before != [] && before[|before| - 1].Next() == hi - 1 {
        MaximalGrow(before, flags, lo, hi - 1);
      } else {
        MaximalPush(before, flags, lo, hi - 1);
      }
    }
  }

  lemma MaximalNone(flags: seq<bool>, lo: nat)
    requires lo <= |flags|
    ensures MaximalUnloaded([], flags, lo, lo)
  {
  }

  lemma AddUnloadedSum(runs: seq<Page>, pos: nat, n: nat)
    ensures SumBytes(AddUnloaded(runs, pos, n)) == SumBytes(runs) + n
  {
    if 0 < n && runs != [] && runs[|runs| - 1].Next() == pos {
      assert AddUnloaded(runs, pos, n)[..|runs| - 1] == runs[..|runs| - 1];
    } else if 0 < n {
      assert AddUnloaded(runs, pos, n)[..|runs|] == runs;
    }
  }

  /** The listed runs add up to the unloaded total of the same range. */
  lemma {:induction false} UnloadedRunsSum(flags: seq<bool>, lo: nat, hi: nat)
    requires lo <= hi <= |flags|
    ensures SumBytes(UnloadedRuns(flags, lo, hi)) == CountUnloaded(flags, lo, hi)
  {
    if lo < hi {
      hide AddUnloaded, SumBytes;
      UnloadedRunsSum(flags, lo, hi - 1);
      RunsStep(flags, lo, hi - 1);
      AddUnloadedSum(UnloadedRuns(flags, lo, hi - 1), hi - 1, if flags[hi - 1] then 0 else 1);
    }
  }

  class PageList {
    var pages: seq<Page>

    ghost predicate Valid()
      reads this
    {
      WellFormed(pages)
    }

    ghost function Bits(): seq<bool>
      reads this
    {
      Flags(pages)
    }

    constructor (size: nat, isLoaded: bool)
      ensures Valid() && pages == [Page(0, size, isLoaded)] && Bits() == Fill(size, isLoaded)
    {
      pages := [Page(0, size, isLoaded)];
      new;
      FlagsOne(Page(0, size, isLoaded));
    }

    method Clear()
      modifies this
      ensures Valid() && pages == [] && Bits() == []
    {
      pages := [];
    }

    method Init(size: nat, isLoaded: bool)
      modifies this
      ensures Valid() && pages == [Page(0, size, isLoaded)] && Bits() == Fill(size, isLoaded)
    {
      Clear();
      pages := pages + [Page(0, size, isLoaded)];
      FlagsOne(Page(0, size, isLoaded));
    }

    function Size(): (r: nat)
      reads this
      requires Valid()
      ensures r == |Bits()|
    {
      FlagsLength(pages);
      EndOf(pages)
    }

    /** Neighbours with equal flags are merged; no byte changes its flag. */
    method Compress()
      requires Valid()
      modifies this
      ensures Valid() && Bits() == old(Bits())
      ensures pages == if Bits() == [] then old(pages) else Runs(Bits())
    {
      hide Flags, WellFormed, Compressed, MergePages;
      var i := 0;
      var isFirst, isLastLoaded := true, false;
      CompressedNil(pages[..0]);
      while i < |pages|
        invariant i <= |pages| && WellFormed(pages)
        invariant Flags(pages) == old(Bits())
        invariant Compressed(pages[..i])
        invariant isFirst <==> i == 0
        invariant 0 < i ==> isLastLoaded == pages[i - 1].loaded
        invariant old(Bits()) == [] ==> pages == old(pages)
        decreases |pages| - i
      {
        if isFirst {
          CompressedSnoc(pages, i);
          isFirst := false;
          isLastLoaded := pages[i].loaded;
          i := i + 1;
        } else if isLastLoaded == pages[i].loaded {
          if Flags(pages) == [] {
            EmptyView(pages);
          }
          MergeKeepsFlags(pages, i);
          MergeKeepsForm(pages, i);
          CompressedMerge(pages, i);
          pages := MergePages(pages, i);
        } else {
          CompressedSnoc(pages, i);
          isLastLoaded := pages[i].loaded;
          i := i + 1;
        }
      }
      assert pages[..i] == pages;
      if Bits() != [] {
        CompressedIsCanonical(pages);
      }
    }

    /** Makes newPos a page boundary when it lies inside the list. */
    method Parse(newPos: nat) returns (found: bool)
      requires Valid()
      modifies this
      ensures Valid() && Bits() == old(Bits())
      ensures found <==> newPos < Size() || (newPos == 0 && pages != [])
      ensures Starts(pages) == if newPos < Size() then old(Starts(pages)) + {newPos} else old(Starts(pages))
    {
      FlagsLength(pages);
      var i := 0;
      while i < |pages|
        invariant i <= |pages|
        invariant forall k :: 0 <= k < i ==> pages[k].Next() <= newPos && pages[k].offset != newPos
      {
        if newPos == pages[i].offset {
          assert pages[i] in pages;
          NextBelowEnd(pages, i);
          return true;
        } else if pages[i].offset < newPos < pages[i].Next() {
          NextBelowEnd(pages, i);
          SplitKeepsFlags(pages, i, newPos);
          SplitKeepsForm(pages, i, newPos);
          SplitStarts(pages, i, newPos);
          FlagsLength(SplitPage(pages, i, newPos));
          pages := SplitPage(pages, i, newPos);
          return true;
        }
        if 0 < i {
          assert pages[i].offset == pages[i - 1].Next();
        }
        i := i + 1;
      }
      return false;
    }

    method Resize(size: nat, isLoaded: bool)
      requires Valid()
      modifies this
      ensures Valid()
      ensures Bits() == ResizeFlags(old(Bits()), size, isLoaded)
      ensures pages == if 0 < size then Runs(Bits()) else if old(Bits()) == [] then [Page(0, 0, isLoaded)] else []
    {
      hide Flags;
      FlagsLength(pages);
      var total := Size();
      if 0 == total {
        Init(size, isLoaded);
      } else if total < size {
        FlagsConcat(pages, [Page(total, size - total, isLoaded)]);
        FlagsOne(Page(total, size - total, isLoaded));
        pages := pages + [Page(total, size - total, isLoaded)];
      } else if size < total {
        Cut(size);
        FlagsLength(pages);
      }
      Compress();
    }

    /** The loop of Resize that erases the pages beyond size and shortens the one across it. */
    method Cut(size: nat)
      requires Valid() && size < Size()
      modifies this
      ensures Valid() && NonEmpty(pages) && Bits() == old(Bits())[..size]
    {
      hide Flags, Cutting;
      ghost var orig := pages;
      ghost var j := 0;
      CutStart(pages, size);
      var i := 0;
      while i < |pages|
        invariant i <= |pages| && Cutting(orig, pages, i, j, size)
        decreases |pages| - i, if i < |pages| && size < pages[i].Next() then 1 else 0
      {
        if pages[i].Next() <= size {
          CutKeep(orig, pages, i, j, size);
          i, j := i + 1, j + 1;
        } else if size <= pages[i].offset {
          CutErase(orig, pages, i, j, size);
          pages := pages[..i] + pages[i + 1..];
          j := j + 1;
        } else {
          CutShorten(orig, pages, i, j, size);
          pages := pages[i := pages[i].(bytes := size - pages[i].offset)];
        }
      }
      CutDone(orig, pages, j, size);
    }

    /** size 0 checks to the end of the list. */
    method IsPageLoaded(start: nat, size: nat) returns (loaded: bool)
      requires Valid()
      ensures loaded <==>
        && !(UnloadedEmptyFile(pages) && start == 0)
        && CountUnloaded(Bits(), ClipLo(Bits(), start), ClipHi(Bits(), start, size)) == 0
    {
      ScanStart(pages, start, size);
      hide Flags, CountUnloaded, Scanned;
      var i := 0;
      while i < |pages|
        invariant i <= |pages| && Scanned(pages, i, start, size)
      {
        ScanStep(pages, i, start, size);
        if pages[i].End() < start {
          i := i + 1;
          continue;
        }
        if !pages[i].loaded {
          return false;
        }
        if 0 != size && start + size <= pages[i].Next() {
          return true;
        }
        i := i + 1;
      }
      ScanEnd(pages, start, size);
      return true;
    }

    method SetPageLoadedStatus(start: nat, size: nat, isLoaded: bool, isCompress: bool)
      requires Valid()
      modifies this
      ensures Valid()
      ensures Bits() == SetRange(old(Bits()), start, size, isLoaded)
      ensures isCompress ==> pages == Canonical(Bits(), isLoaded)
    {
      hide Flags, WellFormed, Runs;
      var nowSize := Size();
      if nowSize <= start {
        if nowSize < start {
          Resize(start, false);
        }
        Resize(start + size, isLoaded);
      } else if nowSize <= start + size {
        Resize(start, false);
        Resize(start + size, isLoaded);
      } else {
        var _ := Parse(start);
        var _ := Parse(start + size);
        Mark(start, start + size, isLoaded);
      }
      if isCompress {
        Compress();
      }
    }

    /** The flag loop of SetPageLoadedStatus, run when both ends of the range are page boundaries. */
    method Mark(start: nat, stop: nat, isLoaded: bool)
      requires Valid() && start <= stop < Size()
      requires start in Starts(pages) && stop in Starts(pages)
      modifies this
      ensures Valid() && Bits() == SetRange(old(Bits()), start, stop - start, isLoaded)
    {
      hide Flags;
      FlagsLength(pages);
      ghost var before := pages;
      var i := 0;
      while i < |pages|
        invariant i <= |pages| == |before|
        invariant forall k :: 0 <= k < i ==> pages[k] == Marked(before[k], start, stop, isLoaded)
        invariant forall k :: i <= k < |pages| ==> pages[k] == before[k]
      {
        BoundarySplits(before, i, before[i].End(), start);
        if pages[i].End() < start {
        } else if stop <= pages[i].offset {
          forall k | i < k < |before|
            ensures stop <= before[k].offset
          {
            OffsetsAscend(before, i, k);
          }
          break;
        } else {
          pages := pages[i := pages[i].(loaded := isLoaded)];
        }
        i := i + 1;
      }
      MarkKeepsForm(before, pages, start, stop, isLoaded);
      MarkFlags(before, pages, start, stop, isLoaded);
    }

    method GetTotalUnloadedPageSize(start: nat, size: nat) returns (restsize: nat)
      requires Valid()
      ensures restsize == CountUnloaded(Bits(), ClipLo(Bits(), start), ClipHi(Bits(), start, size))
    {
      hide Flags, CountUnloaded, UnloadedRuns, Tiled, EndOf, NonEmpty, AddUnloaded;
      FlagsLength(pages);
      var size := size;
      ghost var flags, lo, hi := Bits(), ClipLo(Bits(), start), ClipHi(Bits(), start, size);
      if 0 == size {
        if start < Size() {
          size := Size() - start;
        }
      }
      CountNone(flags, lo);
      restsize := 0;
      var next := start + size;
      NoPages(pages[..0]);
      var i := 0;
      while i < |pages|
        invariant i <= |pages|
        invariant restsize == CountUnloaded(flags, lo, Clamp(EndOf(pages[..i]), lo, hi))
      {
        StepOver(pages, i, lo, hi);
        if pages[i].Next() <= start {
          i := i + 1;
          continue;
        }
        if next <= pages[i].offset {
          break;
        }
        if pages[i].loaded {
          i := i + 1;
          continue;
        }
        var tmpsize;
        if pages[i].offset <= start {
          if pages[i].Next() <= next {
            tmpsize := pages[i].Next() - start;
          } else {
            tmpsize := next - start;
          }
        } else {
          if pages[i].Next() <= next {
            tmpsize := pages[i].Next() - pages[i].offset;
          } else {
            tmpsize := next - pages[i].offset;
          }
        }
        restsize := restsize + tmpsize;
        i := i + 1;
      }
      assert i == |pages| ==> pages[..i] == pages;
    }

    /** The unloaded parts of the range, neighbouring parts merged. */
    method GetUnloadedPages(start: nat, size: nat) returns (unloaded: seq<Page>, count: nat)
      requires Valid()
      ensures unloaded == UnloadedRuns(Bits(), ClipLo(Bits(), start), ClipHi(Bits(), start, size))
      ensures count == |unloaded|
    {
      hide Flags, CountUnloaded, UnloadedRuns, Tiled, EndOf, NonEmpty;
      FlagsLength(pages);
      var size := size;
      ghost var flags, lo, hi := Bits(), ClipLo(Bits(), start), ClipHi(Bits(), start, size);
      if 0 == size {
        if start < Size() {
          size := Size() - start;
        }
      }
      var next := start + size;
      unloaded := [];
      NoRuns(flags, lo);
      NoPages(pages[..0]);
      var i := 0;
      while i < |pages|
        invariant i <= |pages|
        invariant unloaded == UnloadedRuns(flags, lo, Clamp(EndOf(pages[..i]), lo, hi))
      {
        StepOver(pages, i, lo, hi);
        EmptyPageAlone(pages, i);
        if pages[i].Next() <= start {
          i := i + 1;
          continue;
        }
        if next <= pages[i].offset {
          break;
        }
        if pages[i].loaded {
          i := i + 1;
          continue;
        }
        var pageStart := Max(pages[i].offset, start);
        var pageNext := Min(pages[i].Next(), next);
        var pageSize := pageNext - pageStart;
        assert pageStart == Clamp(pages[i].offset, lo, hi) && pageNext == Clamp(pages[i].Next(), lo, hi);
        if unloaded != [] && unloaded[|unloaded| - 1].Next() == pageStart {
          var last := |unloaded| - 1;
          unloaded := unloaded[..last] + [unloaded[last].(bytes := unloaded[last].bytes + pageSize)];
        } else {
          unloaded := unloaded + [Page(pageStart, pageSize, false)];
        }
        i := i + 1;
      }
      assert i == |pages| ==> pages[..i] == pages;
      count := |unloaded|;
    }
  }
}
