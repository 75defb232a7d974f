/**
 Page lists as values: the run-length description of which bytes of a partly
 downloaded file are present locally, and the one-flag-per-byte view that gives
 such a list its meaning.
 */
module Pages {

  /** A run of bytes with the same status. */
  datatype Page = Page(offset: nat, bytes: nat, loaded: bool) {
    function Next(): nat {
      offset + bytes
    }

    function End(): nat {
      if 0 < bytes then offset + bytes - 1 else 0
    }
  }

  /** The byte after the last page. */
  function EndOf(pages: seq<Page>): nat {
    if pages == [] then 0 else pages[|pages| - 1].Next()
  }

  ghost function Fill(n: nat, v: bool): (r: seq<bool>) {
    seq(n, _ => v)
  }

  /** One flag per byte: is the byte present locally? */
  ghost function Flags(pages: seq<Page>): seq<bool> {
    if pages == [] then []
    else
      var last := pages[|pages| - 1];
      Flags(pages[..|pages| - 1]) + Fill(last.bytes, last.loaded)
  }

  /** The pages follow each other without gap or overlap, starting at byte 0. */
  ghost predicate Tiled(pages: seq<Page>) {
    && (pages != [] ==> pages[0].offset == 0)
    && forall i, j :: 0 <= i < j < |pages| && j == i + 1 ==> pages[j].offset == pages[i].Next()
  }

  ghost predicate NonEmpty(pages: seq<Page>) {
    forall i :: 0 <= i < |pages| ==> 0 < pages[i].bytes
  }

  /** The representation invariant: no empty page, except the single page of an empty file. */
  ghost predicate WellFormed(pages: seq<Page>) {
    && Tiled(pages)
    && (NonEmpty(pages) || (|pages| == 1 && pages[0].bytes == 0))
  }

  ghost predicate Compressed(pages: seq<Page>) {
    forall i, j :: 0 <= i < j < |pages| && j == i + 1 ==> pages[i].loaded != pages[j].loaded
  }

  ghost function Starts(pages: seq<Page>): set<nat> {
    set p | p in pages :: p.offset
  }

  // ---------- the byte view of a list ----------

  lemma {:induction false} FlagsConcat(a: seq<Page>, b: seq<Page>)
    ensures Flags(a + b) == Flags(a) + Flags(b)
  {
    if b == [] {
      assert a + b == a;
    } else {
      var n := |b| - 1;
      assert (a + b)[..|a + b| - 1] == a + b[..n];
      FlagsConcat(a, b[..n]);
    }
  }

  lemma FlagsOne(p: Page)
    ensures Flags([p]) == Fill(p.bytes, p.loaded)
  {
    assert [p][..0] == [];
  }

  lemma {:induction false} FlagsLength(pages: seq<Page>)
    requires Tiled(pages)
    ensures |Flags(pages)| == EndOf(pages)
  {
    if pages != [] {
      FlagsLength(pages[..|pages| - 1]);
    }
  }

  lemma FlagsSplit(pages: seq<Page>, k: nat)
    requires Tiled(pages) && k < |pages|
    ensures |Flags(pages[..k])| == pages[k].offset
    ensures Flags(pages[..k + 1]) == Flags(pages[..k]) + Fill(pages[k].bytes, pages[k].loaded)
    ensures Flags(pages) == Flags(pages[..k]) + Fill(pages[k].bytes, pages[k].loaded) + Flags(pages[k + 1..])
  {
    FlagsLength(pages[..k]);
    assert pages[..k + 1][..k] == pages[..k];
    assert pages == pages[..k + 1] + pages[k + 1..];
    FlagsConcat(pages[..k + 1], pages[k + 1..]);
  }

  /** Every byte of page k carries page k's flag. */
  lemma FlagAt(pages: seq<Page>, k: nat, p: nat)
    requires Tiled(pages) && k < |pages|
    requires pages[k].offset <= p < pages[k].Next()
    ensures p < |Flags(pages)| && Flags(pages)[p] == pages[k].loaded
  {
    FlagsSplit(pages, k);
  }

  /** Every byte below the end lies in some page. */
  lemma {:induction false} PageOf(pages: seq<Page>, p: nat) returns (k: nat)
    requires Tiled(pages) && p < EndOf(pages)
    ensures k < |pages| && pages[k].offset <= p < pages[k].Next()
  {
    var n := |pages| - 1;
    if pages[n].offset <= p {
      k := n;
    } else {
      k := PageOf(pages[..n], p);
    }
  }

  lemma {:induction false} OffsetsAscend(pages: seq<Page>, i: nat, j: nat)
    requires Tiled(pages) && i < j < |pages|
    ensures pages[i].Next() <= pages[j].offset
  {
    if i + 1 < j {
      OffsetsAscend(pages, i, j - 1);
    }
  }

  // ---------- the canonical list of a byte view ----------

  ghost function AppendFlag(pages: seq<Page>, v: bool): seq<Page> {
    if pages != [] && pages[|pages| - 1].loaded == v then
      var n := |pages| - 1;
      pages[..n] + [pages[n].(bytes := pages[n].bytes + 1)]
    else
      pages + [Page(EndOf(pages), 1, v)]
  }

  /** The maximal runs of equal flags, built flag by flag. */
  ghost function Runs(flags: seq<bool>): seq<Page> {
    if flags == [] then []
    else AppendFlag(Runs(flags[..|flags| - 1]), flags[|flags| - 1])
  }

  lemma AppendFlagKeeps(pages: seq<Page>, v: bool)
    requires Tiled(pages) && NonEmpty(pages) && Compressed(pages)
    ensures Tiled(AppendFlag(pages, v)) && NonEmpty(AppendFlag(pages, v)) && Compressed(AppendFlag(pages, v))
  {
  }

  lemma AppendFlagExtends(pages: seq<Page>, v: bool)
    requires Tiled(pages)
    ensures Flags(AppendFlag(pages, v)) == Flags(pages) + [v]
  {
    if pages != [] && pages[|pages| - 1].loaded == v {
      var k := |pages| - 1;
      var grown := pages[k].(bytes := pages[k].bytes + 1);
      FlagsConcat(pages[..k], [grown]);
      FlagsOne(grown);
      assert Fill(grown.bytes, v) == Fill(pages[k].bytes, v) + [v];
    } else {
      FlagsConcat(pages, [Page(EndOf(pages), 1, v)]);
      FlagsOne(Page(EndOf(pages), 1, v));
      assert Fill(1, v) == [v];
    }
  }

  lemma {:induction false} RunsAreTiled(flags: seq<bool>)
    ensures Tiled(Runs(flags)) && NonEmpty(Runs(flags)) && Compressed(Runs(flags))
  {
    if flags != [] {
      RunsAreTiled(flags[..|flags| - 1]);
      AppendFlagKeeps(Runs(flags[..|flags| - 1]), flags[|flags| - 1]);
    }
  }

  lemma {:induction false} RunsFlags(flags: seq<bool>)
    ensures Flags(Runs(flags)) == flags
  {
    if flags != [] {
      var n := |flags| - 1;
      RunsFlags(flags[..n]);
      RunsAreTiled(flags[..n]);
      AppendFlagExtends(Runs(flags[..n]), flags[n]);
      assert flags == flags[..n] + [flags[n]];
    }
  }

  lemma RunsAreCanonical(flags: seq<bool>)
    ensures Tiled(Runs(flags)) && NonEmpty(Runs(flags)) && Compressed(Runs(flags))
    ensures Flags(Runs(flags)) == flags
    ensures EndOf(Runs(flags)) == |flags|
  {
    RunsAreTiled(flags);
    RunsFlags(flags);
    FlagsLength(Runs(flags));
  }

  lemma LastRun(flags: seq<bool>)
    requires flags != []
    ensures Runs(flags) != [] && Runs(flags)[|Runs(flags)| - 1].loaded == flags[|flags| - 1]
  {
  }

  lemma GrowLastRun(pages: seq<Page>, p: Page)
    ensures AppendFlag(pages + [p], p.loaded) == pages + [p.(bytes := p.bytes + 1)]
  {
    assert (pages + [p])[..|pages|] == pages;
  }

  lemma RunsSnoc(flags: seq<bool>, v: bool)
    ensures Runs(flags + [v]) == AppendFlag(Runs(flags), v)
  {
    assert (flags + [v])[..|flags|] == flags;
  }

  lemma {:induction false} RunsAppendRun(flags: seq<bool>, n: nat, v: bool)
    requires 0 < n
    requires flags == [] || flags[|flags| - 1] != v
    ensures Runs(flags + Fill(n, v)) == Runs(flags) + [Page(|flags|, n, v)]
  {
    var shorter := flags + Fill(n - 1, v);
    assert flags + Fill(n, v) == shorter + [v];
    RunsSnoc(shorter, v);
    if n == 1 {
      assert shorter == flags;
      RunsAreCanonical(flags);
      if flags != [] {
        LastRun(flags);
      }
    } else {
      RunsAppendRun(flags, n - 1, v);
      GrowLastRun(Runs(flags), Page(|flags|, n - 1, v));
    }
  }

  /** The flag before the last page is the one of the page before it. */
  lemma FlagBeforeLast(pages: seq<Page>)
    requires Tiled(pages) && NonEmpty(pages) && Compressed(pages) && pages != []
    ensures
      var n := |pages| - 1;
      var flags := Flags(pages[..n]);
      |flags| == pages[n].offset && (flags != [] ==> flags[|flags| - 1] != pages[n].loaded)
  {
    var n := |pages| - 1;
    FlagsLength(pages[..n]);
    if 0 < n {
      FlagAt(pages[..n], n - 1, pages[n].offset - 1);
    }
  }

  /** A compressed list of non-empty pages is determined by its byte view. */
  lemma {:induction false} CompressedIsRuns(pages: seq<Page>)
    requires Tiled(pages) && NonEmpty(pages) && Compressed(pages)
    ensures pages == Runs(Flags(pages))
  {
    if pages != [] {
      var n := |pages| - 1;
      CompressedIsRuns(pages[..n]);
      FlagBeforeLast(pages);
      assert Flags(pages) == Flags(pages[..n]) + Fill(pages[n].bytes, pages[n].loaded);
      hide Flags, Tiled, Compressed, Fill, Runs;
      RunsAppendRun(Flags(pages[..n]), pages[n].bytes, pages[n].loaded);
      assert pages == pages[..n] + [pages[n]];
    }
  }
}
