/** The stat file text of a page list: both directions of PageList::Serialize. */
module PageListText {
  import opened Fields
  import opened Wrappers
  import opened Pages
  import opened PageLists
  import Decimal

  // ---------- writing ----------

  function Flag(loaded: bool): string {
    if loaded then "1" else "0"
  }

  function PageLine(p: Page): string {
    "\n" + Decimal.Print(p.offset) + ":" + Decimal.Print(p.bytes) + ":" + Flag(p.loaded)
  }

  function PageLines(pages: seq<Page>): string {
    if pages == [] then "" else PageLines(pages[..|pages| - 1]) + PageLine(pages[|pages| - 1])
  }

  /** The text of the output branch: the size, then one line for each page. */
  function Printed(pages: seq<Page>): string {
    Decimal.Print(EndOf(pages)) + PageLines(pages)
  }

  lemma PageLinesSnoc(pages: seq<Page>, i: nat)
    ensures PageLines(pages[..0]) == ""
    ensures i < |pages| ==> PageLines(pages[..i + 1]) == PageLines(pages[..i]) + PageLine(pages[i])
  {
    assert i < |pages| ==> pages[..i + 1][..i] == pages[..i];
  }

  method SerializeOut(list: PageList) returns (text: string)
    requires list.Valid()
    ensures text == Printed(list.pages)
  {
    hide PageLine, PageLines;
    PageLinesSnoc(list.pages, 0);
    text := Decimal.Print(EndOf(list.pages));
    var i := 0;
    while i < |list.pages|
      invariant i <= |list.pages|
      invariant text == Decimal.Print(EndOf(list.pages)) + PageLines(list.pages[..i])
    {
      PageLinesSnoc(list.pages, i);
      text := text + PageLine(list.pages[i]);
      i := i + 1;
    }
    assert list.pages[..i] == list.pages;
  }

  // ---------- reading ----------

  datatype Entry = Entry(offset: nat, size: nat, loaded: bool)

  /** One line: three fields, each read with getline, which fails at the end of the line. */
  function ParseLine(line: string): Option<Entry> {
    var second := Rest(line, ':');
    var third := Rest(second, ':');
    if line == [] || second == [] || third == [] then None
    else Some(Entry(Decimal.Value(Field(line, ':'), false), Decimal.Value(Field(second, ':'), false),
                    1 == Decimal.Value(Field(third, ':'), false)))
  }

  function ParseLines(text: string): Option<seq<Entry>>
    decreases |text|
  {
    if text == [] then Some([])
    else
      var first, others := ParseLine(Field(text, '\n')), ParseLines(Rest(text, '\n'));
      if first.None? || others.None? then None else Some([first.value] + others.value)
  }

  /** The byte view after the entries, each applied with SetPageLoadedStatus. */
  ghost function Applied(flags: seq<bool>, entries: seq<Entry>): seq<bool>
    decreases |entries|
  {
    if entries == [] then flags
    else Applied(SetRange(flags, entries[0].offset, entries[0].size, entries[0].loaded), entries[1..])
  }

  ghost function AppliedPages(flags: seq<bool>, entries: seq<Entry>): seq<Page> {
    if entries == [] then [] else Canonical(Applied(flags, entries), entries[|entries| - 1].loaded)
  }

  /** The page list a stat file restores, if its text is accepted. */
  ghost function Restored(text: string): Option<seq<Page>> {
    if text == [] then Some([Page(0, 0, false)])
    else
      var content := Field(text, Decimal.NUL);
      var entries := ParseLines(Rest(content, '\n'));
      if content == [] || entries.None? then None
      else if Decimal.Value(Field(content, '\n'), false) != |Applied([], entries.value)| then None
      else Some(AppliedPages([], entries.value))
  }

  /** The entries of a text of which some lines have been read already. */
  function Prefixed(done: seq<Entry>, others: Option<seq<Entry>>): Option<seq<Entry>> {
    if others.None? then None else Some(done + others.value)
  }

  lemma PrefixedBounds(lines: string, done: seq<Entry>)
    ensures Prefixed([], ParseLines(lines)) == ParseLines(lines)
    ensures Prefixed(done, ParseLines([])) == Some(done)
  {
    assert ParseLines(lines).Some? ==> [] + ParseLines(lines).value == ParseLines(lines).value;
    assert done + [] == done;
  }

  lemma ReadOneLine(rest: string, done: seq<Entry>)
    requires rest != []
    ensures
      var e := ParseLine(Field(rest, '\n'));
      Prefixed(done, ParseLines(rest))
      == if e.None? then None else Prefixed(done + [e.value], ParseLines(Rest(rest, '\n')))
  {
    var e, others := ParseLine(Field(rest, '\n')), ParseLines(Rest(rest, '\n'));
    if e.Some? && others.Some? {
      assert done + [e.value] + others.value == done + ([e.value] + others.value);
    }
  }

  method SerializeIn(list: PageList, text: string) returns (ok: bool)
    requires list.Valid()
    modifies list
    ensures list.Valid()
    ensures ok <==> Restored(text).Some?
    ensures list.pages == if ok then Restored(text).value else []
  {
    hide ParseLines, Prefixed, Flags, SetRange, Field, Rest, Canonical, WellFormed;
    if text == [] {
      list.Init(0, false);
      return true;
    }
    var content := Field(text, Decimal.NUL);
    list.Clear();
    if content == [] {
      return false;
    }
    var total := Decimal.StrToOffset(Field(content, '\n'), false);
    var rest := Rest(content, '\n');
    var isErr := false;
    ghost var lines := rest;
    ghost var done: seq<Entry> := [];
    PrefixedBounds(lines, done);
    while rest != []
      invariant list.Valid()
      invariant list.Bits() == Applied([], done) && list.pages == AppliedPages([], done)
      invariant ParseLines(lines) == Prefixed(done, ParseLines(rest))
      decreases |rest|
    {
      var line := Field(rest, '\n');
      ReadOneLine(rest, done);
      if line == [] {
        isErr := true;
        break;
      }
      var offset := Decimal.StrToOffset(Field(line, ':'), false);
      var second := Rest(line, ':');
      if second == [] {
        isErr := true;
        break;
      }
      var size := Decimal.StrToOffset(Field(second, ':'), false);
      var third := Rest(second, ':');
      if third == [] {
        isErr := true;
        break;
      }
      var flag := Decimal.StrToOffset(Field(third, ':'), false);
      list.SetPageLoadedStatus(offset, size, 1 == flag, true);
      AppliedSnoc([], done, Entry(offset, size, 1 == flag));
      done := done + [Entry(offset, size, 1 == flag)];
      rest := Rest(rest, '\n');
    }
    PrefixedBounds(lines, done);
    if isErr {
      list.Clear();
      return false;
    }
    if total != list.Size() {
      list.Clear();
      return false;
    }
    return true;
  }

  lemma {:induction false} AppliedSnoc(flags: seq<bool>, entries: seq<Entry>, e: Entry)
    ensures Applied(flags, entries + [e]) == SetRange(Applied(flags, entries), e.offset, e.size, e.loaded)
    decreases |entries|
  {
    if entries != [] {
      assert (entries + [e])[1..] == entries[1..] + [e];
      AppliedSnoc(SetRange(flags, entries[0].offset, entries[0].size, entries[0].loaded), entries[1..], e);
    } else {
      assert [e][1..] == [];
    }
  }

  // ---------- round trip ----------

  lemma NumberLacks(n: nat)
    ensures Decimal.Print(n) != []
    ensures Lacks(Decimal.Print(n), ':') && Lacks(Decimal.Print(n), '\n') && Lacks(Decimal.Print(n), Decimal.NUL)
  {
    Decimal.PrintIsDigits(n);
  }

  function EntryOf(p: Page): Entry {
    Entry(p.offset, p.bytes, p.loaded)
  }

  lemma FlagReadsBack(loaded: bool)
    ensures Lacks(Flag(loaded), ':') && (1 == Decimal.Value(Flag(loaded), false) <==> loaded)
  {
    assert Decimal.Print(1) == "1" && Decimal.Print(0) == "0";
    Decimal.ValueOfPrint(1);
    Decimal.ValueOfPrint(0);
  }

  lemma FieldsReadBack(o: string, b: string, f: string)
    requires Lacks(o, ':') && Lacks(b, ':') && Lacks(f, ':')
    requires o != [] && b != [] && f != []
    ensures
      var line := o + ":" + b + ":" + f;
      && ParseLine(line) == Some(Entry(Decimal.Value(o, false), Decimal.Value(b, false), 1 == Decimal.Value(f, false)))
  {
    var line := o + ":" + b + ":" + f;
    var second := b + ":" + f;
    assert line == o + [':'] + second;
    FieldStops(o, ':', second);
    assert second == b + [':'] + f;
    FieldStops(b, ':', f);
    FieldStops(f, ':', "");
  }

  /** A page's line without its leading line feed. */
  function PageText(p: Page): string {
    Decimal.Print(p.offset) + ":" + Decimal.Print(p.bytes) + ":" + Flag(p.loaded)
  }

  lemma PageReadsBack(p: Page)
    ensures PageLine(p) == ['\n'] + PageText(p)
    ensures ParseLine(PageText(p)) == Some(EntryOf(p))
  {
    NumberLacks(p.offset);
    NumberLacks(p.bytes);
    FlagReadsBack(p.loaded);
    FieldsReadBack(Decimal.Print(p.offset), Decimal.Print(p.bytes), Flag(p.loaded));
    Decimal.ValueOfPrint(p.offset);
    Decimal.ValueOfPrint(p.bytes);
  }

  lemma PageTextLacks(p: Page, d: char)
    requires d == '\n' || d == Decimal.NUL
    ensures Lacks(PageText(p), d)
  {
    NumberLacks(p.offset);
    NumberLacks(p.bytes);
  }

  function EntriesOf(pages: seq<Page>): seq<Entry> {
    seq(|pages|, i requires 0 <= i < |pages| => EntryOf(pages[i]))
  }

  lemma {:induction false} PageLinesCons(p: Page, pages: seq<Page>)
    ensures PageLines([p] + pages) == PageLine(p) + PageLines(pages)
  {
    hide PageLine;
    if pages == [] {
      assert [p] + pages == [p];
      assert [p][..0] == [];
      assert PageLines([p][..0]) == "";
    } else {
      var n := |pages| - 1;
      assert ([p] + pages)[..n + 1] == [p] + pages[..n];
      PageLinesCons(p, pages[..n]);
    }
  }

  lemma NoLines()
    ensures PageLines([]) == "" && ParseLines([]) == Some([]) && EntriesOf([]) == []
  {
  }

  lemma {:induction false} LinesReadBack(pages: seq<Page>)
    requires pages != []
    ensures PageLines(pages) != [] && PageLines(pages)[0] == '\n'
    ensures ParseLines(PageLines(pages)[1..]) == Some(EntriesOf(pages))
    decreases |pages|
  {
    hide PageLine, PageText, PageLines, EntryOf, Field, Rest, Lacks, Decimal.Print;
    var p, others := pages[0], pages[1..];
    assert pages == [p] + others;
    PageLinesCons(p, others);
    PageReadsBack(p);
    PageTextLacks(p, '\n');
    NumberLacks(p.offset);
    assert EntriesOf(pages) == [EntryOf(p)] + EntriesOf(others);
    var text := PageLines(pages)[1..];
    assert text == PageText(p) + PageLines(others);
    if others == [] {
      NoLines();
      assert text == PageText(p);
      FieldStops(PageText(p), '\n', "");
    } else {
      LinesReadBack(others);
      assert text == PageText(p) + ['\n'] + PageLines(others)[1..];
      FieldStops(PageText(p), '\n', PageLines(others)[1..]);
    }
  }

  lemma {:induction false} LinesLackNul(pages: seq<Page>)
    ensures Lacks(PageLines(pages), Decimal.NUL)
  {
    if pages != [] {
      var n := |pages| - 1;
      LinesLackNul(pages[..n]);
      PageReadsBack(pages[n]);
      PageTextLacks(pages[n], Decimal.NUL);
    }
  }

  lemma AppendRange(flags: seq<bool>, n: nat, v: bool)
    ensures SetRange(flags, |flags|, n, v) == flags + Fill(n, v)
  {
  }

  /** Setting page after page rebuilds the byte view. */
  lemma {:induction false} EntriesRebuildFlags(pages: seq<Page>)
    requires Tiled(pages)
    ensures Applied([], EntriesOf(pages)) == Flags(pages)
  {
    if pages != [] {
      var n := |pages| - 1;
      EntriesRebuildFlags(pages[..n]);
      assert EntriesOf(pages) == EntriesOf(pages[..n]) + [EntryOf(pages[n])];
      AppliedSnoc([], EntriesOf(pages[..n]), EntryOf(pages[n]));
      FlagsLength(pages[..n]);
      OffsetIsEnd(pages, n);
      AppendRange(Flags(pages[..n]), pages[n].bytes, pages[n].loaded);
    } else {
      assert EntriesOf(pages) == [];
    }
  }

  /** The printed text splits into the size and the page lines. */
  lemma PrintedContent(pages: seq<Page>)
    ensures
      var text := Printed(pages);
      && text != [] && Field(text, Decimal.NUL) == text
      && Decimal.Value(Field(text, '\n'), false) == EndOf(pages)
      && ParseLines(Rest(text, '\n')) == Some(EntriesOf(pages))
  {
    hide PageLines, EntriesOf, Field, Rest, Decimal.Print, Decimal.Value, ParseLines;
    var size := Decimal.Print(EndOf(pages));
    NumberLacks(EndOf(pages));
    LinesLackNul(pages);
    FieldStops(Printed(pages), Decimal.NUL, "");
    Decimal.ValueOfPrint(EndOf(pages));
    if pages == [] {
      NoLines();
      assert Printed(pages) == size;
      FieldStops(size, '\n', "");
    } else {
      LinesReadBack(pages);
      assert Printed(pages) == size + ['\n'] + PageLines(pages)[1..];
      FieldStops(size, '\n', PageLines(pages)[1..]);
    }
  }

  /**
   Reading back what was written is accepted and rebuilds the same byte map; a
   compressed list is rebuilt page for page.
   */
  lemma PrintedIsRestored(pages: seq<Page>)
    requires WellFormed(pages)
    ensures Restored(Printed(pages)).Some?
    ensures Flags(Restored(Printed(pages)).value) == Flags(pages)
    ensures Compressed(pages) ==> Restored(Printed(pages)).value == pages
  {
    hide Flags, Runs, Applied, ParseLines, Printed, EntriesOf;
    PrintedContent(pages);
    EntriesRebuildFlags(pages);
    FlagsLength(pages);
    RunsAreCanonical(Flags(pages));
    EntriesShape(pages);
    CanonicalShape(pages);
  }

  lemma EntriesShape(pages: seq<Page>)
    ensures |EntriesOf(pages)| == |pages|
    ensures pages != [] ==> EntriesOf(pages)[|pages| - 1] == EntryOf(pages[|pages| - 1])
  {
  }

  lemma CanonicalShape(pages: seq<Page>)
    requires WellFormed(pages)
    ensures pages == [] ==> Flags(pages) == []
    ensures pages != [] && Flags(pages) == [] ==> pages == [Page(0, 0, pages[|pages| - 1].loaded)]
    ensures Flags([Page(0, 0, false)]) == [] && Flags([Page(0, 0, true)]) == []
    ensures Compressed(pages) && Flags(pages) != [] ==> Runs(Flags(pages)) == pages
  {
    FlagsLength(pages);
    FlagsOne(Page(0, 0, false));
    FlagsOne(Page(0, 0, true));
    if Compressed(pages) && Flags(pages) != [] {
      CompressedIsCanonical(pages);
    }
  }

  /** A text with its first line and its page lines. */
  ghost predicate Splits(text: string, first: string, lines: string) {
    && text != [] && Field(text, Decimal.NUL) == text
    && Field(text, '\n') == first && Rest(text, '\n') == lines && first != []
  }

  /** A text is refused when its first line is not the end of what its page lines describe. */
  lemma WrongSizeRefused(text: string, first: string, lines: string)
    requires Splits(text, first, lines) && ParseLines(lines).Some?
    ensures Restored(text).Some? <==> Decimal.Value(first, false) == |Applied([], ParseLines(lines).value)|
  {
    hide Field, Rest, Decimal.Value, Applied, ParseLines;
  }

  /** In particular another size before the page lines of a list. */
  lemma OtherSizeRefused(pages: seq<Page>, size: nat)
    requires WellFormed(pages) && pages != []
    ensures Restored(Decimal.Print(size) + PageLines(pages)).Some? <==> size == EndOf(pages)
  {
    hide PageLines, EntriesOf, Field, Rest, Decimal.Print, Decimal.Value, ParseLines, Applied, Flags, Restored;
    var first, text := Decimal.Print(size), Decimal.Print(size) + PageLines(pages);
    NumberLacks(size);
    LinesLackNul(pages);
    FieldStops(text, Decimal.NUL, "");
    LinesReadBack(pages);
    assert text == first + ['\n'] + PageLines(pages)[1..];
    FieldStops(first, '\n', PageLines(pages)[1..]);
    Decimal.ValueOfPrint(size);
    EntriesRebuildFlags(pages);
    FlagsLength(pages);
    WrongSizeRefused(text, first, PageLines(pages)[1..]);
  }

  /** A page line with fewer than three fields makes the whole text refused. */
  lemma ShortLineRefused(text: string, first: string, lines: string)
    requires Splits(text, first, lines) && lines != []
    requires Rest(Rest(Field(lines, '\n'), ':'), ':') == []
    ensures Restored(text).None?
  {
    hide Field, Rest, Decimal.Value, Applied;
  }
}
