/**
 rename_directory of src/s3fs.cpp: the names below a directory and the directories they need become a rename
 list, which the three passes then work off.
 */
module Renames {
  import opened Bytes
  import opened Errno
  import opened Hierarchy
  import opened MvNodes
  import opened Ordering
  import ObjectLists

  /**
   What looking at a path gives: no attributes, a file, a directory of unknown type, or a directory and the path
   of its object; noObject says that it has none.
   */
  datatype Look = Unreadable | File | Untyped | Directory(nowpath: Text, noObject: bool)

  /** Where the entry of a directory is renamed from: its object, or the path itself if it has none. */
  function FromName(path: Text, look: Look): Text {
    if look.Directory? && !look.noObject then look.nowpath else path
  }

  /** The node for a path, if it gets one. */
  function NodeFor(path: Text, to: Text, look: Look): (item: Item)
    requires Found(look)
  {
    Item(FromName(path, look), to, look.Directory?, look.Directory? && look.noObject)
  }

  /** Where an entry below a directory is. */
  function Below(dir: Text, e: Text): Text {
    dir + [SLASH] + e
  }

  predicate Found(look: Look) {
    look.File? || look.Directory?
  }

  /** Each node comes from the directory itself or from an entry below it. */
  ghost predicate FromEntries(items: seq<Item>, entries: seq<Text>, from: Text, to: Text, look: Text -> Look) {
    forall k :: 0 <= k < |items| ==> ComesFrom(items[k], entries, from, to, look)
  }

  ghost predicate ComesFrom(item: Item, entries: seq<Text>, from: Text, to: Text, look: Text -> Look) {
    || (look(from).Directory? && item == NodeFor(from, to + [SLASH], look(from)))
    || exists e :: e in entries && IsNodeOf(item, e, from, to, look)
  }

  ghost predicate IsNodeOf(item: Item, e: Text, from: Text, to: Text, look: Text -> Look) {
    var seen := look(Below(from, e));
    Found(seen) && item == NodeFor(Below(from, e), Below(to, e), seen)
  }

  ghost predicate PathListed(items: seq<Item>, path: Text, look: Look) {
    Listed(items, FromName(path, look), look.Directory?)
  }

  /** Everything that is found has its path listed. */
  ghost predicate AllListed(items: seq<Item>, entries: seq<Text>, from: Text, look: Text -> Look) {
    && (look(from).Directory? ==> PathListed(items, from, look(from)))
    && forall e :: e in entries && Found(look(Below(from, e))) ==>
      PathListed(items, Below(from, e), look(Below(from, e)))
  }

  lemma ListedStays(items: seq<Item>, item: Item, path: Text, look: Look)
    requires PathListed(items, path, look)
    ensures PathListed(Inserted(items, item), path, look)
  {
    hide StopAt;
    var after := Inserted(items, item);
    var i :| 0 <= i < |items| && items[i].oldPath == FromName(path, look) && items[i].isDir == look.Directory?;
    var k := StopAt(items, item);
    assert after == items || after[if i < k then i else i + 1] == items[i];
  }

  lemma InsertedIs(items: seq<Item>, item: Item, k: nat)
    requires k < |Inserted(items, item)|
    ensures Inserted(items, item)[k] == item || Inserted(items, item)[k] in items
  {
    hide StopAt;
  }

  /** One more entry in the list. */
  lemma EntryAdded(items: seq<Item>, entries: seq<Text>, e: Text, from: Text, to: Text, look: Text -> Look)
    requires SortedByClass(items) && Found(look(Below(from, e)))
    requires FromEntries(items, entries, from, to, look) && AllListed(items, entries, from, look)
    ensures
      var after := Inserted(items, NodeFor(Below(from, e), Below(to, e), look(Below(from, e))));
      && FromEntries(after, entries + [e], from, to, look)
      && AllListed(after, entries + [e], from, look)
  {
    var item := NodeFor(Below(from, e), Below(to, e), look(Below(from, e)));
    var after := Inserted(items, item);
    InsertedAddsOne(items, item);
    assert PathListed(after, Below(from, e), look(Below(from, e)));
    hide Inserted, PathListed, NodeFor, SortedByClass, Below, Found, ComesFrom;
    forall k | 0 <= k < |after|
      ensures ComesFrom(after[k], entries + [e], from, to, look)
    {
      InsertedIs(items, item, k);
      if after[k] == item {
        NodeComesFrom(item, entries, e, from, to, look);
      } else {
        var l :| 0 <= l < |items| && items[l] == after[k];
        MoreEntries(items[l], entries, e, from, to, look);
      }
    }
    forall f | f in entries + [e] && Found(look(Below(from, f)))
      ensures PathListed(after, Below(from, f), look(Below(from, f)))
    {
      if f in entries {
        ListedStays(items, item, Below(from, f), look(Below(from, f)));
      }
    }
    if look(from).Directory? {
      ListedStays(items, item, from, look(from));
    }
  }

  lemma NodeComesFrom(item: Item, entries: seq<Text>, e: Text, from: Text, to: Text, look: Text -> Look)
    requires IsNodeOf(item, e, from, to, look)
    ensures ComesFrom(item, entries + [e], from, to, look)
  {
    assert e in entries + [e];
  }

  lemma MoreEntries(item: Item, entries: seq<Text>, e: Text, from: Text, to: Text, look: Text -> Look)
    requires ComesFrom(item, entries, from, to, look)
    ensures ComesFrom(item, entries + [e], from, to, look)
  {
    if f :| f in entries && IsNodeOf(item, f, from, to, look) {
      assert f in entries + [e];
    }
  }

  lemma EntrySkipped(items: seq<Item>, entries: seq<Text>, e: Text, from: Text, to: Text, look: Text -> Look)
    requires !Found(look(Below(from, e)))
    requires FromEntries(items, entries, from, to, look) && AllListed(items, entries, from, look)
    ensures FromEntries(items, entries + [e], from, to, look) && AllListed(items, entries + [e], from, look)
  {
    hide ComesFrom, PathListed;
    forall k | 0 <= k < |items|
      ensures ComesFrom(items[k], entries + [e], from, to, look)
    {
      MoreEntries(items[k], entries, e, from, to, look);
    }
  }

  /** The names and, behind them, the directories they need but do not have. */
  ghost predicate Hierarchized(entries: seq<Text>, names: seq<Text>, added: seq<Text>) {
    entries == names + WithSlashes(added, false) && forall a :: a in added <==> IsMissing(a, names)
  }

  /** The list with only the directory itself, if that is found. */
  lemma OnlyBase(from: Text, to: Text, look: Text -> Look)
    ensures
      var items := if look(from).Directory? then [NodeFor(from, to + [SLASH], look(from))] else [];
      && FromEntries(items, [], from, to, look) && AllListed(items, [], from, look)
  {
    if look(from).Directory? {
      assert [NodeFor(from, to + [SLASH], look(from))][0].oldPath == FromName(from, look(from));
    }
  }

  lemma InsertedFirst(item: Item)
    ensures Inserted([], item) == [item]
  {
  }

  /** The rename list of a directory: what the loop over the hierarchized names adds. */
  method FillList(from: Text, to: Text, names: seq<Text>, look: Text -> Look)
    returns (list: MvList, entries: seq<Text>, ghost added: seq<Text>)
    ensures fresh(list) && list.Valid()
    ensures Hierarchized(entries, names, added) && |names| <= |entries| && entries[..|names|] == names
    ensures FromEntries(list.Items(), entries, from, to, look) && AllListed(list.Items(), entries, from, look)
  {
    hide Inserted, Linked, SortedByClass, FromEntries, AllListed, IsMissing, WithSlashes, NodeFor, Below;
    list := new MvList();
    OnlyBase(from, to, look);
    var seen := look(from);
    if seen.Directory? {
      InsertedFirst(NodeFor(from, to + [SLASH], seen));
      var node := list.AddMvnode(NodeFor(from, to + [SLASH], seen));
    }
    entries, added := MakeHierarchizedList(names, false);
    assert entries[..0] == [];
    for i := 0 to |entries|
      invariant list.Valid() && fresh(list)
      invariant forall k :: 0 <= k < |list.nodes| ==> fresh(list.nodes[k])
      invariant FromEntries(list.Items(), entries[..i], from, to, look)
      invariant AllListed(list.Items(), entries[..i], from, look)
    {
      var fromName := Below(from, entries[i]);
      assert entries[..i + 1] == entries[..i] + [entries[i]];
      seen := look(fromName);
      if Found(seen) {
        EntryAdded(list.Items(), entries[..i], entries[i], from, to, look);
        var node := list.AddMvnode(NodeFor(fromName, Below(to, entries[i]), seen));
        assert forall k :: 0 <= k < |list.nodes| ==> list.nodes[k] in list.nodes;
      } else {
        EntrySkipped(list.Items(), entries[..i], entries[i], from, to, look);
      }
    }
    assert entries[..|entries|] == entries;
  }

  // ---------- what a run does ----------

  /** An entry is a name, perhaps with a slash. */
  predicate StandsFor(entry: Text, name: Text) {
    entry == name || Strip(entry) == name
  }

  /** An entry that stands for an ancestor is cloned before an effect, if it is found to be a directory. */
  ghost predicate AncestorCloned(log: seq<Effect>, j: nat, entries: seq<Text>, a: Text, from: Text, look: Text -> Look)
    requires j <= |log|
  {
    exists d :: d in entries && StandsFor(d, a) && DirectoryCloned(log, j, Below(from, d), look(Below(from, d)))
  }

  ghost predicate DirectoryCloned(log: seq<Effect>, j: nat, path: Text, look: Look)
    requires j <= |log|
  {
    look.Directory? && FromName(path, look) != [] ==> ClonedBefore(log, j, FromName(path, look))
  }

  /** A file is moved from its place to the same place below the new directory, after all directories above it. */
  ghost predicate MoveInPlace(log: seq<Effect>, j: nat, e: Text, entries: seq<Text>, from: Text, to: Text,
                              look: Text -> Look)
    requires j < |log|
  {
    && e in entries && look(Below(from, e)).File? && log[j] == MoveFile(Below(from, e), Below(to, e))
    && DirectoryCloned(log, j, from, look(from))
    && forall a :: IsAncestor(a, Strip(e)) ==> AncestorCloned(log, j, entries, a, from, look)
  }

  /** Every move is in place, and nothing is removed before all files that are found are moved. */
  ghost predicate Orderly(log: seq<Effect>, entries: seq<Text>, from: Text, to: Text, look: Text -> Look) {
    && (forall j :: 0 <= j < |log| && log[j].MoveFile? ==> exists e :: MoveInPlace(log, j, e, entries, from, to, look))
    && (forall j, e :: 0 <= j < |log| && Removes(log[j]) && e in entries && look(Below(from, e)).File? ==>
          MovedBefore(log, j, Below(from, e)))
  }

  // ---------- where each effect comes from, and what a complete run does ----------

  /** A path and where it is renamed to: the directory itself, or an entry below it. */
  ghost predicate IsPlace(q: Text, t: Text, entries: seq<Text>, from: Text, to: Text) {
    || (q == from && t == to + [SLASH])
    || exists e :: e in entries && IsBelow(q, from, e) && IsBelow(t, to, e)
  }

  ghost predicate IsBelow(path: Text, dir: Text, e: Text) {
    |path| == |dir| + 1 + |e| && path[..|dir|] == dir && path[|dir|] == SLASH && path[|dir| + 1..] == e
  }

  lemma BelowIs(dir: Text, e: Text, path: Text)
    ensures IsBelow(path, dir, e) <==> path == Below(dir, e)
  {
    if IsBelow(path, dir, e) {
      assert path == path[..|dir|] + [path[|dir|]] + path[|dir| + 1..];
    }
  }

  /**
   A directory is cloned from its object, or from its path if it has none, to its place; a file is moved from its
   path to its place; an object is removed only for a directory that has one, and forgotten only for one without.
   */
  ghost predicate IsDue(x: Effect, q: Text, t: Text, look: Look) {
    match x
    case CloneDir(path, target) =>
      look.Directory? && target == t && (if look.noObject then path == q else path == look.nowpath)
    case MoveFile(path, target) => look.File? && path == q && target == t
    case RemoveDir(path) => look.Directory? && !look.noObject && path == look.nowpath
    case ForgetDir(path) => look.Directory? && look.noObject && path == q
  }

  ghost predicate AllDue(log: seq<Effect>, entries: seq<Text>, from: Text, to: Text, look: Text -> Look) {
    forall j :: 0 <= j < |log| ==> DueSomewhere(log[j], entries, from, to, look)
  }

  ghost predicate DueSomewhere(x: Effect, entries: seq<Text>, from: Text, to: Text, look: Text -> Look) {
    exists q, t :: IsPlace(q, t, entries, from, to) && IsDue(x, q, t, look(q))
  }

  /** No other place is a directory with the same object or path. */
  ghost predicate IsSole(q: Text, t: Text, entries: seq<Text>, from: Text, to: Text, look: Text -> Look)
    requires look(q).Directory?
  {
    forall r, u :: IsPlace(r, u, entries, from, to) && look(r).Directory? && SameSource(q, look(q), r, look(r)) ==>
      r == q && u == t
  }

  ghost predicate SameSource(q: Text, a: Look, r: Text, b: Look)
    requires a.Directory? && b.Directory?
  {
    (if a.noObject then q else a.nowpath) == (if b.noObject then r else b.nowpath)
  }

  /** Everything that is found has its effects: files, and directories with a source of their own. */
  ghost predicate AllDone(log: seq<Effect>, entries: seq<Text>, from: Text, to: Text, look: Text -> Look) {
    && (forall e :: e in entries && look(Below(from, e)).File? ==> MoveFile(Below(from, e), Below(to, e)) in log)
    && (forall q, t ::
          IsPlace(q, t, entries, from, to) && look(q).Directory? && IsSole(q, t, entries, from, to, look) ==>
          DirectoryDone(log, q, t, look(q)))
  }

  ghost predicate DirectoryDone(log: seq<Effect>, q: Text, t: Text, look: Look)
    requires look.Directory?
  {
    && (look.noObject && q != [] ==> CloneDir(q, t) in log && ForgetDir(q) in log)
    && (!look.noObject && look.nowpath != [] ==> CloneDir(look.nowpath, t) in log && RemoveDir(look.nowpath) in log)
  }

  /** The node of a place that is found. */
  lemma ItemPlace(item: Item, entries: seq<Text>, from: Text, to: Text, look: Text -> Look) returns (q: Text, t: Text)
    requires ComesFrom(item, entries, from, to, look)
    ensures IsPlace(q, t, entries, from, to) && Found(look(q)) && item == NodeFor(q, t, look(q))
    ensures look(q).File? ==> exists e :: e in entries && q == Below(from, e) && t == Below(to, e)
  {
    hide Below;
    if e :| e in entries && IsNodeOf(item, e, from, to, look) {
      q, t := Below(from, e), Below(to, e);
      BelowIs(from, e, q);
      BelowIs(to, e, t);
    } else {
      q, t := from, to + [SLASH];
    }
  }

  lemma SoleItem(items: seq<Item>, q: Text, t: Text, entries: seq<Text>, from: Text, to: Text, look: Text -> Look)
    returns (k: nat)
    requires FromEntries(items, entries, from, to, look) && PathListed(items, q, look(q))
    requires look(q).Directory? && IsSole(q, t, entries, from, to, look)
    ensures k < |items| && items[k] == NodeFor(q, t, look(q))
  {
    k :| 0 <= k < |items| && items[k].oldPath == FromName(q, look(q)) && items[k].isDir;
    assert ComesFrom(items[k], entries, from, to, look);
    var r, u := ItemPlace(items[k], entries, from, to, look);
    assert SameSource(q, look(q), r, look(r));
  }

  lemma FileItem(items: seq<Item>, e: Text, entries: seq<Text>, from: Text, to: Text, look: Text -> Look)
    returns (k: nat)
    requires FromEntries(items, entries, from, to, look)
    requires PathListed(items, Below(from, e), look(Below(from, e))) && look(Below(from, e)).File?
    ensures k < |items| && !items[k].isDir
    ensures items[k].oldPath == Below(from, e) && items[k].newPath == Below(to, e)
  {
    hide Below;
    k :| 0 <= k < |items| && items[k].oldPath == Below(from, e) && !items[k].isDir;
    assert ComesFrom(items[k], entries, from, to, look);
    var q, t := ItemPlace(items[k], entries, from, to, look);
    var f :| f in entries && q == Below(from, f) && t == Below(to, f);
    BelowIs(from, e, q);
    BelowIs(from, f, q);
  }

  lemma RunIsDone(items: seq<Item>, entries: seq<Text>, from: Text, to: Text, look: Text -> Look)
    requires FromEntries(items, entries, from, to, look) && AllListed(items, entries, from, look)
    ensures AllDone(Plan(items), entries, from, to, look)
  {
    hide Plan, Below, IsSole;
    forall e | e in entries && look(Below(from, e)).File?
      ensures MoveFile(Below(from, e), Below(to, e)) in Plan(items)
    {
      var k := FileItem(items, e, entries, from, to, look);
      PlanHas(items, k);
    }
    forall q, t | IsPlace(q, t, entries, from, to) && look(q).Directory? && IsSole(q, t, entries, from, to, look)
      ensures DirectoryDone(Plan(items), q, t, look(q))
    {
      PlaceListed(items, q, t, entries, from, to, look);
      var k := SoleItem(items, q, t, entries, from, to, look);
      PlanHas(items, k);
    }
  }

  lemma PlaceListed(items: seq<Item>, q: Text, t: Text, entries: seq<Text>, from: Text, to: Text, look: Text -> Look)
    requires AllListed(items, entries, from, look) && IsPlace(q, t, entries, from, to) && look(q).Directory?
    ensures PathListed(items, q, look(q))
  {
    hide Below, PathListed;
    if !(q == from && t == to + [SLASH]) {
      var e :| e in entries && IsBelow(q, from, e) && IsBelow(t, to, e);
      BelowIs(from, e, q);
    }
  }

  lemma RunIsDue(log: seq<Effect>, items: seq<Item>, entries: seq<Text>, from: Text, to: Text, look: Text -> Look)
    requires log <= Plan(items) && FromEntries(items, entries, from, to, look)
    ensures AllDue(log, entries, from, to, look)
  {
    hide Plan, IsPlace;
    forall j | 0 <= j < |log|
      ensures DueSomewhere(log[j], entries, from, to, look)
    {
      assert log[j] == Plan(items)[j];
      var k := PlanFrom(items, j);
      assert ComesFrom(items[k], entries, from, to, look);
      var q, t := ItemPlace(items[k], entries, from, to, look);
      assert IsDue(log[j], q, t, look(q));
    }
  }

  /** Each ancestor of an entry has an entry. */
  lemma AncestorEntry(entries: seq<Text>, names: seq<Text>, added: seq<Text>, e: Text, a: Text) returns (d: Text)
    requires Hierarchized(entries, names, added) && e in entries && IsAncestor(a, Strip(e))
    ensures d in entries && StandsFor(d, a)
  {
    hide IsMissing;
    EntryIs(entries, names, added, e);
    if e in names {
      var i :| 0 <= i < |names| && names[i] == e;
      AncestorClosed(names, added, Strip(e), a);
    } else {
      assert e[..|a|] == Strip(e)[..|a|];
      AncestorClosed(names, added, e, a);
    }
    if a in added {
      d := a;
    } else {
      var i :| 0 <= i < |names| && Strip(names[i]) == a;
      d := names[i];
    }
    EntryIs(entries, names, added, d);
  }

  lemma EntryIs(entries: seq<Text>, names: seq<Text>, added: seq<Text>, e: Text)
    requires entries == names + WithSlashes(added, false)
    ensures e in entries <==> e in names || e in added
  {
    assert WithSlashes(added, false) == added;
  }

  /** The effects of a run over a list filled from the entries are orderly, also when the run is cut short. */
  lemma RunIsOrderly(log: seq<Effect>, items: seq<Item>, entries: seq<Text>, names: seq<Text>, added: seq<Text>,
                     from: Text, to: Text, look: Text -> Look)
    requires log <= Plan(items) && InOrder(log, items) && Hierarchized(entries, names, added)
    requires FromEntries(items, entries, from, to, look) && AllListed(items, entries, from, look)
    ensures Orderly(log, entries, from, to, look)
  {
    hide Plan, Hierarchized, Below;
    forall j | 0 <= j < |log| && log[j].MoveFile?
      ensures exists e :: MoveInPlace(log, j, e, entries, from, to, look)
    {
      assert log[j] == Plan(items)[j];
      var e := MovedEntry(items, entries, from, to, look, j);
      assert MoveInPlace(log, j, e, entries, from, to, look) by {
        ClonedFirst(log, j, items, from, look(from));
        forall a | IsAncestor(a, Strip(e))
          ensures AncestorCloned(log, j, entries, a, from, look)
        {
          var d := AncestorEntry(entries, names, added, e, a);
          ClonedFirst(log, j, items, Below(from, d), look(Below(from, d)));
        }
      }
    }
    hide InOrder;
    forall j, e | 0 <= j < |log| && Removes(log[j]) && e in entries && look(Below(from, e)).File?
      ensures MovedBefore(log, j, Below(from, e))
    {
      assert PathListed(items, Below(from, e), look(Below(from, e)));
      MovedFirst(log, j, items, Below(from, e));
    }
  }

  lemma ClonedFirst(log: seq<Effect>, j: nat, items: seq<Item>, path: Text, look: Look)
    requires InOrder(log, items) && j < |log| && log[j].MoveFile?
    requires look.Directory? ==> PathListed(items, path, look)
    ensures DirectoryCloned(log, j, path, look)
  {
  }

  lemma MovedFirst(log: seq<Effect>, j: nat, items: seq<Item>, path: Text)
    requires InOrder(log, items) && j < |log| && Removes(log[j]) && Listed(items, path, false)
    ensures MovedBefore(log, j, path)
  {
  }

  /** The entry of a file that the plan moves. */
  lemma MovedEntry(items: seq<Item>, entries: seq<Text>, from: Text, to: Text, look: Text -> Look, j: nat)
    returns (e: Text)
    requires FromEntries(items, entries, from, to, look) && j < |Plan(items)| && Plan(items)[j].MoveFile?
    ensures e in entries && look(Below(from, e)).File? && Plan(items)[j] == MoveFile(Below(from, e), Below(to, e))
  {
    hide Plan, Below;
    var k := PlanFrom(items, j);
    assert ComesFrom(items[k], entries, from, to, look);
    e :| e in entries && IsNodeOf(items[k], e, from, to, look);
  }

  /**
   Renames a directory. In every run, whatever fails, each effect is due to a place that is found: directories are
   cloned and files moved to their places, objects are removed exactly for directories that have one, and those
   without are only forgotten; a file moves after all directories above it, as far as they are found, are cloned,
   and nothing is removed before all files are moved. Without a failure every place that is found has its effects.
   */
  method RenameDirectory(from: Text, to: Text, names: seq<Text>, look: Text -> Look, fails: nat -> bool)
    returns (result: int, log: seq<Effect>, entries: seq<Text>)
    ensures result == 0 || (result == -EIO && fails(|log|))
    ensures forall i: nat :: i < |log| ==> !fails(i)
    ensures AllDue(log, entries, from, to, look) && Orderly(log, entries, from, to, look)
    ensures |names| <= |entries| && entries[..|names|] == names
    ensures result == 0 ==> AllDone(log, entries, from, to, look)
  {
    hide Plan, InOrder, FromEntries, AllListed, Orderly, Hierarchized, Linked, SortedByClass, Below, AllDue, AllDone;
    var list;
    ghost var added;
    list, entries, added := FillList(from, to, names, look);
    result, log := RenamePasses(list, fails);
    RunIsOrderly(log, list.Items(), entries, names, added, from, to, look);
    RunIsDue(log, list.Items(), entries, from, to, look);
    RunIsDone(list.Items(), entries, from, to, look);
  }

  /**
   Directories are cloned in the order of their objects, so a directory comes before those below it exactly if
   its object does not have the folder suffix.
   */
  lemma ParentOrder(parent: Text, child: Text, suffixed: bool)
    requires ProperPrefix(parent + [SLASH], child)
    ensures Less(if suffixed then parent + ObjectLists.FOLDER else parent, child) <==> !suffixed
  {
    if suffixed {
      SlashFirst(parent, child);
      LessTotal(child, parent + ObjectLists.FOLDER);
    } else {
      assert child[..|parent|] == child[..|parent| + 1][..|parent|];
      PrefixIsLess(parent, child);
    }
  }

  lemma {:induction false} SlashFirst(parent: Text, child: Text)
    requires ProperPrefix(parent + [SLASH], child)
    ensures Less(child, parent + ObjectLists.FOLDER)
  {
    var full := parent + [SLASH];
    assert child[0] == child[..|full|][0] == full[0];
    if parent != [] {
      assert child[1..][..|parent|] == child[..|full|][1..] == parent[1..] + [SLASH];
      SlashFirst(parent[1..], child[1..]);
      assert (parent + ObjectLists.FOLDER)[1..] == parent[1..] + ObjectLists.FOLDER;
    }
  }
}
