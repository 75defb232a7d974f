/**
 The rename list of src/s3fs_util.cpp: a doubly linked list kept sorted by old path
 within each class (directories, files), and the three passes of rename_directory over it.
 */
module MvNodes {
  import opened Bytes
  import opened Errno
  import opened Ordering
  import opened Sequences

  // ---------- the list as a value ----------

  datatype Item = Item(oldPath: Text, newPath: Text, isDir: bool, isNormdir: bool)

  /** The scan of add_mvnode stops at a node of the same class that does not come before the new path. */
  predicate Stops(cur: Item, item: Item) {
    cur.isDir == item.isDir && !Less(cur.oldPath, item.oldPath)
  }

  function StopAt(items: seq<Item>, item: Item): (k: nat)
    ensures k <= |items|
    ensures k < |items| ==> Stops(items[k], item)
    ensures forall i :: 0 <= i < k ==> !Stops(items[i], item)
  {
    if items == [] || Stops(items[0], item) then 0 else 1 + StopAt(items[1..], item)
  }

  /** The list after add_mvnode. */
  function Inserted(items: seq<Item>, item: Item): seq<Item> {
    var k := StopAt(items, item);
    if k < |items| && items[k].oldPath == item.oldPath then items
    else items[..k] + [item] + items[k..]
  }

  ghost predicate SortedByClass(items: seq<Item>) {
    forall i, j :: 0 <= i < j < |items| && items[i].isDir == items[j].isDir ==> Less(items[i].oldPath, items[j].oldPath)
  }

  ghost predicate Listed(items: seq<Item>, oldPath: Text, isDir: bool) {
    exists i :: 0 <= i < |items| && items[i].oldPath == oldPath && items[i].isDir == isDir
  }

  /** Inserting keeps each class strictly ascending. */
  lemma InsertedKeepsSorted(items: seq<Item>, item: Item)
    requires SortedByClass(items)
    ensures SortedByClass(Inserted(items, item))
  {
    var k, after := StopAt(items, item), Inserted(items, item);
    if after != items {
      forall i, j | 0 <= i < j < |after| && after[i].isDir == after[j].isDir
        ensures Less(after[i].oldPath, after[j].oldPath)
      {
        if j == k {
          assert !Stops(items[i], item);
        } else if i == k {
          LessTotal(items[k].oldPath, item.oldPath);
          if k < j - 1 && items[k].isDir == item.isDir {
            LessTransitive(item.oldPath, items[k].oldPath, items[j - 1].oldPath);
          }
        }
      }
    }
  }

  /** The scan stops at a listed path. */
  lemma StopsAtListed(items: seq<Item>, item: Item)
    requires SortedByClass(items)
    ensures
      var k := StopAt(items, item);
      Listed(items, item.oldPath, item.isDir) <==> k < |items| && items[k].oldPath == item.oldPath
  {
    hide Less;
    var k := StopAt(items, item);
    if Listed(items, item.oldPath, item.isDir) {
      var m :| 0 <= m < |items| && items[m].oldPath == item.oldPath && items[m].isDir == item.isDir;
      LessTotal(item.oldPath, item.oldPath);
      assert Stops(items[m], item);
    }
  }

  lemma SpliceAddsOne(items: seq<Item>, k: nat, item: Item)
    requires k <= |items|
    ensures multiset(items[..k] + [item] + items[k..]) == multiset(items) + multiset{item}
    ensures (items[..k] + [item] + items[k..])[k] == item
  {
    assert items == items[..k] + items[k..];
  }

  /** A path is added exactly if its class does not have it; no other node is added or lost. */
  lemma InsertedAddsOne(items: seq<Item>, item: Item)
    requires SortedByClass(items)
    ensures Listed(items, item.oldPath, item.isDir) ==> Inserted(items, item) == items
    ensures !Listed(items, item.oldPath, item.isDir) ==>
      multiset(Inserted(items, item)) == multiset(items) + multiset{item}
    ensures Listed(Inserted(items, item), item.oldPath, item.isDir)
  {
    hide Less, SortedByClass, StopAt;
    StopsAtListed(items, item);
    if !Listed(items, item.oldPath, item.isDir) {
      SpliceAddsOne(items, StopAt(items, item), item);
    }
  }

  // ---------- the linked list ----------

  class MvNode {
    const item: Item
    var prev: MvNode?
    var next: MvNode?

    constructor (item: Item)
      ensures this.item == item && prev == null && next == null
    {
      this.item := item;
      prev, next := null, null;
    }
  }

  /** Neighbours point at each other, the ends at nothing, and no node occurs twice. */
  ghost predicate Linked(nodes: seq<MvNode>)
    reads nodes
  {
    && (nodes != [] ==> nodes[0].prev == null && nodes[|nodes| - 1].next == null)
    && (forall i, j :: 0 <= i < j < |nodes| && j == i + 1 ==> nodes[i].next == nodes[j] && nodes[j].prev == nodes[i])
    && Distinct(nodes)
  }

  lemma Links(nodes: seq<MvNode>, i: nat)
    requires Linked(nodes) && i < |nodes|
    ensures nodes[i].next == NodeAt(nodes, i + 1) && nodes[i].prev == NodeAt(nodes, i - 1)
  {
    if 0 < i {
      assert nodes[i - 1].next == nodes[i];
    }
    if i + 1 < |nodes| {
      assert nodes[i].next == nodes[i + 1];
    }
  }

  ghost function ItemsOf(nodes: seq<MvNode>): (r: seq<Item>)
    ensures |r| == |nodes|
  {
    seq(|nodes|, i requires 0 <= i < |nodes| => nodes[i].item)
  }

  lemma ItemsSplice(nodes: seq<MvNode>, i: nat, node: MvNode)
    requires i <= |nodes|
    ensures ItemsOf(nodes[..i] + [node] + nodes[i..]) == ItemsOf(nodes)[..i] + [node.item] + ItemsOf(nodes)[i..]
  {
  }

  class MvList {
    var head: MvNode?
    var tail: MvNode?
    ghost var nodes: seq<MvNode>

    ghost predicate WellLinked()
      reads this, nodes
    {
      head == NodeAt(nodes, 0) && tail == NodeAt(nodes, |nodes| - 1) && Linked(nodes)
    }

    /** Well linked, and each class in strictly ascending order. */
    ghost predicate Valid()
      reads this, nodes
    {
      WellLinked() && SortedByClass(Items())
    }

    ghost function Items(): (r: seq<Item>)
      reads this
    {
      ItemsOf(nodes)
    }

    constructor ()
      ensures Valid() && Items() == []
    {
      head, tail, nodes := null, null, [];
    }

    /** add_mvnode: the node with this class and path, which is added if it is not there. */
    method AddMvnode(item: Item) returns (node: MvNode)
      requires Valid()
      modifies this, nodes
      ensures Valid() && Items() == Inserted(old(Items()), item)
      ensures node in nodes && node.item.oldPath == item.oldPath && node.item.isDir == item.isDir
      ensures forall n :: n in nodes ==> n in old(nodes) || fresh(n)
    {
      hide Inserted, Less, Linked, SortedByClass;
      ghost var items := Items();
      InsertedKeepsSorted(items, item);
      var cur := head;
      ghost var i := 0;
      while cur != null
        invariant 0 <= i <= |nodes| && cur == NodeAt(nodes, i)
        invariant forall k :: 0 <= k < i ==> !Stops(items[k], item)
        decreases |nodes| - i
        modifies {}
      {
        Links(nodes, i);
        if cur.item.isDir == item.isDir {
          LessTotal(cur.item.oldPath, item.oldPath);
          if cur.item.oldPath == item.oldPath {
            InsertedAt(items, item, i);
            return cur;
          } else if !Less(cur.item.oldPath, item.oldPath) {
            break;
          }
        }
        cur := cur.next;
        i := i + 1;
      }
      InsertedAt(items, item, i);
      if cur != null {
        node := InsertBefore(cur, item, i);
      } else {
        node := Append(item);
      }
      assert Items() == Inserted(items, item);
    }

    /** A new node before a given one. */
    method InsertBefore(cur: MvNode, item: Item, ghost i: nat) returns (node: MvNode)
      requires WellLinked() && i < |nodes| && nodes[i] == cur
      modifies this, nodes
      ensures WellLinked() && nodes == old(nodes)[..i] + [node] + old(nodes)[i..]
      ensures fresh(node) && node.item == item
      ensures Items() == old(Items())[..i] + [item] + old(Items())[i..]
    {
      hide ItemsOf;
      Links(nodes, i);
      node := new MvNode(item);
      ItemsSplice(nodes, i, node);
      DistinctSplice(nodes, i, 0, node);
      assert 0 < i ==> forall k :: 0 <= k < |nodes| && k != i - 1 ==> nodes[k] != nodes[i - 1];
      hide Distinct;
      if cur.prev != null {
        cur.prev.next := node;
      } else {
        head := node;
      }
      node.prev := cur.prev;
      node.next := cur;
      cur.prev := node;
      ghost var ns := nodes;
      nodes := nodes[..i] + [node] + nodes[i..];
      forall k, l | 0 <= k < l < |nodes| && l == k + 1
        ensures nodes[k].next == nodes[l] && nodes[l].prev == nodes[k]
      {
        if l < i {
          assert nodes[k] == ns[k] && nodes[l] == ns[l] && ns[k].next == ns[l];
        } else if l == i {
          assert nodes[k] == ns[k];
        } else if i < k {
          assert nodes[k] == ns[k - 1] && nodes[l] == ns[l - 1] && ns[k - 1].next == ns[l - 1];
        }
      }
    }

    /** A new node at the end. */
    method Append(item: Item) returns (node: MvNode)
      requires WellLinked()
      modifies this, nodes
      ensures WellLinked() && nodes == old(nodes) + [node]
      ensures fresh(node) && node.item == item
      ensures Items() == old(Items()) + [item]
    {
      node := new MvNode(item);
      node.prev := tail;
      if tail != null {
        tail.next := node;
      }
      tail := node;
      if head == null {
        head := node;
      }
      nodes := nodes + [node];
    }
  }

  /** Node i of the list, or null outside it. */
  ghost function NodeAt(nodes: seq<MvNode>, i: int): MvNode? {
    if 0 <= i < |nodes| then nodes[i] else null
  }

  lemma {:induction false} StopAtIs(items: seq<Item>, item: Item, k: nat)
    requires k <= |items|
    requires forall i :: 0 <= i < k ==> !Stops(items[i], item)
    requires k < |items| ==> Stops(items[k], item)
    ensures StopAt(items, item) == k
  {
  }

  /** Where the scan ends, and what the list becomes. */
  lemma InsertedAt(items: seq<Item>, item: Item, k: nat)
    requires k <= |items|
    requires forall i :: 0 <= i < k ==> !Stops(items[i], item)
    requires k < |items| ==> Stops(items[k], item)
    ensures Inserted(items, item)
         == if k < |items| && items[k].oldPath == item.oldPath then items else items[..k] + [item] + items[k..]
  {
    StopAtIs(items, item, k);
  }

  // ---------- the three passes of rename_directory ----------

  datatype Effect =
    | CloneDir(path: Text, to: Text)
    | MoveFile(path: Text, to: Text)
    | RemoveDir(path: Text)
    | ForgetDir(path: Text)

  function PickClone(item: Item): seq<Effect> {
    if item.isDir && item.oldPath != [] then [CloneDir(item.oldPath, item.newPath)] else []
  }

  function PickMove(item: Item): seq<Effect> {
    if !item.isDir then [MoveFile(item.oldPath, item.newPath)] else []
  }

  function PickRemove(item: Item): seq<Effect> {
    if item.isDir && item.oldPath != [] then
      [if item.isNormdir then ForgetDir(item.oldPath) else RemoveDir(item.oldPath)]
    else []
  }

  function Forward(items: seq<Item>, pick: Item -> seq<Effect>): seq<Effect> {
    if items == [] then [] else Forward(items[..|items| - 1], pick) + pick(items[|items| - 1])
  }

  function Backward(items: seq<Item>, pick: Item -> seq<Effect>): seq<Effect> {
    if items == [] then [] else pick(items[|items| - 1]) + Backward(items[..|items| - 1], pick)
  }

  /** Directories are cloned top down, files moved, and directories removed bottom up. */
  function Plan(items: seq<Item>): seq<Effect> {
    Forward(items, PickClone) + Forward(items, PickMove) + Backward(items, PickRemove)
  }

  lemma ForwardStep(items: seq<Item>, pick: Item -> seq<Effect>, i: nat)
    requires i < |items|
    ensures Forward(items[..i + 1], pick) == Forward(items[..i], pick) + pick(items[i])
  {
    assert items[..i + 1][..i] == items[..i];
  }

  lemma BackwardStep(items: seq<Item>, pick: Item -> seq<Effect>, i: nat)
    requires i < |items|
    ensures Backward(items[..i + 1], pick) == pick(items[i]) + Backward(items[..i], pick)
  {
    assert items[..i + 1][..i] == items[..i];
  }

  lemma {:induction false} ForwardPrefix(items: seq<Item>, pick: Item -> seq<Effect>, i: nat)
    requires i <= |items|
    ensures Forward(items[..i], pick) <= Forward(items, pick)
    decreases |items|
  {
    if i < |items| {
      var n := |items| - 1;
      assert items[..i] == items[..n][..i];
      ForwardPrefix(items[..n], pick, i);
    } else {
      assert items[..i] == items;
    }
  }

  /** A run performs effects until the first one that the remote side lets fail. */
  ghost predicate RunsUntil(log: seq<Effect>, plan: seq<Effect>, fails: nat -> bool, result: int) {
    && log <= plan
    && (forall i: nat :: i < |log| ==> !fails(i))
    && (result == 0 ==> log == plan)
    && (result != 0 ==> result == -EIO && |log| < |plan| && fails(|log|))
  }

  /** One pass forward over the list; any effect may fail and end it. */
  method PassForward(list: MvList, dirs: bool, log0: seq<Effect>, fails: nat -> bool)
    returns (result: int, log: seq<Effect>)
    requires list.Valid()
    requires forall i: nat :: i < |log0| ==> !fails(i)
    ensures RunsUntil(log, log0 + Forward(list.Items(), if dirs then PickClone else PickMove), fails, result)
    ensures log0 <= log
  {
    hide Forward, Linked;
    ghost var items, pick := list.Items(), if dirs then PickClone else PickMove;
    log := log0;
    ForwardNone(items, pick);
    var cur := list.head;
    ghost var i := 0;
    while cur != null
      invariant 0 <= i <= |items| && cur == NodeAt(list.nodes, i)
      invariant log == log0 + Forward(items[..i], pick)
      invariant forall k: nat :: k < |log| ==> !fails(k)
      decreases |items| - i
    {
      Links(list.nodes, i);
      ForwardStep(items, pick, i);
      ForwardPrefix(items, pick, i + 1);
      var effects := if dirs then PickClone(cur.item) else PickMove(cur.item);
      if effects != [] {
        if fails(|log|) {
          return -EIO, log;
        }
      }
      log := log + effects;
      cur := cur.next;
      i := i + 1;
    }
    assert items[..i] == items;
    result := 0;
  }

  lemma ForwardNone(items: seq<Item>, pick: Item -> seq<Effect>)
    ensures Forward(items[..0], pick) == []
  {
  }

  lemma BackwardNone(items: seq<Item>, pick: Item -> seq<Effect>)
    ensures Backward(items[..0], pick) == []
  {
  }

  /**
   The rename passes: a run performs a prefix of the plan, all of it if nothing fails,
   and in every run the effects are those of the nodes, and in order.
   */
  method RenamePasses(list: MvList, fails: nat -> bool) returns (result: int, log: seq<Effect>)
    requires list.Valid()
    ensures RunsUntil(log, Plan(list.Items()), fails, result) && InOrder(log, list.Items())
    ensures OnlyEffects(log, list.Items()) && (result == 0 ==> AllEffects(log, list.Items()))
  {
    hide Plan, InOrder, SortedByClass, OnlyEffects, AllEffects;
    result, log := RunPasses(list, fails);
    PlanEffects(log, list.Items());
    PlanInOrder(list.Items());
    OrderOfPrefix(log, Plan(list.Items()), list.Items());
  }

  method RunPasses(list: MvList, fails: nat -> bool) returns (result: int, log: seq<Effect>)
    requires list.Valid()
    ensures RunsUntil(log, Plan(list.Items()), fails, result)
  {
    hide Forward, Backward, PickRemove, Linked, SortedByClass;
    ghost var items := list.Items();
    result, log := PassForward(list, true, [], fails);
    if result != 0 {
      return;
    }
    result, log := PassForward(list, false, log, fails);
    if result != 0 {
      return;
    }
    var cur := list.tail;
    ghost var i := |items|;
    assert items[..i] == items;
    BackwardNone(items, PickRemove);
    while cur != null
      invariant 0 <= i <= |items| && cur == NodeAt(list.nodes, i - 1)
      invariant log + Backward(items[..i], PickRemove) == Plan(items)
      invariant forall k: nat :: k < |log| ==> !fails(k)
      decreases i
    {
      Links(list.nodes, i - 1);
      BackwardStep(items, PickRemove, i - 1);
      var effects := PickRemove(cur.item);
      OneRemoval(cur.item);
      if effects != [] {
        if fails(|log|) {
          return -EIO, log;
        }
      }
      Associative(log, effects, Backward(items[..i - 1], PickRemove));
      log := log + effects;
      cur := cur.prev;
      i := i - 1;
    }
    assert log + [] == log;
    result := 0;
  }

  lemma OneRemoval(item: Item)
    ensures |PickRemove(item)| <= 1
  {
  }

  ghost predicate PathsAscend(effects: seq<Effect>) {
    forall i, j :: 0 <= i < j < |effects| ==> Less(effects[i].path, effects[j].path)
  }

  ghost predicate PathsDescend(effects: seq<Effect>) {
    forall i, j :: 0 <= i < j < |effects| ==> Less(effects[j].path, effects[i].path)
  }

  lemma {:induction false} ForwardFromDirs(items: seq<Item>)
    ensures forall e :: e in Forward(items, PickClone) ==> Listed(items, e.path, true)
    ensures forall e :: e in Backward(items, PickRemove) ==> Listed(items, e.path, true)
  {
    if items != [] {
      var n := |items| - 1;
      ForwardFromDirs(items[..n]);
      forall p | Listed(items[..n], p, true)
        ensures Listed(items, p, true)
      {
        var i :| 0 <= i < n && items[..n][i].oldPath == p && items[..n][i].isDir;
        assert items[i].oldPath == p && items[i].isDir;
      }
      assert items[n].isDir ==> Listed(items, items[n].oldPath, true);
    }
  }

  lemma LastIsGreatest(items: seq<Item>, p: Text)
    requires SortedByClass(items) && items != [] && items[|items| - 1].isDir
    requires Listed(items[..|items| - 1], p, true)
    ensures Less(p, items[|items| - 1].oldPath)
  {
  }

  /** Clones go up, and removals go down, in path order. */
  lemma {:induction false} PassOrder(items: seq<Item>)
    requires SortedByClass(items)
    ensures PathsAscend(Forward(items, PickClone))
    ensures PathsDescend(Backward(items, PickRemove))
  {
    if items != [] {
      var n := |items| - 1;
      PassOrder(items[..n]);
      ForwardFromDirs(items[..n]);
      forall p | items[n].isDir && Listed(items[..n], p, true)
        ensures Less(p, items[n].oldPath)
      {
        LastIsGreatest(items, p);
      }
    }
  }

  /** A directory is cloned before, and removed after, every directory whose path extends its own. */
  lemma ParentsFirst(items: seq<Item>)
    requires SortedByClass(items)
    ensures
      var clones := Forward(items, PickClone);
      forall i, j :: 0 <= i < |clones| && 0 <= j < |clones| && ProperPrefix(clones[i].path, clones[j].path) ==> i < j
    ensures
      var removals := Backward(items, PickRemove);
      forall i, j :: 0 <= i < |removals| && 0 <= j < |removals| && ProperPrefix(removals[i].path, removals[j].path) ==>
        j < i
  {
    PassOrder(items);
    var clones, removals := Forward(items, PickClone), Backward(items, PickRemove);
    forall i, j | 0 <= i < |clones| && 0 <= j < |clones| && ProperPrefix(clones[i].path, clones[j].path)
      ensures i < j
    {
      PrefixIsLess(clones[i].path, clones[j].path);
      LessTotal(clones[i].path, clones[j].path);
    }
    forall i, j | 0 <= i < |removals| && 0 <= j < |removals| && ProperPrefix(removals[i].path, removals[j].path)
      ensures j < i
    {
      PrefixIsLess(removals[i].path, removals[j].path);
      LessTotal(removals[i].path, removals[j].path);
    }
  }

  // ---------- the order of effects, also in a run that fails ----------

  predicate Removes(e: Effect) {
    e.RemoveDir? || e.ForgetDir?
  }

  ghost predicate ClonedBefore(log: seq<Effect>, j: nat, path: Text)
    requires j <= |log|
  {
    exists i :: 0 <= i < j && log[i].CloneDir? && log[i].path == path
  }

  ghost predicate MovedBefore(log: seq<Effect>, j: nat, path: Text)
    requires j <= |log|
  {
    exists i :: 0 <= i < j && log[i].MoveFile? && log[i].path == path
  }

  ghost predicate RemovedBefore(log: seq<Effect>, j: nat, path: Text)
    requires j <= |log|
  {
    exists i :: 0 <= i < j && Removes(log[i]) && log[i].path == path
  }

  /**
   A directory is cloned after the directories above it; a file is moved after all directories are cloned;
   a directory is removed after all files are moved and the directories below it are removed.
   */
  ghost predicate InOrder(log: seq<Effect>, items: seq<Item>) {
    && (forall j, p ::
          0 <= j < |log| && log[j].CloneDir? && p != [] && Listed(items, p, true) && ProperPrefix(p, log[j].path) ==>
          ClonedBefore(log, j, p))
    && (forall j, p :: 0 <= j < |log| && log[j].MoveFile? && p != [] && Listed(items, p, true) ==>
          ClonedBefore(log, j, p))
    && (forall j, p :: 0 <= j < |log| && Removes(log[j]) && Listed(items, p, false) ==>
          MovedBefore(log, j, p))
    && (forall j, p :: 0 <= j < |log| && Removes(log[j]) && Listed(items, p, true) && ProperPrefix(log[j].path, p) ==>
          RemovedBefore(log, j, p))
  }

  /** A run that is cut short is still in order. */
  lemma OrderOfPrefix(log: seq<Effect>, plan: seq<Effect>, items: seq<Item>)
    requires log <= plan && InOrder(plan, items)
    ensures InOrder(log, items)
  {
    hide Listed, ProperPrefix;
    forall j, p | 0 <= j < |log|
      ensures ClonedBefore(plan, j, p) ==> ClonedBefore(log, j, p)
      ensures MovedBefore(plan, j, p) ==> MovedBefore(log, j, p)
      ensures RemovedBefore(plan, j, p) ==> RemovedBefore(log, j, p)
    {
      assert forall i :: 0 <= i < j ==> log[i] == plan[i];
    }
    assert forall j :: 0 <= j < |log| ==> log[j] == plan[j];
  }

  /** Each pass has its own kind of effect. */
  lemma {:induction false} PassKinds(items: seq<Item>)
    ensures forall e :: e in Forward(items, PickClone) ==> e.CloneDir?
    ensures forall e :: e in Forward(items, PickMove) ==> e.MoveFile?
    ensures forall e :: e in Backward(items, PickRemove) ==> Removes(e)
  {
    if items != [] {
      PassKinds(items[..|items| - 1]);
    }
  }

  /** Every listed path has its effect in its pass. */
  lemma {:induction false} PassHas(items: seq<Item>, k: nat)
    requires k < |items|
    ensures items[k].isDir && items[k].oldPath != [] ==>
      PickClone(items[k])[0] in Forward(items, PickClone) && PickRemove(items[k])[0] in Backward(items, PickRemove)
    ensures !items[k].isDir ==> PickMove(items[k])[0] in Forward(items, PickMove)
  {
    var n := |items| - 1;
    if k < n {
      PassHas(items[..n], k);
    }
  }

  /** The parts of the plan. */
  lemma PlanParts(items: seq<Item>, j: nat)
    requires j < |Plan(items)|
    ensures
      var clones, moves, removals := Forward(items, PickClone), Forward(items, PickMove), Backward(items, PickRemove);
      && |Plan(items)| == |clones| + |moves| + |removals|
      && (j < |clones| ==> Plan(items)[j] == clones[j] && Plan(items)[j].CloneDir?)
      && (|clones| <= j < |clones| + |moves| ==> Plan(items)[j] == moves[j - |clones|] && Plan(items)[j].MoveFile?)
      && (|clones| + |moves| <= j ==> Plan(items)[j] == removals[j - |clones| - |moves|] && Removes(Plan(items)[j]))
  {
    PassKinds(items);
    hide Forward, Backward, Removes;
  }

  lemma CloneIsIn(items: seq<Item>, p: Text) returns (i: nat)
    requires Listed(items, p, true) && p != []
    ensures i < |Forward(items, PickClone)| <= |Plan(items)|
    ensures Plan(items)[i].CloneDir? && Plan(items)[i] == Forward(items, PickClone)[i] && Plan(items)[i].path == p
  {
    var k :| 0 <= k < |items| && items[k].oldPath == p && items[k].isDir;
    PassHas(items, k);
    hide Forward, Backward;
    i :| 0 <= i < |Forward(items, PickClone)| && Forward(items, PickClone)[i] == PickClone(items[k])[0];
  }

  lemma MoveIsIn(items: seq<Item>, p: Text) returns (i: nat)
    requires Listed(items, p, false)
    ensures |Forward(items, PickClone)| <= i < |Forward(items, PickClone)| + |Forward(items, PickMove)| <= |Plan(items)|
    ensures Plan(items)[i].MoveFile? && Plan(items)[i].path == p
  {
    var k :| 0 <= k < |items| && items[k].oldPath == p && !items[k].isDir;
    PassHas(items, k);
    hide Forward, Backward;
    i :| 0 <= i < |Forward(items, PickMove)| && Forward(items, PickMove)[i] == PickMove(items[k])[0];
    i := |Forward(items, PickClone)| + i;
  }

  lemma RemovalIsIn(items: seq<Item>, p: Text) returns (i: nat)
    requires Listed(items, p, true) && p != []
    ensures i < |Backward(items, PickRemove)|
    ensures Removes(Backward(items, PickRemove)[i]) && Backward(items, PickRemove)[i].path == p
  {
    var k :| 0 <= k < |items| && items[k].oldPath == p && items[k].isDir;
    PassHas(items, k);
    PassKinds(items);
    hide Forward, Backward;
    i :| 0 <= i < |Backward(items, PickRemove)| && Backward(items, PickRemove)[i] == PickRemove(items[k])[0];
  }

  /** The plan of a sorted list is in order. */
  lemma PlanInOrder(items: seq<Item>)
    requires SortedByClass(items)
    ensures InOrder(Plan(items), items)
  {
    var plan := Plan(items);
    ParentsFirst(items);
    hide Forward, Backward, Plan, SortedByClass, Listed, ProperPrefix, Removes;
    forall j, p |
      0 <= j < |plan| && plan[j].CloneDir? && p != [] && Listed(items, p, true) && ProperPrefix(p, plan[j].path)
      ensures ClonedBefore(plan, j, p)
    {
      PlanParts(items, j);
      var i := CloneIsIn(items, p);
    }
    forall j, p | 0 <= j < |plan| && plan[j].MoveFile? && p != [] && Listed(items, p, true)
      ensures ClonedBefore(plan, j, p)
    {
      PlanParts(items, j);
      var i := CloneIsIn(items, p);
    }
    forall j, p | 0 <= j < |plan| && Removes(plan[j]) && Listed(items, p, false)
      ensures MovedBefore(plan, j, p)
    {
      PlanParts(items, j);
      var i := MoveIsIn(items, p);
    }
    forall j, p | 0 <= j < |plan| && Removes(plan[j]) && Listed(items, p, true) && ProperPrefix(plan[j].path, p)
      ensures RemovedBefore(plan, j, p)
    {
      PlanParts(items, j);
      var i := RemovalIsIn(items, p);
      var at := |Forward(items, PickClone)| + |Forward(items, PickMove)| + i;
      PlanParts(items, at);
    }
  }

  // ---------- which effects there are ----------

  /** The effects of a node. */
  lemma PlanHas(items: seq<Item>, k: nat)
    requires k < |items|
    ensures items[k].isDir && items[k].oldPath != [] ==>
      CloneDir(items[k].oldPath, items[k].newPath) in Plan(items)
      && (if items[k].isNormdir then ForgetDir(items[k].oldPath) else RemoveDir(items[k].oldPath)) in Plan(items)
    ensures !items[k].isDir ==> MoveFile(items[k].oldPath, items[k].newPath) in Plan(items)
  {
    PassHas(items, k);
    hide Forward, Backward;
  }

  /** What an effect is to the node it is for. */
  ghost predicate IsEffectOf(x: Effect, item: Item) {
    match x
    case CloneDir(path, target) => item.isDir && path == item.oldPath && target == item.newPath
    case MoveFile(path, target) => !item.isDir && path == item.oldPath && target == item.newPath
    case RemoveDir(path) => item.isDir && !item.isNormdir && path == item.oldPath
    case ForgetDir(path) => item.isDir && item.isNormdir && path == item.oldPath
  }

  lemma PlanFrom(items: seq<Item>, j: nat) returns (k: nat)
    requires j < |Plan(items)|
    ensures k < |items| && IsEffectOf(Plan(items)[j], items[k])
  {
    PlanParts(items, j);
    var x := Plan(items)[j];
    assert x in Forward(items, PickClone) || x in Forward(items, PickMove) || x in Backward(items, PickRemove) by {
      hide Forward, Backward, Plan;
    }
    hide Plan, IsEffectOf;
    EffectsFromItems(items, x);
    k :| 0 <= k < |items| && IsEffectOf(x, items[k]);
  }

  lemma {:induction false} EffectsFromItems(items: seq<Item>, x: Effect)
    requires x in Forward(items, PickClone) || x in Forward(items, PickMove) || x in Backward(items, PickRemove)
    ensures exists k :: 0 <= k < |items| && IsEffectOf(x, items[k])
  {
    var n := |items| - 1;
    if x in PickClone(items[n]) || x in PickMove(items[n]) || x in PickRemove(items[n]) {
      assert IsEffectOf(x, items[n]);
    } else {
      hide IsEffectOf;
      EffectsFromItems(items[..n], x);
      var k :| 0 <= k < n && IsEffectOf(x, items[..n][k]);
      assert IsEffectOf(x, items[k]);
    }
  }

  /** Every effect belongs to a node. */
  ghost predicate OnlyEffects(log: seq<Effect>, items: seq<Item>) {
    forall j :: 0 <= j < |log| ==> IsEffectOfSome(log[j], items)
  }

  ghost predicate IsEffectOfSome(x: Effect, items: seq<Item>) {
    exists k :: 0 <= k < |items| && IsEffectOf(x, items[k])
  }

  /** Every directory with a path is cloned and then removed, or forgotten if it is normal; every file is moved. */
  ghost predicate AllEffects(log: seq<Effect>, items: seq<Item>) {
    forall k :: 0 <= k < |items| ==>
      && (!items[k].isDir ==> MoveFile(items[k].oldPath, items[k].newPath) in log)
      && (items[k].isDir && items[k].oldPath != [] ==>
            CloneDir(items[k].oldPath, items[k].newPath) in log
            && (items[k].isNormdir ==> ForgetDir(items[k].oldPath) in log)
            && (!items[k].isNormdir ==> RemoveDir(items[k].oldPath) in log))
  }

  lemma PlanEffects(log: seq<Effect>, items: seq<Item>)
    requires log <= Plan(items)
    ensures OnlyEffects(log, items) && AllEffects(Plan(items), items)
  {
    hide Plan, IsEffectOf;
    forall j | 0 <= j < |log|
      ensures IsEffectOfSome(log[j], items)
    {
      assert log[j] == Plan(items)[j];
      var k := PlanFrom(items, j);
    }
    forall k | 0 <= k < |items|
      ensures !items[k].isDir ==> MoveFile(items[k].oldPath, items[k].newPath) in Plan(items)
      ensures items[k].isDir && items[k].oldPath != [] ==>
        CloneDir(items[k].oldPath, items[k].newPath) in Plan(items)
        && (if items[k].isNormdir then ForgetDir(items[k].oldPath) else RemoveDir(items[k].oldPath)) in Plan(items)
    {
      PlanHas(items, k);
    }
  }
}
