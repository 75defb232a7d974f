/**
 The request headers of src/curl.cpp: a linked list kept sorted by header name, ignoring case,
 and the two canonical texts that are signed.
 */
module Headers {
  import opened Bytes
  import opened Fields
  import opened HeaderNames
  import opened Ordering
  import PercentCoding
  import opened Sequences
  import opened Texts

  // ---------- the list as a value ----------

  /** A list item is the text "key: value". */
  function Line(key: Text, value: Text): Text {
    key + [COLON, BLANK] + Trim(value)
  }

  function KeyOf(line: Text): Text {
    Field(line, COLON)
  }

  function ValueOf(line: Text): Text {
    Trim(Rest(line, COLON))
  }

  /** What headers are sorted by. */
  function SortKey(line: Text): Text {
    Lower(KeyOf(line))
  }

  /** The scan goes on while the key comes after the item. */
  function StopAt(items: seq<Text>, k: Text): (i: nat)
    ensures i <= |items|
    ensures i < |items| ==> SortKey(items[i]) == k || Less(k, SortKey(items[i]))
    ensures forall j :: 0 <= j < i ==> SortKey(items[j]) != k && !Less(k, SortKey(items[j]))
  {
    if items == [] || SortKey(items[0]) == k || Less(k, SortKey(items[0])) then 0 else 1 + StopAt(items[1..], k)
  }

  /** The list with a line put at i, where it replaces an item of the same key. */
  function Spliced(items: seq<Text>, i: nat, k: Text, line: Text): seq<Text>
    requires i <= |items|
  {
    items[..i] + [line] + items[if i < |items| && SortKey(items[i]) == k then i + 1 else i..]
  }

  /** The list after curl_slist_sort_insert. */
  function Inserted(items: seq<Text>, key: Text, value: Text): seq<Text> {
    var k := Lower(Trim(key));
    Spliced(items, StopAt(items, k), k, Line(key, value))
  }

  // ---------- order ----------

  ghost predicate Ascending(items: seq<Text>) {
    forall i, j :: 0 <= i < j < |items| ==> Less(SortKey(items[i]), SortKey(items[j]))
  }

  /** A header name as callers give it: no colon in it, no blanks around it. */
  ghost predicate ProperKey(key: Text) {
    key != [] && Lacks(key, COLON) && Trimmed(key)
  }

  lemma LineParts(key: Text, value: Text)
    requires ProperKey(key)
    ensures KeyOf(Line(key, value)) == key && ValueOf(Line(key, value)) == Trim(value) && Trim(key) == key
    ensures COLON in Line(key, value)
    ensures Line(key, value)[|key|] == 0x3A && Line(key, value)[|key| + 1] == 0x20
  {
    TrimIsTrimmed(value);
    TrimKeeps(Trim(value));
    TrimKeeps(key);
    assert Line(key, value) == key + [COLON] + ([BLANK] + Trim(value));
    assert Line(key, value)[|key|] == COLON;
    FieldStops(key, COLON, [BLANK] + Trim(value));
  }

  lemma SplicedKeepsAscending(items: seq<Text>, i: nat, k: Text, line: Text)
    requires Ascending(items) && i <= |items| && SortKey(line) == k
    requires i < |items| ==> SortKey(items[i]) == k || Less(k, SortKey(items[i]))
    requires forall j :: 0 <= j < i ==> SortKey(items[j]) != k && !Less(k, SortKey(items[j]))
    ensures Ascending(Spliced(items, i, k, line))
  {
    hide SortKey, Less;
    var after := Spliced(items, i, k, line);
    var d := if i < |items| && SortKey(items[i]) == k then 1 else 0;
    forall a, b | 0 <= a < b < |after|
      ensures Less(SortKey(after[a]), SortKey(after[b]))
    {
      if a == i {
        assert after[b] == items[b - 1 + d];
        if i < |items| && b - 1 + d != i {
          assert Less(SortKey(items[i]), SortKey(items[b - 1 + d]));
          if SortKey(items[i]) != k {
            LessTransitive(k, SortKey(items[i]), SortKey(items[b - 1 + d]));
          }
        }
      } else if b == i {
        LessTotal(SortKey(items[a]), k);
      } else {
        assert after[a] == items[if a < i then a else a - 1 + d];
        assert after[b] == items[if b < i then b else b - 1 + d];
      }
    }
  }

  /** Inserting keeps the keys strictly ascending. */
  lemma InsertedKeepsAscending(items: seq<Text>, key: Text, value: Text)
    requires Ascending(items) && ProperKey(key)
    ensures Ascending(Inserted(items, key, value))
  {
    LineParts(key, value);
    var k := Lower(key);
    assert SortKey(Line(key, value)) == k;
    hide Ascending, SortKey, Line, ProperKey, Spliced;
    SplicedKeepsAscending(items, StopAt(items, k), k, Line(key, value));
  }

  // ---------- the list as a map ----------

  /** The items are exactly the bindings of a map from lower-case names to values. */
  ghost predicate Binds(items: seq<Text>, m: map<Text, Text>) {
    && (forall x :: x in items ==> SortKey(x) in m && m[SortKey(x)] == ValueOf(x))
    && (forall k :: k in m ==> exists x :: x in items && SortKey(x) == k)
  }

  /** The key to be put is nowhere else in an ascending list. */
  lemma FoundAt(items: seq<Text>, i: nat, k: Text, j: nat)
    requires Ascending(items) && i <= |items| && j < |items| && j != i
    requires i < |items| ==> SortKey(items[i]) == k || Less(k, SortKey(items[i]))
    requires forall l :: 0 <= l < i ==> SortKey(items[l]) != k && !Less(k, SortKey(items[l]))
    ensures SortKey(items[j]) != k
  {
    hide SortKey, Less;
    if i < j {
      LessTotal(SortKey(items[i]), SortKey(items[j]));
      if SortKey(items[i]) != k {
        LessTransitive(k, SortKey(items[i]), SortKey(items[j]));
        LessTotal(k, SortKey(items[j]));
      }
    }
  }

  lemma SpliceHas(items: seq<Text>, i: nat, d: nat, line: Text, x: Text)
    requires i + d <= |items|
    ensures x in items[..i] + [line] + items[i + d..] <==> x == line || x in items[..i] || x in items[i + d..]
  {
  }

  /** A splice keeps every item of another key. */
  lemma SplicedHas(items: seq<Text>, i: nat, k: Text, line: Text, x: Text)
    requires Ascending(items) && i <= |items|
    requires i < |items| ==> SortKey(items[i]) == k || Less(k, SortKey(items[i]))
    requires forall l :: 0 <= l < i ==> SortKey(items[l]) != k && !Less(k, SortKey(items[l]))
    ensures x in Spliced(items, i, k, line) <==> x == line || (x in items && SortKey(x) != k)
  {
    forall j | 0 <= j < |items| && j != i
      ensures SortKey(items[j]) != k
    {
      FoundAt(items, i, k, j);
    }
    hide SortKey, Less, Ascending;
    var d := if i < |items| && SortKey(items[i]) == k then 1 else 0;
    SpliceHas(items, i, d, line, x);
    assert x in items[i + d..] ==> exists j :: i + d <= j < |items| && items[j] == x;
    if x in items && SortKey(x) != k {
      var j :| 0 <= j < |items| && items[j] == x;
      assert j < i ==> items[..i][j] == x;
      assert i + d <= j ==> items[i + d..][j - i - d] == x;
    }
  }

  lemma SplicedBinds(items: seq<Text>, m: map<Text, Text>, i: nat, k: Text, line: Text)
    requires Ascending(items) && Binds(items, m) && i <= |items| && SortKey(line) == k
    requires i < |items| ==> SortKey(items[i]) == k || Less(k, SortKey(items[i]))
    requires forall l :: 0 <= l < i ==> SortKey(items[l]) != k && !Less(k, SortKey(items[l]))
    ensures Binds(Spliced(items, i, k, line), m[k := ValueOf(line)])
  {
    var after := Spliced(items, i, k, line);
    forall x {:trigger x in after} {:trigger x in items}
      ensures x in after <==> x == line || (x in items && SortKey(x) != k)
    {
      SplicedHas(items, i, k, line, x);
    }
    hide SortKey, Less, ValueOf, Ascending, Spliced;
    assert line in after;
    forall n | n in m && n != k
      ensures exists x :: x in after && SortKey(x) == n
    {
      var x :| x in items && SortKey(x) == n;
      assert x in after;
    }
  }

  /** Inserting binds the name, in any case, to the trimmed value and touches no other binding. */
  lemma InsertedBinds(items: seq<Text>, m: map<Text, Text>, key: Text, value: Text)
    requires Ascending(items) && Binds(items, m) && ProperKey(key)
    ensures Binds(Inserted(items, key, value), m[Lower(key) := Trim(value)])
  {
    LineParts(key, value);
    var k := Lower(key);
    assert SortKey(Line(key, value)) == k;
    hide Ascending, Binds, SortKey, Line, ProperKey, Spliced, ValueOf;
    SplicedBinds(items, m, StopAt(items, k), k, Line(key, value));
  }

  // ---------- any sequence of insertions ----------

  datatype Header = Header(key: Text, value: Text)

  function Built(headers: seq<Header>): seq<Text> {
    if headers == [] then []
    else
      var h := headers[|headers| - 1];
      Inserted(Built(headers[..|headers| - 1]), h.key, h.value)
  }

  /** The last value given for each name. */
  function Latest(headers: seq<Header>): map<Text, Text> {
    if headers == [] then map[]
    else
      var h := headers[|headers| - 1];
      Latest(headers[..|headers| - 1])[Lower(h.key) := Trim(h.value)]
  }

  ghost predicate ProperKeys(headers: seq<Header>) {
    forall i :: 0 <= i < |headers| ==> ProperKey(headers[i].key)
  }

  /** The list is the map of last values, in ascending order of the names. */
  lemma {:induction false} BuiltIsLatest(headers: seq<Header>)
    requires ProperKeys(headers)
    ensures Ascending(Built(headers)) && Binds(Built(headers), Latest(headers))
  {
    if headers != [] {
      var n := |headers| - 1;
      BuiltIsLatest(headers[..n]);
      hide Ascending, Binds, ProperKey, Inserted;
      InsertedKeepsAscending(Built(headers[..n]), headers[n].key, headers[n].value);
      InsertedBinds(Built(headers[..n]), Latest(headers[..n]), headers[n].key, headers[n].value);
    }
  }

  // ---------- the same without any lower case ----------

  /** An item is the last of the headers that have its name in any case, as that one was given. */
  ghost predicate IsLastOfName(line: Text, headers: seq<Header>, i: nat)
    requires i < |headers|
  {
    && KeyOf(line) == headers[i].key
    && ValueOf(line) == Trim(headers[i].value)
    && forall j :: i < j < |headers| ==> !SameButCase(headers[j].key, headers[i].key)
  }

  ghost predicate ComesFrom(line: Text, headers: seq<Header>) {
    exists i :: 0 <= i < |headers| && IsLastOfName(line, headers, i)
  }

  lemma InsertedItems(items: seq<Text>, key: Text, value: Text, x: Text)
    requires Ascending(items) && ProperKey(key)
    ensures x in Inserted(items, key, value)
      <==> x == Line(key, value) || (x in items && !SameButCase(KeyOf(x), key))
  {
    LineParts(key, value);
    var k := Lower(key);
    SameLower(KeyOf(x), key);
    assert SortKey(x) == k <==> SameButCase(KeyOf(x), key);
    hide SortKey, Line, ProperKey, Spliced, KeyOf, SameButCase, Ascending;
    SplicedHas(items, StopAt(items, k), k, Line(key, value), x);
  }

  ghost predicate AllComeFrom(items: seq<Text>, headers: seq<Header>) {
    forall x :: x in items ==> ComesFrom(x, headers)
  }

  ghost predicate HasLasts(items: seq<Text>, headers: seq<Header>) {
    forall i :: 0 <= i < |headers| && IsLast(headers, i) ==> Line(headers[i].key, headers[i].value) in items
  }

  ghost predicate NamesDiffer(items: seq<Text>) {
    forall i, j :: 0 <= i < j < |items| ==> !SameButCase(KeyOf(items[i]), KeyOf(items[j]))
  }

  /** What one more header makes of where the items come from. */
  lemma InsertedComesFrom(items: seq<Text>, headers: seq<Header>, h: Header)
    requires Ascending(items) && ProperKey(h.key) && AllComeFrom(items, headers)
    ensures AllComeFrom(Inserted(items, h.key, h.value), headers + [h])
  {
    LineParts(h.key, h.value);
    hide Ascending, Inserted, Line, KeyOf, ValueOf, SameButCase, ProperKey;
    var n, more := |headers|, headers + [h];
    forall x | x in Inserted(items, h.key, h.value)
      ensures ComesFrom(x, more)
    {
      InsertedItems(items, h.key, h.value, x);
      if x == Line(h.key, h.value) {
        assert IsLastOfName(x, more, n);
      } else {
        var i :| 0 <= i < n && IsLastOfName(x, headers, i);
        Symmetric(h.key, headers[i].key);
        assert IsLastOfName(x, more, i);
      }
    }
  }

  lemma InsertedHasLast(items: seq<Text>, headers: seq<Header>, h: Header)
    requires Ascending(items) && ProperKey(h.key) && ProperKeys(headers) && HasLasts(items, headers)
    ensures HasLasts(Inserted(items, h.key, h.value), headers + [h])
  {
    hide Ascending, Inserted, Line, KeyOf, ValueOf, SameButCase, ProperKey;
    var more := headers + [h];
    forall i | 0 <= i < |more| && IsLast(more, i)
      ensures Line(more[i].key, more[i].value) in Inserted(items, h.key, h.value)
    {
      InsertedItems(items, h.key, h.value, Line(more[i].key, more[i].value));
      if i < |headers| {
        LineParts(headers[i].key, headers[i].value);
        Symmetric(h.key, headers[i].key);
        assert more[|headers|] == h;
        LastBefore(headers, h, i);
      }
    }
  }

  lemma LastBefore(headers: seq<Header>, h: Header, i: nat)
    requires i < |headers| && IsLast(headers + [h], i)
    ensures IsLast(headers, i)
  {
    forall j | i < j < |headers|
      ensures !SameButCase(headers[j].key, headers[i].key)
    {
      assert (headers + [h])[j] == headers[j];
    }
  }

  /**
   Of the headers that differ in case only, exactly the last one is in the list, and no two items of the list
   have names that differ in case only.
   */
  lemma {:induction false} BuiltIgnoresCase(headers: seq<Header>)
    requires ProperKeys(headers)
    ensures AllComeFrom(Built(headers), headers) && HasLasts(Built(headers), headers) && NamesDiffer(Built(headers))
    decreases |headers|
  {
    hide *;
    if headers != [] {
      var before, h := BuiltStep(headers);
      BuiltIgnoresCase(before);
      BuiltAscends(before);
      InsertedComesFrom(Built(before), before, h);
      InsertedHasLast(Built(before), before, h);
    } else {
      BuiltNone();
    }
    BuiltAscends(headers);
    NamesApart(Built(headers));
  }

  lemma BuiltNone()
    ensures AllComeFrom(Built([]), []) && HasLasts(Built([]), [])
  {
  }

  lemma BuiltAscends(headers: seq<Header>)
    requires ProperKeys(headers)
    ensures Ascending(Built(headers))
  {
    BuiltIsLatest(headers);
  }

  lemma BuiltStep(headers: seq<Header>) returns (before: seq<Header>, h: Header)
    requires headers != [] && ProperKeys(headers)
    ensures |before| < |headers| && headers == before + [h]
    ensures Built(headers) == Inserted(Built(before), h.key, h.value) && ProperKey(h.key) && ProperKeys(before)
  {
    before, h := headers[..|headers| - 1], headers[|headers| - 1];
  }

  ghost predicate IsLast(headers: seq<Header>, i: nat)
    requires i < |headers|
  {
    forall j :: i < j < |headers| ==> !SameButCase(headers[j].key, headers[i].key)
  }

  lemma Symmetric(a: Text, b: Text)
    ensures SameButCase(a, b) <==> SameButCase(b, a)
  {
  }

  lemma NamesApart(items: seq<Text>)
    requires Ascending(items)
    ensures NamesDiffer(items)
  {
    forall i, j | 0 <= i < j < |items|
      ensures !SameButCase(KeyOf(items[i]), KeyOf(items[j]))
    {
      SameLower(KeyOf(items[i]), KeyOf(items[j]));
      LessTotal(SortKey(items[i]), SortKey(items[j]));
    }
  }

  // ---------- the linked list ----------

  class HeaderNode {
    const data: Text
    var next: HeaderNode?

    constructor (data: Text)
      ensures this.data == data && next == null
    {
      this.data := data;
      next := null;
    }
  }

  /** Node i of a list, or null outside it. */
  ghost function NodeAt(nodes: seq<HeaderNode>, i: int): HeaderNode? {
    if 0 <= i < |nodes| then nodes[i] else null
  }

  /** Following next from the head visits the nodes in order, each once, and ends. */
  ghost predicate Chain(head: HeaderNode?, nodes: seq<HeaderNode>)
    reads nodes
  {
    && head == NodeAt(nodes, 0)
    && (forall i, j :: 0 <= i < j < |nodes| && j == i + 1 ==> nodes[i].next == nodes[j])
    && (nodes != [] ==> nodes[|nodes| - 1].next == null)
    && Distinct(nodes)
  }

  lemma NextIs(head: HeaderNode?, nodes: seq<HeaderNode>, i: nat)
    requires Chain(head, nodes) && i < |nodes|
    ensures nodes[i].next == NodeAt(nodes, i + 1)
  {
    if i + 1 < |nodes| {
      assert nodes[i].next == nodes[i + 1];
    }
  }

  ghost function Lines(nodes: seq<HeaderNode>): (r: seq<Text>)
    ensures |r| == |nodes|
  {
    seq(|nodes|, i requires 0 <= i < |nodes| => nodes[i].data)
  }

  lemma LinesSplice(nodes: seq<HeaderNode>, i: nat, d: nat, node: HeaderNode)
    requires i + d <= |nodes|
    ensures Lines(nodes[..i] + [node] + nodes[i + d..])
         == Lines(nodes)[..i] + [node.data] + Lines(nodes)[i + d..]
  {
  }

  /** Puts a node after the first i ones and before the ones from i + d on. */
  method Link(head: HeaderNode?, ghost nodes: seq<HeaderNode>, ghost i: nat, ghost d: nat,
              last: HeaderNode?, node: HeaderNode, rest: HeaderNode?)
    returns (newHead: HeaderNode, ghost after: seq<HeaderNode>)
    requires Chain(head, nodes) && node !in nodes && i + d <= |nodes|
    requires last == NodeAt(nodes, i - 1) && rest == NodeAt(nodes, i + d)
    modifies nodes, node
    ensures Chain(newHead, after) && after == nodes[..i] + [node] + nodes[i + d..]
  {
    DistinctSplice(nodes, i, d, node);
    assert 0 < i ==> forall k :: 0 <= k < |nodes| && k != i - 1 ==> nodes[k] != nodes[i - 1];
    hide Distinct;
    newHead := node;
    if last != null {
      last.next := node;
      newHead := head;
    }
    node.next := rest;
    after := nodes[..i] + [node] + nodes[i + d..];
    forall k, l | 0 <= k < l < |after| && l == k + 1
      ensures after[k].next == after[l]
    {
      if l < i {
        assert after[k] == nodes[k] && after[l] == nodes[l];
      } else if l == i {
        assert after[k] == nodes[k];
      } else if k == i {
        assert after[l] == nodes[i + d];
      } else {
        assert after[k] == nodes[k - 1 + d] && after[l] == nodes[l - 1 + d];
      }
    }
    assert i + d < |nodes| ==> after[|after| - 1] == nodes[|nodes| - 1];
  }

  /** curl_slist_sort_insert: the list with the header put in place, or replaced. */
  method SortInsert(head: HeaderNode?, ghost nodes: seq<HeaderNode>, key: Text, value: Text)
    returns (newHead: HeaderNode, ghost after: seq<HeaderNode>)
    requires Chain(head, nodes)
    modifies nodes
    ensures Chain(newHead, after)
    ensures Lines(after) == Inserted(Lines(nodes), key, value)
    ensures forall n :: n in after ==> n in nodes || fresh(n)
  {
    hide Chain, Less, Inserted, Line;
    var strkey := ToLower(Trim(key));
    var node := new HeaderNode(Line(key, value));
    ghost var items, i := Lines(nodes), 0;
    var last: HeaderNode?, rest: HeaderNode? := null, null;
    ghost var d := 0;
    var cur := head;
    HeadIs(head, nodes);
    while cur != null
      invariant 0 <= i <= |nodes| && cur == NodeAt(nodes, i) && last == NodeAt(nodes, i - 1)
      invariant forall k :: 0 <= k < i ==> SortKey(items[k]) != strkey && !Less(strkey, SortKey(items[k]))
      invariant rest == null && d == 0
      decreases |nodes| - i
      modifies {}
    {
      NextIs(head, nodes, i);
      var strcur := ToLower(KeyOf(cur.data));
      if strkey == strcur {
        rest := cur.next;
        d := 1;
        break;
      } else if Less(strkey, strcur) {
        rest := cur;
        break;
      }
      last := cur;
      cur := cur.next;
      i := i + 1;
    }
    InsertedAt(items, key, value, i);
    LinesSplice(nodes, i, d, node);
    newHead, after := Link(head, nodes, i, d, last, node, rest);
  }

  lemma HeadIs(head: HeaderNode?, nodes: seq<HeaderNode>)
    requires Chain(head, nodes)
    ensures head == NodeAt(nodes, 0)
  {
  }

  lemma {:induction false} StopAtIs(items: seq<Text>, k: Text, i: nat)
    requires i <= |items|
    requires i < |items| ==> SortKey(items[i]) == k || Less(k, SortKey(items[i]))
    requires forall j :: 0 <= j < i ==> SortKey(items[j]) != k && !Less(k, SortKey(items[j]))
    ensures StopAt(items, k) == i
  {
  }

  /** Where the scan ends, and what the list becomes. */
  lemma InsertedAt(items: seq<Text>, key: Text, value: Text, i: nat)
    requires i <= |items|
    requires i < |items| ==> SortKey(items[i]) == Lower(Trim(key)) || Less(Lower(Trim(key)), SortKey(items[i]))
    requires forall j :: 0 <= j < i ==>
      SortKey(items[j]) != Lower(Trim(key)) && !Less(Lower(Trim(key)), SortKey(items[j]))
    ensures Inserted(items, key, value)
         == items[..i] + [Line(key, value)]
          + items[if i < |items| && SortKey(items[i]) == Lower(Trim(key)) then i + 1 else i..]
  {
    hide SortKey, Less;
    StopAtIs(items, Lower(Trim(key)), i);
  }

  // ---------- the canonical texts ----------

  predicate IsSigned(name: Text) {
    || name == HOST
    || name == CONTENT_LENGTH
    || name == CONTENT_TYPE
    || name == CONTENT_MD5
    || name == RANGE
    || X_COS <= name
  }

  /** Exactly these names are signed, and the service's own. */
  lemma SignedNames(name: Text)
    ensures IsSigned(name)
      <==> (name == Ascii("host") || name == Ascii("content-length") || name == Ascii("content-type")
        || name == Ascii("content-md5") || name == Ascii("range") || Ascii("x-cos") <= name)
  {
    ShortNames();
    ContentNames();
    LengthName();
    hide Ascii;
  }

  datatype Pair = Pair(name: Text, value: Text)

  /** The name a canonical text uses for a list item. */
  function NameOf(line: Text): Text {
    Trim(Lower(KeyOf(line)))
  }

  /** What get_canonical_headers takes of one item. */
  function Pick(line: Text): seq<Pair> {
    if COLON in line && ValueOf(line) != [] && IsSigned(NameOf(line)) then [Pair(NameOf(line), ValueOf(line))] else []
  }

  /** What get_canonical_header_keys takes of one item: also a signed name without any colon. */
  function PickName(line: Text): seq<Text> {
    if COLON in line then
      if ValueOf(line) != [] && IsSigned(NameOf(line)) then [NameOf(line)] else []
    else if IsSigned(Trim(Lower(line))) then [Trim(Lower(line))] else []
  }

  function Picked(items: seq<Text>): seq<Pair> {
    if items == [] then [] else Picked(items[..|items| - 1]) + Pick(items[|items| - 1])
  }

  function PickedNames(items: seq<Text>): seq<Text> {
    if items == [] then [] else PickedNames(items[..|items| - 1]) + PickName(items[|items| - 1])
  }

  function FieldText(p: Pair): Text {
    p.name + [EQUALS] + PercentCoding.Encode(p.value, false)
  }

  function FieldTexts(pairs: seq<Pair>): (r: seq<Text>)
    ensures |r| == |pairs|
  {
    seq(|pairs|, i requires 0 <= i < |pairs| => FieldText(pairs[i]))
  }

  /** The canonical headers text of some pairs. */
  function HeadersText(pairs: seq<Pair>): Text {
    Joined(FieldTexts(pairs), AMPERSAND) + [NEWLINE]
  }

  lemma FieldTextsSnoc(pairs: seq<Pair>, p: Pair)
    ensures FieldTexts(pairs + [p]) == FieldTexts(pairs) + [FieldText(p)]
  {
  }

  lemma PickedStep(items: seq<Text>, i: nat)
    requires i < |items|
    ensures Picked(items[..i + 1]) == Picked(items[..i]) + Pick(items[i])
    ensures PickedNames(items[..i + 1]) == PickedNames(items[..i]) + PickName(items[i])
  {
    assert items[..i + 1][..i] == items[..i];
  }

  lemma AddField(pairs: seq<Pair>, picked: seq<Pair>)
    requires |picked| <= 1
    ensures Terminated(FieldTexts(pairs + picked), AMPERSAND)
         == Terminated(FieldTexts(pairs), AMPERSAND)
          + if picked == [] then [] else FieldText(picked[0]) + [AMPERSAND]
  {
    hide Terminated, FieldTexts, FieldText;
    if picked == [] {
      assert pairs + picked == pairs;
    } else {
      assert picked == [picked[0]];
      FieldTextsSnoc(pairs, picked[0]);
      TerminatedSnoc(FieldTexts(pairs), FieldText(picked[0]), AMPERSAND);
    }
  }

  lemma HeadersStep(items: seq<Text>, i: nat)
    requires i < |items|
    ensures Terminated(FieldTexts(Picked(items[..i + 1])), AMPERSAND)
         == Terminated(FieldTexts(Picked(items[..i])), AMPERSAND)
          + if Pick(items[i]) == [] then [] else FieldText(Pick(items[i])[0]) + [AMPERSAND]
  {
    assert |Pick(items[i])| <= 1;
    hide Picked, Terminated, FieldTexts, FieldText, Pick;
    PickedStep(items, i);
    AddField(Picked(items[..i]), Pick(items[i]));
  }

  lemma AddName(names: seq<Text>, picked: seq<Text>)
    requires |picked| <= 1
    ensures Terminated(names + picked, SEMICOLON)
         == Terminated(names, SEMICOLON) + if picked == [] then [] else picked[0] + [SEMICOLON]
  {
    hide Terminated;
    if picked == [] {
      assert names + picked == names;
    } else {
      assert picked == [picked[0]];
      TerminatedSnoc(names, picked[0], SEMICOLON);
    }
  }

  lemma NamesStep(items: seq<Text>, i: nat)
    requires i < |items|
    ensures Terminated(PickedNames(items[..i + 1]), SEMICOLON)
         == Terminated(PickedNames(items[..i]), SEMICOLON)
          + if PickName(items[i]) == [] then [] else PickName(items[i])[0] + [SEMICOLON]
  {
    assert |PickName(items[i])| <= 1;
    hide PickedNames, Terminated, PickName;
    PickedStep(items, i);
    AddName(PickedNames(items[..i]), PickName(items[i]));
  }

  /** get_canonical_headers. */
  method GetCanonicalHeaders(head: HeaderNode?, ghost nodes: seq<HeaderNode>) returns (text: Text)
    requires Chain(head, nodes)
    ensures text == HeadersText(Picked(Lines(nodes)))
  {
    hide Chain, Picked, Pick, Terminated, IsSigned, FieldTexts;
    if head == null {
      NothingPicked(head, nodes);
      return [NEWLINE];
    }
    ghost var items, i := Lines(nodes), 0;
    text := [];
    NothingYet(items);
    HeadIs(head, nodes);
    var cur := head;
    while cur != null
      invariant 0 <= i <= |nodes| && cur == NodeAt(nodes, i)
      invariant text == Terminated(FieldTexts(Picked(items[..i])), AMPERSAND)
      decreases |nodes| - i
    {
      NextIs(head, nodes, i);
      HeadersStep(items, i);
      var field := TakeHeader(cur.data);
      if field != [] {
        text := text + (field + [AMPERSAND]);
      }
      cur := cur.next;
      i := i + 1;
    }
    assert items[..i] == items;
    if 0 < |text| && text[|text| - 1] == AMPERSAND {
      text := text[..|text| - 1] + [NEWLINE];
    } else {
      text := text + [NEWLINE];
    }
  }

  lemma NothingYet(items: seq<Text>)
    ensures Terminated(FieldTexts(Picked(items[..0])), AMPERSAND) == []
    ensures Terminated(PickedNames(items[..0]), SEMICOLON) == []
  {
  }

  lemma NothingPicked(head: HeaderNode?, nodes: seq<HeaderNode>)
    requires Chain(head, nodes) && head == null
    ensures HeadersText(Picked(Lines(nodes))) == [NEWLINE]
    ensures Joined(PickedNames(Lines(nodes)), SEMICOLON) == []
  {
    NothingYet(Lines(nodes));
    assert Lines(nodes)[..0] == Lines(nodes);
  }

  /** One round of the loop: the text of a signed header with a value, or nothing. */
  method TakeHeader(line: Text) returns (field: Text)
    ensures field == [] ==> Pick(line) == []
    ensures field != [] ==> |Pick(line)| == 1 && field == FieldText(Pick(line)[0])
  {
    hide IsSigned;
    if COLON !in line {
      return [];
    }
    var strkey := ToLower(KeyOf(line));
    strkey := Trim(strkey);
    var strval := ValueOf(line);
    if strval == [] {
      return [];
    }
    var encoded := PercentCoding.UrlEncode(strval, false);
    field := strkey + [EQUALS] + encoded;
    if !IsSigned(strkey) {
      return [];
    }
  }

  /** get_canonical_header_keys. */
  method GetCanonicalHeaderKeys(head: HeaderNode?, ghost nodes: seq<HeaderNode>) returns (text: Text)
    requires Chain(head, nodes)
    ensures text == Joined(PickedNames(Lines(nodes)), SEMICOLON)
  {
    hide Chain, PickedNames, PickName, Terminated, IsSigned;
    if head == null {
      NothingPicked(head, nodes);
      return [];
    }
    ghost var items, i := Lines(nodes), 0;
    text := [];
    NothingYet(items);
    HeadIs(head, nodes);
    var cur := head;
    while cur != null
      invariant 0 <= i <= |nodes| && cur == NodeAt(nodes, i)
      invariant text == Terminated(PickedNames(items[..i]), SEMICOLON)
      decreases |nodes| - i
    {
      NextIs(head, nodes, i);
      NamesStep(items, i);
      var taken, name := TakeName(cur.data);
      if taken {
        text := text + (name + [SEMICOLON]);
      }
      cur := cur.next;
      i := i + 1;
    }
    assert items[..i] == items;
    if 0 < |text| && text[|text| - 1] == SEMICOLON {
      text := text[..|text| - 1];
    }
  }

  method TakeName(line: Text) returns (taken: bool, name: Text)
    ensures PickName(line) == if taken then [name] else []
  {
    hide IsSigned;
    var strhead;
    if COLON in line {
      strhead := ToLower(KeyOf(line));
      if ValueOf(line) == [] {
        return false, [];
      }
    } else {
      strhead := ToLower(line);
    }
    name := Trim(strhead);
    taken := IsSigned(name);
  }

  // ---------- both texts name the same headers ----------

  ghost function NamesOf(pairs: seq<Pair>): (r: seq<Text>)
    ensures |r| == |pairs|
  {
    seq(|pairs|, i requires 0 <= i < |pairs| => pairs[i].name)
  }

  /** A signed name that stands alone, without a colon, is named but has no field. */
  predicate NameOnly(line: Text) {
    COLON !in line && IsSigned(Trim(Lower(line)))
  }

  lemma NamesOfConcat(a: seq<Pair>, b: seq<Pair>)
    ensures NamesOf(a + b) == NamesOf(a) + NamesOf(b)
  {
  }

  lemma PickAgrees(line: Text)
    ensures if NameOnly(line) then Pick(line) == [] && |PickName(line)| == 1 else PickName(line) == NamesOf(Pick(line))
  {
    hide IsSigned;
  }

  /** The keys text names the headers of the headers text, in the same order, unless some item is only a name. */
  lemma {:induction false} NamesAgree(items: seq<Text>)
    ensures |PickedNames(items)| >= |Picked(items)|
    ensures PickedNames(items) == NamesOf(Picked(items)) <==> forall x :: x in items ==> !NameOnly(x)
    ensures (exists x :: x in items && NameOnly(x)) ==> |PickedNames(items)| > |Picked(items)|
  {
    hide Pick, PickName, NameOnly, NamesOf;
    if items != [] {
      var n := |items| - 1;
      NamesAgree(items[..n]);
      PickAgrees(items[n]);
      NamesOfConcat(Picked(items[..n]), Pick(items[n]));
      assert NamesOf(Picked([])) == [];
      assert forall x :: x in items <==> x in items[..n] || x == items[n];
    }
  }

  lemma PickedConcat(items: seq<Text>, p: Pair)
    requires items != []
    ensures p in Picked(items) <==> p in Picked(items[..|items| - 1]) || p in Pick(items[|items| - 1])
  {
    hide Pick;
  }

  lemma {:induction false} PickedHas(items: seq<Text>, p: Pair)
    ensures p in Picked(items) <==> exists x :: x in items && p in Pick(x)
  {
    hide Pick;
    if items != [] {
      var n := |items| - 1;
      PickedConcat(items, p);
      PickedHas(items[..n], p);
      assert forall x :: x in items <==> x in items[..n] || x == items[n];
    }
  }

  ghost predicate AscendingNames(pairs: seq<Pair>) {
    forall i, j :: 0 <= i < j < |pairs| ==> Less(pairs[i].name, pairs[j].name)
  }

  lemma AscendingSnoc(pairs: seq<Pair>, more: seq<Pair>)
    requires AscendingNames(pairs) && |more| <= 1
    requires forall p, q :: p in pairs && q in more ==> Less(p.name, q.name)
    ensures AscendingNames(pairs + more)
  {
    hide Less;
    forall i, j | 0 <= i < j < |pairs + more|
      ensures Less((pairs + more)[i].name, (pairs + more)[j].name)
    {
      if j < |pairs| {
      } else {
        assert (pairs + more)[i] in pairs && (pairs + more)[j] in more;
      }
    }
  }

  /** An item as curl_slist_sort_insert makes it. */
  ghost predicate Formed(line: Text) {
    COLON in line && ProperKey(KeyOf(line))
  }

  lemma FormedName(line: Text)
    requires Formed(line)
    ensures NameOf(line) == SortKey(line) && !NameOnly(line)
  {
    LowerKeepsTrimmed(KeyOf(line));
    TrimKeeps(Lower(KeyOf(line)));
  }

  lemma {:induction false} PickedAscending(items: seq<Text>)
    requires Ascending(items) && forall x :: x in items ==> Formed(x)
    ensures AscendingNames(Picked(items))
  {
    hide IsSigned, Less, SortKey, ProperKey, ValueOf;
    if items != [] {
      var n := |items| - 1;
      PickedAscending(items[..n]);
      forall p, q | p in Picked(items[..n]) && q in Pick(items[n])
        ensures Less(p.name, q.name)
      {
        PickedHas(items[..n], p);
        var x :| x in items[..n] && p in Pick(x);
        FormedName(x);
        FormedName(items[n]);
      }
      assert |Pick(items[n])| <= 1;
      hide Ascending, AscendingNames, Pick, Formed;
      AscendingSnoc(Picked(items[..n]), Pick(items[n]));
    }
  }

  lemma InsertedFormed(items: seq<Text>, key: Text, value: Text)
    requires ProperKey(key) && forall x :: x in items ==> Formed(x)
    ensures forall x :: x in Inserted(items, key, value) ==> Formed(x)
  {
    LineParts(key, value);
    assert Formed(Line(key, value));
    hide Formed, Line, ProperKey;
    var i := StopAt(items, Lower(Trim(key)));
    var d := if i < |items| && SortKey(items[i]) == Lower(Trim(key)) then 1 else 0;
    hide StopAt, SortKey;
    forall x | x in Inserted(items, key, value)
      ensures Formed(x)
    {
      SpliceHas(items, i, d, Line(key, value), x);
    }
  }

  lemma {:induction false} BuiltFormed(headers: seq<Header>)
    requires ProperKeys(headers)
    ensures forall x :: x in Built(headers) ==> Formed(x)
  {
    if headers != [] {
      var n := |headers| - 1;
      BuiltFormed(headers[..n]);
      hide Formed, ProperKey, Inserted;
      InsertedFormed(Built(headers[..n]), headers[n].key, headers[n].value);
    }
  }

  /** A header that is signed: a signed name whose last value is not empty. */
  predicate SignedHeader(m: map<Text, Text>, p: Pair) {
    p.name in m && m[p.name] == p.value && p.value != [] && IsSigned(p.name)
  }

  lemma PickIsSigned(items: seq<Text>, m: map<Text, Text>, p: Pair)
    requires Binds(items, m) && forall x :: x in items ==> Formed(x)
    ensures p in Picked(items) <==> SignedHeader(m, p)
  {
    hide IsSigned, ProperKey, ValueOf, SortKey;
    PickedHas(items, p);
    forall x | x in items
      ensures NameOf(x) == SortKey(x) && COLON in x
    {
      FormedName(x);
    }
    hide NameOf, SortKey, ValueOf, Formed, Picked;
    if SignedHeader(m, p) {
      var x :| x in items && SortKey(x) == p.name;
      assert p in Pick(x);
    }
  }

  /**
   After any insertions both canonical texts are built from the same pairs: exactly the signed headers
   with their last values, in strictly ascending order of the lower-case names.
   */
  lemma CanonicalIsLatest(headers: seq<Header>)
    requires ProperKeys(headers)
    ensures AscendingNames(Picked(Built(headers)))
    ensures PickedNames(Built(headers)) == NamesOf(Picked(Built(headers)))
    ensures forall p :: p in Picked(Built(headers)) <==> SignedHeader(Latest(headers), p)
  {
    hide ProperKeys, Built, Latest;
    BuiltIsLatest(headers);
    BuiltFormed(headers);
    hide Formed, Ascending, Binds, SignedHeader, AscendingNames, NameOnly;
    PickedAscending(Built(headers));
    NamesAgree(Built(headers));
    forall x | x in Built(headers)
      ensures !NameOnly(x)
    {
      FormedName(x);
    }
    forall p
      ensures p in Picked(Built(headers)) <==> SignedHeader(Latest(headers), p)
    {
      PickIsSigned(Built(headers), Latest(headers), p);
    }
  }

  // ---------- reading the texts back ----------

  lemma {:induction false} EncodedLacks(s: Text, d: Byte)
    requires d == AMPERSAND || d == EQUALS
    ensures Lacks(PercentCoding.Encode(s, false), d)
  {
    if s != [] {
      EncodedLacks(s[..|s| - 1], d);
      EncodedByteLacks(s[|s| - 1], d);
      hide PercentCoding.EncodeByte;
    }
  }

  lemma EncodedByteLacks(c: Byte, d: Byte)
    requires d == AMPERSAND || d == EQUALS
    ensures Lacks(PercentCoding.EncodeByte(c, false), d)
  {
  }

  /** A name that none of the delimiters of the canonical texts occurs in. */
  ghost predicate PlainName(name: Text) {
    name != [] && Lacks(name, EQUALS) && Lacks(name, AMPERSAND) && Lacks(name, SEMICOLON)
  }

  function ParsePair(field: Text): Pair {
    Pair(Field(field, EQUALS), PercentCoding.Decode(Rest(field, EQUALS)))
  }

  ghost function ParsePairs(fields: seq<Text>): (r: seq<Pair>)
    ensures |r| == |fields|
  {
    seq(|fields|, i requires 0 <= i < |fields| => ParsePair(fields[i]))
  }

  lemma ParseField(p: Pair)
    requires PlainName(p.name)
    ensures ParsePair(FieldText(p)) == p && FieldText(p) != [] && Lacks(FieldText(p), AMPERSAND)
  {
    hide PercentCoding.Encode, PercentCoding.Decode;
    FieldStops(p.name, EQUALS, PercentCoding.Encode(p.value, false));
    PercentCoding.DecodeEncode(p.value, false);
    EncodedLacks(p.value, AMPERSAND);
  }

  /** The two signed texts determine the signed headers: splitting and decoding them gives the pairs back. */
  lemma CanonicalParses(pairs: seq<Pair>)
    requires forall p :: p in pairs ==> PlainName(p.name)
    ensures Split(Joined(NamesOf(pairs), SEMICOLON), SEMICOLON) == NamesOf(pairs)
    ensures
      var text := HeadersText(pairs);
      text[|text| - 1] == NEWLINE && ParsePairs(Split(text[..|text| - 1], AMPERSAND)) == pairs
  {
    assert HeadersText(pairs)[..|HeadersText(pairs)| - 1] == Joined(FieldTexts(pairs), AMPERSAND);
    forall i | 0 <= i < |pairs|
      ensures NamesOf(pairs)[i] != [] && Lacks(NamesOf(pairs)[i], SEMICOLON)
    {
      assert pairs[i] in pairs;
    }
    SplitJoined(NamesOf(pairs), SEMICOLON);
    forall i | 0 <= i < |pairs|
      ensures ParsePair(FieldText(pairs[i])) == pairs[i]
      ensures FieldText(pairs[i]) != [] && Lacks(FieldText(pairs[i]), AMPERSAND)
    {
      assert pairs[i] in pairs;
      ParseField(pairs[i]);
    }
    hide Split, Joined, Lacks, FieldText, ParsePair, PlainName;
    SplitJoined(FieldTexts(pairs), AMPERSAND);
  }
}
