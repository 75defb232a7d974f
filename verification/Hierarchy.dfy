/** MakeHierarchizedList of src/s3fs_util.cpp: the missing parent directories of a list of names. */
module Hierarchy {
  import opened Bytes

  /** A name without one trailing slash, unless it is only a slash. */
  function Strip(s: Text): Text {
    if 1 < |s| && s[|s| - 1] == SLASH then s[..|s| - 1] else s
  }

  /** One slash at the end is dropped, if there is anything before it; nothing else is. */
  lemma StripIs(s: Text)
    ensures s != [] ==> Strip(s + [0x2F]) == s
    ensures s == [] || s == [0x2F] || s[|s| - 1] != 0x2F ==> Strip(s) == s
  {
    assert (s + [0x2F])[..|s|] == s;
  }

  /** a is what stands before some slash of s, but neither empty nor just a slash. */
  predicate IsAncestor(a: Text, s: Text) {
    0 < |a| < |s| && s[..|a|] == a && s[|a|] == SLASH && a != [SLASH]
  }

  lemma AncestorTransitive(a: Text, b: Text, c: Text)
    requires IsAncestor(a, b) && IsAncestor(b, c)
    ensures IsAncestor(a, c)
  {
    assert c[..|a|] == c[..|b|][..|a|];
    assert c[|a|] == c[..|b|][|a|];
  }

  /** The position of the last slash before a given end, or -1. */
  function LastSlash(s: Text): (pos: int)
    ensures -1 <= pos < |s|
    ensures 0 <= pos ==> s[pos] == SLASH
    ensures forall i :: pos < i < |s| ==> s[i] != SLASH
  {
    if s == [] then -1 else if s[|s| - 1] == SLASH then |s| - 1 else LastSlash(s[..|s| - 1])
  }

  /** The listed names, stripped, are marked true; every other ancestor of them is marked false. */
  ghost predicate Marks(marks: map<Text, bool>, names: seq<Text>) {
    && (forall i :: 0 <= i < |names| ==> Strip(names[i]) in marks && marks[Strip(names[i])])
    && (forall k :: k in marks && marks[k] ==> exists i :: 0 <= i < |names| && k == Strip(names[i]))
    && (forall k :: k in marks && !marks[k] ==> exists i :: 0 <= i < |names| && IsAncestor(k, Strip(names[i])))
    && (forall i, a :: 0 <= i < |names| && IsAncestor(a, Strip(names[i])) ==> a in marks)
  }

  /** The directories a list needs but does not have. */
  ghost predicate IsMissing(a: Text, names: seq<Text>) {
    && (exists i :: 0 <= i < |names| && IsAncestor(a, Strip(names[i])))
    && forall i :: 0 <= i < |names| ==> Strip(names[i]) != a
  }

  /** Marks one name and, walking up its slashes, its ancestors. */
  method MarkName(marks: map<Text, bool>, name: Text) returns (after: map<Text, bool>)
    ensures forall k :: k in after <==> k in marks || k == Strip(name) || IsAncestor(k, Strip(name))
    ensures forall k :: k in after ==> after[k] == (k == Strip(name) || (k in marks && marks[k]))
  {
    var full := Strip(name);
    after := marks[full := true];
    var strtmp := full;
    var pos := LastSlash(strtmp);
    while -1 != pos
      invariant strtmp <= full && pos == LastSlash(strtmp)
      invariant strtmp == full || IsAncestor(strtmp, full)
      invariant forall k :: k in after <==> k in marks || k == full || (IsAncestor(k, full) && |strtmp| <= |k|)
      invariant forall k :: k in after ==> after[k] == (k == full || (k in marks && marks[k]))
      decreases |strtmp|
    {
      ghost var above := strtmp;
      strtmp := strtmp[..pos];
      NextAncestor(full, above, pos);
      if 0 == |strtmp| || strtmp == [SLASH] {
        return;
      }
      if strtmp !in after {
        after := after[strtmp := false];
      }
      pos := LastSlash(strtmp);
    }
    NoAncestorBelow(full, strtmp);
  }

  /** Between a prefix and its last slash there is no further ancestor. */
  lemma NextAncestor(full: Text, above: Text, pos: nat)
    requires above <= full && pos == LastSlash(above)
    requires above == full || IsAncestor(above, full)
    ensures above[..pos] <= full
    ensures forall k :: IsAncestor(k, full) && |k| < |above| ==> |k| <= pos
    ensures pos == 0 || above[..pos] == [SLASH] ==> forall k :: IsAncestor(k, full) ==> |above| <= |k|
    ensures 0 < pos && above[..pos] != [SLASH] ==> IsAncestor(above[..pos], full)
    ensures forall k :: IsAncestor(k, full) && |k| == pos ==> k == above[..pos]
  {
    assert above == full[..|above|];
    forall k | IsAncestor(k, full) && |k| < |above|
      ensures |k| <= pos
    {
      assert above[|k|] == SLASH;
    }
  }

  lemma NoAncestorBelow(full: Text, above: Text)
    requires above <= full && LastSlash(above) == -1
    ensures forall k :: IsAncestor(k, full) ==> |above| <= |k|
  {
    assert forall i :: 0 <= i < |above| ==> full[i] == above[i] && above[i] != SLASH;
  }

  /** The list with every missing directory added once, with or without a slash. */
  method MakeHierarchizedList(names: seq<Text>, haveSlash: bool) returns (list: seq<Text>, ghost added: seq<Text>)
    ensures list == names + WithSlashes(added, haveSlash)
    ensures forall i, j :: 0 <= i < j < |added| ==> added[i] != added[j]
    ensures forall a :: a in added <==> IsMissing(a, names)
    ensures |names| <= |list| && list[..|names|] == names
    ensures forall i, j :: |names| <= i < j < |list| ==> list[i] != list[j]
    ensures forall a :: IsMissing(a, names) <==> (if haveSlash then a + [SLASH] else a) in list[|names|..]
  {
    hide IsAncestor, Strip, Marks, IsMissing, WithSlashes;
    var marks: map<Text, bool> := map[];
    NothingMarked();
    for i := 0 to |names|
      invariant Marks(marks, names[..i])
    {
      ghost var before := marks;
      marks := MarkName(marks, names[i]);
      MarkedOneMore(before, marks, names, i);
    }
    assert names[..|names|] == names;
    list := names;
    added := [];
    var todo := marks.Keys;
    WithSlashesNone(names, haveSlash);
    while todo != {}
      invariant todo <= marks.Keys
      invariant list == names + WithSlashes(added, haveSlash)
      invariant forall k, l :: 0 <= k < l < |added| ==> added[k] != added[l]
      invariant forall a :: a in added <==> a in marks && a !in todo && !marks[a]
      decreases |todo|
    {
      var k :| k in todo;
      if !marks[k] {
        var strtmp := k;
        if haveSlash {
          strtmp := strtmp + [SLASH];
        }
        WithSlashesSnoc(added, k, haveSlash);
        list := list + [strtmp];
        added := added + [k];
      }
      todo := todo - {k};
    }
    UnmarkedIsMissing(marks, names);
    AddedBehind(names, added, haveSlash);
  }

  /** What is added stands behind the names, slashed and distinct. */
  lemma AddedBehind(names: seq<Text>, added: seq<Text>, haveSlash: bool)
    requires forall i, j :: 0 <= i < j < |added| ==> added[i] != added[j]
    ensures
      var list := names + WithSlashes(added, haveSlash);
      && list[..|names|] == names
      && (forall i, j :: |names| <= i < j < |list| ==> list[i] != list[j])
      && (forall a :: a in added <==> (if haveSlash then a + [SLASH] else a) in list[|names|..])
  {
    var list, tail := names + WithSlashes(added, haveSlash), WithSlashes(added, haveSlash);
    assert list[|names|..] == tail;
    forall a
      ensures a in added <==> (if haveSlash then a + [SLASH] else a) in tail
    {
      SlashedIn(added, haveSlash, a);
    }
    forall i, j | |names| <= i < j < |list|
      ensures list[i] != list[j]
    {
      SlashedApart(added[i - |names|], added[j - |names|]);
      assert list[i] == tail[i - |names|] && list[j] == tail[j - |names|];
    }
  }

  lemma SlashedApart(a: Text, b: Text)
    ensures a + [SLASH] == b + [SLASH] <==> a == b
  {
    assert (a + [SLASH])[..|a + [SLASH]| - 1] == a;
    assert (b + [SLASH])[..|b + [SLASH]| - 1] == b;
  }

  lemma SlashedIn(added: seq<Text>, haveSlash: bool, a: Text)
    ensures a in added <==> (if haveSlash then a + [SLASH] else a) in WithSlashes(added, haveSlash)
  {
    var tail := WithSlashes(added, haveSlash);
    var x := if haveSlash then a + [SLASH] else a;
    if a in added {
      var i :| 0 <= i < |added| && added[i] == a;
      assert tail[i] == x;
    }
    if x in tail {
      var i :| 0 <= i < |tail| && tail[i] == x;
      SlashedApart(added[i], a);
    }
  }

  ghost function WithSlashes(names: seq<Text>, haveSlash: bool): seq<Text> {
    seq(|names|, i requires 0 <= i < |names| => if haveSlash then names[i] + [SLASH] else names[i])
  }

  lemma WithSlashesNone(names: seq<Text>, haveSlash: bool)
    ensures names + WithSlashes([], haveSlash) == names
  {
  }

  lemma WithSlashesSnoc(names: seq<Text>, name: Text, haveSlash: bool)
    ensures WithSlashes(names + [name], haveSlash)
         == WithSlashes(names, haveSlash) + [if haveSlash then name + [SLASH] else name]
  {
  }

  lemma NothingMarked()
    ensures Marks(map[], [])
  {
  }

  lemma MarkedOneMore(before: map<Text, bool>, after: map<Text, bool>, names: seq<Text>, i: nat)
    requires i < |names| && Marks(before, names[..i])
    requires forall k :: k in after <==> k in before || k == Strip(names[i]) || IsAncestor(k, Strip(names[i]))
    requires forall k :: k in after ==> after[k] == (k == Strip(names[i]) || (k in before && before[k]))
    ensures Marks(after, names[..i + 1])
  {
    hide IsAncestor, Strip;
    var some, more := names[..i], names[..i + 1];
    assert forall j :: 0 <= j < i ==> more[j] == some[j];
    assert more[i] == names[i];
    forall k | k in after && after[k]
      ensures exists j :: 0 <= j < |more| && k == Strip(more[j])
    {
      if k != Strip(more[i]) {
        var j :| 0 <= j < |some| && k == Strip(some[j]);
        assert k == Strip(more[j]);
      }
    }
    forall k | k in after && !after[k]
      ensures exists j :: 0 <= j < |more| && IsAncestor(k, Strip(more[j]))
    {
      if k in before {
        var j :| 0 <= j < |some| && IsAncestor(k, Strip(some[j]));
        assert IsAncestor(k, Strip(more[j]));
      } else {
        assert IsAncestor(k, Strip(more[i]));
      }
    }
  }

  lemma UnmarkedIsMissing(marks: map<Text, bool>, names: seq<Text>)
    requires Marks(marks, names)
    ensures forall a :: (a in marks && !marks[a]) <==> IsMissing(a, names)
  {
    hide IsAncestor, Strip;
  }

  /** With the missing directories added, every ancestor of an entry is an entry. */
  lemma AncestorClosed(names: seq<Text>, added: seq<Text>, entry: Text, a: Text)
    requires forall k :: k in added <==> IsMissing(k, names)
    requires entry in added || exists i :: 0 <= i < |names| && Strip(names[i]) == entry
    requires IsAncestor(a, entry)
    ensures a in added || exists i :: 0 <= i < |names| && Strip(names[i]) == a
  {
    hide IsAncestor, Strip;
    var i :| 0 <= i < |names| && (Strip(names[i]) == entry || IsAncestor(entry, Strip(names[i])));
    if Strip(names[i]) != entry {
      AncestorTransitive(a, entry, Strip(names[i]));
    }
    assert IsAncestor(a, Strip(names[i]));
  }
}
