/** Splitting a sequence at a delimiter, the way getline and find_first_of do. */
module Fields {
  import opened Sequences

  /** What stands before the first delimiter. */
  function Field<T(==)>(s: seq<T>, d: T): seq<T> {
    if s == [] || s[0] == d then [] else [s[0]] + Field(s[1..], d)
  }

  /** What stands after the first delimiter; empty also when there is none. */
  function Rest<T(==)>(s: seq<T>, d: T): (r: seq<T>)
    ensures s != [] ==> |r| < |s|
    ensures s == [] ==> r == []
  {
    if s == [] then [] else if s[0] == d then s[1..] else Rest(s[1..], d)
  }

  predicate Lacks<T(==)>(s: seq<T>, d: T) {
    forall i :: 0 <= i < |s| ==> s[i] != d
  }

  lemma {:induction false} FieldStops<T>(a: seq<T>, d: T, b: seq<T>)
    requires Lacks(a, d)
    ensures Field(a + [d] + b, d) == a && Rest(a + [d] + b, d) == b
    ensures Field(a, d) == a && Rest(a, d) == []
  {
    if a != [] {
      assert (a + [d] + b)[1..] == a[1..] + [d] + b;
      FieldStops(a[1..], d, b);
    } else {
      assert (a + [d] + b)[1..] == b;
    }
  }

  lemma {:induction false} FieldLacks<T>(s: seq<T>, d: T)
    ensures Lacks(Field(s, d), d)
  {
    if s != [] && s[0] != d {
      FieldLacks(s[1..], d);
    }
  }

  lemma {:induction false} PartsLack<T>(s: seq<T>, d: T, e: T)
    requires Lacks(s, e)
    ensures Lacks(Field(s, d), e) && Lacks(Rest(s, d), e)
  {
    if s != [] && s[0] != d {
      PartsLack(s[1..], d, e);
    }
  }

  // ---------- joining ----------

  function Split<T(==)>(s: seq<T>, d: T): seq<seq<T>>
    decreases |s|
  {
    if s == [] then [] else [Field(s, d)] + Split(Rest(s, d), d)
  }

  /** Every part followed by the delimiter. */
  function Terminated<T>(parts: seq<seq<T>>, d: T): (r: seq<T>)
    ensures parts == [] <==> r == []
    ensures r != [] ==> r[|r| - 1] == d
  {
    if parts == [] then [] else Terminated(parts[..|parts| - 1], d) + (parts[|parts| - 1] + [d])
  }

  /** The parts with the delimiter between them. */
  function Joined<T>(parts: seq<seq<T>>, d: T): seq<T> {
    var text := Terminated(parts, d);
    if text == [] then [] else text[..|text| - 1]
  }

  lemma TerminatedSnoc<T>(parts: seq<seq<T>>, part: seq<T>, d: T)
    ensures Terminated(parts + [part], d) == Terminated(parts, d) + (part + [d])
  {
    assert (parts + [part])[..|parts|] == parts;
  }

  lemma {:induction false} TerminatedConcat<T>(a: seq<seq<T>>, b: seq<seq<T>>, d: T)
    ensures Terminated(a + b, d) == Terminated(a, d) + Terminated(b, d)
  {
    if b == [] {
      assert a + b == a;
    } else {
      hide Terminated;
      var front, last := b[..|b| - 1], b[|b| - 1];
      assert b == front + [last];
      assert a + b == (a + front) + [last];
      TerminatedConcat(a, front, d);
      TerminatedSnoc(a + front, last, d);
      TerminatedSnoc(front, last, d);
      Associative(Terminated(a, d), Terminated(front, d), last + [d]);
    }
  }

  lemma TerminatedCons<T>(parts: seq<seq<T>>, d: T)
    requires parts != []
    ensures Terminated(parts, d) == parts[0] + [d] + Terminated(parts[1..], d)
  {
    assert parts == [parts[0]] + parts[1..];
    TerminatedConcat([parts[0]], parts[1..], d);
    assert [parts[0]][..0] == [];
  }

  lemma JoinedCons<T>(parts: seq<seq<T>>, d: T)
    requires parts != []
    ensures |parts| == 1 ==> Joined(parts, d) == parts[0]
    ensures 1 < |parts| ==> Joined(parts, d) == parts[0] + [d] + Joined(parts[1..], d)
  {
    TerminatedCons(parts, d);
    hide Terminated;
    if |parts| == 1 {
      assert parts[1..] == [];
    }
  }

  /** Splitting undoes joining when no part is empty or holds the delimiter. */
  lemma {:induction false} SplitJoined<T>(parts: seq<seq<T>>, d: T)
    requires forall i :: 0 <= i < |parts| ==> parts[i] != [] && Lacks(parts[i], d)
    ensures Split(Joined(parts, d), d) == parts
  {
    if parts != [] {
      JoinedCons(parts, d);
      SplitJoined(parts[1..], d);
      hide Joined, Split, Lacks;
      if |parts| == 1 {
        SplitOne(parts[0], d);
        assert parts == [parts[0]];
      } else {
        SplitTwo(parts[0], d, Joined(parts[1..], d));
        assert parts == [parts[0]] + parts[1..];
      }
    }
  }

  lemma SplitOne<T>(a: seq<T>, d: T)
    requires a != [] && Lacks(a, d)
    ensures Split(a, d) == [a]
  {
    FieldStops(a, d, []);
  }

  lemma SplitTwo<T>(a: seq<T>, d: T, b: seq<T>)
    requires a != [] && Lacks(a, d)
    ensures Split(a + [d] + b, d) == [a] + Split(b, d)
  {
    FieldStops(a, d, b);
  }

  // ---------- searching ----------

  /** The first position of a pattern, or -1. */
  function Find<T(==)>(s: seq<T>, pattern: seq<T>): (pos: int)
    ensures -1 <= pos <= |s|
    ensures 0 <= pos ==> pos + |pattern| <= |s|
  {
    if pattern <= s then 0
    else if s == [] then -1
    else
      var pos := Find(s[1..], pattern);
      if pos < 0 then -1 else pos + 1
  }

  /** The pattern stands where it is found, and nowhere before. */
  lemma {:induction false} FoundThere<T>(s: seq<T>, pattern: seq<T>, k: nat)
    requires k + |pattern| <= |s|
    ensures k == Find(s, pattern) ==> s[k..k + |pattern|] == pattern
    ensures 0 <= Find(s, pattern) && k < Find(s, pattern) ==> s[k..k + |pattern|] != pattern
    ensures Find(s, pattern) < 0 ==> s[k..k + |pattern|] != pattern
  {
    if 0 < k {
      assert s[1..][k - 1..k - 1 + |pattern|] == s[k..k + |pattern|];
      FoundThere(s[1..], pattern, k - 1);
    } else {
      assert s[..|pattern|] == s[k..k + |pattern|];
    }
  }

  /** What is found in the front part is found first. */
  lemma {:induction false} FindFront<T>(a: seq<T>, b: seq<T>, pattern: seq<T>)
    requires 0 <= Find(a, pattern)
    ensures Find(a + b, pattern) == Find(a, pattern)
  {
    if pattern <= a {
      assert a + b == pattern + (a[|pattern|..] + b);
    } else {
      assert (a + b)[1..] == a[1..] + b;
      FindFront(a[1..], b, pattern);
      assert |pattern| <= |a| && a[..|pattern|] == (a + b)[..|pattern|];
    }
  }

  lemma PrefixBefore<T>(a: seq<T>, c: T, b: seq<T>, pattern: seq<T>)
    requires c !in pattern
    ensures pattern <= a + [c] + b <==> pattern <= a
  {
    var s := a + [c] + b;
    assert s[|a|] == c;
    assert |a| < |pattern| ==> pattern[|a|] != c;
    assert |pattern| <= |a| ==> s[..|pattern|] == a[..|pattern|];
  }

  /** What is not found before a foreign element is found after it. */
  lemma {:induction false} FindBehind<T>(a: seq<T>, c: T, b: seq<T>, pattern: seq<T>)
    requires Find(a, pattern) < 0 && c !in pattern
    ensures Find(a + [c] + b, pattern) == if Find(b, pattern) < 0 then -1 else |a| + 1 + Find(b, pattern)
  {
    var s := a + [c] + b;
    PrefixBefore(a, c, b, pattern);
    if a == [] {
      assert s[1..] == b;
    } else {
      assert s[1..] == a[1..] + [c] + b;
      FindBehind(a[1..], c, b, pattern);
    }
  }

  /** A pattern with an element that does not occur is not found. */
  lemma {:induction false} FindLacking<T>(s: seq<T>, pattern: seq<T>, c: T)
    requires c in pattern && Lacks(s, c)
    ensures Find(s, pattern) < 0
  {
    var k :| 0 <= k < |pattern| && pattern[k] == c;
    assert k < |s| ==> s[k] != c;
    if s != [] {
      FindLacking(s[1..], pattern, c);
    }
  }
}
