/** The order of strcmp and of std::map keys: bytewise, a prefix before its extensions. */
module Ordering {
  import opened Bytes

  predicate Less(a: Text, b: Text) {
    b != [] && (a == [] || a[0] < b[0] || (a[0] == b[0] && Less(a[1..], b[1..])))
  }

  lemma {:induction false} LessTransitive(a: Text, b: Text, c: Text)
    requires Less(a, b) && Less(b, c)
    ensures Less(a, c)
  {
    if a != [] && a[0] == b[0] == c[0] {
      LessTransitive(a[1..], b[1..], c[1..]);
    }
  }

  lemma {:induction false} LessTotal(a: Text, b: Text)
    ensures a == b || Less(a, b) || Less(b, a)
    ensures Less(a, b) ==> a != b && !Less(b, a)
  {
    if a != [] && b != [] {
      LessTotal(a[1..], b[1..]);
      assert a[1..] == b[1..] && a[0] == b[0] ==> a == [a[0]] + a[1..] == b;
    }
  }

  /** The texts agree before position i, where the first one ends or has the smaller byte. */
  ghost predicate SplitsAt(a: Text, b: Text, i: nat) {
    && i <= |a| && i < |b|
    && (forall j :: 0 <= j < i ==> a[j] == b[j])
    && (i == |a| || a[i] < b[i])
  }

  /** The order of strcmp: the first difference decides. */
  lemma {:induction false} LessIs(a: Text, b: Text)
    ensures Less(a, b) <==> exists i: nat :: SplitsAt(a, b, i)
  {
    if a != [] && b != [] && a[0] == b[0] {
      LessIs(a[1..], b[1..]);
      if i: nat :| SplitsAt(a[1..], b[1..], i) {
        assert SplitsAt(a, b, i + 1);
      }
      if i: nat :| SplitsAt(a, b, i) {
        assert i != 0;
        assert SplitsAt(a[1..], b[1..], i - 1);
      }
    } else if Less(a, b) {
      assert SplitsAt(a, b, 0);
    }
  }

  predicate ProperPrefix(a: Text, b: Text) {
    |a| < |b| && b[..|a|] == a
  }

  lemma {:induction false} PrefixIsLess(a: Text, b: Text)
    requires ProperPrefix(a, b)
    ensures Less(a, b)
  {
    if a != [] {
      assert b[..|a|][0] == b[0];
      assert b[1..][..|a| - 1] == b[..|a|][1..];
      PrefixIsLess(a[1..], b[1..]);
    }
  }
}
