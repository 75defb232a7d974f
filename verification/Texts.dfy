/** Trimming and lower-casing of src/string_util.cpp. */
module Texts {
  import opened Bytes

  /** The characters of SPACES: blank, tab, carriage return, line feed. */
  predicate IsSpace(c: Byte) {
    c == 0x20 || c == 0x09 || c == 0x0D || c == 0x0A
  }

  function TrimLeft(s: Text): Text {
    if s != [] && IsSpace(s[0]) then TrimLeft(s[1..]) else s
  }

  function TrimRight(s: Text): Text {
    if s != [] && IsSpace(s[|s| - 1]) then TrimRight(s[..|s| - 1]) else s
  }

  function Trim(s: Text): Text {
    TrimLeft(TrimRight(s))
  }

  predicate Trimmed(s: Text) {
    s == [] || (!IsSpace(s[0]) && !IsSpace(s[|s| - 1]))
  }

  lemma {:induction false} TrimLeftEnds(s: Text)
    ensures TrimLeft(s) != [] ==> !IsSpace(TrimLeft(s)[0]) && TrimLeft(s)[|TrimLeft(s)| - 1] == s[|s| - 1]
  {
    if s != [] && IsSpace(s[0]) {
      TrimLeftEnds(s[1..]);
    }
  }

  lemma {:induction false} TrimRightEnds(s: Text)
    ensures TrimRight(s) != [] ==> !IsSpace(TrimRight(s)[|TrimRight(s)| - 1])
  {
    if s != [] && IsSpace(s[|s| - 1]) {
      TrimRightEnds(s[..|s| - 1]);
    }
  }

  lemma TrimIsTrimmed(s: Text)
    ensures Trimmed(Trim(s))
  {
    TrimRightEnds(s);
    TrimLeftEnds(TrimRight(s));
  }

  /** Trimmed text stays as it is, also behind a blank. */
  lemma TrimKeeps(s: Text)
    requires Trimmed(s)
    ensures Trim(s) == s && Trim([0x20] + s) == s
  {
    assert ([0x20] + s)[1..] == s;
    if s == [] {
      assert [0x20] + s == [0x20];
      assert ([0x20] + s)[..0] == [];
    } else {
      assert TrimRight([0x20] + s) == [0x20] + s;
      assert TrimLeft([0x20] + s) == TrimLeft(s);
    }
  }

  // ---------- case ----------

  function LowerByte(c: Byte): Byte {
    if IsUpper(c) then c + 0x20 else c
  }

  function Lower(s: Text): (r: Text)
    ensures |r| == |s|
  {
    seq(|s|, i requires 0 <= i < |s| => LowerByte(s[i]))
  }

  /** The lower-case form of a text: every upper-case letter is 0x20 up, and every other byte stays. */
  ghost predicate IsLowerOf(r: Text, s: Text) {
    && |r| == |s|
    && forall i :: 0 <= i < |s| ==> r[i] == if 0x41 <= s[i] <= 0x5A then s[i] + 0x20 else s[i]
  }

  /** Two texts differ in the case of letters only. */
  ghost predicate SameButCase(a: Text, b: Text) {
    && |a| == |b|
    && forall i :: 0 <= i < |a| ==>
      || a[i] == b[i]
      || (0x41 <= a[i] <= 0x5A && b[i] == a[i] + 0x20)
      || (0x41 <= b[i] <= 0x5A && a[i] == b[i] + 0x20)
  }

  lemma LowerIs(s: Text)
    ensures IsLowerOf(Lower(s), s) && forall i :: 0 <= i < |s| ==> !(0x41 <= Lower(s)[i] <= 0x5A)
  {
  }

  /** Texts have the same lower-case form if and only if they differ in case only. */
  lemma SameLower(a: Text, b: Text)
    ensures Lower(a) == Lower(b) <==> SameButCase(a, b)
  {
    LowerIs(a);
    LowerIs(b);
    hide Lower;
    if Lower(a) == Lower(b) {
      forall i | 0 <= i < |a|
        ensures a[i] == b[i] || (0x41 <= a[i] <= 0x5A && b[i] == a[i] + 0x20)
          || (0x41 <= b[i] <= 0x5A && a[i] == b[i] + 0x20)
      {
        assert Lower(a)[i] == Lower(b)[i];
      }
    }
    if SameButCase(a, b) {
      assert forall i :: 0 <= i < |a| ==> Lower(a)[i] == Lower(b)[i];
    }
  }

  /** Trimming takes blanks from both ends only. */
  lemma {:induction false} TrimTakes(s: Text) returns (front: Text, back: Text)
    ensures s == front + Trim(s) + back
    ensures forall c :: c in front || c in back ==> c == 0x20 || c == 0x09 || c == 0x0D || c == 0x0A
    ensures Trim(s) != [] ==> !IsSpace(Trim(s)[0]) && !IsSpace(Trim(s)[|Trim(s)| - 1])
  {
    TrimIsTrimmed(s);
    back := TrimRightTakes(s);
    front := TrimLeftTakes(TrimRight(s));
    assert front + Trim(s) == TrimRight(s);
  }

  lemma {:induction false} TrimLeftTakes(s: Text) returns (front: Text)
    ensures s == front + TrimLeft(s) && forall c :: c in front ==> IsSpace(c)
  {
    front := [];
    if s != [] && IsSpace(s[0]) {
      front := TrimLeftTakes(s[1..]);
      assert s == [s[0]] + s[1..];
      front := [s[0]] + front;
    }
  }

  lemma {:induction false} TrimRightTakes(s: Text) returns (back: Text)
    ensures s == TrimRight(s) + back && forall c :: c in back ==> IsSpace(c)
  {
    back := [];
    if s != [] && IsSpace(s[|s| - 1]) {
      back := TrimRightTakes(s[..|s| - 1]);
      assert s == s[..|s| - 1] + [s[|s| - 1]];
      back := back + [s[|s| - 1]];
    }
  }

  /** Lower case changes letters only, so no blank appears or goes away. */
  lemma LowerKeepsTrimmed(s: Text)
    requires Trimmed(s)
    ensures Trimmed(Lower(s))
  {
  }

  method ToLower(s: Text) returns (r: Text)
    ensures r == Lower(s) && IsLowerOf(r, s)
  {
    r := s;
    for i := 0 to |s|
      invariant |r| == |s|
      invariant forall k :: 0 <= k < i ==> r[k] == LowerByte(s[k])
      invariant forall k :: i <= k < |s| ==> r[k] == s[k]
    {
      r := r[i := LowerByte(r[i])];
    }
  }
}
