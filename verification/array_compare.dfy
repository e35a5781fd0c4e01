/** `compareArrays` of src/utils/common.ts for arrays of strings: unequal
    lengths are unequal; otherwise both arrays are sorted in place with the
    default `sort` (UTF-16 code-unit order) and compared position by
    position. */
module ArrayCompare {
  import opened Utf16

  /** The default `sort` order on strings: code unit by code unit, a proper
      prefix first. */
  predicate Below(a: Text16, b: Text16)
    decreases |a|
  {
    if a == [] then b != []
    else if b == [] then false
    else a[0] < b[0] || (a[0] == b[0] && Below(a[1..], b[1..]))
  }

  predicate Le(a: Text16, b: Text16) {
    a == b || Below(a, b)
  }

  lemma {:induction false} BelowIrreflexive(a: Text16)
    ensures !Below(a, a)
    decreases |a|
  {
    if a != [] {
      BelowIrreflexive(a[1..]);
    }
  }

  lemma {:induction false} BelowAsymmetric(a: Text16, b: Text16)
    requires Below(a, b)
    ensures !Below(b, a)
    decreases |a|
  {
    if a != [] && b != [] && a[0] == b[0] {
      BelowAsymmetric(a[1..], b[1..]);
    }
  }

  lemma {:induction false} BelowTransitive(a: Text16, b: Text16, c: Text16)
    requires Below(a, b) && Below(b, c)
    ensures Below(a, c)
    decreases |a|
  {
    if a != [] && a[0] == b[0] && b[0] == c[0] {
      BelowTransitive(a[1..], b[1..], c[1..]);
    }
  }

  /** Any two different strings are ordered one way or the other. */
  lemma {:induction false} BelowTotal(a: Text16, b: Text16)
    requires a != b
    ensures Below(a, b) || Below(b, a)
    decreases |a|
  {
    if a != [] && b != [] && a[0] == b[0] {
      assert a == [a[0]] + a[1..] && b == [b[0]] + b[1..];
      BelowTotal(a[1..], b[1..]);
    }
  }

  lemma LeTransitive(a: Text16, b: Text16, c: Text16)
    requires Le(a, b) && Le(b, c)
    ensures Le(a, c)
  {
    if Below(a, b) && Below(b, c) {
      BelowTransitive(a, b, c);
    }
  }

  lemma LeAntisymmetric(a: Text16, b: Text16)
    requires Le(a, b) && Le(b, a)
    ensures a == b
  {
    if a != b {
      BelowAsymmetric(a, b);
    }
  }

  ghost predicate Sorted(s: seq<Text16>) {
    forall i, j :: 0 <= i < j < |s| ==> Le(s[i], s[j])
  }

  /** Puts `x` before the first element it does not follow. */
  function Insert(x: Text16, s: seq<Text16>): (r: seq<Text16>)
    requires Sorted(s)
    ensures Sorted(r)
    ensures multiset(r) == multiset(s) + multiset{x}
    ensures |r| == |s| + 1
  {
    if s == [] then [x]
    else if Le(x, s[0]) then
      InsertFront(x, s);
      [x] + s
    else
      var rest := Insert(x, s[1..]);
      InsertBehind(x, s, rest);
      [s[0]] + rest
  }

  lemma InsertFront(x: Text16, s: seq<Text16>)
    requires s != [] && Sorted(s) && Le(x, s[0])
    ensures Sorted([x] + s)
  {
    var r := [x] + s;
    forall i, j | 0 <= i < j < |r|
      ensures Le(r[i], r[j])
    {
      if i == 0 && j > 1 {
        LeTransitive(x, s[0], s[j - 1]);
      }
    }
  }

  lemma InsertBehind(x: Text16, s: seq<Text16>, rest: seq<Text16>)
    requires s != [] && Sorted(s) && !Le(x, s[0])
    requires Sorted(rest) && multiset(rest) == multiset(s[1..]) + multiset{x}
    ensures Sorted([s[0]] + rest)
    ensures multiset([s[0]] + rest) == multiset(s) + multiset{x}
  {
    BelowTotal(x, s[0]);
    var r := [s[0]] + rest;
    forall j | 0 < j < |r|
      ensures Le(s[0], r[j])
    {
      assert r[j] in multiset(rest);
      if r[j] != x {
        assert r[j] in multiset(s[1..]);
        var k :| 1 <= k < |s| && s[k] == r[j] by {
          assert r[j] in s[1..];
          var k' :| 0 <= k' < |s[1..]| && s[1..][k'] == r[j];
          assert s[k' + 1] == r[j];
        }
      }
    }
    assert s == [s[0]] + s[1..];
  }

  /** The default `sort` of an array of strings, as a function of its
      contents (any correct sort gives this result, see `SortedUnique`). */
  function Sort(s: seq<Text16>): (r: seq<Text16>)
    ensures Sorted(r)
    ensures multiset(r) == multiset(s)
    ensures |r| == |s|
  {
    if s == [] then []
    else
      assert s == [s[0]] + s[1..];
      Insert(s[0], Sort(s[1..]))
  }

  /** The smallest element of a sorted sequence comes first. */
  lemma SortedHeadLeast(s: seq<Text16>, y: Text16)
    requires Sorted(s) && y in s
    ensures Le(s[0], y)
  {
    var k :| 0 <= k < |s| && s[k] == y;
  }

  /** Two sorted sequences with the same elements are the same sequence. */
  lemma {:induction false} SortedUnique(a: seq<Text16>, b: seq<Text16>)
    requires Sorted(a) && Sorted(b) && multiset(a) == multiset(b)
    ensures a == b
    decreases |a|
  {
    SameLength(a, b);
    if a != [] {
      SameHead(a, b);
      SameTails(a, b);
      SortedUnique(a[1..], b[1..]);
      assert a == [a[0]] + a[1..] && b == [b[0]] + b[1..];
    }
  }

  lemma SameLength(a: seq<Text16>, b: seq<Text16>)
    requires multiset(a) == multiset(b)
    ensures |a| == |b|
  {
    assert |multiset(a)| == |a| && |multiset(b)| == |b|;
  }

  /** Two sorted arrays with the same elements start alike. */
  lemma SameHead(a: seq<Text16>, b: seq<Text16>)
    requires Sorted(a) && Sorted(b) && multiset(a) == multiset(b) && a != [] && b != []
    ensures a[0] == b[0]
  {
    assert a[0] in multiset(b) && b[0] in multiset(a);
    SortedHeadLeast(a, b[0]);
    SortedHeadLeast(b, a[0]);
    LeAntisymmetric(a[0], b[0]);
  }

  lemma SameTails(a: seq<Text16>, b: seq<Text16>)
    requires multiset(a) == multiset(b) && a != [] && b != [] && a[0] == b[0]
    ensures multiset(a[1..]) == multiset(b[1..])
    ensures Sorted(a) ==> Sorted(a[1..])
    ensures Sorted(b) ==> Sorted(b[1..])
  {
    assert a == [a[0]] + a[1..] && b == [b[0]] + b[1..];
    assert multiset(a[1..]) == multiset(a) - multiset{a[0]};
    assert multiset(b[1..]) == multiset(b) - multiset{b[0]};
  }

  /** What a call leaves: the answer and the two arrays' contents afterwards
      (both sorted when the lengths agree, untouched otherwise). */
  datatype Comparison = Comparison(equal: bool, first: seq<Text16>, second: seq<Text16>)

  /** `compareArrays(arr1, arr2)`: true exactly when the arrays hold the
      same strings the same number of times, in any order. */
  method CompareArrays(arr1: seq<Text16>, arr2: seq<Text16>) returns (c: Comparison)
    ensures c.equal <==> multiset(arr1) == multiset(arr2)
    ensures |arr1| != |arr2| ==> c.first == arr1 && c.second == arr2
    ensures |arr1| == |arr2| ==> c.first == Sort(arr1) && c.second == Sort(arr2)
  {
    if |arr1| != |arr2| {
      LengthsDiffer(arr1, arr2);
      return Comparison(false, arr1, arr2);
    }
    var a := Sort(arr1);
    var b := Sort(arr2);
    SameElementsSameSort(arr1, arr2);
    var equal := Pairwise(a, b);
    return Comparison(equal, a, b);
  }

  /** The element-by-element loop over two arrays of equal length. */
  method Pairwise(a: seq<Text16>, b: seq<Text16>) returns (equal: bool)
    requires |a| == |b|
    ensures equal <==> a == b
  {
    var i := 0;
    while i < |a|
      invariant 0 <= i <= |a|
      invariant forall k :: 0 <= k < i ==> a[k] == b[k]
    {
      if a[i] != b[i] {
        return false;
      }
      i := i + 1;
    }
    return true;
  }

  lemma LengthsDiffer(arr1: seq<Text16>, arr2: seq<Text16>)
    requires |arr1| != |arr2|
    ensures multiset(arr1) != multiset(arr2)
  {
    assert |multiset(arr1)| == |arr1| && |multiset(arr2)| == |arr2|;
  }

  /** Two arrays sort to the same array exactly when they hold the same
      strings equally often. */
  lemma SameElementsSameSort(arr1: seq<Text16>, arr2: seq<Text16>)
    ensures multiset(arr1) == multiset(arr2) <==> Sort(arr1) == Sort(arr2)
  {
    if Sort(arr1) == Sort(arr2) {
      assert multiset(arr1) == multiset(Sort(arr1));
    } else if multiset(arr1) == multiset(arr2) {
      SortedUnique(Sort(arr1), Sort(arr2));
    }
  }
}
