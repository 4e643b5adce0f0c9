/** `sort.Strings`: ascending order of strings under `strings.Compare`, and the one
    sorted listing of a finite set of names. */
module Sort {
  import opened Compare
  import opened Os

  predicate Sorted(s: seq<string>)
  {
    forall i, j :: 0 <= i < j < |s| ==> StrCompare(s[i], s[j]) <= 0
  }

  lemma StrCompareLeTransitive(a: string, b: string, c: string)
    requires StrCompare(a, b) <= 0 && StrCompare(b, c) <= 0
    ensures StrCompare(a, c) <= 0
  {
    if StrCompare(a, b) < 0 && StrCompare(b, c) < 0 {
      StrCompareTransitive(a, b, c);
    }
  }

  function Insert(x: string, s: seq<string>): seq<string>
  {
    if s == [] then [x]
    else if StrCompare(x, s[0]) <= 0 then [x] + s
    else [s[0]] + Insert(x, s[1..])
  }

  /** Putting a least element in front keeps a sequence sorted. */
  lemma ConsSorted(x: string, s: seq<string>)
    requires Sorted(s) && (s != [] ==> StrCompare(x, s[0]) <= 0)
    ensures Sorted([x] + s)
  {
    forall j | 0 <= j < |s|
      ensures StrCompare(x, s[j]) <= 0
    {
      if j > 0 {
        StrCompareLeTransitive(x, s[0], s[j]);
      }
    }
    var r := [x] + s;
    forall i, j | 0 <= i < j < |r|
      ensures StrCompare(r[i], r[j]) <= 0
    {
      if i > 0 {
        assert r[i] == s[i - 1] && r[j] == s[j - 1];
      }
    }
  }

  lemma InsertHead(x: string, s: seq<string>)
    ensures |Insert(x, s)| == |s| + 1
    ensures Insert(x, s)[0] == x || (s != [] && Insert(x, s)[0] == s[0])
  {
    if s != [] && StrCompare(x, s[0]) > 0 {
      InsertHead(x, s[1..]);
    }
  }

  lemma {:induction false} InsertSorted(x: string, s: seq<string>)
    requires Sorted(s)
    ensures Sorted(Insert(x, s))
  {
    if s == [] {
    } else if StrCompare(x, s[0]) <= 0 {
      ConsSorted(x, s);
    } else {
      var t := Insert(x, s[1..]);
      TailSorted(s);
      InsertSorted(x, s[1..]);
      InsertHead(x, s[1..]);
      StrCompareAntisymmetric(x, s[0]);
      if t[0] != x {
        assert t[0] == s[1];
      }
      ConsSorted(s[0], t);
    }
  }

  lemma {:induction false} InsertMultiset(x: string, s: seq<string>)
    ensures multiset(Insert(x, s)) == multiset(s) + multiset{x}
  {
    if s != [] && StrCompare(x, s[0]) > 0 {
      InsertMultiset(x, s[1..]);
      assert s == [s[0]] + s[1..];
    }
  }

  /** `sort.Strings` */
  function SortStrings(s: seq<string>): (r: seq<string>)
    ensures Sorted(r) && multiset(r) == multiset(s) && |r| == |s|
  {
    if s == [] then []
    else
      var t := SortStrings(s[1..]);
      InsertStep(s, t);
      Insert(s[0], t)
  }

  /** The step of `SortStrings`: inserting the head into the sorted tail. */
  lemma InsertStep(s: seq<string>, t: seq<string>)
    requires s != [] && Sorted(t) && multiset(t) == multiset(s[1..]) && |t| == |s| - 1
    ensures Sorted(Insert(s[0], t)) && multiset(Insert(s[0], t)) == multiset(s)
    ensures |Insert(s[0], t)| == |s|
  {
    InsertSorted(s[0], t);
    InsertMultiset(s[0], t);
    InsertHead(s[0], t);
    ConsMultiset(s);
  }

  lemma ConsMultiset(s: seq<string>)
    requires s != []
    ensures multiset(s) == multiset(s[1..]) + multiset{s[0]}
  {
    assert s == [s[0]] + s[1..];
  }

  lemma HeadIsLeast(s: seq<string>, x: string)
    requires Sorted(s) && x in s
    ensures StrCompare(s[0], x) <= 0
  {
    var k :| 0 <= k < |s| && s[k] == x;
    if k > 0 {
      assert StrCompare(s[0], s[k]) <= 0;
    }
  }

  lemma TailSorted(s: seq<string>)
    requires Sorted(s) && s != []
    ensures Sorted(s[1..])
  {
    forall i, j | 0 <= i < j < |s| - 1
      ensures StrCompare(s[1..][i], s[1..][j]) <= 0
    {
      assert s[1..][i] == s[i + 1] && s[1..][j] == s[j + 1];
    }
  }

  /** Two sorted sequences with the same elements are the same sequence. */
  lemma {:induction false} SortedUnique(s: seq<string>, t: seq<string>)
    requires Sorted(s) && Sorted(t) && multiset(s) == multiset(t)
    ensures s == t
  {
    if s == [] {
      assert |multiset(t)| == 0;
    } else {
      SortedSameHead(s, t);
      MultisetTail(s);
      MultisetTail(t);
      TailSorted(s);
      TailSorted(t);
      SortedUnique(s[1..], t[1..]);
      assert s == [s[0]] + s[1..] && t == [t[0]] + t[1..];
    }
  }

  lemma SortedSameHead(s: seq<string>, t: seq<string>)
    requires Sorted(s) && Sorted(t) && multiset(s) == multiset(t) && s != []
    ensures t != [] && s[0] == t[0]
  {
    assert s[0] in multiset(s);
    assert t != [];
    assert t[0] in multiset(t);
    HeadIsLeast(t, s[0]);
    HeadIsLeast(s, t[0]);
    StrCompareAntisymmetric(s[0], t[0]);
  }

  lemma MultisetTail(s: seq<string>)
    requires s != []
    ensures multiset(s[1..]) == multiset(s) - multiset{s[0]}
  {
    assert s == [s[0]] + s[1..];
  }

  /** Some listing of a finite set, each element once. */
  ghost function SeqOf(m: set<string>): (r: seq<string>)
    ensures multiset(r) == multiset(m) && Distinct(r)
  {
    if m == {} then []
    else
      var x :| x in m;
      var rest := SeqOf(m - {x});
      assert multiset(m) == multiset(m - {x}) + multiset{x};
      assert forall j :: 0 <= j < |rest| ==> rest[j] in multiset(m - {x});
      [x] + rest
  }

  /** The ascending listing of a finite set of names. */
  ghost function SortedOf(m: set<string>): (r: seq<string>)
    ensures Sorted(r) && Distinct(r) && multiset(r) == multiset(m) && |r| == |m|
  {
    var r := SortStrings(SeqOf(m));
    DistinctPermutation(SeqOf(m), r);
    r
  }

  lemma DistinctPermutation(s: seq<string>, t: seq<string>)
    requires Distinct(s) && multiset(s) == multiset(t)
    ensures Distinct(t) && |t| == |s|
  {
    assert |t| == |multiset(t)| == |multiset(s)| == |s|;
    forall i, j | 0 <= i < j < |t|
      ensures t[i] != t[j]
    {
      if t[i] == t[j] {
        var x := t[i];
        assert multiset(t)[x] >= 2 by {
          assert t == t[..i] + [t[i]] + t[i + 1..j] + [t[j]] + t[j + 1..];
        }
        DistinctCount(s, x);
      }
    }
  }

  lemma {:induction false} DistinctCount(s: seq<string>, x: string)
    requires Distinct(s)
    ensures multiset(s)[x] <= 1
  {
    if s != [] {
      assert s == [s[0]] + s[1..];
      DistinctCount(s[1..], x);
      if s[0] == x {
        assert x !in s[1..];
      }
    }
  }

  /** In a sorted listing without repetitions each entry is strictly below the later ones. */
  lemma SortedDistinctStrict(s: seq<string>, i: int, j: int)
    requires Sorted(s) && Distinct(s) && 0 <= i < j < |s|
    ensures StrCompare(s[i], s[j]) < 0
  {
  }
}
