/** Python's string order, and the stable sort behind `sorted` and `list.sort`. */
module Ordering {

  /** `a <= b` for Python strings: lexicographic by code point. */
  predicate StringLe(a: string, b: string) {
    a == [] || (b != [] && (a[0] < b[0] || (a[0] == b[0] && StringLe(a[1..], b[1..]))))
  }

  lemma StringLeTotal(a: string, b: string)
    ensures StringLe(a, b) || StringLe(b, a)
  {}

  lemma StringLeTransitive(a: string, b: string, c: string)
    requires StringLe(a, b) && StringLe(b, c)
    ensures StringLe(a, c)
  {}

  lemma {:induction false} StringLeAntisymmetric(a: string, b: string)
    requires StringLe(a, b) && StringLe(b, a)
    ensures a == b
  {
    if a != [] {
      StringLeAntisymmetric(a[1..], b[1..]);
      assert a == [a[0]] + a[1..] && b == [b[0]] + b[1..];
    }
  }

  /** Shorter with the same beginning, or smaller at the first difference. */
  ghost predicate Precedes(a: string, b: string) {
    a < b || exists k :: FirstDifference(a, b, k) && a[k] < b[k]
  }

  ghost predicate FirstDifference(a: string, b: string, k: int) {
    0 <= k < |a| && k < |b| && a[..k] == b[..k] && a[k] != b[k]
  }

  lemma SameFront(a: string, b: string, k: nat)
    requires FirstDifference(a, b, k) && k > 0
    ensures a[0] == b[0]
  {
    assert a[0] == a[..k][0] && b[0] == b[..k][0];
  }

  lemma DifferenceBehind(a: string, b: string, k: nat)
    requires a != [] && b != [] && a[0] == b[0]
    ensures FirstDifference(a, b, k + 1) <==> FirstDifference(a[1..], b[1..], k)
  {
    if k < |a| - 1 && k < |b| - 1 {
      assert a[..k + 1] == [a[0]] + a[1..][..k] && b[..k + 1] == [b[0]] + b[1..][..k];
    }
  }

  lemma PrecedesBehind(a: string, b: string)
    requires a != [] && b != [] && a[0] == b[0]
    ensures Precedes(a, b) <==> Precedes(a[1..], b[1..])
  {
    assert a == [a[0]] + a[1..] && b == [b[0]] + b[1..];
    if exists k :: FirstDifference(a, b, k) && a[k] < b[k] {
      var k :| FirstDifference(a, b, k) && a[k] < b[k];
      DifferenceBehind(a, b, k - 1);
      assert a[1..][k - 1] < b[1..][k - 1];
    }
    if exists k :: FirstDifference(a[1..], b[1..], k) && a[1..][k] < b[1..][k] {
      var k :| FirstDifference(a[1..], b[1..], k) && a[1..][k] < b[1..][k];
      DifferenceBehind(a, b, k);
      assert a[k + 1] < b[k + 1];
    }
  }

  /** The order is the lexicographic one. */
  lemma {:induction false} StringLeIsLexicographic(a: string, b: string)
    ensures StringLe(a, b) <==> a == b || Precedes(a, b)
  {
    if a != [] && b != [] {
      if a[0] == b[0] {
        PrecedesBehind(a, b);
        StringLeIsLexicographic(a[1..], b[1..]);
        assert a == [a[0]] + a[1..] && b == [b[0]] + b[1..];
      } else {
        assert FirstDifference(a, b, 0);
        forall k | FirstDifference(a, b, k) ensures k == 0 {
          if k > 0 {
            SameFront(a, b, k);
          }
        }
      }
    }
  }

  lemma PrecedesIsStrict(a: string, b: string)
    requires Precedes(a, b)
    ensures StringLe(a, b) && !StringLe(b, a)
  {
    StringLeIsLexicographic(a, b);
    if StringLe(b, a) {
      StringLeAntisymmetric(a, b);
    }
  }

  ghost predicate TotalPreorder<T(!new)>(le: (T, T) -> bool) {
    && (forall x, y :: le(x, y) || le(y, x))
    && (forall x, y, z :: le(x, y) && le(y, z) ==> le(x, z))
  }

  ghost predicate SortedBy<T>(s: seq<T>, le: (T, T) -> bool) {
    forall i, j :: 0 <= i < j < |s| ==> le(s[i], s[j])
  }

  /** Place `x` behind every element it does not precede, which keeps equal keys in input order. */
  function Insert<T>(s: seq<T>, x: T, le: (T, T) -> bool): seq<T> {
    if s == [] then [x]
    else if le(s[|s| - 1], x) then s + [x]
    else Insert(s[..|s| - 1], x, le) + [s[|s| - 1]]
  }

  function Sort<T>(s: seq<T>, le: (T, T) -> bool): seq<T> {
    if s == [] then [] else Insert(Sort(s[..|s| - 1], le), s[|s| - 1], le)
  }

  lemma {:induction false} InsertPermutes<T>(s: seq<T>, x: T, le: (T, T) -> bool)
    ensures multiset(Insert(s, x, le)) == multiset(s) + multiset{x}
  {
    if s != [] {
      assert s == s[..|s| - 1] + [s[|s| - 1]];
      InsertPermutes(s[..|s| - 1], x, le);
    }
  }

  lemma {:induction false} SortPermutes<T>(s: seq<T>, le: (T, T) -> bool)
    ensures multiset(Sort(s, le)) == multiset(s)
    ensures |Sort(s, le)| == |s|
  {
    if s != [] {
      assert s == s[..|s| - 1] + [s[|s| - 1]];
      SortPermutes(s[..|s| - 1], le);
      InsertPermutes(Sort(s[..|s| - 1], le), s[|s| - 1], le);
    }
    assert |Sort(s, le)| == |multiset(Sort(s, le))| == |multiset(s)| == |s|;
  }

  lemma {:induction false} InsertKeepsOrder<T(!new)>(s: seq<T>, x: T, le: (T, T) -> bool)
    requires TotalPreorder(le) && SortedBy(s, le)
    ensures SortedBy(Insert(s, x, le), le)
  {
    if s != [] && !le(s[|s| - 1], x) {
      var last := |s| - 1;
      InsertKeepsOrder(s[..last], x, le);
      InsertPermutes(s[..last], x, le);
      var front := Insert(s[..last], x, le);
      forall i | 0 <= i < |front| ensures le(front[i], s[last]) {
        assert front[i] in multiset(front);
        assert front[i] in multiset(s[..last]) + multiset{x};
      }
    }
  }

  lemma {:induction false} SortSorts<T(!new)>(s: seq<T>, le: (T, T) -> bool)
    requires TotalPreorder(le)
    ensures SortedBy(Sort(s, le), le)
  {
    if s != [] {
      SortSorts(s[..|s| - 1], le);
      InsertKeepsOrder(Sort(s[..|s| - 1], le), s[|s| - 1], le);
    }
  }

  lemma SortMembers<T>(s: seq<T>, le: (T, T) -> bool)
    ensures forall x :: x in s <==> x in Sort(s, le)
  {
    SortPermutes(s, le);
    forall x ensures x in s <==> x in Sort(s, le) {
      assert x in s <==> x in multiset(s);
      assert x in Sort(s, le) <==> x in multiset(Sort(s, le));
    }
  }

  /** The elements of `s` that rank with `k`, in order. */
  function Tied<T>(s: seq<T>, k: T, le: (T, T) -> bool): seq<T> {
    if s == [] then []
    else
      var x := s[|s| - 1];
      Tied(s[..|s| - 1], k, le) + if le(x, k) && le(k, x) then [x] else []
  }

  lemma TiedGrows<T>(s: seq<T>, x: T, k: T, le: (T, T) -> bool)
    ensures Tied(s + [x], k, le) == Tied(s, k, le) + if le(x, k) && le(k, x) then [x] else []
  {
    assert (s + [x])[..|s|] == s;
  }

  lemma {:induction false} InsertIsStable<T(!new)>(s: seq<T>, x: T, k: T, le: (T, T) -> bool)
    requires TotalPreorder(le)
    ensures Tied(Insert(s, x, le), k, le) == Tied(s + [x], k, le)
  {
    TiedGrows(s, x, k, le);
    if s != [] && !le(s[|s| - 1], x) {
      var init, last := s[..|s| - 1], s[|s| - 1];
      InsertIsStable(init, x, k, le);
      TiedGrows(init, x, k, le);
      TiedGrows(Insert(init, x, le), last, k, le);
      assert !(le(last, k) && le(k, x));
    }
  }

  /** Elements that rank equal keep their order. */
  lemma {:induction false} SortIsStable<T(!new)>(s: seq<T>, k: T, le: (T, T) -> bool)
    requires TotalPreorder(le)
    ensures Tied(Sort(s, le), k, le) == Tied(s, k, le)
  {
    if s != [] {
      var init, last := s[..|s| - 1], s[|s| - 1];
      SortIsStable(init, k, le);
      InsertIsStable(Sort(init, le), last, k, le);
      TiedGrows(Sort(init, le), last, k, le);
    }
  }
}
