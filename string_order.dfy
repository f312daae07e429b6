/**
 * The order std::sort uses on std::string (lexicographic by character code), a
 * reference sort on sequences, and the in-place sort of an array of names.
 */
module StringOrder {

  /** `a <= b` for std::string: `a` is a prefix of `b`, or `a` is smaller at the first difference. */
  predicate Le(a: string, b: string)
  {
    |a| == 0 || (|b| > 0 && (a[0] < b[0] || (a[0] == b[0] && Le(a[1..], b[1..]))))
  }

  lemma {:induction false} LeReflexive(a: string)
    ensures Le(a, a)
  {
    if |a| > 0 {
      LeReflexive(a[1..]);
    }
  }

  lemma {:induction false} LeTotal(a: string, b: string)
    ensures Le(a, b) || Le(b, a)
  {
    if |a| > 0 && |b| > 0 && a[0] == b[0] {
      LeTotal(a[1..], b[1..]);
    }
  }

  lemma {:induction false} LeAntisymmetric(a: string, b: string)
    requires Le(a, b) && Le(b, a)
    ensures a == b
  {
    if |a| > 0 && |b| > 0 {
      LeAntisymmetric(a[1..], b[1..]);
      assert a == [a[0]] + a[1..] && b == [b[0]] + b[1..];
    }
  }

  lemma {:induction false} LeTransitive(a: string, b: string, c: string)
    requires Le(a, b) && Le(b, c)
    ensures Le(a, c)
  {
    if |a| > 0 && a[0] == b[0] && b[0] == c[0] {
      LeTransitive(a[1..], b[1..], c[1..]);
    }
  }

  /** Ascending order: every earlier name is `Le` every later one. */
  predicate Sorted(s: seq<string>)
  {
    forall i, j :: 0 <= i < j < |s| ==> Le(s[i], s[j])
  }

  lemma SortedTail(s: seq<string>)
    requires Sorted(s) && s != []
    ensures Sorted(s[1..])
  {
    var rest := s[1..];
    forall p, q | 0 <= p < q < |rest|
      ensures Le(rest[p], rest[q])
    {
      assert rest[p] == s[p + 1] && rest[q] == s[q + 1];
    }
  }

  /** Two sorted sequences with the same elements are equal: a sorted order is determined by its contents. */
  lemma {:induction false} SortedUnique(a: seq<string>, b: seq<string>)
    requires Sorted(a) && Sorted(b)
    requires multiset(a) == multiset(b)
    ensures a == b
  {
    if a == [] {
      assert |b| == |multiset(b)| == 0;
    } else {
      assert |b| == |multiset(b)| == |multiset(a)| == |a|;
      assert a[0] in multiset(b) && b[0] in multiset(a);
      var i :| 0 <= i < |a| && a[i] == b[0];
      var j :| 0 <= j < |b| && b[j] == a[0];
      if i > 0 {
        assert Le(a[0], a[i]);
      } else {
        LeReflexive(a[0]);
      }
      if j > 0 {
        assert Le(b[0], b[j]);
      } else {
        LeReflexive(b[0]);
      }
      LeAntisymmetric(a[0], b[0]);
      assert multiset(a) == multiset{a[0]} + multiset(a[1..]) by {
        assert a == [a[0]] + a[1..];
      }
      assert multiset(b) == multiset{b[0]} + multiset(b[1..]) by {
        assert b == [b[0]] + b[1..];
      }
      assert multiset(a[1..]) == multiset(a) - multiset{a[0]};
      assert multiset(b[1..]) == multiset(b) - multiset{b[0]};
      SortedTail(a);
      SortedTail(b);
      SortedUnique(a[1..], b[1..]);
      assert a == [a[0]] + a[1..] && b == [b[0]] + b[1..];
    }
  }

  /** Inserts `x` into `s` before the first element that `x` is `Le`. */
  function Insert(x: string, s: seq<string>): seq<string>
  {
    if s == [] then [x]
    else if Le(x, s[0]) then [x] + s
    else [s[0]] + Insert(x, s[1..])
  }

  /** Reference sort: insertion sort on sequences. */
  function Sort(s: seq<string>): seq<string>
  {
    if s == [] then [] else Insert(s[0], Sort(s[1..]))
  }

  /** Putting in front a name that is `Le` every element keeps a sequence sorted. */
  lemma PrependSorted(x: string, t: seq<string>)
    requires Sorted(t)
    requires forall j :: 0 <= j < |t| ==> Le(x, t[j])
    ensures Sorted([x] + t)
  {
    var u := [x] + t;
    forall p, q | 0 <= p < q < |u|
      ensures Le(u[p], u[q])
    {
      if p == 0 {
        assert u[q] == t[q - 1];
      } else {
        assert u[p] == t[p - 1] && u[q] == t[q - 1];
      }
    }
  }

  lemma {:induction false} InsertCorrect(x: string, s: seq<string>)
    requires Sorted(s)
    ensures Sorted(Insert(x, s))
    ensures multiset(Insert(x, s)) == multiset(s) + multiset{x}
  {
    if s == [] {
    } else if Le(x, s[0]) {
      forall j | 0 <= j < |s|
        ensures Le(x, s[j])
      {
        if j > 0 {
          LeTransitive(x, s[0], s[j]);
        }
      }
      PrependSorted(x, s);
    } else {
      LeTotal(x, s[0]);
      var rest := s[1..];
      assert s == [s[0]] + rest;
      SortedTail(s);
      InsertCorrect(x, rest);
      var t := Insert(x, rest);
      forall j | 0 <= j < |t|
        ensures Le(s[0], t[j])
      {
        assert t[j] in multiset(t);
        if t[j] != x {
          assert t[j] in multiset(rest);
          var m :| 0 <= m < |rest| && rest[m] == t[j];
          assert s[m + 1] == t[j];
        }
      }
      PrependSorted(s[0], t);
    }
  }

  /** The reference sort yields a sorted permutation of its input. */
  lemma {:induction false} SortCorrect(s: seq<string>)
    ensures Sorted(Sort(s))
    ensures multiset(Sort(s)) == multiset(s)
  {
    if s != [] {
      SortCorrect(s[1..]);
      InsertCorrect(s[0], Sort(s[1..]));
      assert s == [s[0]] + s[1..];
    }
  }

  /** std::sort on a vector of names: sorts `a` in place (insertion sort by adjacent swaps). */
  method SortInPlace(a: array<string>)
    modifies a
    ensures Sorted(a[..])
    ensures multiset(a[..]) == multiset(old(a[..]))
  {
    var i := 0;
    while i < a.Length
      invariant 0 <= i <= a.Length
      invariant forall p, q :: 0 <= p < q < i ==> Le(a[p], a[q])
      invariant multiset(a[..]) == multiset(old(a[..]))
    {
      var j := i;
      while j > 0 && !Le(a[j - 1], a[j])
        invariant 0 <= j <= i
        invariant forall p, q :: 0 <= p < q <= i && p != j && q != j ==> Le(a[p], a[q])
        invariant forall q :: j < q <= i ==> Le(a[j], a[q])
        invariant multiset(a[..]) == multiset(old(a[..]))
      {
        LeTotal(a[j - 1], a[j]);
        a[j - 1], a[j] := a[j], a[j - 1];
        j := j - 1;
      }
      forall p | 0 <= p < j
        ensures Le(a[p], a[j])
      {
        if p < j - 1 {
          LeTransitive(a[p], a[j - 1], a[j]);
        }
      }
      i := i + 1;
    }
  }
}
