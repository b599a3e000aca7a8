/**
 * Sequence notions shared by the scripts: order-preserving de-duplication (the `seen`
 * set beside a `values` list, or `pd.unique`), first occurrence, counting, sorting.
 */
module Sequences {

  predicate NoDuplicates<T(==)>(s: seq<T>)
  {
    forall i, j :: 0 <= i < j < |s| ==> s[i] != s[j]
  }

  /** The set of elements of `s`. */
  function Elems<T>(s: seq<T>): set<T>
  {
    set x | x in s
  }

  /** Appending one element to a de-duplication: it is added only on its first occurrence. */
  lemma UniquesSnoc<T>(s: seq<T>, v: T)
    ensures Uniques(s + [v]) == if v in Uniques(s) then Uniques(s) else Uniques(s) + [v]
  {
    assert (s + [v])[..|s + [v]| - 1] == s;
  }

  function Count<T(==)>(s: seq<T>, x: T): nat
  {
    if s == [] then 0 else Count(s[..|s| - 1], x) + (if s[|s| - 1] == x then 1 else 0)
  }

  lemma {:induction false} CountAppend<T>(a: seq<T>, b: seq<T>, x: T)
    ensures Count(a + b, x) == Count(a, x) + Count(b, x)
  {
    if b != [] {
      assert (a + b)[..|a + b| - 1] == a + b[..|b| - 1];
      CountAppend(a, b[..|b| - 1], x);
    } else {
      assert a + b == a;
    }
  }

  /** The index of the first occurrence of `x` (Python's `list.index`). */
  function IndexOf<T(==)>(s: seq<T>, x: T): (k: nat)
    requires x in s
    ensures k < |s| && s[k] == x && x !in s[..k]
  {
    if s[0] == x then 0 else 1 + IndexOf(s[1..], x)
  }

  lemma IndexOfUnique<T>(s: seq<T>, x: T, k: nat)
    requires k < |s| && s[k] == x && x !in s[..k]
    ensures IndexOf(s, x) == k
  {
  }

  lemma IndexOfExtend<T>(s: seq<T>, y: T, x: T)
    requires x in s
    ensures IndexOf(s + [y], x) == IndexOf(s, x)
  {
    var k := IndexOf(s, x);
    assert (s + [y])[..k] == s[..k];
    IndexOfUnique(s + [y], x, k);
  }

  /** The distinct elements of `s`, each where it first appears. */
  function Uniques<T(==)>(s: seq<T>): seq<T>
  {
    if s == [] then []
    else
      var d := Uniques(s[..|s| - 1]);
      if s[|s| - 1] in d then d else d + [s[|s| - 1]]
  }

  lemma {:induction false} UniquesSameElements<T>(s: seq<T>)
    ensures forall x :: x in Uniques(s) <==> x in s
  {
    if s != [] {
      var p := s[..|s| - 1];
      UniquesSameElements(p);
      assert s == p + [s[|s| - 1]];
    }
  }

  lemma {:induction false} UniquesNoDuplicates<T>(s: seq<T>)
    ensures NoDuplicates(Uniques(s))
  {
    if s != [] {
      UniquesNoDuplicates(s[..|s| - 1]);
    }
  }

  lemma {:induction false} UniquesLength<T>(s: seq<T>)
    ensures |Uniques(s)| <= |s|
  {
    if s != [] {
      UniquesLength(s[..|s| - 1]);
    }
  }

  /** First occurrences in `u` keep increasing (the shape Uniques has). */
  ghost predicate InFirstOccurrenceOrder<T>(s: seq<T>, u: seq<T>)
  {
    && (forall x :: x in u ==> x in s)
    && (forall i, j :: 0 <= i < j < |u| ==> IndexOf(s, u[i]) < IndexOf(s, u[j]))
  }

  lemma OrderExtendOld<T>(p: seq<T>, y: T, d: seq<T>)
    requires InFirstOccurrenceOrder(p, d)
    ensures InFirstOccurrenceOrder(p + [y], d)
  {
    forall x | x in d ensures IndexOf(p + [y], x) == IndexOf(p, x) {
      IndexOfExtend(p, y, x);
    }
  }

  lemma OrderExtendNew<T>(p: seq<T>, y: T, d: seq<T>)
    requires InFirstOccurrenceOrder(p, d) && y !in p
    ensures InFirstOccurrenceOrder(p + [y], d + [y])
  {
    var s := p + [y];
    var u := d + [y];
    OrderExtendOld(p, y, d);
    IndexOfUnique(s, y, |p|);
    forall i | 0 <= i < |d| ensures IndexOf(s, d[i]) < |p| {
      assert d[i] in d;
      IndexOfExtend(p, y, d[i]);
    }
    forall i, j | 0 <= i < j < |u| ensures IndexOf(s, u[i]) < IndexOf(s, u[j]) {
      assert u[i] == d[i];
      if j < |d| { assert u[j] == d[j]; } else { assert u[j] == y; }
    }
  }

  /** The distinct elements come out in the order of their first occurrences. */
  lemma {:induction false} UniquesFirstOccurrenceOrder<T>(s: seq<T>)
    ensures InFirstOccurrenceOrder(s, Uniques(s))
  {
    if s != [] {
      var p := s[..|s| - 1];
      var y := s[|s| - 1];
      UniquesFirstOccurrenceOrder(p);
      UniquesSameElements(p);
      assert s == p + [y];
      if y in Uniques(p) {
        OrderExtendOld(p, y, Uniques(p));
      } else {
        OrderExtendNew(p, y, Uniques(p));
      }
    }
  }

  /** Appending elements already seen changes nothing. */
  lemma {:induction false} UniquesOfSeen<T>(s: seq<T>, t: seq<T>)
    requires forall x :: x in t ==> x in s
    ensures Uniques(s + t) == Uniques(s)
  {
    if t != [] {
      var p := t[..|t| - 1];
      assert (s + t)[..|s + t| - 1] == s + p;
      UniquesOfSeen(s, p);
      UniquesSameElements(s);
      assert t[|t| - 1] in t;
    } else {
      assert s + t == s;
    }
  }

  lemma UniquesIdempotentOnRepeat<T>(s: seq<T>)
    ensures Uniques(s + s) == Uniques(s)
  {
    UniquesOfSeen(s, s);
  }

  /** A duplicate-free sequence is its own de-duplication. */
  lemma {:induction false} UniquesOfDistinct<T>(s: seq<T>)
    requires NoDuplicates(s)
    ensures Uniques(s) == s
  {
    if s != [] {
      var p := s[..|s| - 1];
      UniquesOfDistinct(p);
      assert s[|s| - 1] !in p;
    }
  }

  lemma UniquesExample()
    ensures Uniques(["A", "B", "A"]) == ["A", "B"]
  {
    assert ["A", "B", "A"][..2] == ["A", "B"];
    assert ["A", "B"][..1] == ["A"];
    assert ["A"][..0] == [];
  }

  // ---- Sorting (Python's `sorted`) ----

  ghost predicate TotalPreorder<T(!new)>(le: (T, T) -> bool)
  {
    && (forall a, b :: le(a, b) || le(b, a))
    && (forall a, b, c :: le(a, b) && le(b, c) ==> le(a, c))
  }

  predicate SortedBy<T>(s: seq<T>, le: (T, T) -> bool)
  {
    forall i, j :: 0 <= i < j < |s| ==> le(s[i], s[j])
  }

  function Insert<T>(x: T, s: seq<T>, le: (T, T) -> bool): (r: seq<T>)
    ensures multiset(r) == multiset(s) + multiset{x}
  {
    if s == [] then [x]
    else if le(x, s[0]) then [x] + s
    else
      assert s == [s[0]] + s[1..];
      [s[0]] + Insert(x, s[1..], le)
  }

  lemma {:induction false} InsertSorted<T(!new)>(x: T, s: seq<T>, le: (T, T) -> bool)
    requires TotalPreorder(le) && SortedBy(s, le)
    ensures SortedBy(Insert(x, s, le), le)
  {
    if s != [] && !le(x, s[0]) {
      var tail := Insert(x, s[1..], le);
      InsertSorted(x, s[1..], le);
      assert le(s[0], x);
      forall j | 0 <= j < |tail| ensures le(s[0], tail[j]) {
        assert tail[j] in multiset(tail);
        assert tail[j] == x || tail[j] in multiset(s[1..]);
        if tail[j] != x {
          var k :| 0 <= k < |s[1..]| && s[1..][k] == tail[j];
          assert s[k + 1] == tail[j];
        }
      }
    }
  }

  /** An insertion sort: the result is sorted and a permutation of the input. */
  function SortBy<T(!new)>(s: seq<T>, le: (T, T) -> bool): (r: seq<T>)
    requires TotalPreorder(le)
    ensures SortedBy(r, le)
    ensures multiset(r) == multiset(s)
  {
    if s == [] then []
    else
      var rest := SortBy(s[1..], le);
      InsertSorted(s[0], rest, le);
      assert s == [s[0]] + s[1..];
      Insert(s[0], rest, le)
  }

  function IntLe(a: int, b: int): bool { a <= b }

  lemma IntLeTotal()
    ensures TotalPreorder(IntLe)
  {
  }

  /** Python's ordering of str values: code point by code point, a prefix first. */
  predicate LexLe(a: string, b: string)
  {
    a == [] || (b != [] && (a[0] < b[0] || (a[0] == b[0] && LexLe(a[1..], b[1..]))))
  }

  lemma {:induction false} LexLeTotalAt(a: string, b: string)
    ensures LexLe(a, b) || LexLe(b, a)
  {
    if a != [] && b != [] && a[0] == b[0] {
      LexLeTotalAt(a[1..], b[1..]);
    }
  }

  lemma {:induction false} LexLeTransitiveAt(a: string, b: string, c: string)
    requires LexLe(a, b) && LexLe(b, c)
    ensures LexLe(a, c)
  {
    if a != [] && a[0] == b[0] && b[0] == c[0] {
      LexLeTransitiveAt(a[1..], b[1..], c[1..]);
    }
  }

  lemma LexLeTotal()
    ensures TotalPreorder(LexLe)
  {
    forall a, b ensures LexLe(a, b) || LexLe(b, a) { LexLeTotalAt(a, b); }
    forall a, b, c | LexLe(a, b) && LexLe(b, c) ensures LexLe(a, c) { LexLeTransitiveAt(a, b, c); }
  }

  /** Two strings each at most the other under LexLe are equal. */
  lemma {:induction false} LexLeAntisymmetric(a: string, b: string)
    requires LexLe(a, b) && LexLe(b, a)
    ensures a == b
  {
    if a != [] {
      LexLeAntisymmetric(a[1..], b[1..]);
      assert a == [a[0]] + a[1..];
      assert b == [b[0]] + b[1..];
    }
  }

  /** A list comprehension `[x for x in s if keep(x)]`. */
  function Filter<T(!new)>(s: seq<T>, keep: T -> bool): (r: seq<T>)
    ensures |r| <= |s|
    ensures forall x :: x in r <==> x in s && keep(x)
  {
    if s == [] then []
    else
      var last := s[|s| - 1];
      Filter(s[..|s| - 1], keep) + (if keep(last) then [last] else [])
  }

  /** Filtering keeps order: it maps a concatenation to the concatenation of the filtered parts. */
  lemma {:induction false} FilterAppend<T(!new)>(a: seq<T>, b: seq<T>, keep: T -> bool)
    ensures Filter(a + b, keep) == Filter(a, keep) + Filter(b, keep)
  {
    if b != [] {
      var b' := b[..|b| - 1];
      assert (a + b)[..|a + b| - 1] == a + b';
      FilterAppend(a, b', keep);
    } else {
      assert a + b == a;
    }
  }
}
