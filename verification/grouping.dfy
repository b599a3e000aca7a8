/**
 * Grouping items into a dictionary of lists, the idiom the batch scripts share
 * (`groups.setdefault(key, []).append(item)` or a `defaultdict(list)`): keys in the
 * order they are first met, each list in item order.
 */
module Grouping {
  import opened Outcome
  import opened Sequences

  /** What a script does with one item: file it under a key, pass over it, or stop with an exception. */
  datatype Keyed<K> = Key(key: K) | Skip | Abort

  /** The keys of the items that are filed, in item order, repeats kept. */
  function GroupedKeys<T, K>(items: seq<T>, keyOf: T -> Keyed<K>): seq<K>
  {
    if items == [] then []
    else
      var last := keyOf(items[|items| - 1]);
      GroupedKeys(items[..|items| - 1], keyOf) + (if last.Key? then [last.key] else [])
  }

  /** The items filed under `k`, in item order. */
  function Members<T, K(==)>(items: seq<T>, keyOf: T -> Keyed<K>, k: K): seq<T>
  {
    if items == [] then []
    else
      var last := items[|items| - 1];
      Members(items[..|items| - 1], keyOf, k) + (if keyOf(last) == Key(k) then [last] else [])
  }

  /** The items that are filed under some key, in item order. */
  function Filed<T, K>(items: seq<T>, keyOf: T -> Keyed<K>): seq<T>
  {
    if items == [] then []
    else
      var last := items[|items| - 1];
      Filed(items[..|items| - 1], keyOf) + (if keyOf(last).Key? then [last] else [])
  }

  /** When every item gets a key, every item is filed. */
  lemma {:induction false} FiledAllKeyed<T, K>(items: seq<T>, keyOf: T -> Keyed<K>)
    requires forall i :: 0 <= i < |items| ==> keyOf(items[i]).Key?
    ensures Filed(items, keyOf) == items
  {
    if items != [] {
      FiledAllKeyed(items[..|items| - 1], keyOf);
    }
  }

  predicate Aborts<T, K>(items: seq<T>, keyOf: T -> Keyed<K>)
  {
    exists i :: 0 <= i < |items| && keyOf(items[i]).Abort?
  }

  datatype Groups<K, T> = Groups(order: seq<K>, members: map<K, seq<T>>)

  /** What a grouping of `items` is: first-met key order, and each key's members. */
  ghost predicate IsGrouping<T, K>(g: Groups<K, T>, items: seq<T>, keyOf: T -> Keyed<K>)
  {
    && g.order == Uniques(GroupedKeys(items, keyOf))
    && g.members.Keys == (set k | k in g.order)
    && (forall k :: k in g.members ==> g.members[k] == Members(items, keyOf, k))
  }

  /** A key has members exactly when some item is filed under it. */
  lemma {:induction false} MembersNonEmpty<T, K>(items: seq<T>, keyOf: T -> Keyed<K>, k: K)
    ensures Members(items, keyOf, k) != [] <==> k in GroupedKeys(items, keyOf)
  {
    if items != [] {
      MembersNonEmpty(items[..|items| - 1], keyOf, k);
    }
  }

  /** Every member of a group is one of the items, filed under that group's key. */
  lemma {:induction false} MembersBelong<T, K>(items: seq<T>, keyOf: T -> Keyed<K>, k: K)
    ensures forall x :: x in Members(items, keyOf, k) ==> x in items && keyOf(x) == Key(k)
  {
    if items != [] {
      MembersBelong(items[..|items| - 1], keyOf, k);
      assert items == items[..|items| - 1] + [items[|items| - 1]];
    }
  }

  /** A group of distinct items holds distinct items. */
  lemma {:induction false} MembersNoDuplicates<T, K>(items: seq<T>, keyOf: T -> Keyed<K>, k: K)
    requires NoDuplicates(items)
    ensures NoDuplicates(Members(items, keyOf, k))
  {
    if items != [] {
      var p := items[..|items| - 1];
      var y := items[|items| - 1];
      assert items == p + [y];
      assert NoDuplicates(p);
      MembersNoDuplicates(p, keyOf, k);
      MembersBelong(p, keyOf, k);
      assert y !in p;
    }
  }

  lemma PrefixStep<T>(items: seq<T>, i: nat)
    requires i < |items|
    ensures items[..i + 1] == items[..i] + [items[i]]
  {
  }

  lemma GroupedKeysSnoc<T, K>(p: seq<T>, y: T, keyOf: T -> Keyed<K>)
    ensures GroupedKeys(p + [y], keyOf) == GroupedKeys(p, keyOf) + (if keyOf(y).Key? then [keyOf(y).key] else [])
  {
    assert (p + [y])[..|p + [y]| - 1] == p;
  }

  lemma MembersSnoc<T, K>(p: seq<T>, y: T, keyOf: T -> Keyed<K>, k: K)
    ensures Members(p + [y], keyOf, k) == Members(p, keyOf, k) + (if keyOf(y) == Key(k) then [y] else [])
  {
    assert (p + [y])[..|p + [y]| - 1] == p;
  }

  /** Grouping the items of two lists one after the other puts the first list's members of a key before the second's. */
  lemma {:induction false} MembersAppend<T, K>(a: seq<T>, b: seq<T>, keyOf: T -> Keyed<K>, k: K)
    ensures Members(a + b, keyOf, k) == Members(a, keyOf, k) + Members(b, keyOf, k)
  {
    if b == [] {
      assert a + b == a;
    } else {
      var b' := b[..|b| - 1];
      assert (a + b)[..|a + b| - 1] == a + b';
      MembersAppend(a, b', keyOf, k);
    }
  }

  /** The items a script gets through: the items up to the first one that raises. */
  function Reached<T, K>(items: seq<T>, keyOf: T -> Keyed<K>): (r: seq<T>)
    ensures |r| <= |items| && r == items[..|r|]
    ensures !Aborts(r, keyOf)
    ensures |r| < |items| ==> keyOf(items[|r|]).Abort?
  {
    if !Aborts(items, keyOf) then items
    else
      var init := items[..|items| - 1];
      var r := Reached(init, keyOf);
      assert r == items[..|r|];
      if |r| == |init| then
        assert forall k :: 0 <= k < |init| ==> init[k] == items[k];
        r
      else
        assert items[|r|] == init[|r|];
        r
  }

  /** A script gets through exactly the items before the first one that raises. */
  lemma ReachedAt<T, K>(items: seq<T>, keyOf: T -> Keyed<K>, i: nat)
    requires i <= |items| && !Aborts(items[..i], keyOf) && (i == |items| || keyOf(items[i]).Abort?)
    ensures Reached(items, keyOf) == items[..i]
  {
    var r := Reached(items, keyOf);
    assert forall k :: 0 <= k < i ==> items[..i][k] == items[k];
    assert forall k :: 0 <= k < |r| ==> r[k] == items[k];
  }

  /** A key is among the grouped keys exactly when some item is filed under it. */
  lemma {:induction false} KeyMet<T, K>(items: seq<T>, keyOf: T -> Keyed<K>, k: K)
    ensures k in GroupedKeys(items, keyOf) <==> exists j :: 0 <= j < |items| && keyOf(items[j]) == Key(k)
  {
    if items != [] {
      var init := items[..|items| - 1];
      KeyMet(init, keyOf, k);
      assert forall j :: 0 <= j < |init| ==> init[j] == items[j];
    }
  }

  /** An item is the first of its key exactly when its key's list, up to it, holds it alone. */
  lemma FirstOfKey<T, K>(items: seq<T>, keyOf: T -> Keyed<K>, i: nat, k: K)
    requires i < |items| && keyOf(items[i]) == Key(k)
    ensures |Members(items[..i + 1], keyOf, k)| == 1 <==> forall j :: 0 <= j < i ==> keyOf(items[j]) != Key(k)
  {
    assert items[..i + 1] == items[..i] + [items[i]];
    MembersSnoc(items[..i], items[i], keyOf, k);
    MembersNonEmpty(items[..i], keyOf, k);
    KeyMet(items[..i], keyOf, k);
    assert forall j :: 0 <= j < i ==> items[..i][j] == items[j];
  }

  /** The last item is the first of its key exactly when its key's list holds it alone. */
  lemma FirstOfKeyLast<T, K>(items: seq<T>, keyOf: T -> Keyed<K>, k: K)
    requires items != [] && keyOf(items[|items| - 1]) == Key(k)
    ensures |Members(items, keyOf, k)| == 1 <==> forall j :: 0 <= j < |items| - 1 ==> keyOf(items[j]) != Key(k)
  {
    var init := items[..|items| - 1];
    MembersNonEmpty(init, keyOf, k);
    KeyMet(init, keyOf, k);
    assert forall j :: 0 <= j < |init| ==> init[j] == items[j];
  }

  lemma NoAbortStep<T, K>(items: seq<T>, i: nat, keyOf: T -> Keyed<K>)
    requires i < |items| && !Aborts(items[..i], keyOf) && !keyOf(items[i]).Abort?
    ensures !Aborts(items[..i + 1], keyOf)
  {
    var s := items[..i + 1];
    forall j | 0 <= j < |s| ensures !keyOf(s[j]).Abort? {
      if j < i {
        assert s[j] == items[..i][j];
      } else {
        assert s[j] == items[i];
      }
    }
  }

  lemma GroupStepSkip<T, K>(g: Groups<K, T>, p: seq<T>, y: T, keyOf: T -> Keyed<K>)
    requires keyOf(y).Skip? && IsGrouping(g, p, keyOf)
    ensures IsGrouping(g, p + [y], keyOf)
  {
    GroupedKeysSnoc(p, y, keyOf);
    assert GroupedKeys(p + [y], keyOf) == GroupedKeys(p, keyOf);
    forall k ensures Members(p + [y], keyOf, k) == Members(p, keyOf, k) {
      MembersSnoc(p, y, keyOf, k);
    }
  }

  lemma GroupStepSeen<T, K>(g: Groups<K, T>, p: seq<T>, y: T, keyOf: T -> Keyed<K>, k: K)
    requires keyOf(y) == Key(k) && IsGrouping(g, p, keyOf)
    requires k in g.members
    ensures IsGrouping(Groups(g.order, g.members[k := g.members[k] + [y]]), p + [y], keyOf)
  {
    var g' := Groups(g.order, g.members[k := g.members[k] + [y]]);
    GroupedKeysSnoc(p, y, keyOf);
    UniquesSameElements(GroupedKeys(p, keyOf));
    assert k in Uniques(GroupedKeys(p, keyOf));
    assert Uniques(GroupedKeys(p + [y], keyOf)) == g.order;
    assert g'.members.Keys == g.members.Keys;
    forall j | j in g'.members ensures g'.members[j] == Members(p + [y], keyOf, j) {
      MembersSnoc(p, y, keyOf, j);
    }
  }

  lemma GroupStepNew<T, K>(g: Groups<K, T>, p: seq<T>, y: T, keyOf: T -> Keyed<K>, k: K)
    requires keyOf(y) == Key(k) && IsGrouping(g, p, keyOf)
    requires k !in g.members
    ensures IsGrouping(Groups(g.order + [k], g.members[k := [y]]), p + [y], keyOf)
  {
    var keys := GroupedKeys(p, keyOf);
    var order, members := g.order + [k], g.members[k := [y]];
    UniquesSameElements(keys);
    assert k !in Uniques(keys);
    GroupedKeysSnoc(p, y, keyOf);
    UniquesSnoc(keys, k);
    assert order == Uniques(GroupedKeys(p + [y], keyOf));
    assert members.Keys == (set j | j in order) by {
      assert (set j | j in order) == (set j | j in g.order) + {k};
    }
    MembersNonEmpty(p, keyOf, k);
    NewMembers(g.members, p, y, keyOf, k);
  }

  lemma NewMembers<T, K>(members: map<K, seq<T>>, p: seq<T>, y: T, keyOf: T -> Keyed<K>, k: K)
    requires keyOf(y) == Key(k) && Members(p, keyOf, k) == []
    requires forall j :: j in members ==> members[j] == Members(p, keyOf, j)
    ensures forall j :: j in members[k := [y]] ==> members[k := [y]][j] == Members(p + [y], keyOf, j)
  {
    forall j | j in members[k := [y]] ensures members[k := [y]][j] == Members(p + [y], keyOf, j) {
      MembersSnoc(p, y, keyOf, j);
    }
  }

  /** Groups the items; None where a key computation raises. */
  method GroupBy<T, K(==)>(items: seq<T>, keyOf: T -> Keyed<K>) returns (r: Option<Groups<K, T>>)
    ensures r.None? <==> Aborts(items, keyOf)
    ensures r.Some? ==> IsGrouping(r.value, items, keyOf)
  {
    var order: seq<K> := [];
    var members: map<K, seq<T>> := map[];
    var i := 0;
    while i < |items|
      invariant 0 <= i <= |items|
      invariant !Aborts(items[..i], keyOf)
      invariant IsGrouping(Groups(order, members), items[..i], keyOf)
    {
      var item := items[i];
      match keyOf(item) {
        case Abort =>
          return None;
        case Skip =>
          GroupStepSkip(Groups(order, members), items[..i], item, keyOf);
        case Key(k) =>
          if k in members {
            GroupStepSeen(Groups(order, members), items[..i], item, keyOf, k);
            members := members[k := members[k] + [item]];
          } else {
            GroupStepNew(Groups(order, members), items[..i], item, keyOf, k);
            members := members[k := [item]];
            order := order + [k];
          }
      }
      NoAbortStep(items, i, keyOf);
      PrefixStep(items, i);
      i := i + 1;
    }
    assert items[..i] == items;
    return Some(Groups(order, members));
  }

  /** The items filed under the keys in `keys`, group after group. */
  function Flatten<T, K(==)>(keys: seq<K>, items: seq<T>, keyOf: T -> Keyed<K>): seq<T>
  {
    if keys == [] then []
    else Flatten(keys[..|keys| - 1], items, keyOf) + Members(items, keyOf, keys[|keys| - 1])
  }

  lemma FlattenAppend<T, K>(keys: seq<K>, k: K, items: seq<T>, keyOf: T -> Keyed<K>)
    ensures Flatten(keys + [k], items, keyOf) == Flatten(keys, items, keyOf) + Members(items, keyOf, k)
  {
    assert (keys + [k])[..|keys + [k]| - 1] == keys;
  }

  lemma {:induction false} FlattenExtend<T, K>(keys: seq<K>, p: seq<T>, y: T, keyOf: T -> Keyed<K>)
    requires NoDuplicates(keys)
    ensures multiset(Flatten(keys, p + [y], keyOf))
         == multiset(Flatten(keys, p, keyOf))
          + (if keyOf(y).Key? && keyOf(y).key in keys then multiset{y} else multiset{})
  {
    if keys != [] {
      var init, last := keys[..|keys| - 1], keys[|keys| - 1];
      assert NoDuplicates(init);
      FlattenExtend(init, p, y, keyOf);
      MembersSnoc(p, y, keyOf, last);
      var ya := if keyOf(y).Key? && keyOf(y).key in init then multiset{y} else multiset{};
      var yb := if keyOf(y) == Key(last) then multiset{y} else multiset{};
      Combine(Flatten(init, p + [y], keyOf), Flatten(init, p, keyOf), Members(p + [y], keyOf, last), Members(p, keyOf, last), ya, yb);
      InSnoc(keys, keyOf(y));
    }
  }

  lemma Combine<T>(f1: seq<T>, f0: seq<T>, m1: seq<T>, m0: seq<T>, ya: multiset<T>, yb: multiset<T>)
    requires multiset(f1) == multiset(f0) + ya && multiset(m1) == multiset(m0) + yb
    ensures multiset(f1 + m1) == multiset(f0 + m0) + (ya + yb)
  {
  }

  /** The keys of `keys` are those before its last one, and the last one; with no duplicates the last is not among the others. */
  lemma InSnoc<K>(keys: seq<K>, x: Keyed<K>)
    requires keys != [] && NoDuplicates(keys)
    ensures x.Key? && x.key in keys <==> x.Key? && (x.key in keys[..|keys| - 1] || x == Key(keys[|keys| - 1]))
    ensures keys[|keys| - 1] !in keys[..|keys| - 1]
  {
    assert keys == keys[..|keys| - 1] + [keys[|keys| - 1]];
  }

  lemma PartitionStepNew<T, K>(p: seq<T>, y: T, keyOf: T -> Keyed<K>, k: K)
    requires keyOf(y) == Key(k) && k !in GroupedKeys(p, keyOf)
    requires multiset(Flatten(Uniques(GroupedKeys(p, keyOf)), p, keyOf)) == multiset(Filed(p, keyOf))
    ensures multiset(Flatten(Uniques(GroupedKeys(p + [y], keyOf)), p + [y], keyOf)) == multiset(Filed(p + [y], keyOf))
  {
    var s := p + [y];
    var u := Uniques(GroupedKeys(p, keyOf));
    GroupedKeysSnoc(p, y, keyOf);
    FiledSnoc(p, y, keyOf);
    UniquesNoDuplicates(GroupedKeys(p, keyOf));
    UniquesSameElements(GroupedKeys(p, keyOf));
    assert (GroupedKeys(p, keyOf) + [k])[..|GroupedKeys(p, keyOf) + [k]| - 1] == GroupedKeys(p, keyOf);
    assert Uniques(GroupedKeys(s, keyOf)) == u + [k];
    FlattenExtend(u, p, y, keyOf);
    FlattenAppend(u, k, s, keyOf);
    MembersNonEmpty(p, keyOf, k);
    MembersSnoc(p, y, keyOf, k);
  }

  lemma FiledSnoc<T, K>(p: seq<T>, y: T, keyOf: T -> Keyed<K>)
    ensures Filed(p + [y], keyOf) == Filed(p, keyOf) + (if keyOf(y).Key? then [y] else [])
  {
    assert (p + [y])[..|p + [y]| - 1] == p;
  }

  lemma UniquesSeenKey<K>(keys: seq<K>, k: K)
    requires k in keys
    ensures Uniques(keys + [k]) == Uniques(keys)
  {
    assert (keys + [k])[..|keys + [k]| - 1] == keys;
    UniquesSameElements(keys);
  }

  lemma PartitionStepOld<T, K>(p: seq<T>, y: T, keyOf: T -> Keyed<K>)
    requires !keyOf(y).Key? || keyOf(y).key in GroupedKeys(p, keyOf)
    requires multiset(Flatten(Uniques(GroupedKeys(p, keyOf)), p, keyOf)) == multiset(Filed(p, keyOf))
    ensures multiset(Flatten(Uniques(GroupedKeys(p + [y], keyOf)), p + [y], keyOf)) == multiset(Filed(p + [y], keyOf))
  {
    var u := Uniques(GroupedKeys(p, keyOf));
    GroupedKeysSnoc(p, y, keyOf);
    FiledSnoc(p, y, keyOf);
    UniquesNoDuplicates(GroupedKeys(p, keyOf));
    UniquesSameElements(GroupedKeys(p, keyOf));
    if keyOf(y).Key? {
      UniquesSeenKey(GroupedKeys(p, keyOf), keyOf(y).key);
    } else {
      assert GroupedKeys(p + [y], keyOf) == GroupedKeys(p, keyOf);
    }
    FlattenExtend(u, p, y, keyOf);
  }

  /** The groups partition the filed items: every filed item lands in exactly one group. */
  lemma {:induction false} GroupsPartition<T, K>(items: seq<T>, keyOf: T -> Keyed<K>)
    ensures multiset(Flatten(Uniques(GroupedKeys(items, keyOf)), items, keyOf)) == multiset(Filed(items, keyOf))
  {
    if items != [] {
      var p := items[..|items| - 1];
      var y := items[|items| - 1];
      assert items == p + [y];
      GroupsPartition(p, keyOf);
      if keyOf(y).Key? && keyOf(y).key !in GroupedKeys(p, keyOf) {
        PartitionStepNew(p, y, keyOf, keyOf(y).key);
      } else {
        PartitionStepOld(p, y, keyOf);
      }
    }
  }
}
