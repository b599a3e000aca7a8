/**
 * The duplicate-PDF remover: lists the PDF files of a folder, groups them by their
 * name without the extension and without its last 20 characters (the part a
 * reference manager appends to a re-downloaded copy), keeps the first file of each
 * group and tries to delete the others.
 */
module DuplicatePdfs {
  import opened Text
  import opened Sequences
  import opened Grouping
  import Paths

  const Extension: string := ".pdf"
  const StampLength: nat := 20

  /** The filter of the directory listing: the lower-cased name ends in the lower-cased extension. */
  predicate IsPdf(name: string)
  {
    EndsWith(Lower(name), Lower(Extension))
  }

  /** The considered files, in listing order. */
  function PdfFiles(listing: seq<string>): (r: seq<string>)
    ensures |r| <= |listing|
    ensures forall f :: f in r <==> f in listing && IsPdf(f)
  {
    if listing == [] then []
    else
      var last := listing[|listing| - 1];
      PdfFiles(listing[..|listing| - 1]) + (if IsPdf(last) then [last] else [])
  }

  /** Filtering keeps listing order: the considered files of `a + b` are those of `a`, then those of `b`. */
  lemma {:induction false} PdfFilesAppend(a: seq<string>, b: seq<string>)
    ensures PdfFiles(a + b) == PdfFiles(a) + PdfFiles(b)
  {
    if b != [] {
      var b' := b[..|b| - 1];
      assert (a + b)[..|a + b| - 1] == a + b';
      PdfFilesAppend(a, b');
    } else {
      assert a + b == a;
    }
  }

  /** The grouping key: the base name, less its last 20 characters when it is longer than that. */
  function GroupKey(name: string): (r: string)
    ensures StartsWith(name, r)
    ensures |r| >= |Paths.SplitExt(name).0| - StampLength
  {
    var base := Paths.SplitExt(name).0;
    if |base| > StampLength then base[..|base| - StampLength] else base
  }

  function KeyOf(name: string): Keyed<string>
  {
    Key(GroupKey(name))
  }

  /** The key is a prefix of the name, 20 characters shorter than the base exactly when the base is longer than 20. */
  lemma GroupKeyPrefix(name: string)
    ensures var base := Paths.SplitExt(name).0;
            && StartsWith(name, GroupKey(name))
            && (|base| > StampLength ==> |GroupKey(name)| == |base| - StampLength)
            && (|base| <= StampLength ==> GroupKey(name) == base)
  {
    var r := Paths.SplitExt(name);
    assert name == r.0 + r.1;
    assert name[..|GroupKey(name)|] == r.0[..|GroupKey(name)|];
  }

  /** Two copies whose names differ only in a 20-character tail before the same extension share a key. */
  lemma CopiesShareKey(title: string, stamp1: string, stamp2: string, x: string)
    requires title != [] && |stamp1| == StampLength && |stamp2| == StampLength
    requires stamp1[StampLength - 1] != '.' && stamp1[StampLength - 1] != '\\' && stamp1[StampLength - 1] != '/'
    requires stamp2[StampLength - 1] != '.' && stamp2[StampLength - 1] != '\\' && stamp2[StampLength - 1] != '/'
    requires forall i :: 0 <= i < |x| ==> x[i] != '.' && x[i] != '\\' && x[i] != '/'
    ensures GroupKey(title + stamp1 + "." + x) == title == GroupKey(title + stamp2 + "." + x)
  {
    Paths.SplitExtOfExtension(title + stamp1, x);
    Paths.SplitExtOfExtension(title + stamp2, x);
    assert (title + stamp1)[..|title|] == title;
    assert (title + stamp2)[..|title|] == title;
  }

  /** The first file of each of `keys`' groups: the ones kept. */
  function Firsts<T, K(==)>(keys: seq<K>, files: seq<T>, keyOf: T -> Keyed<K>): seq<T>
  {
    if keys == [] then []
    else
      var m := Members(files, keyOf, keys[|keys| - 1]);
      Firsts(keys[..|keys| - 1], files, keyOf) + (if m == [] then [] else [m[0]])
  }

  /** All but the first file of each of `keys`' groups: the ones targeted for deletion. */
  function Tails<T, K(==)>(keys: seq<K>, files: seq<T>, keyOf: T -> Keyed<K>): seq<T>
  {
    if keys == [] then []
    else
      var m := Members(files, keyOf, keys[|keys| - 1]);
      Tails(keys[..|keys| - 1], files, keyOf) + (if m == [] then [] else m[1..])
  }

  /** The targeted files whose removal raises, in the order they were tried. */
  function Failing(targets: seq<string>, removes: string -> bool): (r: seq<string>)
    ensures forall f :: f in r <==> f in targets && !removes(f)
  {
    if targets == [] then []
    else
      var last := targets[|targets| - 1];
      Failing(targets[..|targets| - 1], removes) + (if removes(last) then [] else [last])
  }

  /** Kept and targeted files together are the groups' files, each once. */
  lemma {:induction false} KeepOrDelete<T, K>(keys: seq<K>, files: seq<T>, keyOf: T -> Keyed<K>)
    ensures multiset(Firsts(keys, files, keyOf)) + multiset(Tails(keys, files, keyOf))
            == multiset(Flatten(keys, files, keyOf))
  {
    if keys != [] {
      var init := keys[..|keys| - 1];
      KeepOrDelete(init, files, keyOf);
      var m := Members(files, keyOf, keys[|keys| - 1]);
      var a := if m == [] then [] else [m[0]];
      var b := if m == [] then [] else m[1..];
      assert a + b == m;
      MultisetStep(Firsts(init, files, keyOf), Tails(init, files, keyOf), a, b, Flatten(init, files, keyOf));
    }
  }

  lemma MultisetStep<T>(fi: seq<T>, ti: seq<T>, a: seq<T>, b: seq<T>, flat: seq<T>)
    requires multiset(fi) + multiset(ti) == multiset(flat)
    ensures multiset(fi + a) + multiset(ti + b) == multiset(flat + (a + b))
  {
  }

  lemma FiledPdfs(files: seq<string>)
    ensures Filed(files, KeyOf) == files
  {
    FiledAllKeyed(files, KeyOf);
  }

  /** Every considered file is kept or targeted, exactly once: the groups partition the listing. */
  lemma EveryFileOnce(files: seq<string>)
    ensures var keys := Uniques(GroupedKeys(files, KeyOf));
            multiset(Firsts(keys, files, KeyOf)) + multiset(Tails(keys, files, KeyOf)) == multiset(files)
  {
    var keys := Uniques(GroupedKeys(files, KeyOf));
    KeepOrDelete(keys, files, KeyOf);
    GroupsPartition(files, KeyOf);
    FiledPdfs(files);
  }

  /** A file that is alone in its group is never targeted. */
  lemma {:induction false} SingletonsSurvive<T, K>(keys: seq<K>, files: seq<T>, keyOf: T -> Keyed<K>, f: T, key: K)
    requires keyOf(f) == Key(key) && |Members(files, keyOf, key)| == 1
    ensures f !in Tails(keys, files, keyOf)
  {
    if keys != [] {
      SingletonsSurvive(keys[..|keys| - 1], files, keyOf, f, key);
      var k := keys[|keys| - 1];
      var m := Members(files, keyOf, k);
      MembersBelong(files, keyOf, k);
      if k == key {
        assert m[1..] == [];
      } else if m != [] {
        assert f !in m;
      }
    }
  }

  /** With distinct names, the first file of every group is never targeted. */
  lemma {:induction false} FirstSurvives<T, K>(keys: seq<K>, files: seq<T>, keyOf: T -> Keyed<K>, key: K)
    requires NoDuplicates(files) && Members(files, keyOf, key) != []
    ensures Members(files, keyOf, key)[0] !in Tails(keys, files, keyOf)
  {
    var first := Members(files, keyOf, key);
    MembersBelong(files, keyOf, key);
    assert first[0] in first;
    MembersNoDuplicates(files, keyOf, key);
    if keys != [] {
      FirstSurvives(keys[..|keys| - 1], files, keyOf, key);
      var k := keys[|keys| - 1];
      var m := Members(files, keyOf, k);
      MembersBelong(files, keyOf, k);
      if k == key {
        assert forall j :: 1 <= j < |m| ==> m[j] != m[0];
        assert first[0] !in m[1..];
      } else if m != [] {
        assert first[0] !in m;
      }
    }
  }

  lemma {:induction false} FailingAppend(a: seq<string>, b: seq<string>, removes: string -> bool)
    ensures Failing(a + b, removes) == Failing(a, removes) + Failing(b, removes)
  {
    if b != [] {
      var b' := b[..|b| - 1];
      assert (a + b)[..|a + b| - 1] == a + b';
      FailingAppend(a, b', removes);
    } else {
      assert a + b == a;
    }
  }

  /** One more group of the grouping: its first file is kept and the rest are targeted. */
  lemma GroupStep<T, K>(g: Groups<K, T>, files: seq<T>, keyOf: T -> Keyed<K>, i: nat)
    requires IsGrouping(g, files, keyOf) && i < |g.order|
    ensures g.order[i] in g.members && g.members[g.order[i]] != []
    ensures Firsts(g.order[..i + 1], files, keyOf) == Firsts(g.order[..i], files, keyOf) + [g.members[g.order[i]][0]]
    ensures Tails(g.order[..i + 1], files, keyOf) == Tails(g.order[..i], files, keyOf) + g.members[g.order[i]][1..]
  {
    var k := g.order[i];
    assert k in g.order;
    assert k in g.members && g.members[k] == Members(files, keyOf, k);
    assert Members(files, keyOf, k) != [] by {
      UniquesSameElements(GroupedKeys(files, keyOf));
      MembersNonEmpty(files, keyOf, k);
    }
    FirstsTailsSnoc(g.order, i, files, keyOf);
  }

  lemma FirstsTailsSnoc<T, K>(keys: seq<K>, i: nat, files: seq<T>, keyOf: T -> Keyed<K>)
    requires i < |keys| && Members(files, keyOf, keys[i]) != []
    ensures Firsts(keys[..i + 1], files, keyOf) == Firsts(keys[..i], files, keyOf) + [Members(files, keyOf, keys[i])[0]]
    ensures Tails(keys[..i + 1], files, keyOf) == Tails(keys[..i], files, keyOf) + Members(files, keyOf, keys[i])[1..]
  {
    assert keys[..i + 1][..i] == keys[..i];
  }

  lemma FailingSnoc(targets: seq<string>, f: string, removes: string -> bool)
    ensures Failing(targets + [f], removes) == Failing(targets, removes) + (if removes(f) then [] else [f])
  {
    assert (targets + [f])[..|targets + [f]| - 1] == targets;
  }

  /** The inner loop over `file_list[1:]`: every removal is tried, whatever the earlier ones did. */
  method DeleteRest(fileList: seq<string>, removes: string -> bool) returns (tried: seq<string>, failed: seq<string>)
    requires fileList != []
    ensures tried == fileList[1..]
    ensures failed == Failing(tried, removes)
  {
    var rest := fileList[1..];
    tried, failed := [], [];
    for j := 0 to |rest|
      invariant tried == rest[..j]
      invariant failed == Failing(tried, removes)
    {
      var f := rest[j];
      assert rest[..j + 1] == tried + [f];
      FailingSnoc(tried, f, removes);
      tried := tried + [f];
      if !removes(f) {
        failed := failed + [f];
      }
    }
    assert rest[..|rest|] == rest;
  }

  /**
   * The deletion loop over the groups: the first file of every group is kept and
   * removal is tried on every other one; a removal that raises is recorded and
   * the loop goes on.
   */
  method ProcessGroups(g: Groups<string, string>, ghost files: seq<string>, removes: string -> bool)
    returns (kept: seq<string>, attempted: seq<string>, failed: seq<string>)
    requires IsGrouping(g, files, KeyOf)
    ensures kept == Firsts(g.order, files, KeyOf)
    ensures attempted == Tails(g.order, files, KeyOf)
    ensures failed == Failing(attempted, removes)
  {
    kept, attempted, failed := [], [], [];
    for i := 0 to |g.order|
      invariant kept == Firsts(g.order[..i], files, KeyOf)
      invariant attempted == Tails(g.order[..i], files, KeyOf)
      invariant failed == Failing(attempted, removes)
    {
      GroupStep(g, files, KeyOf, i);
      var fileList := g.members[g.order[i]];
      kept := kept + [fileList[0]];
      if |fileList| > 1 {
        var tried, failedHere := DeleteRest(fileList, removes);
        FailingAppend(attempted, tried, removes);
        attempted, failed := attempted + tried, failed + failedHere;
      } else {
        assert attempted + fileList[1..] == attempted;
      }
    }
    assert g.order[..|g.order|] == g.order;
  }

  /**
   * The whole script over a directory listing. `removes(f)` says whether deleting
   * `f` succeeds.
   */
  method RemoveDuplicates(listing: seq<string>, removes: string -> bool)
    returns (kept: seq<string>, attempted: seq<string>, failed: seq<string>)
    ensures var files := PdfFiles(listing);
            var keys := Uniques(GroupedKeys(files, KeyOf));
            && kept == Firsts(keys, files, KeyOf)
            && attempted == Tails(keys, files, KeyOf)
            && failed == Failing(attempted, removes)
  {
    var files := PdfFiles(listing);
    var r := GroupBy(files, KeyOf);
    if r.None? {
      assert false;
    } else {
      kept, attempted, failed := ProcessGroups(r.value, files, removes);
    }
  }
}
