/**
 * File-name rules of the scripts: pathlib's `stem` and `suffixes` (Python 3.12
 * semantics), `os.path.splitext` on Windows paths, the output names the CSV tools
 * derive from them, and the quote stripping applied to a pasted path.
 */
module Paths {
  import opened Text

  /** Python's `s.rfind(c)`: the last index of `c`, or -1. */
  function LastIndexOf(s: string, c: char): (r: int)
    ensures -1 <= r < |s|
    ensures r >= 0 ==> s[r] == c
    ensures forall i :: r < i < |s| ==> s[i] != c
  {
    if s == [] then -1
    else if s[|s| - 1] == c then |s| - 1
    else LastIndexOf(s[..|s| - 1], c)
  }

  /** `PurePath.stem`: the name without its last suffix. */
  function Stem(name: string): string
  {
    var i := LastIndexOf(name, '.');
    if 0 < i < |name| - 1 then name[..i] else name
  }

  /** `name.lstrip('.')`. */
  function LeadingDots(name: string): (n: nat)
    ensures n <= |name|
    ensures forall i :: 0 <= i < n ==> name[i] == '.'
    ensures n < |name| ==> name[n] != '.'
  {
    if name == [] || name[0] != '.' then 0 else 1 + LeadingDots(name[1..])
  }

  /** `PurePath.suffixes`, each without its leading dot. */
  function SuffixParts(name: string): seq<string>
  {
    if EndsWith(name, ".") then [] else Split(name[LeadingDots(name)..], '.')[1..]
  }

  /** `"".join("." + p for p in parts)`. */
  function DotJoin(parts: seq<string>): string
  {
    if parts == [] then [] else "." + parts[0] + DotJoin(parts[1..])
  }

  /** `"".join(PurePath.suffixes)`: the full extension chain. */
  function Suffixes(name: string): string
  {
    DotJoin(SuffixParts(name))
  }

  function ExtensionOrCsv(name: string): string
  {
    if Suffixes(name) == [] then ".csv" else Suffixes(name)
  }

  /** The output name exactly as both CSV tools build it: the stem, the tag, then every suffix. */
  function OutputNameAsWritten(name: string, tag: string): (r: string)
    ensures EndsWith(r, ExtensionOrCsv(name))
    ensures |Stem(name)| <= |r| && StartsWith(name, r[..|Stem(name)|])
  {
    Stem(name) + tag + ExtensionOrCsv(name)
  }

  /** The name before its extension chain. */
  function ChainBase(name: string): string
    requires |Suffixes(name)| <= |name|
  {
    name[..|name| - |Suffixes(name)|]
  }

  /** The output name with the tag put before the full extension chain, as the tools' documentation says. */
  function OutputName(name: string, tag: string): (r: string)
    ensures |Suffixes(name)| <= |name|
    ensures |r| == |name| + |tag| + (if Suffixes(name) == [] then |".csv"| else 0)
    ensures EndsWith(r, ExtensionOrCsv(name))
    ensures StartsWith(name, r[..|name| - |Suffixes(name)|])
  {
    SuffixesAreSuffix(name);
    ChainBase(name) + tag + ExtensionOrCsv(name)
  }

  lemma {:induction false} DotJoinJoin(first: string, rest: seq<string>)
    ensures first + DotJoin(rest) == Join([first] + rest, '.')
    decreases |rest|
  {
    if rest != [] {
      DotJoinJoin(rest[0], rest[1..]);
      assert ([first] + rest)[1..] == rest;
      assert [rest[0]] + rest[1..] == rest;
    }
  }

  /** The extension chain is the end of the name: the name is its base followed by the chain. */
  lemma SuffixesAreSuffix(name: string)
    ensures |Suffixes(name)| <= |name|
    ensures name == name[..|name| - |Suffixes(name)|] + Suffixes(name)
  {
    if !EndsWith(name, ".") {
      var n := LeadingDots(name);
      var t := name[n..];
      var parts := Split(t, '.');
      JoinSplit(t, '.');
      DotJoinJoin(parts[0], parts[1..]);
      assert [parts[0]] + parts[1..] == parts;
      assert t == parts[0] + Suffixes(name);
      assert name == name[..n] + t;
    }
  }

  /** The tag always lands right before the extension chain in the corrected name. */
  lemma OutputNameKeepsChain(name: string, tag: string)
    requires Suffixes(name) != []
    ensures EndsWith(OutputName(name, tag), Suffixes(name))
    ensures OutputName(name, tag)[..|name| - |Suffixes(name)|] == name[..|name| - |Suffixes(name)|]
  {
    SuffixesAreSuffix(name);
  }

  /** Removing the tag from the corrected name gives the input name back. */
  lemma OutputNameRoundTrip(name: string, tag: string)
    requires Suffixes(name) != []
    ensures var r := OutputName(name, tag);
            r[..|ChainBase(name)|] + r[|ChainBase(name)| + |tag|..] == name
  {
    SuffixesAreSuffix(name);
    var r := OutputName(name, tag);
    assert r[..|ChainBase(name)|] == ChainBase(name);
    assert r[|ChainBase(name)| + |tag|..] == Suffixes(name);
  }

  lemma LastDotAt(name: string, k: nat)
    requires k < |name| && name[k] == '.' && '.' !in name[k + 1..]
    ensures LastIndexOf(name, '.') == k
  {
    assert forall j :: k < j < |name| ==> name[j] == name[k + 1..][j - k - 1];
  }

  lemma SuffixPartsOfDotted(name: string, parts: seq<string>)
    requires |parts| >= 1 && parts[0] != [] && parts[|parts| - 1] != []
    requires forall i :: 0 <= i < |parts| ==> '.' !in parts[i]
    requires name == Join(parts, '.')
    ensures SuffixParts(name) == parts[1..]
  {
    SplitJoin(parts, '.');
    JoinEnds(parts);
    assert LeadingDots(name) == 0;
    assert name[0..] == name;
  }

  lemma {:induction false} JoinEnds(parts: seq<string>)
    requires |parts| >= 1 && parts[0] != [] && parts[|parts| - 1] != []
    ensures var j := Join(parts, '.'); |j| > 0 && j[0] == parts[0][0] && j[|j| - 1] == parts[|parts| - 1][|parts[|parts| - 1]| - 1]
  {
    JoinLast(parts);
  }

  lemma {:induction false} JoinLast(parts: seq<string>)
    requires |parts| >= 1 && parts[|parts| - 1] != []
    ensures var j := Join(parts, '.'); |j| > 0 && j[|j| - 1] == parts[|parts| - 1][|parts[|parts| - 1]| - 1]
  {
    if |parts| > 1 {
      JoinLast(parts[1..]);
    }
  }

  /** For a name with one extension, as written and corrected agree. */
  lemma OutputNameSingleSuffix(base: string, ext: string, tag: string)
    requires base != [] && ext != [] && '.' !in base && '.' !in ext
    ensures OutputNameAsWritten(base + "." + ext, tag) == OutputName(base + "." + ext, tag)
  {
    var name := base + "." + ext;
    assert name[|base| + 1..] == ext;
    LastDotAt(name, |base|);
    assert Stem(name) == base;
    assert Join([base, ext], '.') == name;
    SuffixPartsOfDotted(name, [base, ext]);
    assert [base, ext][1..] == [ext];
    assert DotJoin([ext]) == "." + ext by { assert [ext][1..] == []; }
    SuffixesAreSuffix(name);
    assert ChainBase(name) == base;
  }

  lemma StemOfTwoSuffixes(a: string, b: string, c: string)
    requires c != [] && '.' !in c && a != []
    ensures Stem(a + "." + b + "." + c) == a + "." + b
  {
    var name := a + "." + b + "." + c;
    var k := |a| + 1 + |b|;
    assert name[k] == '.';
    assert name[k + 1..] == c;
    LastDotAt(name, k);
    assert name[..k] == a + "." + b;
  }

  lemma SuffixesOfTwoSuffixes(a: string, b: string, c: string)
    requires a != [] && c != [] && '.' !in a && '.' !in b && '.' !in c
    ensures Suffixes(a + "." + b + "." + c) == "." + b + "." + c
  {
    var name := a + "." + b + "." + c;
    assert Join([b, c], '.') == b + ['.'] + c;
    assert Join([a, b, c], '.') == a + ['.'] + Join([b, c], '.');
    assert Join([a, b, c], '.') == name;
    SuffixPartsOfDotted(name, [a, b, c]);
    assert [a, b, c][1..] == [b, c];
    assert DotJoin([c]) == "." + c by { assert [c][1..] == []; }
    assert DotJoin([b, c]) == "." + b + "." + c by { assert [b, c][1..] == [c]; }
  }

  /** With two extensions the stem keeps the first one, so the tool repeats it. */
  lemma OutputNameTwoSuffixes(a: string, b: string, c: string, tag: string)
    requires a != [] && c != [] && '.' !in a && '.' !in b && '.' !in c
    ensures OutputNameAsWritten(a + "." + b + "." + c, tag) == a + "." + b + tag + "." + b + "." + c
    ensures OutputName(a + "." + b + "." + c, tag) == a + tag + "." + b + "." + c
  {
    StemOfTwoSuffixes(a, b, c);
    SuffixesOfTwoSuffixes(a, b, c);
    assert ExtensionOrCsv(a + "." + b + "." + c) == "." + b + "." + c;
    AsWrittenTwoSuffixes(a, b, c, tag);
    CorrectedTwoSuffixes(a, b, c, tag);
  }

  lemma AsWrittenTwoSuffixes(a: string, b: string, c: string, tag: string)
    requires Stem(a + "." + b + "." + c) == a + "." + b && ExtensionOrCsv(a + "." + b + "." + c) == "." + b + "." + c
    ensures OutputNameAsWritten(a + "." + b + "." + c, tag) == a + "." + b + tag + "." + b + "." + c
  {
  }

  lemma CorrectedTwoSuffixes(a: string, b: string, c: string, tag: string)
    requires Suffixes(a + "." + b + "." + c) == ExtensionOrCsv(a + "." + b + "." + c) == "." + b + "." + c
    ensures OutputName(a + "." + b + "." + c, tag) == a + tag + "." + b + "." + c
  {
    var name := a + "." + b + "." + c;
    var chain := "." + b + "." + c;
    assert |name| - |chain| == |a|;
    assert name[..|a|] == a;
    assert ChainBase(name) == a;
  }

  /**
   * The two names differ for every two-extension name and every tag that does not
   * start with a dot: `obs.v2.csv` becomes `obs.v2_preview.v2.csv`, not `obs_preview.v2.csv`.
   */
  lemma OutputNameAsWrittenRepeatsSuffix(a: string, b: string, c: string, tag: string)
    requires a != [] && c != [] && '.' !in a && '.' !in b && '.' !in c
    requires tag != [] && tag[0] != '.'
    ensures OutputNameAsWritten(a + "." + b + "." + c, tag) != OutputName(a + "." + b + "." + c, tag)
  {
    OutputNameTwoSuffixes(a, b, c, tag);
    var asWritten := a + "." + b + tag + "." + b + "." + c;
    var corrected := a + tag + "." + b + "." + c;
    assert |a| < |a + "." + b + tag + "." + b| && |a| < |a + tag + "." + b|;
    assert asWritten[|a|] == '.' && corrected[|a|] == tag[0];
  }

  /** `ntpath.splitext`: the base and the last extension of a Windows path. */
  function SplitExt(p: string): (r: (string, string))
    ensures r.0 + r.1 == p
    ensures r.1 == [] || r.1[0] == '.'
  {
    var sep := if LastIndexOf(p, '\\') < LastIndexOf(p, '/') then LastIndexOf(p, '/') else LastIndexOf(p, '\\');
    var dot := LastIndexOf(p, '.');
    if dot > sep && exists i :: sep + 1 <= i < dot && p[i] != '.' then (p[..dot], p[dot..])
    else (p, [])
  }

  /** A name ending in one extension `.x` splits into its base and that extension. */
  lemma SplitExtOfExtension(base: string, x: string)
    requires base != [] && base[|base| - 1] != '.' && base[|base| - 1] != '\\' && base[|base| - 1] != '/'
    requires forall i :: 0 <= i < |x| ==> x[i] != '.' && x[i] != '\\' && x[i] != '/'
    ensures SplitExt(base + "." + x) == (base, "." + x)
  {
    var p := base + "." + x;
    var n := |base|;
    assert p[n] == '.' && p[n - 1] == base[n - 1];
    forall i | n < i < |p| ensures p[i] != '.' && p[i] != '\\' && p[i] != '/' {
      assert p[i] == x[i - n - 1];
    }
    var dot := LastIndexOf(p, '.');
    assert dot == n;
    assert LastIndexOf(p, '\\') < n - 1 && LastIndexOf(p, '/') < n - 1;
    assert p[..dot] == base && p[dot..] == "." + x;
  }

  /** The extension `splitext` returns holds no further dot and no separator. */
  lemma SplitExtLastExtension(p: string)
    ensures SplitExt(p).1 != [] ==> '.' !in SplitExt(p).1[1..]
    ensures '\\' !in SplitExt(p).1 && '/' !in SplitExt(p).1
  {
    var r := SplitExt(p);
    if r.1 != [] {
      var dot := LastIndexOf(p, '.');
      assert r.1 == p[dot..];
      forall i | 0 <= i < |r.1| ensures r.1[i] != '\\' && r.1[i] != '/' && (i > 0 ==> r.1[i] != '.') {
        assert r.1[i] == p[dot + i];
      }
    }
  }

  /** `f"{base}_no_line_number{ext}"` for the text cleaner's output path. */
  function TaggedPath(p: string, tag: string): (r: string)
    ensures |r| == |p| + |tag|
    ensures tag == [] ==> r == p
  {
    SplitExt(p).0 + tag + SplitExt(p).1
  }

  /** The tag goes between the base and the extension, and removing it gives the path back. */
  lemma TaggedPathRoundTrip(p: string, tag: string)
    ensures var base := SplitExt(p).0;
            var r := TaggedPath(p, tag);
            |r| == |p| + |tag| && r[..|base|] == base && r[|base|..|base| + |tag|] == tag
            && r[..|base|] + r[|base| + |tag|..] == p
  {
  }

  /** Removes surrounding white space, then one pair of matching outer quotes. */
  function UnquotePath(raw: string): (r: string)
    ensures |r| <= |raw|
    ensures |Strip(raw)| <= |r| + 2
  {
    var t := Strip(raw);
    if |t| >= 1 && ((t[0] == '"' && t[|t| - 1] == '"') || (t[0] == '\'' && t[|t| - 1] == '\'')) then
      if |t| >= 2 then t[1..|t| - 1] else []
    else t
  }

  /** A quoted path pasted with white space around it comes back unquoted and whole. */
  lemma UnquoteQuoted(w1: string, p: string, w2: string)
    requires AllSpace(w1) && AllSpace(w2)
    ensures UnquotePath(w1 + "\"" + p + "\"" + w2) == p
  {
    var q := "\"" + p + "\"";
    assert w1 + "\"" + p + "\"" + w2 == w1 + q + w2;
    StripPadded(w1, q, w2);
    assert q[1..|q| - 1] == p;
  }

  /** A trimmed path without matching outer quotes is left unchanged. */
  lemma UnquoteUnquoted(p: string)
    requires Trimmed(p)
    requires p == [] || !((p[0] == '"' && p[|p| - 1] == '"') || (p[0] == '\'' && p[|p| - 1] == '\''))
    ensures UnquotePath(p) == p
  {
    StripOfTrimmed(p);
  }

  lemma StripOfTrimmed(t: string)
    requires Trimmed(t)
    ensures Strip(t) == t
  {
    StripPadded([], t, []);
    assert [] + t + [] == t;
  }

  /** A lone quote character is taken as an empty quoted path. */
  lemma UnquoteLoneQuote()
    ensures UnquotePath("\"") == []
  {
    UnquoteUnquotedHelper();
  }

  lemma UnquoteUnquotedHelper()
    ensures Strip("\"") == "\""
  {
    StripPadded([], "\"", []);
    assert [] + "\"" + [] == "\"";
  }
}
