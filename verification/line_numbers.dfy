/**
 * The text cleaner: picks the first encoding that reads the file's first line,
 * then writes every line with a leading `^\d+\s{2}` (a line number and two
 * white-space characters) removed, to `<base>_no_line_number<ext>`.
 */
module LineNumbers {
  import opened Outcome
  import opened Text
  import Encodings
  import Paths

  const SpacesCount: nat := 2
  const EncodingsToTry: seq<Encodings.Encoding> :=
    [Encodings.Utf8, Encodings.Utf8Sig, Encodings.Cp1252, Encodings.Latin1]
  const OutputTag: string := "_no_line_number"

  /** The length of the run of digits at the start of `s`. */
  function DigitRun(s: string): (n: nat)
    ensures n <= |s| && AllDigits(s[..n])
    ensures n < |s| ==> !IsDigit(s[n])
  {
    if s == [] || !IsDigit(s[0]) then 0
    else
      var n := 1 + DigitRun(s[1..]);
      assert s[..n] == [s[0]] + s[1..][..n - 1];
      n
  }

  /** Where the regular expression can match: `k >= 1` digits, then two white-space characters. */
  predicate PatternMatchesAt(line: string, k: nat)
  {
    1 <= k && k + SpacesCount <= |line| && AllDigits(line[..k])
    && IsSpace(line[k]) && IsSpace(line[k + 1])
  }

  predicate HasLineNumber(line: string)
  {
    PatternMatchesAt(line, DigitRun(line))
  }

  /** `pattern.sub('', line)`: the anchored pattern matches at most once, at the start. */
  function StripLineNumber(line: string): (r: string)
    ensures |r| <= |line| && r == line[|line| - |r|..]
    ensures r == line <==> !HasLineNumber(line)
  {
    if HasLineNumber(line) then line[DigitRun(line) + SpacesCount..] else line
  }

  /** Digits are never white space, so the backtracking matcher can only split after the whole digit run. */
  lemma MatchIsDigitRun(line: string, k: nat)
    requires PatternMatchesAt(line, k)
    ensures k == DigitRun(line)
  {
  }

  /** The strip removes exactly the matched prefix when the pattern matches, and nothing otherwise. */
  lemma StripLineNumberSpec(line: string)
    ensures (exists k :: PatternMatchesAt(line, k)) <==> HasLineNumber(line)
    ensures forall k: nat :: PatternMatchesAt(line, k) ==> StripLineNumber(line) == line[k + SpacesCount..]
    ensures (forall k: nat :: !PatternMatchesAt(line, k)) ==> StripLineNumber(line) == line
  {
    forall k: nat | PatternMatchesAt(line, k) ensures k == DigitRun(line) {
      MatchIsDigitRun(line, k);
    }
  }

  /** Only one prefix goes per line: `"1  2  x"` becomes `"2  x"`, so stripping twice differs from once. */
  lemma StripOnlyOnce(line: string)
    requires line == "1  2  x"
    ensures StripLineNumber(line) == "2  x"
    ensures StripLineNumber(StripLineNumber(line)) == "x" != StripLineNumber(line)
  {
    assert DigitRun(line) == 1 by {
      assert line[1..] == "  2  x";
    }
    var once := line[3..];
    assert once == "2  x";
    assert DigitRun(once) == 1 by {
      assert once[1..] == "  x";
    }
  }

  /** The newline counts as white space: `"7 \n"` becomes the empty string. */
  lemma StripNewlineCounts(line: string)
    requires line == "7 \n"
    ensures StripLineNumber(line) == ""
  {
    assert line[0] == '7' && line[1] == ' ' && line[2] == '\n';
    assert DigitRun(line[1..]) == 0;
    assert IsSpace(line[1]) && IsSpace(line[2]);
    assert line[3..] == [];
  }

  /** One white-space character after the digits is not enough. */
  lemma StripNeedsTwoSpaces(line: string)
    requires line == "12 x"
    ensures StripLineNumber(line) == line
  {
    assert line[1..][1..] == " x";
    assert DigitRun(line[1..][1..]) == 0;
    assert DigitRun(line[1..]) == 1;
    assert !IsSpace(line[3]);
  }

  /** The text the cleaner writes for `lines`: the cleaned lines, concatenated in order. */
  function Cleaned(lines: seq<string>): string
  {
    if lines == [] then [] else Cleaned(lines[..|lines| - 1]) + StripLineNumber(lines[|lines| - 1])
  }

  function Concat(lines: seq<string>): string
  {
    if lines == [] then [] else Concat(lines[..|lines| - 1]) + lines[|lines| - 1]
  }

  /** Cleaning never lengthens the text, and leaves unnumbered text exactly as it was. */
  lemma {:induction false} CleanedBounds(lines: seq<string>)
    ensures |Cleaned(lines)| <= |Concat(lines)|
    ensures (forall i :: 0 <= i < |lines| ==> !HasLineNumber(lines[i])) ==> Cleaned(lines) == Concat(lines)
  {
    if lines != [] {
      CleanedBounds(lines[..|lines| - 1]);
    }
  }

  /** The per-line rewrite loop. */
  method RewriteLines(lines: seq<string>) returns (out: string)
    ensures out == Cleaned(lines)
  {
    out := [];
    for i := 0 to |lines|
      invariant out == Cleaned(lines[..i])
    {
      assert lines[..i + 1][..i] == lines[..i];
      out := out + StripLineNumber(lines[i]);
    }
    assert lines[..|lines|] == lines;
  }

  /**
   * The `for ... else` encoding search: `readsFirstLine(e)` says whether opening
   * the file with `e` and reading one line succeeds. None is the error exit.
   */
  method ChooseEncoding(candidates: seq<Encodings.Encoding>, readsFirstLine: Encodings.Encoding -> bool)
    returns (r: Option<Encodings.Encoding>)
    ensures r.None? <==> forall i :: 0 <= i < |candidates| ==> !readsFirstLine(candidates[i])
    ensures r.Some? ==> exists i :: 0 <= i < |candidates| && candidates[i] == r.value
                                     && readsFirstLine(r.value)
                                     && forall j :: 0 <= j < i ==> !readsFirstLine(candidates[j])
    ensures Encodings.Latin1 in candidates && readsFirstLine(Encodings.Latin1) ==> r.Some?
  {
    for i := 0 to |candidates|
      invariant forall j :: 0 <= j < i ==> !readsFirstLine(candidates[j])
    {
      if readsFirstLine(candidates[i]) {
        return Some(candidates[i]);
      }
    }
    return None;
  }

  /** latin-1 maps every byte to a character, so with it last in the list the search cannot fail. */
  /** The output path: the input's base, the tag, then the input's last extension. */
  function OutputPath(input: string): (r: string)
    ensures var base := Paths.SplitExt(input).0;
            |r| == |input| + |OutputTag| && r[..|base|] == base
            && r[|base|..|base| + |OutputTag|] == OutputTag
            && r[..|base|] + r[|base| + |OutputTag|..] == input
  {
    Paths.TaggedPathRoundTrip(input, OutputTag);
    Paths.TaggedPath(input, OutputTag)
  }
}
