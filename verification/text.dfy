/**
 * Character and string primitives with the meaning Python gives them in the scripts:
 * `str.isspace` (also used by `str.strip` and by `\s` in a str pattern), `str.split`
 * on one character, `str(int)` and `int(str)`.
 */
module Text {
  import opened Outcome

  /** Python's `str.isspace()`: the Unicode white-space characters. */
  predicate IsSpace(c: char)
  {
    || c == ' '
    || ('\t' <= c <= '\r')
    || ('\U{1C}' <= c <= '\U{1F}')
    || c == '\U{85}' || c == '\U{A0}' || c == '\U{1680}'
    || ('\U{2000}' <= c <= '\U{200A}')
    || c == '\U{2028}' || c == '\U{2029}' || c == '\U{202F}' || c == '\U{205F}' || c == '\U{3000}'
  }

  predicate AllSpace(s: string)
  {
    forall i :: 0 <= i < |s| ==> IsSpace(s[i])
  }

  /** True of a string with no white space at either end (what `str.strip` returns). */
  predicate Trimmed(s: string)
  {
    s == [] || (!IsSpace(s[0]) && !IsSpace(s[|s| - 1]))
  }

  predicate IsDigit(c: char)
  {
    '0' <= c <= '9'
  }

  predicate AllDigits(s: string)
  {
    forall i :: 0 <= i < |s| ==> IsDigit(s[i])
  }

  /** The number of white-space characters at the start of `s`. */
  function LeadingSpaces(s: string): (n: nat)
    ensures n <= |s|
    ensures forall i :: 0 <= i < n ==> IsSpace(s[i])
    ensures n < |s| ==> !IsSpace(s[n])
  {
    if s == [] || !IsSpace(s[0]) then 0 else 1 + LeadingSpaces(s[1..])
  }

  /** The number of white-space characters at the end of `s`. */
  function TrailingSpaces(s: string): (n: nat)
    ensures n <= |s|
    ensures forall i :: |s| - n <= i < |s| ==> IsSpace(s[i])
    ensures n < |s| ==> !IsSpace(s[|s| - 1 - n])
  {
    if s == [] || !IsSpace(s[|s| - 1]) then 0 else 1 + TrailingSpaces(s[..|s| - 1])
  }

  /** Python's `str.strip()` without arguments. */
  function Strip(s: string): (r: string)
    ensures Trimmed(r)
    ensures AllSpace(s) ==> r == []
    ensures |r| <= |s|
  {
    var rest := s[LeadingSpaces(s)..];
    assert rest != [] ==> !IsSpace(rest[0]);
    rest[..|rest| - TrailingSpaces(rest)]
  }

  /** `strip` cuts `s` into white space, the result, and white space. */
  lemma StripSplits(s: string)
    ensures exists a, b :: 0 <= a <= b <= |s| && s[a..b] == Strip(s) && AllSpace(s[..a]) && AllSpace(s[b..])
  {
    var a := LeadingSpaces(s);
    var rest := s[a..];
    var b := a + |rest| - TrailingSpaces(rest);
    assert s[a..b] == Strip(s);
    assert AllSpace(s[b..]) by {
      forall i | 0 <= i < |s[b..]| ensures IsSpace(s[b..][i]) {
        assert s[b..][i] == rest[|rest| - TrailingSpaces(rest) + i];
      }
    }
  }

  lemma {:induction false} LeadingSpacesOfPadded(w: string, t: string)
    requires AllSpace(w) && t != [] && !IsSpace(t[0])
    ensures LeadingSpaces(w + t) == |w|
  {
    if w != [] {
      assert (w + t)[1..] == w[1..] + t;
      LeadingSpacesOfPadded(w[1..], t);
    }
  }

  lemma {:induction false} TrailingSpacesOfPadded(t: string, w: string)
    requires AllSpace(w) && t != [] && !IsSpace(t[|t| - 1])
    ensures TrailingSpaces(t + w) == |w|
  {
    if w != [] {
      assert (t + w)[..|t + w| - 1] == t + w[..|w| - 1];
      TrailingSpacesOfPadded(t, w[..|w| - 1]);
    }
  }

  /** `strip` removes exactly the white space around a trimmed string. */
  lemma StripPadded(w1: string, t: string, w2: string)
    requires AllSpace(w1) && AllSpace(w2) && Trimmed(t)
    ensures Strip(w1 + t + w2) == t
  {
    var s := w1 + t + w2;
    if t == [] {
      assert AllSpace(s) by {
        forall i | 0 <= i < |s| ensures IsSpace(s[i]) {
          if i < |w1| { assert s[i] == w1[i]; } else { assert s[i] == w2[i - |w1|]; }
        }
      }
    } else {
      assert s == w1 + (t + w2);
      LeadingSpacesOfPadded(w1, t + w2);
      assert s[|w1|..] == t + w2;
      TrailingSpacesOfPadded(t, w2);
    }
  }

  lemma StripIdempotent(s: string)
    ensures Strip(Strip(s)) == Strip(s)
  {
    var t := Strip(s);
    StripPadded([], t, []);
    assert [] + t + [] == t;
  }

  /** ASCII case folding; Python's `str.lower` on the ASCII letters. */
  function LowerChar(c: char): char
  {
    if 'A' <= c <= 'Z' then (c as int + 32) as char else c
  }

  function Lower(s: string): (r: string)
    ensures |r| == |s|
    ensures forall i :: 0 <= i < |s| ==> r[i] == LowerChar(s[i])
  {
    if s == [] then [] else [LowerChar(s[0])] + Lower(s[1..])
  }

  predicate StartsWith<T(==)>(s: seq<T>, prefix: seq<T>)
  {
    |prefix| <= |s| && s[..|prefix|] == prefix
  }

  predicate EndsWith<T(==)>(s: seq<T>, suffix: seq<T>)
  {
    |suffix| <= |s| && s[|s| - |suffix|..] == suffix
  }

  /** Python's `s.split(sep)` for a one-character separator. */
  function Split(s: string, sep: char): (r: seq<string>)
    ensures |r| >= 1
    ensures forall i :: 0 <= i < |r| ==> sep !in r[i]
  {
    if s == [] then [[]]
    else
      var rest := Split(s[1..], sep);
      if s[0] == sep then [[]] + rest else [[s[0]] + rest[0]] + rest[1..]
  }

  /** Python's `sep.join(parts)`. */
  function Join(parts: seq<string>, sep: char): string
  {
    if |parts| == 0 then []
    else if |parts| == 1 then parts[0]
    else parts[0] + [sep] + Join(parts[1..], sep)
  }

  lemma {:induction false} JoinSplit(s: string, sep: char)
    ensures Join(Split(s, sep), sep) == s
  {
    if s != [] {
      var rest := Split(s[1..], sep);
      JoinSplit(s[1..], sep);
      if s[0] == sep {
        assert Split(s, sep) == [[]] + rest;
      } else {
        var r := Split(s, sep);
        assert r == [[s[0]] + rest[0]] + rest[1..];
        if |rest| == 1 {
          assert Join(r, sep) == [s[0]] + rest[0];
        } else {
          assert Join(rest, sep) == rest[0] + [sep] + Join(rest[1..], sep);
          assert r[1..] == rest[1..];
        }
      }
    }
  }

  lemma {:induction false} SplitSingle(p: string, sep: char)
    requires sep !in p
    ensures Split(p, sep) == [p]
  {
    if p != [] {
      SplitSingle(p[1..], sep);
      assert [p[0]] + p[1..] == p;
    }
  }

  lemma {:induction false} SplitAtSeparator(p: string, sep: char, t: string)
    requires sep !in p
    ensures Split(p + [sep] + t, sep) == [p] + Split(t, sep)
  {
    if p == [] {
      assert p + [sep] + t == [sep] + t;
      assert ([sep] + t)[1..] == t;
    } else {
      var s := p + [sep] + t;
      assert s[1..] == p[1..] + [sep] + t;
      SplitAtSeparator(p[1..], sep, t);
      assert [p[0]] + p[1..] == p;
    }
  }

  /** Splitting a join of separator-free parts gives the parts back. */
  lemma {:induction false} SplitJoin(parts: seq<string>, sep: char)
    requires |parts| >= 1
    requires forall i :: 0 <= i < |parts| ==> sep !in parts[i]
    ensures Split(Join(parts, sep), sep) == parts
  {
    if |parts| == 1 {
      SplitSingle(parts[0], sep);
    } else {
      SplitJoin(parts[1..], sep);
      SplitAtSeparator(parts[0], sep, Join(parts[1..], sep));
      assert [parts[0]] + parts[1..] == parts;
    }
  }

  /** `s.split(sep)[i]`, or None where Python raises IndexError. */
  function Field(s: string, sep: char, i: nat): Option<string>
  {
    var parts := Split(s, sep);
    if i < |parts| then Some(parts[i]) else None
  }

  function DigitChar(d: nat): (c: char)
    requires d < 10
    ensures IsDigit(c)
  {
    ('0' as int + d) as char
  }

  function DigitValue(c: char): nat
    requires IsDigit(c)
  {
    c as int - '0' as int
  }

  /** Python's `str(n)` for n >= 0. */
  function NatToString(n: nat): (r: string)
    ensures |r| >= 1 && AllDigits(r)
    ensures |r| > 1 ==> r[0] != '0'
    ensures n < 10 <==> |r| == 1
    ensures 10 <= n < 100 ==> |r| == 2
  {
    if n < 10 then [DigitChar(n)] else NatToString(n / 10) + [DigitChar(n % 10)]
  }

  /** Python's `str(n)`. */
  function IntToString(n: int): (r: string)
    ensures |r| >= 1
    ensures r[0] == '-' <==> n < 0
  {
    if n < 0 then "-" + NatToString(-n) else NatToString(n)
  }

  /** Python's `f"{n:02d}"` for n >= 0. */
  function Format02(n: nat): (r: string)
    ensures |r| >= 2 && AllDigits(r)
    ensures n < 100 ==> |r| == 2
  {
    if n < 10 then "0" + NatToString(n) else NatToString(n)
  }

  /** The digits of a literal that `int()` accepts: digits, single underscores between digits. */
  predicate DigitGroups(s: string)
  {
    && |s| > 0 && IsDigit(s[0]) && IsDigit(s[|s| - 1])
    && DigitsOrUnderscores(s)
    && forall i :: 0 <= i < |s| && s[i] == '_' ==> i + 1 < |s| && IsDigit(s[i + 1])
  }

  predicate DigitsOrUnderscores(s: string)
  {
    forall i :: 0 <= i < |s| ==> IsDigit(s[i]) || s[i] == '_'
  }

  /** The value of a run of digits and underscores, underscores ignored. */
  function GroupsValue(s: string): nat
    requires DigitsOrUnderscores(s)
  {
    if s == [] then 0
    else if s[|s| - 1] == '_' then GroupsValue(s[..|s| - 1])
    else GroupsValue(s[..|s| - 1]) * 10 + DigitValue(s[|s| - 1])
  }

  /** Python's `int(s)` on a str: None where it raises ValueError (ASCII digits only). */
  function ParseInt(s: string): (r: Option<int>)
    ensures AllSpace(s) ==> r.None?
  {
    ParseTrimmed(Strip(s))
  }

  /** `int()` after the surrounding whitespace is gone: an optional sign, then digit groups. */
  function ParseTrimmed(t: string): Option<int> {
    if |t| > 0 && (t[0] == '+' || t[0] == '-') then
      if DigitGroups(t[1..]) then
        var v: int := GroupsValue(t[1..]);
        Some(if t[0] == '-' then -v else v)
      else None
    else if DigitGroups(t) then Some(GroupsValue(t))
    else None
  }

  function Pow10(k: nat): (r: nat)
    ensures r >= 1
  {
    if k == 0 then 1 else 10 * Pow10(k - 1)
  }

  lemma {:induction false} Pow10Monotone(j: nat, k: nat)
    requires j <= k
    ensures Pow10(j) <= Pow10(k)
    decreases k
  {
    if j < k {
      Pow10Monotone(j, k - 1);
    }
  }

  /** A run of `k` digits and underscores is worth less than `10^k`. */
  lemma {:induction false} GroupsValueBound(s: string)
    requires DigitsOrUnderscores(s)
    ensures GroupsValue(s) < Pow10(|s|)
  {
    if s != [] {
      var init := s[..|s| - 1];
      assert DigitsOrUnderscores(init) by {
        forall i | 0 <= i < |init| ensures IsDigit(init[i]) || init[i] == '_' {
          assert init[i] == s[i];
        }
      }
      GroupsValueBound(init);
      var v := GroupsValue(init);
      var p := Pow10(|init|);
      assert Pow10(|s|) == 10 * p;
      if s[|s| - 1] != '_' {
        assert v * 10 <= (p - 1) * 10;
      }
    }
  }

  /** `int()` of a string of `k` characters lies strictly between `-10^(k-1)` and `10^k`. */
  lemma {:induction false} ParseIntBound(s: string)
    requires ParseInt(s).Some?
    ensures |s| >= 1
    ensures -(Pow10(|s| - 1) as int) < ParseInt(s).value < Pow10(|s|)
  {
    var t := Strip(s);
    assert |t| <= |s|;
    TrimmedBound(t, |s|);
  }

  lemma {:induction false} TrimmedBound(t: string, k: nat)
    requires ParseTrimmed(t).Some? && |t| <= k
    ensures k >= 1
    ensures -(Pow10(k - 1) as int) < ParseTrimmed(t).value < Pow10(k)
  {
    if |t| > 0 && (t[0] == '+' || t[0] == '-') {
      SignedBound(t, k);
      Pow10Monotone(k - 1, k);
    } else {
      assert DigitGroups(t);
      UnsignedBound(t, k);
    }
  }

  lemma SignedBound(t: string, k: nat)
    requires 0 < |t| <= k && DigitGroups(t[1..])
    ensures GroupsValue(t[1..]) < Pow10(k - 1)
  {
    GroupsValueBound(t[1..]);
    Pow10Monotone(|t| - 1, k - 1);
  }

  lemma UnsignedBound(t: string, k: nat)
    requires |t| <= k && DigitGroups(t)
    ensures GroupsValue(t) < Pow10(k)
  {
    GroupsValueBound(t);
    Pow10Monotone(|t|, k);
  }

  lemma {:induction false} NatToStringValue(n: nat)
    ensures GroupsValue(NatToString(n)) == n
  {
    if n >= 10 {
      var r := NatToString(n);
      assert r[..|r| - 1] == NatToString(n / 10);
      NatToStringValue(n / 10);
    }
  }

  lemma DigitsTrimmed(s: string)
    requires |s| >= 1 && AllDigits(s)
    ensures Trimmed(s) && Strip(s) == s
  {
    StripPadded([], s, []);
    assert [] + s + [] == s;
  }

  lemma ParseUnsigned(digits: string)
    requires DigitGroups(digits) && Strip(digits) == digits
    ensures ParseInt(digits) == Some(GroupsValue(digits))
  {
  }

  lemma {:induction false} ParseNegative(digits: string)
    requires DigitGroups(digits) && Strip("-" + digits) == "-" + digits
    ensures ParseInt("-" + digits) == Some(0 - GroupsValue(digits) as int)
  {
    var t := "-" + digits;
    assert t[0] == '-' && t[1..] == digits;
    var v: int := GroupsValue(digits);
    assert ParseInt(t) == Some(-v);
  }

  lemma NegativeTrimmed(digits: string)
    requires |digits| >= 1 && AllDigits(digits)
    ensures Strip("-" + digits) == "-" + digits
  {
    var s := "-" + digits;
    assert Trimmed(s) by { assert s[|s| - 1] == digits[|digits| - 1]; }
    StripPadded([], s, []);
    assert [] + s + [] == s;
  }

  /** `str(n)` holds only digits and a leading minus sign, so it contains no other separator. */
  lemma IntToStringAvoids(n: int, c: char)
    requires c != '-' && !IsDigit(c)
    ensures c !in IntToString(n)
  {
    if n < 0 {
      var d := NatToString(-n);
      assert IntToString(n) == "-" + d;
      assert forall i :: 0 <= i < |d| ==> d[i] != c;
    }
  }

  /** `int(str(n)) == n`: the decimal form the scripts write is read back as the same number. */
  lemma IntToStringRoundTrip(n: int)
    ensures ParseInt(IntToString(n)) == Some(n)
  {
    var m: nat := if n < 0 then -n else n;
    var digits := NatToString(m);
    NatToStringValue(m);
    assert DigitGroups(digits);
    if n < 0 {
      NegativeTrimmed(digits);
      ParseNegative(digits);
    } else {
      DigitsTrimmed(digits);
      ParseUnsigned(digits);
    }
  }
}
