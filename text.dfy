/** The small part of Python's `str` that the crawler, the chunk filter and the
    answer post-processing rely on: `strip()`, `strip(chars)`, `split(sep)`,
    `sep.join(...)`, `in`, `replace(old, "")`, `lower()` and `str(n)` for a
    natural number. Strings are sequences of Unicode code points, as in Python 3. */
module Text {

  datatype Option<T> = None | Some(value: T)

  /** Python's `str.isspace()` for a single code point: the characters
      `str.strip()` without arguments removes. */
  predicate IsSpace(c: char) {
    ('\t' <= c <= '\r') || ('\U{001C}' <= c <= ' ') || c == '\U{0085}' || c == '\U{00A0}' ||
    c == '\U{1680}' || ('\U{2000}' <= c <= '\U{200A}') || c == '\U{2028}' || c == '\U{2029}' ||
    c == '\U{202F}' || c == '\U{205F}' || c == '\U{3000}'
  }

  /** No character of `s` at either end satisfies `drop`. */
  predicate TrimmedBy(s: string, drop: char -> bool) {
    s == [] || (!drop(s[0]) && !drop(s[|s| - 1]))
  }

  predicate IsStripped(s: string) {
    TrimmedBy(s, IsSpace)
  }

  /** Removes the trailing run of characters satisfying `drop`. */
  function TrimEnd(s: string, drop: char -> bool): (r: string)
    ensures |r| <= |s| && r == s[..|r|]
    ensures r == [] || !drop(r[|r| - 1])
    ensures forall i :: |r| <= i < |s| ==> drop(s[i])
    decreases |s|
  {
    if s != [] && drop(s[|s| - 1]) then TrimEnd(s[..|s| - 1], drop) else s
  }

  /** The length of the leading run of characters satisfying `drop`. */
  function LeadingRun(s: string, drop: char -> bool): (n: nat)
    ensures n <= |s| && (n == |s| || !drop(s[n]))
    ensures forall k :: 0 <= k < n ==> drop(s[k])
    decreases |s|
  {
    if s != [] && drop(s[0]) then 1 + LeadingRun(s[1..], drop) else 0
  }

  /** Python's `s.strip(chars)`, with the set of characters given as a predicate:
      the result is the slice of `s` left once both maximal runs of dropped
      characters are removed. */
  function StripBy(s: string, drop: char -> bool): (r: string)
    ensures TrimmedBy(r, drop)
    ensures var i := LeadingRun(s, drop);
            i + |r| <= |s| && r == s[i..i + |r|] &&
            (r == [] ==> i == |s|) &&
            (forall k :: i + |r| <= k < |s| ==> drop(s[k]))
  {
    var i := LeadingRun(s, drop);
    var r := TrimEnd(s[i..], drop);
    assert r == s[i..][..|r|];
    assert r == s[i..i + |r|];
    r
  }

  /** Python's `s.strip()`. */
  function Strip(s: string): (r: string)
    ensures IsStripped(r) && |r| <= |s|
  {
    StripBy(s, IsSpace)
  }

  /** A string that is already trimmed is left alone: stripping is idempotent. */
  lemma {:induction false} StripByTrimmed(s: string, drop: char -> bool)
    requires TrimmedBy(s, drop)
    ensures StripBy(s, drop) == s
  {
    assert LeadingRun(s, drop) == 0;
    assert s[0..] == s;
    assert TrimEnd(s, drop) == s;
  }

  /** Every character of `StripBy(s, drop)` is a character of `s`. */
  lemma StripByChars(s: string, drop: char -> bool, c: char)
    ensures c in StripBy(s, drop) ==> c in s
  {
    var r := StripBy(s, drop);
    if c in r {
      var i := LeadingRun(s, drop);
      var k :| 0 <= k < |r| && r[k] == c;
      assert s[i + k] == c;
    }
  }

  /** Python's `s.split(sep)` for a one-character separator. */
  function Split(s: string, sep: char): (parts: seq<string>)
    ensures |parts| >= 1
    decreases |s|
  {
    if s == [] then [""]
    else
      var rest := Split(s[1..], sep);
      if s[0] == sep then [""] + rest
      else [[s[0]] + rest[0]] + rest[1..]
  }

  /** No part holds the separator. */
  lemma {:induction false} SplitPartsLackSep(s: string, sep: char)
    ensures forall k :: 0 <= k < |Split(s, sep)| ==> sep !in Split(s, sep)[k]
    decreases |s|
  {
    if s != [] {
      SplitPartsLackSep(s[1..], sep);
      var rest := Split(s[1..], sep);
      if s[0] != sep {
        var first := [s[0]] + rest[0];
        assert sep !in first by {
          forall j | 0 <= j < |first| ensures first[j] != sep {
            if j > 0 { assert first[j] == rest[0][j - 1]; }
          }
        }
        assert forall k :: 1 <= k < |Split(s, sep)| ==> Split(s, sep)[k] == rest[k];
      } else {
        assert forall k :: 1 <= k < |Split(s, sep)| ==> Split(s, sep)[k] == rest[k - 1];
      }
    }
  }

  /** Python's `sep.join(parts)`. */
  function Join(parts: seq<string>, sep: string): (r: string)
    ensures |parts| == 1 ==> r == parts[0]
    ensures parts != [] ==> parts[0] <= r
    decreases |parts|
  {
    if parts == [] then ""
    else if |parts| == 1 then parts[0]
    else parts[0] + sep + Join(parts[1..], sep)
  }

  /** Splitting and joining on the same separator are inverse. */
  lemma {:induction false} JoinSplit(s: string, sep: char)
    ensures Join(Split(s, sep), [sep]) == s
    decreases |s|
  {
    if s != [] {
      var rest := Split(s[1..], sep);
      JoinSplit(s[1..], sep);
      assert s == [s[0]] + s[1..];
      if s[0] == sep {
        SplitConsSep(s[1..], sep);
        assert ([""] + rest)[1..] == rest;
      } else {
        SplitConsOther(s[0], s[1..], sep);
        JoinGlue(s[0], rest, [sep]);
      }
    }
  }

  /** Gluing a character to the first part puts it in front of the joined text. */
  lemma JoinGlue(c: char, parts: seq<string>, sep: string)
    requires |parts| >= 1
    ensures Join([[c] + parts[0]] + parts[1..], sep) == [c] + Join(parts, sep)
  {
    var glued := [[c] + parts[0]] + parts[1..];
    assert glued[0] == [c] + parts[0] && glued[1..] == parts[1..];
    if |parts| > 1 {
      AppendAssoc([c], parts[0] + sep, Join(parts[1..], sep));
    }
  }

  /** A string without the separator is a single part. */
  lemma {:induction false} SplitWithout(s: string, sep: char)
    requires sep !in s
    ensures Split(s, sep) == [s]
    decreases |s|
  {
    if s != [] {
      assert sep !in s[1..] by {
        forall k | 0 <= k < |s[1..]| ensures s[1..][k] != sep { assert s[1..][k] == s[k + 1]; }
      }
      SplitWithout(s[1..], sep);
      assert [s[0]] + s[1..] == s;
    }
  }

  /** A leading separator ends an empty first part. */
  lemma SplitConsSep(t: string, sep: char)
    ensures Split([sep] + t, sep) == [""] + Split(t, sep)
  {
    assert ([sep] + t)[1..] == t;
  }

  /** Any other leading character joins the first part. */
  lemma SplitConsOther(c: char, t: string, sep: char)
    requires c != sep
    ensures Split([c] + t, sep) == [[c] + Split(t, sep)[0]] + Split(t, sep)[1..]
  {
    assert ([c] + t)[1..] == t;
  }

  /** A separator in the middle splits the parts of each side apart. */
  lemma {:induction false} SplitAround(a: string, b: string, sep: char)
    ensures Split(a + [sep] + b, sep) == Split(a, sep) + Split(b, sep)
    decreases |a|
  {
    if a == [] {
      assert a + [sep] + b == [sep] + b;
      SplitConsSep(b, sep);
    } else {
      SplitAround(a[1..], b, sep);
      SplitAroundStep(a[0], a[1..], b, sep);
      assert [a[0]] + a[1..] == a;
      assert a + [sep] + b == [a[0]] + (a[1..] + [sep] + b);
    }
  }

  /** The step of `SplitAround`: one more character in front of the left side. */
  lemma SplitAroundStep(c: char, t: string, b: string, sep: char)
    requires Split(t + [sep] + b, sep) == Split(t, sep) + Split(b, sep)
    ensures Split([c] + (t + [sep] + b), sep) == Split([c] + t, sep) + Split(b, sep)
  {
    var right := t + [sep] + b;
    if c == sep {
      SplitConsSep(right, sep);
      SplitConsSep(t, sep);
      AppendAssoc([""], Split(t, sep), Split(b, sep));
    } else {
      SplitConsOther(c, right, sep);
      SplitConsOther(c, t, sep);
      GlueFirst([c], Split(right, sep), Split(t, sep), Split(b, sep));
    }
  }

  lemma AppendAssoc<T>(x: seq<T>, y: seq<T>, z: seq<T>)
    ensures x + (y + z) == (x + y) + z
  {
  }

  lemma GlueFirst(front: string, whole: seq<string>, rest: seq<string>, tail: seq<string>)
    requires whole == rest + tail && |rest| >= 1
    ensures [front + whole[0]] + whole[1..] == ([front + rest[0]] + rest[1..]) + tail
  {
    assert whole[1..] == rest[1..] + tail;
  }

  /** `pat` occurs in `s` at position `i`. */
  predicate OccursAt(s: string, pat: string, i: nat) {
    i + |pat| <= |s| && s[i..i + |pat|] == pat
  }

  /** Python's `s.startswith(pat)`. */
  predicate StartsWith(s: string, pat: string) {
    |pat| <= |s| && s[..|pat|] == pat
  }

  /** Python's `pat in s`. */
  predicate Contains(s: string, pat: string)
    ensures Contains(s, pat) ==> |pat| <= |s|
    decreases |s|
  {
    StartsWith(s, pat) || (s != [] && Contains(s[1..], pat))
  }

  /** A string contains whatever is written in its middle. */
  lemma ContainsMiddle(before: string, pat: string, after: string)
    ensures Contains(before + pat + after, pat)
  {
    var s := before + pat + after;
    assert s[|before|..|before| + |pat|] == pat;
    assert OccursAt(s, pat, |before|);
    ContainsIffOccurs(s, pat);
  }

  /** Python's `s.find(pat)` when `pat in s`: the first position of `pat`. */
  function FirstOccurrence(s: string, pat: string): (i: nat)
    requires Contains(s, pat)
    ensures OccursAt(s, pat, i)
    ensures forall j :: 0 <= j < i ==> !OccursAt(s, pat, j)
    decreases |s|
  {
    if StartsWith(s, pat) then
      assert s[0..|pat|] == pat;
      0
    else
      var j := FirstOccurrence(s[1..], pat);
      TailSlice(s, j, |pat|);
      assert !OccursAt(s, pat, 0) by { assert s[0..|pat|] == s[..|pat|]; }
      TailOccurrences(s, pat, j);
      j + 1
  }

  /** Below `j + 1`, the occurrences of `pat` in `s` past position 0 are those
      in `s[1..]` below `j`, one place further right. */
  lemma TailOccurrences(s: string, pat: string, j: nat)
    requires s != [] && forall m :: 0 <= m < j ==> !OccursAt(s[1..], pat, m)
    ensures forall m :: 1 <= m < j + 1 ==> !OccursAt(s, pat, m)
  {
    forall m | 1 <= m < j + 1 ensures !OccursAt(s, pat, m) {
      if OccursAt(s, pat, m) {
        assert s[1..][m - 1..m - 1 + |pat|] == s[m..m + |pat|];
        assert OccursAt(s[1..], pat, m - 1);
      }
    }
  }

  /** A slice of the tail is the slice one position further along. */
  lemma TailSlice(s: string, j: nat, n: nat)
    requires s != [] && j + n <= |s| - 1
    ensures s[1..][j..j + n] == s[j + 1..j + 1 + n]
  {
  }

  /** An occurrence at any position makes `Contains` hold. */
  lemma {:induction false} OccursContained(s: string, pat: string, i: nat)
    requires OccursAt(s, pat, i)
    ensures Contains(s, pat)
    decreases i
  {
    if i == 0 {
      assert s[..|pat|] == s[0..|pat|];
    } else {
      TailSlice(s, i - 1, |pat|);
      OccursContained(s[1..], pat, i - 1);
    }
  }

  /** `Contains` holds exactly when there is a position where `pat` occurs. */
  lemma ContainsIffOccurs(s: string, pat: string)
    ensures Contains(s, pat) <==> exists i: nat :: OccursAt(s, pat, i)
  {
    if Contains(s, pat) {
      var i := FirstOccurrence(s, pat);
      assert OccursAt(s, pat, i);
    }
    if exists i: nat :: OccursAt(s, pat, i) {
      var i: nat :| OccursAt(s, pat, i);
      OccursContained(s, pat, i);
    }
  }

  /** A pattern holding a character the string lacks does not occur in it. */
  lemma {:induction false} MissingCharNotContained(s: string, pat: string, c: char)
    requires c in pat && c !in s
    ensures !Contains(s, pat)
    decreases |s|
  {
    assert !StartsWith(s, pat) by {
      if |pat| <= |s| {
        var k :| 0 <= k < |pat| && pat[k] == c;
        assert s[..|pat|][k] == s[k] != pat[k];
      }
    }
    if s != [] {
      assert c !in s[1..] by {
        forall k | 0 <= k < |s[1..]| ensures s[1..][k] != c { assert s[1..][k] == s[k + 1]; }
      }
      MissingCharNotContained(s[1..], pat, c);
    }
  }

  /** Python's `s.replace(pat, "")`: scanning from the left, every occurrence
      of `pat` that does not overlap an earlier removed one is removed. */
  function RemoveAll(s: string, pat: string): (r: string)
    requires pat != []
    ensures |r| <= |s|
  {
    RemoveFrom(s, pat, 0)
  }

  /** The scan of `RemoveAll` from position `i` on. */
  function RemoveFrom(s: string, pat: string, i: nat): (r: string)
    requires pat != [] && i <= |s|
    ensures |r| <= |s| - i
    decreases |s| - i
  {
    if |s| - i < |pat| then s[i..]
    else if OccursAt(s, pat, i) then RemoveFrom(s, pat, i + |pat|)
    else [s[i]] + RemoveFrom(s, pat, i + 1)
  }

  /** Removing a pattern that does not occur changes nothing. */
  lemma RemoveAbsent(s: string, pat: string)
    requires pat != [] && !Contains(s, pat)
    ensures RemoveAll(s, pat) == s
  {
    ContainsIffOccurs(s, pat);
    RemoveAbsentFrom(s, pat, 0);
  }

  lemma {:induction false} RemoveAbsentFrom(s: string, pat: string, i: nat)
    requires pat != [] && i <= |s| && forall j: nat :: !OccursAt(s, pat, j)
    ensures RemoveFrom(s, pat, i) == s[i..]
    decreases |s| - i
  {
    if |s| - i >= |pat| {
      assert !OccursAt(s, pat, i);
      RemoveAbsentFrom(s, pat, i + 1);
      assert [s[i]] + s[i + 1..] == s[i..];
    }
  }

  /** A position where `s` and `pat` differ at offset `k` is not an occurrence. */
  lemma MismatchNotOccurs(s: string, pat: string, i: nat, k: nat)
    requires i + |pat| <= |s| && k < |pat| && s[i + k] != pat[k]
    ensures !OccursAt(s, pat, i)
  {
    assert s[i..i + |pat|][k] == s[i + k];
  }

  /** A position where no occurrence starts keeps its character. */
  lemma KeepAt(s: string, pat: string, j: nat)
    requires pat != [] && j + |pat| <= |s| && !OccursAt(s, pat, j)
    ensures RemoveFrom(s, pat, j) == [s[j]] + RemoveFrom(s, pat, j + 1)
  {
  }

  /** The scan keeps every character of a stretch where no occurrence starts. */
  lemma {:induction false} KeptRun(s: string, pat: string, j: nat, n: nat)
    requires pat != [] && j <= n && n + |pat| <= |s|
    requires forall k :: j <= k < n ==> !OccursAt(s, pat, k)
    ensures RemoveFrom(s, pat, j) == s[j..n] + RemoveFrom(s, pat, n)
    decreases n - j
  {
    if j < n {
      KeptRun(s, pat, j + 1, n);
      KeepAt(s, pat, j);
      ConsSlice(s, j, n, RemoveFrom(s, pat, n));
    }
  }

  lemma ConsSlice(s: string, j: nat, n: nat, rest: string)
    requires j < n <= |s|
    ensures [s[j]] + (s[j + 1..n] + rest) == s[j..n] + rest
  {
    assert [s[j]] + s[j + 1..n] == s[j..n];
  }

  /** The KELVIN SIGN, U+212A, which Python lowers to the ASCII letter `k`. */
  const KelvinSign: char := '\U{212A}'

  /** Python's `c.lower()` on every character whose lower case is an ASCII
      letter on its own: the ASCII capitals and the KELVIN SIGN. */
  function LowerChar(c: char): (d: char)
    ensures 'A' <= c <= 'Z' ==> 'a' <= d <= 'z' && d as int - c as int == 32
    ensures c == KelvinSign ==> d == 'k'
    ensures !('A' <= c <= 'Z') && c != KelvinSign ==> d == c
  {
    if 'A' <= c <= 'Z' then (c as int + 32) as char
    else if c == KelvinSign then 'k'
    else c
  }

  /** Python's `s.lower()`, one character for one (see `LowerChar`). */
  function Lower(s: string): (r: string)
    ensures |r| == |s| && forall k :: 0 <= k < |s| ==> r[k] == LowerChar(s[k])
  {
    seq(|s|, k requires 0 <= k < |s| => LowerChar(s[k]))
  }

  /** A character other than an ASCII capital is absent from `Lower(s)` when
      neither it nor any character lowering to it occurs in `s`. */
  lemma LowerMissing(s: string, c: char)
    requires !('A' <= c <= 'Z') && c != KelvinSign && c !in s
    requires 'a' <= c <= 'z' ==> (c as int - 32) as char !in s
    requires c == 'k' ==> KelvinSign !in s
    ensures c !in Lower(s)
  {
    forall k | 0 <= k < |s| ensures Lower(s)[k] != c {
      assert s[k] != c;
    }
  }

  function DigitChar(d: nat): (c: char)
    requires d < 10
    ensures '0' <= c <= '9' && c as int - '0' as int == d
  {
    ('0' as int + d) as char
  }

  /** Python's `str(n)` for a natural number. */
  function Decimal(n: nat): (s: string)
    ensures |s| >= 1 && forall k :: 0 <= k < |s| ==> '0' <= s[k] <= '9'
    ensures s[0] == '0' ==> n == 0
    decreases n
  {
    if n < 10 then [DigitChar(n)] else Decimal(n / 10) + [DigitChar(n % 10)]
  }

  /** Reads back a string of decimal digits. */
  function DecimalValue(s: string): nat
    requires forall k :: 0 <= k < |s| ==> '0' <= s[k] <= '9'
    decreases |s|
  {
    if s == [] then 0
    else 10 * DecimalValue(s[..|s| - 1]) + (s[|s| - 1] as int - '0' as int)
  }

  /** `str(n)` is read back as `n`. */
  lemma {:induction false} DecimalRoundTrip(n: nat)
    ensures DecimalValue(Decimal(n)) == n
    decreases n
  {
    if n >= 10 {
      DecimalRoundTrip(n / 10);
      var s := Decimal(n);
      assert s[..|s| - 1] == Decimal(n / 10);
    }
  }
}
