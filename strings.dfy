/**
  String helpers of the shared utility module: affix trimming, extension
  enforcement, first-occurrence splitting, and the decimal rendering of
  non-negative integers that the byte formatter and the version recogniser
  rely on. A string is a sequence of characters.
*/
module Strings {

  datatype Option<T> = None | Some(value: T)

  /** `s.startsWith(prefix)`. */
  predicate StartsWith(s: string, prefix: string) {
    prefix <= s
  }

  /** `s.endsWith(suffix)`. */
  predicate EndsWith(s: string, suffix: string) {
    |suffix| <= |s| && s[|s| - |suffix|..] == suffix
  }

  /** Removes `prefix` from the front of `s` when it is non-empty and present. */
  function TrimPrefix(s: string, prefix: string): (r: string)
    ensures prefix != "" && StartsWith(s, prefix) ==> prefix + r == s
    ensures prefix == "" || !StartsWith(s, prefix) ==> r == s
  {
    if prefix != "" && StartsWith(s, prefix) then s[|prefix|..] else s
  }

  /** Removes `suffix` from the end of `s` when it is non-empty and present. */
  function TrimSuffix(s: string, suffix: string): (r: string)
    ensures suffix != "" && EndsWith(s, suffix) ==> r + suffix == s
    ensures suffix == "" || !EndsWith(s, suffix) ==> r == s
  {
    if suffix != "" && EndsWith(s, suffix) then s[..|s| - |suffix|] else s
  }

  /** Appends `ext` unless `s` already ends with it. */
  function EnsureExt(s: string, ext: string): (r: string)
    ensures EndsWith(r, ext)
    ensures EndsWith(s, ext) ==> r == s
    ensures !EndsWith(s, ext) ==> r == s + ext
  {
    if EndsWith(s, ext) then s else s + ext
  }

  lemma TrimPrefixUndoesConcat(prefix: string, s: string)
    requires prefix != ""
    ensures TrimPrefix(prefix + s, prefix) == s
  {
    assert StartsWith(prefix + s, prefix);
  }

  lemma TrimSuffixUndoesConcat(s: string, suffix: string)
    requires suffix != ""
    ensures TrimSuffix(s + suffix, suffix) == s
  {
    assert (s + suffix)[|s + suffix| - |suffix|..] == suffix;
  }

  lemma EnsureExtIdempotent(s: string, ext: string)
    ensures EnsureExt(EnsureExt(s, ext), ext) == EnsureExt(s, ext)
  {
  }

  /**
    Trimming a present extension and then ensuring it gives back the original
    string, unless the extension was doubled (`"x.js.js"` comes back as `"x.js"`).
  */
  lemma EnsureExtAfterTrimSuffix(s: string, ext: string)
    requires ext != "" && EndsWith(s, ext)
    ensures !EndsWith(TrimSuffix(s, ext), ext) ==> EnsureExt(TrimSuffix(s, ext), ext) == s
    ensures EndsWith(TrimSuffix(s, ext), ext) ==> EnsureExt(TrimSuffix(s, ext), ext) == TrimSuffix(s, ext)
  {
    var t := TrimSuffix(s, ext);
    assert t + ext == s;
  }

  /** Ensuring an absent extension and then trimming it gives back the original string. */
  lemma TrimSuffixAfterEnsureExt(s: string, ext: string)
    requires ext != "" && !EndsWith(s, ext)
    ensures TrimSuffix(EnsureExt(s, ext), ext) == s
  {
    TrimSuffixUndoesConcat(s, ext);
  }

  /** `t` occurs in `s` starting at index `i`. */
  predicate OccursAt(s: string, t: string, i: nat) {
    i + |t| <= |s| && s[i..i + |t|] == t
  }

  /** `s.indexOf(t, from)`: the first index at or after `from` where `t` occurs. */
  function IndexOfFrom(s: string, t: string, from: nat): (r: Option<nat>)
    ensures r.Some? ==> from <= r.value && OccursAt(s, t, r.value)
    ensures r.Some? ==> forall j: nat :: from <= j < r.value ==> !OccursAt(s, t, j)
    ensures r.None? ==> forall j: nat :: from <= j ==> !OccursAt(s, t, j)
    decreases |s| - from
  {
    if |s| < from + |t| then None
    else if s[from..from + |t|] == t then Some(from)
    else IndexOfFrom(s, t, from + 1)
  }

  /** `s.indexOf(t)`, with -1 written as None. */
  function IndexOf(s: string, t: string): (r: Option<nat>)
  {
    IndexOfFrom(s, t, 0)
  }

  /**
    `splitBy`: the text before the first occurrence of `sep`, and the text
    after it, resuming ONE character past the start of the occurrence,
    whatever the length of `sep`.
  */
  function SplitBy(s: string, sep: string): (r: (string, string))
    ensures (forall j: nat :: !OccursAt(s, sep, j)) ==> r == (s, "")
    ensures IndexOf(s, sep).Some? ==>
              && OccursAt(s, sep, |r.0|) && r.0 <= s
              && (forall j: nat :: j < |r.0| ==> !OccursAt(s, sep, j))
              && r.1 == if |r.0| < |s| then s[|r.0| + 1..] else ""
  {
    match IndexOf(s, sep)
    case Some(i) => (s[..i], if i + 1 <= |s| then s[i + 1..] else "")
    case None => (s, "")
  }

  /** With a one-character separator the two parts rebuild the input around its first occurrence. */
  lemma SplitBySingleCharRebuilds(s: string, sep: string)
    requires |sep| == 1 && IndexOf(s, sep).Some?
    ensures SplitBy(s, sep).0 + sep + SplitBy(s, sep).1 == s
  {
    var i := IndexOf(s, sep).value;
    assert s[i..i + 1] == sep;
    assert SplitBy(s, sep) == (s[..i], s[i + 1..]);
    assert s == s[..i] + s[i..i + 1] + s[i + 1..];
  }

  /** With a one-character separator the first part never contains the separator. */
  lemma SplitBySingleCharFirstPartClean(s: string, sep: string)
    requires |sep| == 1
    ensures sep[0] !in SplitBy(s, sep).0
  {
    var first := SplitBy(s, sep).0;
    if sep[0] in first {
      var j :| 0 <= j < |first| && first[j] == sep[0];
      assert s[j..j + 1] == [s[j]];
      assert OccursAt(s, sep, j);
    }
  }

  /** The source's split rebuilds the input only for one-character separators: for "::" a colon is lost. */
  lemma SplitByLosesLongSeparator()
    ensures SplitBy("a::b", "::") == ("a", ":b")
    ensures SplitBy("a::b", "::").0 + "::" + SplitBy("a::b", "::").1 != "a::b"
  {
    assert "a::b"[0..2][0] == 'a';
    assert !OccursAt("a::b", "::", 0);
    assert OccursAt("a::b", "::", 1);
    assert IndexOfFrom("a::b", "::", 1) == Some(1);
    assert IndexOf("a::b", "::") == Some(1);
    assert "a::b"[..1] == "a" && "a::b"[2..] == ":b";
    assert |"a" + "::" + ":b"| == 5;
  }

  /** Split at the first occurrence of `sep`, resuming after the whole separator. */
  function SplitByWhole(s: string, sep: string): (r: (string, string))
    ensures (forall j: nat :: !OccursAt(s, sep, j)) ==> r == (s, "")
    ensures IndexOf(s, sep).Some? ==>
              && r.0 + sep + r.1 == s
              && (forall j: nat :: j < |r.0| ==> !OccursAt(s, sep, j))
  {
    match IndexOf(s, sep)
    case Some(i) =>
      assert s == s[..i] + sep + s[i + |sep|..] by {
        assert s == s[..i] + s[i..i + |sep|] + s[i + |sep|..];
      }
      (s[..i], s[i + |sep|..])
    case None => (s, "")
  }

  /** On a one-character separator the corrected split agrees with the source's. */
  lemma SplitByWholeAgreesOnSingleChar(s: string, sep: string)
    requires |sep| == 1
    ensures SplitByWhole(s, sep) == SplitBy(s, sep)
  {
  }

  predicate IsDigit(c: char) {
    '0' <= c <= '9'
  }

  function DigitChar(d: nat): (c: char)
    requires d < 10
    ensures IsDigit(c) && c as int - '0' as int == d
  {
    (d + '0' as int) as char
  }

  function DigitValue(c: char): (d: nat)
    requires IsDigit(c)
    ensures d < 10 && DigitChar(d) == c
  {
    c as int - '0' as int
  }

  predicate AllDigits(s: string) {
    forall i :: 0 <= i < |s| ==> IsDigit(s[i])
  }

  /** `n.toString()` for a non-negative integer: its decimal digits without leading zeros. */
  function DecimalText(n: nat): (r: string)
    ensures |r| >= 1 && AllDigits(r)
    ensures |r| > 1 ==> r[0] != '0'
  {
    if n < 10 then [DigitChar(n)] else DecimalText(n / 10) + [DigitChar(n % 10)]
  }

  /** The number a string of decimal digits denotes. */
  function DecimalValue(s: string): nat
    requires AllDigits(s)
  {
    if s == [] then 0 else DecimalValue(s[..|s| - 1]) * 10 + DigitValue(s[|s| - 1])
  }

  lemma {:induction false} DecimalTextRoundTrip(n: nat)
    ensures DecimalValue(DecimalText(n)) == n
  {
    if n >= 10 {
      DecimalTextRoundTrip(n / 10);
      var t := DecimalText(n / 10) + [DigitChar(n % 10)];
      assert t[..|t| - 1] == DecimalText(n / 10);
    }
  }

  /** Distinct numbers have distinct decimal texts. */
  lemma DecimalTextInjective(m: nat, n: nat)
    requires DecimalText(m) == DecimalText(n)
    ensures m == n
  {
    DecimalTextRoundTrip(m);
    DecimalTextRoundTrip(n);
  }
}
