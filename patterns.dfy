/**
  The file-name and URL recognisers of the shared utility module, written out
  as predicates. Every one of them is anchored (at the start, at the end, or
  both), so a match is a statement about a fixed prefix or suffix of the
  string. Every letter in these patterns is ASCII, and outside unicode mode
  the `i` flag never canonicalises a non-ASCII character to an ASCII
  letter, so case-insensitive matching is modelled by folding the ASCII
  letters alone.
*/
module Patterns {
  import opened Strings

  /** The number of digest characters in a hashed module name. */
  const HashShort: nat := 9

  /**
    ASCII upper case letters to lower case; every other character unchanged.
    The result is never an upper case ASCII letter, and folding neither moves
    a character into nor out of the ASCII range.
  */
  function Lower(c: char): (r: char)
    ensures !('A' <= r <= 'Z')
    ensures (c as int < 128) == (r as int < 128)
    ensures 'a' <= r <= 'z' <==> ('a' <= c <= 'z' || 'A' <= c <= 'Z')
  {
    if 'A' <= c <= 'Z' then (c as int + 32) as char else c
  }

  /** Folding twice is folding once. */
  lemma LowerIdempotent(c: char)
    ensures Lower(Lower(c)) == Lower(c)
  {
  }

  predicate EqualIgnoringCase(a: string, b: string) {
    |a| == |b| && forall i :: 0 <= i < |a| ==> Lower(a[i]) == Lower(b[i])
  }

  predicate StartsWithIgnoringCase(s: string, prefix: string) {
    |prefix| <= |s| && EqualIgnoringCase(s[..|prefix|], prefix)
  }

  predicate EndsWithIgnoringCase(s: string, suffix: string) {
    |suffix| <= |s| && EqualIgnoringCase(s[|s| - |suffix|..], suffix)
  }

  /** `reHttp`: `^https?:\/\/` with the `i` flag. */
  predicate IsHttp(s: string) {
    StartsWithIgnoringCase(s, "http://") || StartsWithIgnoringCase(s, "https://")
  }

  /** `reModuleExt`: `\.(js|jsx|mjs|ts|tsx)$` with the `i` flag. */
  predicate IsModuleExt(s: string) {
    || EndsWithIgnoringCase(s, ".js") || EndsWithIgnoringCase(s, ".jsx") || EndsWithIgnoringCase(s, ".mjs")
    || EndsWithIgnoringCase(s, ".ts") || EndsWithIgnoringCase(s, ".tsx")
  }

  /** `reStyleModuleExt`: `\.(css|less)$` with the `i` flag. */
  predicate IsStyleModuleExt(s: string) {
    EndsWithIgnoringCase(s, ".css") || EndsWithIgnoringCase(s, ".less")
  }

  /** `reMDExt`: `\.(md|markdown)$` with the `i` flag. */
  predicate IsMarkdownExt(s: string) {
    EndsWithIgnoringCase(s, ".md") || EndsWithIgnoringCase(s, ".markdown")
  }

  predicate IsLowerLetter(c: char) {
    'a' <= c <= 'z'
  }

  predicate IsAlphanumeric(c: char) {
    'a' <= c <= 'z' || 'A' <= c <= 'Z' || '0' <= c <= '9'
  }

  /** `reLocaleID`: `^[a-z]{2}(-[a-zA-Z0-9]+)?$`, case-sensitive. */
  predicate IsLocaleId(s: string) {
    && |s| >= 2 && IsLowerLetter(s[0]) && IsLowerLetter(s[1])
    && (|s| == 2 || (|s| >= 4 && s[2] == '-' && forall i :: 3 <= i < |s| ==> IsAlphanumeric(s[i])))
  }

  /** One character of `[0-9a-fx]` under the `i` flag. */
  predicate IsDigestChar(c: char) {
    '0' <= c <= '9' || 'a' <= Lower(c) <= 'f' || Lower(c) == 'x'
  }

  /**
    `reHashJs`: `\.[0-9a-fx]{9}\.js$` with the `i` flag: the name ends with
    a dot, nine digest characters and `.js`.
  */
  predicate IsHashJs(s: string) {
    var n := |s|;
    && n >= HashShort + 4
    && s[n - HashShort - 4] == '.'
    && (forall i :: n - HashShort - 3 <= i < n - 3 ==> IsDigestChar(s[i]))
    && EndsWithIgnoringCase(s, ".js")
  }

  /** A hashed name is a module name. */
  lemma HashJsIsModule(s: string)
    requires IsHashJs(s)
    ensures IsModuleExt(s)
  {
  }

  /** A digest of nine digest characters, dotted onto any name and followed by `.js`, is recognised. */
  lemma HashedNameMatches(name: string, digest: string)
    requires |digest| == HashShort && forall i :: 0 <= i < |digest| ==> IsDigestChar(digest[i])
    ensures IsHashJs(name + "." + digest + ".js")
  {
    var s := name + "." + digest + ".js";
    var n := |s|;
    assert s[n - HashShort - 4] == '.';
    forall i | n - HashShort - 3 <= i < n - 3 ensures IsDigestChar(s[i]) {
      assert s[i] == digest[i - (n - HashShort - 3)];
    }
    assert s[n - 3..] == ".js";
  }

  /** Every recognised name splits into a name, a dot, the digest and `.js` in some case. */
  lemma HashJsShape(s: string)
    requires IsHashJs(s)
    ensures var n := |s|;
            var digest := s[n - HashShort - 3..n - 3];
            && s == s[..n - HashShort - 4] + "." + digest + s[n - 3..]
            && (forall i :: 0 <= i < |digest| ==> IsDigestChar(digest[i]))
            && EqualIgnoringCase(s[n - 3..], ".js")
  {
    var n := |s|;
    var digest := s[n - HashShort - 3..n - 3];
    assert s == s[..n - HashShort - 4] + [s[n - HashShort - 4]] + digest + s[n - 3..];
    forall i | 0 <= i < |digest| ensures IsDigestChar(digest[i]) {
      assert digest[i] == s[n - HashShort - 3 + i];
    }
  }

  /** The recogniser looks only at the last thirteen characters. */
  lemma HashJsIgnoresPrefix(prefix: string, s: string)
    requires |s| >= HashShort + 4
    ensures IsHashJs(prefix + s) == IsHashJs(s)
  {
    var t := prefix + s;
    assert t[|t| - HashShort - 4..] == s[|s| - HashShort - 4..];
    assert forall i :: |s| - HashShort - 4 <= i < |s| ==> t[|prefix| + i] == s[i];
    assert t[|t| - 3..] == s[|s| - 3..];
  }

  /** A digest shorter than nine characters, as in `main.a1b2c3.js`, is not recognised. */
  lemma ShortDigestRejected(name: string, digest: string)
    requires |digest| < HashShort
    ensures !IsHashJs(name + "." + digest + ".js")
  {
    var s := name + "." + digest + ".js";
    var n := |s|;
    assert s[n - 4 - |digest|] == '.';
    assert !IsDigestChar('.');
  }

  lemma HashJsExamples()
    ensures IsHashJs("main.a1b2c3d4e.js")
    ensures !IsHashJs("main.js")
    ensures !IsHashJs("main.a1b2c3.js")
  {
    HashedNameMatches("main", "a1b2c3d4e");
    assert "main" + "." + "a1b2c3d4e" + ".js" == "main.a1b2c3d4e.js";
    assert |"main.js"| < HashShort + 4;
    assert "main.a1b2c3.js"[1] != '.';
  }

  lemma HttpExamples()
    ensures IsHttp("HTTPS://esm.sh")
    ensures !IsHttp("ftp://esm.sh")
  {
    var h := "HTTPS://esm.sh";
    assert StartsWithIgnoringCase(h, "https://") by {
      assert h[..8] == "HTTPS://";
      assert EqualIgnoringCase("HTTPS://", "https://");
    }
    var f := "ftp://esm.sh";
    HttpFirstLetter(f);
    assert Lower(f[0]) == 'f';
  }

  /** Every URL the pattern accepts starts with `h` in either case. */
  lemma HttpFirstLetter(s: string)
    ensures IsHttp(s) ==> |s| >= 7 && Lower(s[0]) == 'h'
  {
  }

  /** Any scheme text equal to `http://` or `https://` up to case, followed by anything, is a match. */
  lemma HttpPrefixMatches(p: string, t: string)
    requires EqualIgnoringCase(p, "http://") || EqualIgnoringCase(p, "https://")
    ensures IsHttp(p + t)
  {
    assert (p + t)[..|p|] == p;
  }

  /**
    Every match starts with `http` in any case, then either `://` exactly or
    an `s` in either case and `://`: the punctuation has no case to fold.
  */
  lemma HttpMatchSplits(s: string)
    requires IsHttp(s)
    ensures |s| >= 7 && EqualIgnoringCase(s[..4], "http")
    ensures s[4..7] == "://" || (|s| >= 8 && Lower(s[4]) == 's' && s[5..8] == "://")
  {
    if StartsWithIgnoringCase(s, "http://") {
      assert forall i :: 0 <= i < 7 ==> Lower(s[i]) == Lower("http://"[i]);
      assert s[4..7] == "://";
    } else {
      assert forall i :: 0 <= i < 8 ==> Lower(s[i]) == Lower("https://"[i]);
      assert s[5..8] == "://";
    }
  }

  lemma ModuleExtExamples()
    ensures IsModuleExt("app.TSX")
    ensures !IsModuleExt("app.json")
  {
    var t := "app.TSX";
    assert EndsWithIgnoringCase(t, ".tsx") by {
      assert t[|t| - 4..] == ".TSX";
      assert EqualIgnoringCase(".TSX", ".tsx");
    }
    var j := "app.json";
    ModuleExtLastLetter(j);
    assert Lower(j[|j| - 1]) == 'n';
  }

  /** Every module extension ends in `s` or `x`, in either case. */
  lemma ModuleExtLastLetter(s: string)
    ensures IsModuleExt(s) ==> |s| >= 3 && (Lower(s[|s| - 1]) == 's' || Lower(s[|s| - 1]) == 'x')
  {
  }

  /** A module name ending in `s` has a dot or an `m` two places before that `s`. */
  lemma ModuleExtMarks(s: string)
    ensures IsModuleExt(s) ==> |s| >= 3 && (Lower(s[|s| - 1]) == 'x' || Lower(s[|s| - 3]) == '.' || Lower(s[|s| - 3]) == 'm')
  {
  }

  /** Every style sheet name ends in `s`, with `c` or `e` two places before it. */
  lemma StyleExtMarks(s: string)
    ensures IsStyleModuleExt(s) ==> |s| >= 4 && Lower(s[|s| - 1]) == 's' && (Lower(s[|s| - 3]) == 'c' || Lower(s[|s| - 3]) == 'e')
  {
  }

  /** Every Markdown name ends in `d` or `n`, in either case. */
  lemma MarkdownExtLastLetter(s: string)
    ensures IsMarkdownExt(s) ==> |s| >= 3 && (Lower(s[|s| - 1]) == 'd' || Lower(s[|s| - 1]) == 'n')
  {
  }

  /** No name is classified both as a module and as a style sheet or a Markdown file. */
  lemma ExtensionKindsDisjoint(s: string)
    ensures IsStyleModuleExt(s) ==> !IsModuleExt(s) && !IsMarkdownExt(s)
    ensures IsMarkdownExt(s) ==> !IsModuleExt(s)
  {
    ModuleExtLastLetter(s);
    ModuleExtMarks(s);
    StyleExtMarks(s);
    MarkdownExtLastLetter(s);
  }

  lemma LocaleIdExamples()
    ensures IsLocaleId("en") && IsLocaleId("zh-CN") && !IsLocaleId("EN") && !IsLocaleId("en-")
  {
  }

  /** A non-empty run of ASCII letters and digits: the optional region tag of a locale. */
  predicate AlphanumericTag(t: string) {
    t != [] && forall i :: 0 <= i < |t| ==> IsAlphanumeric(t[i])
  }

  /** Two lower case letters are a locale, alone or followed by `-` and a tag. */
  lemma LocaleIdOfParts(a: char, b: char, t: string)
    requires IsLowerLetter(a) && IsLowerLetter(b) && AlphanumericTag(t)
    ensures IsLocaleId([a, b])
    ensures IsLocaleId([a, b] + "-" + t)
  {
    var s := [a, b] + "-" + t;
    assert forall i :: 3 <= i < |s| ==> s[i] == t[i - 3];
  }

  /** Every locale is two lower case letters, alone or followed by `-` and a tag. */
  lemma LocaleIdParts(s: string)
    requires IsLocaleId(s)
    ensures IsLowerLetter(s[0]) && IsLowerLetter(s[1])
    ensures s == [s[0], s[1]] || (s == [s[0], s[1]] + "-" + s[3..] && AlphanumericTag(s[3..]))
  {
    if |s| > 2 {
      assert s == [s[0], s[1]] + "-" + s[3..];
      assert forall i :: 0 <= i < |s[3..]| ==> s[3..][i] == s[i + 3];
    }
  }

  /** A locale with an upper case language letter is rejected: `reLocaleID` has no `i` flag. */
  lemma LocaleIdIsCaseSensitive(s: string)
    requires |s| >= 2 && ('A' <= s[0] <= 'Z' || 'A' <= s[1] <= 'Z')
    ensures !IsLocaleId(s)
  {
  }

  /** Ensuring a `.js` extension always yields a module name. */
  lemma EnsureJsIsModule(s: string)
    ensures IsModuleExt(EnsureExt(s, ".js"))
  {
    var r := EnsureExt(s, ".js");
    assert r[|r| - 3..] == ".js";
  }

  /**
    `reFullVersion`: `@v?\d+\.\d+\.\d+` with the `i` flag, anywhere in the
    string: an `@`, an optional `v`, then three dot-separated runs of digits.
    A digit run is followed by a dot or ends the match, so backtracking into
    a shorter run never helps and the runs can be taken greedily.
  */
  predicate VersionAt(s: string, i: nat) {
    && i < |s| && s[i] == '@'
    && NumbersAt(s, if i + 1 < |s| && Lower(s[i + 1]) == 'v' then i + 2 else i + 1)
  }

  /** `\d+\.\d+\.\d+` matches at `j`. */
  predicate NumbersAt(s: string, j: nat) {
    var a := DigitRun(s, j);
    && a >= 1 && j + a < |s| && s[j + a] == '.'
    && var k := j + a + 1;
       var b := DigitRun(s, k);
       b >= 1 && k + b + 1 < |s| && s[k + b] == '.' && IsDigit(s[k + b + 1])
  }

  /** The length of the run of digits starting at `j`. */
  function DigitRun(s: string, j: nat): (r: nat)
    ensures j + r <= |s| || r == 0
    ensures forall k :: j <= k < j + r ==> IsDigit(s[k])
    ensures j + r < |s| ==> !IsDigit(s[j + r])
    decreases |s| - j
  {
    if j < |s| && IsDigit(s[j]) then 1 + DigitRun(s, j + 1) else 0
  }

  predicate HasFullVersion(s: string) {
    exists i: nat :: i < |s| && VersionAt(s, i)
  }

  /** A digit string followed by a non-digit (or the end) is exactly one run. */
  lemma {:induction false} DigitRunOf(s: string, j: nat, d: string)
    requires j + |d| <= |s| && s[j..j + |d|] == d && AllDigits(d)
    requires j + |d| < |s| ==> !IsDigit(s[j + |d|])
    ensures DigitRun(s, j) == |d|
    decreases |d|
  {
    if d != [] {
      assert s[j] == d[0];
      assert s[j + 1..j + |d|] == d[1..];
      DigitRunOf(s, j + 1, d[1..]);
    }
  }

  /** Three decimal numbers joined by dots are matched by the digit part of the pattern. */
  lemma NumbersOf(p: string, x: string, y: string, z: string)
    requires x != [] && y != [] && z != []
    requires AllDigits(x) && AllDigits(y) && AllDigits(z)
    ensures NumbersAt(p + x + "." + y + "." + z, |p|)
  {
    var s := p + x + "." + y + "." + z;
    var j := |p|;
    assert s[j..j + |x|] == x;
    assert s[j + |x|] == '.';
    DigitRunOf(s, j, x);
    var k := j + |x| + 1;
    assert s[k..k + |y|] == y;
    assert s[k + |y|] == '.';
    DigitRunOf(s, k, y);
    assert s[k + |y| + 1] == z[0];
  }

  /** A name tagged with a full three-part version, with or without `v`, is recognised. */
  lemma TaggedVersionMatches(name: string, v: string, x: string, y: string, z: string)
    requires v == "" || v == "v" || v == "V"
    requires x != [] && y != [] && z != []
    requires AllDigits(x) && AllDigits(y) && AllDigits(z)
    ensures HasFullVersion(name + "@" + v + x + "." + y + "." + z)
  {
    var p := name + "@" + v;
    var s := p + x + "." + y + "." + z;
    var i := |name|;
    NumbersOf(p, x, y, z);
    assert s[i] == '@';
    assert s[i + 1] == if v == "" then x[0] else v[0];
    assert VersionAt(s, i);
  }

  /** Without an `@` there is no version. */
  lemma NoAtNoVersion(s: string)
    requires '@' !in s
    ensures !HasFullVersion(s)
  {
  }

  /** A two-part version is not a full version. */
  lemma TwoPartsAreNotFull(name: string, x: string, y: string)
    requires '@' !in name
    requires x != [] && y != [] && AllDigits(x) && AllDigits(y)
    ensures !HasFullVersion(name + "@" + x + "." + y)
  {
    var s := name + "@" + x + "." + y;
    var i := |name|;
    forall h: nat | h < |s| ensures !VersionAt(s, h) {
      if h < i {
        assert s[h] == name[h];
      } else if h > i {
        OnlyOneAt(name, x, y, h);
      } else {
        TwoPartsStop(name, x, y);
      }
    }
  }

  lemma OnlyOneAt(name: string, x: string, y: string, h: nat)
    requires AllDigits(x) && AllDigits(y)
    requires |name| < h < |name + "@" + x + "." + y|
    ensures (name + "@" + x + "." + y)[h] != '@'
  {
    var s := name + "@" + x + "." + y;
    var i := |name|;
    if h <= i + |x| {
      assert s[h] == x[h - i - 1];
    } else if h > i + |x| + 1 {
      assert s[h] == y[h - i - |x| - 2];
    }
  }

  lemma TwoPartsStop(name: string, x: string, y: string)
    requires x != [] && y != [] && AllDigits(x) && AllDigits(y)
    ensures !NumbersAt(name + "@" + x + "." + y, |name| + 1)
  {
    var s := name + "@" + x + "." + y;
    var j := |name| + 1;
    assert s[j..j + |x|] == x;
    DigitRunOf(s, j, x);
    assert s[j + |x|] == '.';
    assert s[j + |x| + 1..] == y;
    DigitRunOf(s, j + |x| + 1, y);
  }
}
