# Shared utilities and the import map, in Dafny

This project models two small pieces of a JavaScript/TypeScript build tool:

- **The helpers of `shared/util.ts`:**
  - affix trimming (`trimPrefix`, `trimSuffix`);
  - extension enforcement (`ensureExt`);
  - first-occurrence splitting (`splitBy`);
  - path normalisation (`splitPath`, `cleanPath`);
  - the binary unit constants `KB`..`PB` and human-readable byte counts (`bytesString`);
  - the anchored file-name and URL patterns (`reHttp`, `reModuleExt`, `reStyleModuleExt`, `reMDExt`, `reLocaleID`, `reFullVersion`, `reHashJs`).
- **The import map of the Rust compiler plug-in, `swc/src/import_map.rs`.** `ImportHashMap` is the hash-map form read from configuration. `ImportMap::from_hashmap` copies it, pair by pair, into insertion-ordered maps.

The project has five modules:

- **`Strings` (`strings.dfy`):** affixes, `indexOf`, `splitBy`, and the decimal text of a natural number.
- **`Paths` (`paths.dfy`):** `splitPath` and `cleanPath`.
  - `splitPath` is a `method` whose loop mutates the accumulator as `reduce` does.
  - It is proved equal to a recursive fold. The path properties are stated about that fold.
- **`Patterns` (`patterns.dfy`):** each regular expression written out as a predicate.
- **`Bytes` (`bytes.dfy`):** the unit ladder and `bytesString`.
- **`ImportMaps` (`import_map.dfy`):**
  - `IndexMap` is modelled as a key order plus a key-to-value map.
  - `from_hashmap` is a `method` with its copy loops.
  - Hash-map iteration order is not specified, so each loop picks its next key by choice.

### Modelling decisions

- **Byte counts.**
  - A count is a non-negative integer no larger than `Number.MAX_SAFE_INTEGER`.
  - Dividing such an integer by a power of two is exact in a double. `toFixed(1)` then picks the nearest tenth, and a tie goes to the larger one.
  - So the MB to PB texts are modelled exactly, in integer arithmetic.
  - The larger units are rounded to the nearest tenth by `toFixed`, not truncated, and the model rounds the same way.
- **Path splitting.**
  - `split(/[\/\\]+/)` is modelled as `Paths.Tokens`, which splits on separator runs.
  - Most lemmas go through `Paths.Fields`, which splits on every single separator.
  - `Paths.TokensAgreeWithFields` and `Paths.SegmentsByFields` prove the two give the same segments.
- **Whitespace.** `trim` removes the ECMAScript WhiteSpace and LineTerminator characters.
- **Case-insensitive patterns.** Every letter in these patterns is ASCII. Outside unicode mode the `i` flag never maps a non-ASCII character to an ASCII letter. So case-insensitive matching is modelled by folding the ASCII letters alone.

## Model

| member | source | states |
|---|---|---|
| Strings.TrimPrefix | shared/util.ts:48-53 | a non-empty present prefix is removed (`prefix + r == s`); an empty or absent one leaves `s` unchanged |
| Strings.TrimSuffix | shared/util.ts:54-59 | a non-empty present suffix is removed (`r + suffix == s`); an empty or absent one leaves `s` unchanged |
| Strings.EnsureExt | shared/util.ts:60-65 | the result ends with `ext`; it is `s` when `s` already ends with `ext`, else `s + ext` |
| Strings.TrimPrefixUndoesConcat | shared/util.ts:48-53 | trimming a non-empty prefix from `prefix + s` gives back `s` |
| Strings.TrimSuffixUndoesConcat | shared/util.ts:54-59 | trimming a non-empty suffix from `s + suffix` gives back `s` |
| Strings.EnsureExtIdempotent | shared/util.ts:60-65 | applying `ensureExt` twice is the same as applying it once |
| Strings.EnsureExtAfterTrimSuffix | shared/util.ts:54-65 | trimming a present extension and then ensuring it restores the string, except when the extension was doubled |
| Strings.TrimSuffixAfterEnsureExt | shared/util.ts:54-65 | ensuring an absent extension and then trimming it restores the string |
| Strings.IndexOfFrom | shared/util.ts:67 | `indexOf` returns the first occurrence at or after the start index, or none when there is none |
| Strings.SplitBy | shared/util.ts:66-72 | with no occurrence the result is `(s, "")`; otherwise the first part is the text before the first occurrence, and the second part resumes one character after its start |
| Strings.SplitBySingleCharRebuilds | shared/util.ts:66-72 | with a one-character separator that occurs, `first + sep + second == s` |
| Strings.SplitBySingleCharFirstPartClean | shared/util.ts:66-72 | with a one-character separator the first part never contains the separator |
| Strings.SplitByLosesLongSeparator | shared/util.ts:66-72 | for `("a::b", "::")` the source returns `("a", ":b")`, which does not rebuild the input |
| Strings.SplitByWhole | shared/util.ts:66-72 | corrected split: `first + sep + second == s` at the first occurrence, for separators of any length |
| Strings.SplitByWholeAgreesOnSingleChar | shared/util.ts:66-72 | on one-character separators the corrected split equals the source's |
| Strings.DecimalText | shared/util.ts:75 | `toString` of a natural number is non-empty and all digits, with no leading zero |
| Strings.DecimalTextRoundTrip | shared/util.ts:75 | reading the decimal text back gives the number |
| Strings.DecimalTextInjective | shared/util.ts:75 | distinct numbers have distinct texts |
| Paths.TrimStart | shared/util.ts:94 | the leading-whitespace strip of `trim` never lengthens the string |
| Paths.TrimEnd | shared/util.ts:94 | the trailing-whitespace strip of `trim` never lengthens the string |
| Paths.TrimStartDrops | shared/util.ts:94 | the result is a suffix of the input; everything dropped is whitespace; the result does not start with whitespace |
| Paths.TrimEndDrops | shared/util.ts:94 | the result is a prefix of the input; everything dropped is whitespace; the result does not end with whitespace |
| Paths.TrimIsMiddle | shared/util.ts:94 | `trim` returns a middle slice with whitespace only on either side |
| Paths.TrimIsTrimmed | shared/util.ts:94 | a trimmed piece neither starts nor ends with whitespace |
| Paths.TrimFixesTrimmed | shared/util.ts:94 | `trim(s) == s` exactly when `s` has no whitespace at either end |
| Paths.TrimKeepsNoSeparator | shared/util.ts:93-94 | trimming a piece without separators cannot introduce one |
| Paths.DropSeparators | shared/util.ts:93 | removes exactly the leading run of `/` and `\` |
| Paths.Tokens | shared/util.ts:93 | `split(/[\/\\]+/)` gives at least one piece, and no piece contains a separator |
| Paths.Fields | shared/util.ts:93 | splitting at every single separator gives at least one piece, and no piece contains a separator |
| Paths.Slashed | shared/util.ts:93 | every separator is replaced by `/`, and nothing else changes |
| Paths.JoinCons | shared/util.ts:106 | `join` of a list whose head starts with `c` starts with `c` |
| Paths.JoinFields | shared/util.ts:93-106 | joining the single-separator split with `/` gives the input with every separator replaced by `/` |
| Paths.FieldsConcat | shared/util.ts:93 | splitting around a separator splits each side |
| Paths.FieldsOfPlain | shared/util.ts:93 | a string without separators splits to itself |
| Paths.FieldsOfJoin | shared/util.ts:93-106 | splitting a `/`-join of separator-free pieces gives the pieces back |
| Paths.FieldsSkipLeadingSeparators | shared/util.ts:93 | leading separators add only empty pieces |
| Paths.TokensAgreeWithFields | shared/util.ts:93 | the run split and the single split have the same first piece and the same non-empty pieces after it |
| Paths.TrimAll | shared/util.ts:94 | `map(p => p.trim())` keeps the number of pieces |
| Paths.KeepConcat | shared/util.ts:95 | the filter distributes over concatenation |
| Paths.TrimAllConcat | shared/util.ts:94 | the trim map distributes over concatenation |
| Paths.KeepIgnoresEmpty | shared/util.ts:94-95 | empty pieces never survive trim and filter |
| Paths.SegmentsByFields | shared/util.ts:93-95 | the pieces kept from the run split equal those kept from the single split |
| Paths.SegmentsConcat | shared/util.ts:93-95 | the kept pieces of `a + sep + b` are those of `a` followed by those of `b` |
| Paths.ResolveConcat | shared/util.ts:96-103 | folding a concatenation is folding the second part from the result of the first |
| Paths.ResolveWithoutParents | shared/util.ts:96-103 | without `..` the fold appends every piece |
| Paths.ResolveCons | shared/util.ts:96-103 | one fold step, then the rest |
| Paths.KeptPieces | shared/util.ts:93-95 | every kept piece is non-empty, not `.`, trimmed and separator-free |
| Paths.ResolveKeepsValid | shared/util.ts:96-103 | the fold never produces a segment that is empty, `.`, `..`, untrimmed or contains a separator |
| Paths.PathSegmentsValid | shared/util.ts:91-104 | no segment of `splitPath` is `""`, `.` or `..`, holds `/` or `\`, or has whitespace at either end |
| Paths.Reduce | shared/util.ts:96-103 | the push/pop loop over the pieces computes the recursive fold |
| Paths.SplitPath | shared/util.ts:91-104 | `splitPath` returns the path's segments, and all of them are valid |
| Paths.PathSegmentsAppend | shared/util.ts:91-104 | the segments of `a/b` are those of `b` folded onto those of `a` |
| Paths.SegmentsOfPiece | shared/util.ts:93-95 | a valid segment on its own is kept as itself |
| Paths.ResolveOne | shared/util.ts:96-103 | folding one piece is one step |
| Paths.ParentDropsLast | shared/util.ts:97-98 | appending `/..` drops the last segment, and leaves an empty result empty |
| Paths.ChildAppends | shared/util.ts:99-100 | appending `/w` for a valid segment `w` pushes `w` |
| Paths.CleanPath | shared/util.ts:105-107 | the result starts with `/` |
| Paths.SegmentsOfEmpty | shared/util.ts:91-104 | the empty path has no segments |
| Paths.SegmentsAfterSeparator | shared/util.ts:93-95 | a leading separator adds no segment |
| Paths.SegmentsOfRooted | shared/util.ts:93-106 | the leading `/` that `cleanPath` adds adds no segment |
| Paths.SegmentsOfJoin | shared/util.ts:93-106 | the `/`-join of valid segments splits, trims and filters back to the same segments |
| Paths.PathSegmentsOfRooted | shared/util.ts:91-107 | `splitPath` of `cleanPath`'s output gives back its segments |
| Paths.TrimOfValid | shared/util.ts:94 | a valid segment is unchanged by `trim` |
| Paths.AllValidTail | shared/util.ts:91-104 | the head and the tail of a valid segment list are valid |
| Paths.KeepTrimCons | shared/util.ts:94-95 | a valid head survives trim and filter unchanged |
| Paths.TrimsAndKeepsValid | shared/util.ts:94-95 | trim and filter leave a list of valid segments unchanged |
| Paths.CleanPathIdempotent | shared/util.ts:105-107 | `cleanPath(cleanPath(s)) == cleanPath(s)` |
| Paths.RootedJoinShape | shared/util.ts:106 | `'/' + join('/')` of non-empty separator-free segments starts with `/`, has no `\` and no `//`, and ends with `/` only when it is `/` |
| Paths.CleanPathShape | shared/util.ts:105-107 | `cleanPath`'s output starts with `/`, contains no `\` and no `//`, and has no trailing `/` unless it is `/` |
| Paths.PathSegmentsOfSingle | shared/util.ts:91-104 | a valid segment on its own is the whole result |
| Paths.CleanPathOfEmpty | shared/util.ts:105-107 | `cleanPath("") == "/"` |
| Paths.ParentOfRootIsRoot | shared/util.ts:97-98 | `splitPath("..")` and `splitPath("../..")` are empty |
| Paths.ParentsStopAtRoot | shared/util.ts:97-100 | `splitPath("../../w") == [w]` |
| Paths.TwoSegments | shared/util.ts:91-104 | `splitPath("a/b") == [a, b]` |
| Paths.TwoSegmentsThenParent | shared/util.ts:91-104 | `splitPath("a/b/..") == [a]` |
| Paths.ParentPopsPrevious | shared/util.ts:91-104 | `splitPath("a/b/../c") == [a, c]` |
| Paths.LeadingRunAddsNothing | shared/util.ts:93 | a leading run of separators adds no segment |
| Paths.LeadingRunStep | shared/util.ts:93 | dropping one leading separator leaves the segments unchanged |
| Paths.SeparatorRunSplits | shared/util.ts:93 | a run of separators of any mix of `/` and `\` splits like a single one |
| Paths.RunBetweenSegments | shared/util.ts:91-104 | two valid segments around any separator run give exactly those two segments |
| Paths.SegmentsAroundRun | shared/util.ts:93-95 | two valid segments around any separator run are kept as exactly those two |
| Paths.ThreeAroundRuns | shared/util.ts:91-104 | after any leading separator run, three valid segments separated by non-empty separator runs give exactly those three |
| Paths.SegmentsOfThree | shared/util.ts:93-95 | after any leading separator run, three valid segments separated by non-empty runs are kept as exactly those three |
| Patterns.Lower | shared/util.ts:2-8 | ASCII case folding for the `i` flag: the result is never an upper-case ASCII letter; a character is ASCII exactly when its fold is; the fold is a lower-case letter exactly when the character is an ASCII letter |
| Patterns.LowerIdempotent | shared/util.ts:2-8 | folding twice is the same as folding once |
| Patterns.HashJsIsModule | shared/util.ts:3-8 | every hashed name is a module name |
| Patterns.HashedNameMatches | shared/util.ts:1-8 | any name, then a dot, 9 digest characters and `.js`, matches `reHashJs` |
| Patterns.HashJsShape | shared/util.ts:1-8 | every match ends with a dot, 9 characters from `[0-9a-fx]` in either case, and `.js` in either case |
| Patterns.HashJsIgnoresPrefix | shared/util.ts:8 | the match depends only on the last 13 characters |
| Patterns.ShortDigestRejected | shared/util.ts:1-8 | a name with a digest shorter than 9 characters is rejected, whatever the digest holds |
| Patterns.HashJsExamples | shared/util.ts:8 | `main.a1b2c3d4e.js` matches; `main.js` and `main.a1b2c3.js` do not |
| Patterns.HttpExamples | shared/util.ts:2 | `HTTPS://esm.sh` matches; `ftp://esm.sh` does not |
| Patterns.HttpFirstLetter | shared/util.ts:2 | every match has at least 7 characters and starts with `h` in either case |
| Patterns.HttpPrefixMatches | shared/util.ts:2 | a text equal to `http://` or `https://` up to case, followed by anything, matches `reHttp` |
| Patterns.HttpMatchSplits | shared/util.ts:2 | every match starts with `http` in any case, then `://` exactly, or an `s` in either case and then `://` |
| Patterns.ModuleExtExamples | shared/util.ts:3 | `app.TSX` matches; `app.json` does not |
| Patterns.ModuleExtLastLetter | shared/util.ts:3 | every module name ends in `s` or `x` in either case |
| Patterns.ModuleExtMarks | shared/util.ts:3 | a module name ends in `x`, or has `.` or `m` three characters from the end |
| Patterns.StyleExtMarks | shared/util.ts:4 | a style name ends in `s`, with `c` or `e` three characters from the end |
| Patterns.MarkdownExtLastLetter | shared/util.ts:5 | a Markdown name ends in `d` or `n` |
| Patterns.ExtensionKindsDisjoint | shared/util.ts:3-5 | no name is both a module and a style sheet, both a module and Markdown, or both a style sheet and Markdown |
| Patterns.LocaleIdExamples | shared/util.ts:6 | `en` and `zh-CN` match; `EN` and `en-` do not |
| Patterns.LocaleIdOfParts | shared/util.ts:6 | two lower-case letters match `reLocaleID`, alone or followed by `-` and a non-empty alphanumeric tag |
| Patterns.LocaleIdParts | shared/util.ts:6 | every match is two lower-case letters, alone or followed by `-` and a non-empty alphanumeric tag |
| Patterns.LocaleIdIsCaseSensitive | shared/util.ts:6 | an upper-case letter in the language part is rejected, since the pattern has no `i` flag |
| Patterns.EnsureJsIsModule | shared/util.ts:60-65 | ensuring a `.js` extension always gives a module name |
| Patterns.DigitRun | shared/util.ts:7 | `\d+` takes the maximal run of digits |
| Patterns.DigitRunOf | shared/util.ts:7 | a digit string followed by a non-digit is exactly the run |
| Patterns.NumbersOf | shared/util.ts:7 | three dot-separated digit strings match `\d+\.\d+\.\d+` |
| Patterns.TaggedVersionMatches | shared/util.ts:7 | `name@x.y.z` and `name@vx.y.z` (`v` in either case) contain a full version |
| Patterns.NoAtNoVersion | shared/util.ts:7 | a string without `@` contains no full version |
| Patterns.TwoPartsAreNotFull | shared/util.ts:7 | `name@x.y`, with no other `@`, contains no full version |
| Bytes.UnitLadder | shared/util.ts:11-15 | `KB`..`PB` are `1024^1`..`1024^5`, each 1024 times the previous; `PB` is 1125899906842624 |
| Bytes.Scale | shared/util.ts:11-15 | one unit is `1024^e`, with `e` its rank |
| Bytes.TierOf | shared/util.ts:73-89 | bytes exactly below `KB`; otherwise the unit is at most the count, and the count is below 1024 units except for `PB` |
| Bytes.TierUnique | shared/util.ts:73-89 | the unit whose window holds the count is the one chosen |
| Bytes.CeilDiv | shared/util.ts:78 | `Math.ceil(n / d)` is the `r` with `n <= r*d < n + d` |
| Bytes.RoundTenths | shared/util.ts:81-89 | `toFixed(1)` picks the tenth nearest to `bytes / scale`, the larger on a tie |
| Bytes.RoundTenthsUnique | shared/util.ts:81-89 | only one count of tenths lies in that window |
| Bytes.FixedOne | shared/util.ts:81-89 | `toFixed(1)` prints the whole part, a point and one digit, denoting the count of tenths |
| Bytes.ScaledTextShape | shared/util.ts:81-89 | the `.0` is dropped exactly when the tenths digit is zero |
| Bytes.BytesString | shared/util.ts:73-90 | the text ends with the suffix of the unit chosen |
| Bytes.BytesStringByTier | shared/util.ts:73-90 | the text is the number in the chosen unit followed by that unit's suffix |
| Bytes.SmallCountsExact | shared/util.ts:74-76 | below 1 KB the text is `B` after the exact decimal count |
| Bytes.KiloRoundsUp | shared/util.ts:77-79 | in the KB tier the number is `ceil(bytes/1024)`, lies in 1..1024 and is never below the size |
| Bytes.CeilDivExact | shared/util.ts:78 | rounding up a whole number of units gives that number |
| Bytes.ScaledWhole | shared/util.ts:80-89 | a whole number of units prints without a point |
| Bytes.ScaledHalf | shared/util.ts:80-89 | `k` and a half units print as `k.5` |
| Bytes.RoundTenthsOfHalf | shared/util.ts:81-89 | `k` and a half units is `10k + 5` tenths |
| Bytes.FixedOneOfHalf | shared/util.ts:81-89 | `10k + 5` tenths print as `k.5` |
| Bytes.WholeUnits | shared/util.ts:77-89 | `k` whole units in their own tier print as `k` and the suffix |
| Bytes.HalfUnits | shared/util.ts:80-89 | `k` and a half units in their own tier print as `k.5` and the suffix |
| Bytes.BytesStringScaled | shared/util.ts:80-89 | from MB upwards the text is the one-decimal text with `.0` dropped, followed by the suffix |
| Bytes.PetaBelowEight | shared/util.ts:89 | a safe integer never prints more than `8.0` PB |
| Bytes.NumberTextShape | shared/util.ts:73-89 | the number is never empty; for plain bytes it ends in a digit |
| Bytes.TextMark | shared/util.ts:73-89 | the text ends in `B`, preceded by a digit for bytes and by the unit letter otherwise |
| Bytes.SuffixDeterminesTier | shared/util.ts:73-89 | equal texts come from counts in the same unit |
| Bytes.SmallExamples | shared/util.ts:74-76 | 0 prints as `0B` and 1023 prints as `1023B` |
| Bytes.KiloExamples | shared/util.ts:77-79 | 1024 prints as `1KB` and 1025 prints as `2KB` |
| Bytes.MegaExamples | shared/util.ts:80-82 | `2*MB` prints as `2MB` and `2.5*MB` prints as `2.5MB` |
| Bytes.PetaExample | shared/util.ts:89 | `PB` prints as `1PB` |
| ImportMaps.IndexMap.Get | swc/src/import_map.rs:9-10 | a lookup succeeds exactly for keys that have a value |
| ImportMaps.IndexMap.Insert | swc/src/import_map.rs:36-43 | `insert` keeps the map well formed and sets the key's value without touching other keys; a new key goes last, and an existing key keeps its place |
| ImportMaps.Empty | swc/src/import_map.rs:33-39 | `IndexMap::new()` has no keys |
| ImportMaps.ValidSize | swc/src/import_map.rs:9-10 | a well-formed map has as many keys in its order as it has entries |
| ImportMaps.DefaultImportHashMap | swc/src/import_map.rs:22-29 | the default has no imports and no scopes |
| ImportMaps.CopyPairs | swc/src/import_map.rs:35-42 | the copy loop yields a well-formed map with exactly the source's pairs and the same size |
| ImportMaps.FromHashMap | swc/src/import_map.rs:32-46 | `imports` and every scope's inner map hold exactly the source's pairs; `scopes` has exactly the source's scope keys; all sizes are kept |
| ImportMaps.FromDefault | swc/src/import_map.rs:22-46 | converting the default gives no imports and no scopes |
| ImportMaps.ConvertedAddsNothing | swc/src/import_map.rs:35-45 | every key of the result, at either level, comes from the input, with the input's value |
| ImportMaps.ConvertedKeepsSizes | swc/src/import_map.rs:35-44 | a conversion keeps the size of `imports`, of `scopes` and of every inner map |
| ImportMaps.ConvertedUniqueUpToOrder | swc/src/import_map.rs:35-44 | any two conversions of one input hold the same pairs and differ at most in order |
| ImportMaps.InsertExistingKeepsOrder | swc/src/import_map.rs:36 | inserting a key that is already present changes neither the order nor the size |

## Left out

- `debounce` and `debounceX` (shared/util.ts:108-130) are not modelled. They schedule callbacks through host timers, and timers are outside a sequential model.
- The type predicates `isNumber`..`isFunction` (shared/util.ts:18-47) are not modelled. They test the runtime types of JavaScript values, and every modelled operation takes typed arguments instead.
- `reHashResolve` (shared/util.ts:9) is not modelled. It is a global, capturing rewrite pattern used for text substitution, not a recogniser.
- Deserialisation of `ImportHashMap` is not modelled (swc/src/import_map.rs:13-20). This includes `deny_unknown_fields` and the `default` fields. The model starts from the maps.
- Iteration order: the model states no insertion order for the results of `from_hashmap`. `HashMap` iteration order is unspecified, so the loops choose keys in any order, and the contracts speak only of key sets, values and sizes.
- Strings are sequences of characters. JavaScript's UTF-16 code units and surrogate pairs are not distinguished from code points.
- Bytes.BytesString: the count is a non-negative integer no larger than `Number.MAX_SAFE_INTEGER`. Fractional, negative, non-finite and larger counts, where double rounding matters, are not modelled.
- `cleanPath`'s literal examples are stated at the level of `splitPath`. The source's own examples are `cleanPath("a/b/../c")` and `cleanPath("//a///b\\c")`. `Paths.ParentPopsPrevious` states the first for arbitrary valid segments. `Paths.ThreeAroundRuns` states the second for arbitrary valid segments and separator runs. `Paths.CleanPathShape` and `Paths.PathSegmentsOfRooted` tie `splitPath` to `cleanPath`.
- ImportMaps.FromHashMap: the inner and outer copy loops are written as calls to one copy method, `ImportMaps.CopyPairs`, instead of being repeated inline. `to_string` clones are modelled as the same string values.

## Findings

| source | as written | input that shows it | evidently intended | confidence | as-written member | corrected member |
|---|---|---|---|---|---|---|
| shared/util.ts:66-72 | the second part is `s.slice(i + 1)`, which resumes one character after the start of the separator whatever its length | `splitBy("a::b", "::")` returns `["a", ":b"]`, so `first + sep + second` is `"a:::b"` | resume after the whole separator, `s.slice(i + searchString.length)`, so that `first + sep + second == s` | not executed | Strings.SplitByLosesLongSeparator | Strings.SplitByWhole |
