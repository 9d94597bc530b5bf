/**
  Path normalisation of the shared utility module: `splitPath` splits a path
  on runs of `/` and `\`, trims each piece, drops empty and `.` pieces and
  folds the rest left to right, `..` popping the last accepted segment;
  `cleanPath` joins the result under a leading `/`.
*/
module Paths {

  predicate IsSeparator(c: char) {
    c == '/' || c == '\\'
  }

  predicate NoSeparator(s: string) {
    forall i :: 0 <= i < |s| ==> !IsSeparator(s[i])
  }

  /** The code points `String.prototype.trim` strips: JavaScript's WhiteSpace and LineTerminator. */
  const WhiteSpaceChars: set<char> := {
    '\t', '\U{000B}', '\U{000C}', ' ', '\U{00A0}', '\U{FEFF}', '\n', '\r', '\U{2028}', '\U{2029}', '\U{1680}', '\U{2000}', '\U{2001}', '\U{2002}', '\U{2003}', '\U{2004}', '\U{2005}', '\U{2006}', '\U{2007}', '\U{2008}', '\U{2009}', '\U{200A}', '\U{202F}', '\U{205F}', '\U{3000}'
  }

  predicate IsWhiteSpace(c: char) {
    c in WhiteSpaceChars
  }

  /** No leading and no trailing white space. */
  predicate Trimmed(s: string) {
    s == [] || (!IsWhiteSpace(s[0]) && !IsWhiteSpace(s[|s| - 1]))
  }

  predicate AllWhiteSpace(s: string) {
    forall i :: 0 <= i < |s| ==> IsWhiteSpace(s[i])
  }

  /** `s.trimStart()`. */
  function TrimStart(s: string): (r: string)
    ensures |r| <= |s|
  {
    if s != [] && IsWhiteSpace(s[0]) then TrimStart(s[1..]) else s
  }

  /** `s.trimEnd()`. */
  function TrimEnd(s: string): (r: string)
    ensures |r| <= |s|
  {
    if s != [] && IsWhiteSpace(s[|s| - 1]) then TrimEnd(s[..|s| - 1]) else s
  }

  /** `s.trim()`. */
  function Trim(s: string): string {
    TrimEnd(TrimStart(s))
  }

  /** `TrimStart` removes the leading white space and nothing else. */
  lemma {:induction false} TrimStartDrops(s: string)
    ensures var r := TrimStart(s);
            && |r| <= |s| && r == s[|s| - |r|..]
            && AllWhiteSpace(s[..|s| - |r|])
            && (r == [] || !IsWhiteSpace(r[0]))
  {
    if s != [] && IsWhiteSpace(s[0]) {
      TrimStartDrops(s[1..]);
      var r := TrimStart(s[1..]);
      assert s[..|s| - |r|] == [s[0]] + s[1..][..|s| - 1 - |r|];
    }
  }

  /** `TrimEnd` removes the trailing white space and nothing else. */
  lemma {:induction false} TrimEndDrops(s: string)
    ensures var r := TrimEnd(s);
            && |r| <= |s| && r == s[..|r|]
            && AllWhiteSpace(s[|r|..])
            && (r == [] || !IsWhiteSpace(r[|r| - 1]))
  {
    if s != [] && IsWhiteSpace(s[|s| - 1]) {
      TrimEndDrops(s[..|s| - 1]);
      var r := TrimEnd(s[..|s| - 1]);
      assert s[|r|..] == s[..|s| - 1][|r|..] + [s[|s| - 1]];
    }
  }

  /** The trimmed text is the middle of `s`, with only white space on either side of it. */
  lemma TrimIsMiddle(s: string)
    ensures var r, i := Trim(s), |s| - |TrimStart(s)|;
            && i + |r| <= |s| && r == s[i..i + |r|]
            && AllWhiteSpace(s[..i]) && AllWhiteSpace(s[i + |r|..])
  {
    var t := TrimStart(s);
    var r := TrimEnd(t);
    var i := |s| - |t|;
    TrimStartDrops(s);
    TrimEndDrops(t);
    SliceOfSuffix(s, t, r);
  }

  /** Where a prefix of a suffix of `s` sits in `s`. */
  lemma SliceOfSuffix(s: string, t: string, r: string)
    requires |t| <= |s| && t == s[|s| - |t|..]
    requires |r| <= |t| && r == t[..|r|]
    ensures var i := |s| - |t|; r == s[i..i + |r|] && s[i + |r|..] == t[|r|..]
  {
  }

  /** The trimmed text has no white space at either end. */
  lemma TrimIsTrimmed(s: string)
    ensures Trimmed(Trim(s))
  {
    var t := TrimStart(s);
    var r := TrimEnd(t);
    TrimStartDrops(s);
    TrimEndDrops(t);
    if r != [] {
      assert r[0] == t[0];
    }
  }

  /** Trimming changes exactly the strings with white space at an end. */
  lemma TrimFixesTrimmed(s: string)
    ensures Trim(s) == s <==> Trimmed(s)
  {
    TrimIsTrimmed(s);
    if Trimmed(s) && s != [] {
      assert TrimStart(s) == s;
      assert TrimEnd(s) == s;
    }
  }

  lemma TrimKeepsNoSeparator(s: string)
    requires NoSeparator(s)
    ensures NoSeparator(Trim(s))
  {
    TrimIsMiddle(s);
    var r, i := Trim(s), |s| - |TrimStart(s)|;
    forall k | 0 <= k < |r| ensures !IsSeparator(r[k]) {
      assert r[k] == s[i + k];
    }
  }

  /** The leading run of separators removed. */
  function DropSeparators(s: string): (r: string)
    ensures |r| <= |s| && r == s[|s| - |r|..]
    ensures forall i :: 0 <= i < |s| - |r| ==> IsSeparator(s[i])
    ensures r == [] || !IsSeparator(r[0])
  {
    if s != [] && IsSeparator(s[0]) then DropSeparators(s[1..]) else s
  }

  /**
    `s.split(/[\/\\]+/)`: the pieces between maximal runs of separators,
    with an empty first piece when `s` starts with a separator and an empty
    last piece when it ends with one.
  */
  function Tokens(s: string): (r: seq<string>)
    ensures |r| >= 1
    ensures forall i :: 0 <= i < |r| ==> NoSeparator(r[i])
    decreases |s|
  {
    if s == [] then [""]
    else if IsSeparator(s[0]) then [""] + Tokens(DropSeparators(s[1..]))
    else
      var rest := Tokens(s[1..]);
      [[s[0]] + rest[0]] + rest[1..]
  }

  /** The pieces between single separators; two adjacent separators have an empty piece between them. */
  function Fields(s: string): (r: seq<string>)
    ensures |r| >= 1
    ensures forall i :: 0 <= i < |r| ==> NoSeparator(r[i])
  {
    if s == [] then [""]
    else
      var rest := Fields(s[1..]);
      if IsSeparator(s[0]) then [""] + rest else [[s[0]] + rest[0]] + rest[1..]
  }

  /** `segs.join(sep)`. */
  function Join(segs: seq<string>, sep: string): string {
    if segs == [] then ""
    else if |segs| == 1 then segs[0]
    else segs[0] + sep + Join(segs[1..], sep)
  }

  /** `s` with every backslash written as a slash. */
  function Slashed(s: string): (r: string)
    ensures |r| == |s|
    ensures forall i :: 0 <= i < |s| ==> r[i] == if IsSeparator(s[i]) then '/' else s[i]
  {
    if s == [] then [] else [if IsSeparator(s[0]) then '/' else s[0]] + Slashed(s[1..])
  }

  lemma JoinCons(c: char, head: string, tail: seq<string>)
    ensures Join([[c] + head] + tail, "/") == [c] + Join([head] + tail, "/")
  {
    if tail != [] {
      assert ([[c] + head] + tail)[1..] == tail;
      assert ([head] + tail)[1..] == tail;
    }
  }

  /** Splitting at single separators loses nothing: joining the fields with `/` rebuilds the input. */
  lemma {:induction false} JoinFields(s: string)
    ensures Join(Fields(s), "/") == Slashed(s)
  {
    if s != [] {
      var rest := Fields(s[1..]);
      JoinFields(s[1..]);
      if IsSeparator(s[0]) {
        assert ([""] + rest)[1..] == rest;
      } else {
        JoinCons(s[0], rest[0], rest[1..]);
        assert [rest[0]] + rest[1..] == rest;
      }
    }
  }

  lemma {:induction false} FieldsConcat(a: string, c: char, b: string)
    requires IsSeparator(c)
    ensures Fields(a + [c] + b) == Fields(a) + Fields(b)
  {
    if a == [] {
      assert (a + [c] + b)[1..] == b;
    } else {
      assert (a + [c] + b)[1..] == a[1..] + [c] + b;
      FieldsConcat(a[1..], c, b);
    }
  }

  lemma {:induction false} FieldsOfPlain(w: string)
    requires NoSeparator(w)
    ensures Fields(w) == [w]
  {
    if w != [] {
      FieldsOfPlain(w[1..]);
      assert [w[0]] + w[1..] == w;
    }
  }

  lemma {:induction false} FieldsOfJoin(segs: seq<string>)
    requires segs != []
    requires forall i :: 0 <= i < |segs| ==> NoSeparator(segs[i])
    ensures Fields(Join(segs, "/")) == segs
  {
    if |segs| == 1 {
      FieldsOfPlain(segs[0]);
    } else {
      FieldsOfPlain(segs[0]);
      FieldsOfJoin(segs[1..]);
      FieldsConcat(segs[0], '/', Join(segs[1..], "/"));
      assert segs[0] + "/" + Join(segs[1..], "/") == segs[0] + ['/'] + Join(segs[1..], "/");
      assert [segs[0]] + segs[1..] == segs;
    }
  }

  /** Keeps the non-empty pieces. */
  function NonEmpty(ps: seq<string>): seq<string> {
    if ps == [] then [] else (if ps[0] == "" then [] else [ps[0]]) + NonEmpty(ps[1..])
  }

  lemma {:induction false} FieldsSkipLeadingSeparators(s: string)
    ensures NonEmpty(Fields(s)) == NonEmpty(Fields(DropSeparators(s)))
  {
    if s != [] && IsSeparator(s[0]) {
      FieldsSkipLeadingSeparators(s[1..]);
      assert ([""] + Fields(s[1..]))[1..] == Fields(s[1..]);
    }
  }

  /**
    Splitting at runs of separators and splitting at single separators agree
    on the first piece and, once empty pieces are discarded, on the rest.
  */
  lemma {:induction false} TokensAgreeWithFields(s: string)
    ensures Tokens(s)[0] == Fields(s)[0]
    ensures NonEmpty(Tokens(s)[1..]) == NonEmpty(Fields(s)[1..])
    decreases |s|
  {
    if s != [] {
      if IsSeparator(s[0]) {
        var u := DropSeparators(s[1..]);
        TokensAgreeWithFields(u);
        FieldsSkipLeadingSeparators(s[1..]);
        assert ([""] + Tokens(u))[1..] == Tokens(u);
        assert ([""] + Fields(s[1..]))[1..] == Fields(s[1..]);
        assert Tokens(u) == [Tokens(u)[0]] + Tokens(u)[1..];
        assert Fields(u) == [Fields(u)[0]] + Fields(u)[1..];
      } else {
        TokensAgreeWithFields(s[1..]);
      }
    }
  }

  /** Every piece trimmed (`.map(p => p.trim())`). */
  function TrimAll(ps: seq<string>): (r: seq<string>)
    ensures |r| == |ps|
  {
    if ps == [] then [] else [Trim(ps[0])] + TrimAll(ps[1..])
  }

  /** The pieces that are neither empty nor `.` (`.filter(p => p !== '' && p !== '.')`). */
  function Keep(ps: seq<string>): seq<string> {
    if ps == [] then [] else (if ps[0] != "" && ps[0] != "." then [ps[0]] else []) + Keep(ps[1..])
  }

  lemma {:induction false} KeepConcat(a: seq<string>, b: seq<string>)
    ensures Keep(a + b) == Keep(a) + Keep(b)
  {
    if a != [] {
      var h := if a[0] != "" && a[0] != "." then [a[0]] else [];
      assert (a + b)[0] == a[0];
      assert (a + b)[1..] == a[1..] + b;
      KeepConcat(a[1..], b);
      assert Keep(a + b) == h + Keep(a[1..] + b);
      assert Keep(a) == h + Keep(a[1..]);
    } else {
      assert a + b == b;
    }
  }

  lemma {:induction false} TrimAllConcat(a: seq<string>, b: seq<string>)
    ensures TrimAll(a + b) == TrimAll(a) + TrimAll(b)
  {
    if a != [] {
      assert (a + b)[0] == a[0];
      assert (a + b)[1..] == a[1..] + b;
      TrimAllConcat(a[1..], b);
      assert TrimAll(a + b) == [Trim(a[0])] + TrimAll(a[1..] + b);
    } else {
      assert a + b == b;
    }
  }

  /** Empty pieces stay empty when trimmed and are then dropped, so dropping them first changes nothing. */
  lemma {:induction false} KeepIgnoresEmpty(ps: seq<string>)
    ensures Keep(TrimAll(NonEmpty(ps))) == Keep(TrimAll(ps))
  {
    if ps != [] {
      var rest := ps[1..];
      KeepIgnoresEmpty(rest);
      var t := Trim(ps[0]);
      var h := if t != "" && t != "." then [t] else [];
      assert TrimAll(ps) == [t] + TrimAll(rest);
      assert Keep([t] + TrimAll(rest)) == h + Keep(TrimAll(rest)) by {
        assert ([t] + TrimAll(rest))[1..] == TrimAll(rest);
      }
      if ps[0] == "" {
        assert NonEmpty(ps) == NonEmpty(rest);
        assert t == "";
      } else {
        var ne := NonEmpty(rest);
        assert NonEmpty(ps) == [ps[0]] + ne;
        assert TrimAll([ps[0]] + ne) == [t] + TrimAll(ne) by {
          assert ([ps[0]] + ne)[1..] == ne;
        }
        assert Keep([t] + TrimAll(ne)) == h + Keep(TrimAll(ne)) by {
          assert ([t] + TrimAll(ne))[1..] == TrimAll(ne);
        }
      }
    }
  }

  /** The pieces of a path, trimmed, with empty and `.` pieces dropped. */
  function Segments(path: string): seq<string> {
    Keep(TrimAll(Tokens(path)))
  }

  lemma SegmentsByFields(path: string)
    ensures Segments(path) == Keep(TrimAll(Fields(path)))
  {
    var t, f := Tokens(path), Fields(path);
    TokensAgreeWithFields(path);
    assert t == [t[0]] + t[1..] && f == [f[0]] + f[1..];
    TrimAllConcat([t[0]], t[1..]);
    TrimAllConcat([f[0]], f[1..]);
    KeepConcat(TrimAll([t[0]]), TrimAll(t[1..]));
    KeepConcat(TrimAll([f[0]]), TrimAll(f[1..]));
    KeepIgnoresEmpty(t[1..]);
    KeepIgnoresEmpty(f[1..]);
  }

  /** A separator splits the pieces of a path into those before it and those after it. */
  lemma SegmentsConcat(a: string, c: char, b: string)
    requires IsSeparator(c)
    ensures Segments(a + [c] + b) == Segments(a) + Segments(b)
  {
    SegmentsByFields(a + [c] + b);
    SegmentsByFields(a);
    SegmentsByFields(b);
    FieldsConcat(a, c, b);
    TrimAllConcat(Fields(a), Fields(b));
    KeepConcat(TrimAll(Fields(a)), TrimAll(Fields(b)));
  }

  /** One step of the fold: `..` pops the last segment (a no-op when there is none), anything else is pushed. */
  function Step(acc: seq<string>, p: string): seq<string> {
    if p == ".." then (if acc == [] then [] else acc[..|acc| - 1]) else acc + [p]
  }

  /** The left fold of `Step` over `ps`, starting from `acc`. */
  function Resolve(acc: seq<string>, ps: seq<string>): seq<string>
    decreases |ps|
  {
    if ps == [] then acc else Resolve(Step(acc, ps[0]), ps[1..])
  }

  lemma {:induction false} ResolveConcat(acc: seq<string>, a: seq<string>, b: seq<string>)
    ensures Resolve(acc, a + b) == Resolve(Resolve(acc, a), b)
    decreases |a|
  {
    if a != [] {
      assert (a + b)[0] == a[0];
      assert (a + b)[1..] == a[1..] + b;
      ResolveConcat(Step(acc, a[0]), a[1..], b);
    } else {
      assert a + b == b;
    }
  }

  lemma {:induction false} ResolveWithoutParents(acc: seq<string>, ps: seq<string>)
    requires forall i :: 0 <= i < |ps| ==> ps[i] != ".."
    ensures Resolve(acc, ps) == acc + ps
    decreases |ps|
  {
    if ps != [] {
      ResolveWithoutParents(acc + [ps[0]], ps[1..]);
      assert acc + [ps[0]] + ps[1..] == acc + ps;
    }
  }

  lemma ResolveCons(acc: seq<string>, ps: seq<string>)
    requires ps != []
    ensures Resolve(acc, ps) == Resolve(Step(acc, ps[0]), ps[1..])
  {
  }

  /** The normalised segments of `path`: the value `splitPath` returns. */
  function PathSegments(path: string): seq<string> {
    Resolve([], Segments(path))
  }

  /** What `splitPath` may return as a segment. */
  predicate ValidSegment(p: string) {
    p != "" && p != "." && p != ".." && NoSeparator(p) && Trimmed(p)
  }

  predicate AllValid(segs: seq<string>) {
    forall i :: 0 <= i < |segs| ==> ValidSegment(segs[i])
  }

  /** What survives the filter: a valid segment or `..`. */
  predicate Piece(p: string) {
    p != "" && p != "." && NoSeparator(p) && Trimmed(p)
  }

  lemma {:induction false} KeptPieces(ps: seq<string>)
    requires forall i :: 0 <= i < |ps| ==> NoSeparator(ps[i])
    ensures forall i :: 0 <= i < |Keep(TrimAll(ps))| ==> Piece(Keep(TrimAll(ps))[i])
  {
    if ps != [] {
      KeptPieces(ps[1..]);
      TrimKeepsNoSeparator(ps[0]);
      TrimIsTrimmed(ps[0]);
    }
  }

  lemma {:induction false} ResolveKeepsValid(acc: seq<string>, ps: seq<string>)
    requires AllValid(acc)
    requires forall i :: 0 <= i < |ps| ==> Piece(ps[i])
    ensures AllValid(Resolve(acc, ps))
    decreases |ps|
  {
    if ps != [] {
      ResolveKeepsValid(Step(acc, ps[0]), ps[1..]);
    }
  }

  /** No segment of a normalised path is empty, `.`, `..`, holds a separator, or starts or ends with white space. */
  lemma PathSegmentsValid(path: string)
    ensures AllValid(PathSegments(path))
  {
    KeptPieces(Tokens(path));
    ResolveKeepsValid([], Segments(path));
  }

  /** The `.reduce` of `splitPath`: pops on `..`, pushes anything else, starting from an empty array. */
  method Reduce(pieces: seq<string>) returns (segs: seq<string>)
    ensures segs == Resolve([], pieces)
  {
    segs := [];
    for i := 0 to |pieces|
      invariant Resolve(segs, pieces[i..]) == Resolve([], pieces)
    {
      ResolveCons(segs, pieces[i..]);
      assert pieces[i..][1..] == pieces[i + 1..];
      if pieces[i] == ".." {
        if segs != [] {
          segs := segs[..|segs| - 1];
        }
      } else {
        segs := segs + [pieces[i]];
      }
    }
  }

  /** `splitPath`: split, trim and filter the pieces, then reduce them. */
  method SplitPath(path: string) returns (segs: seq<string>)
    ensures segs == PathSegments(path)
    ensures AllValid(segs)
  {
    segs := Reduce(Segments(path));
    PathSegmentsValid(path);
  }

  /** Appending `/` and more text to a path continues the fold from the path's own segments. */
  lemma PathSegmentsAppend(a: string, b: string)
    ensures PathSegments(a + "/" + b) == Resolve(PathSegments(a), Segments(b))
  {
    assert a + "/" + b == a + ['/'] + b;
    SegmentsConcat(a, '/', b);
    ResolveConcat([], Segments(a), Segments(b));
  }

  lemma SegmentsOfPiece(w: string)
    requires Piece(w)
    ensures Segments(w) == [w]
  {
    SegmentsByFields(w);
    FieldsOfPlain(w);
  }

  lemma ResolveOne(acc: seq<string>, p: string)
    ensures Resolve(acc, [p]) == Step(acc, p)
  {
    assert Resolve(acc, [p]) == Resolve(Step(acc, p), []);
  }

  /** `a/..` is `a` without its last segment; above the root it stays at the root. */
  lemma ParentDropsLast(a: string)
    ensures PathSegments(a + "/" + "..") == if PathSegments(a) == [] then [] else PathSegments(a)[..|PathSegments(a)| - 1]
  {
    assert Piece("..");
    SegmentsOfPiece("..");
    PathSegmentsAppend(a, "..");
    ResolveOne(PathSegments(a), "..");
  }

  /** `a/w` for a valid segment `w` is `a`'s segments followed by `w`. */
  lemma ChildAppends(a: string, w: string)
    requires ValidSegment(w)
    ensures PathSegments(a + "/" + w) == PathSegments(a) + [w]
  {
    SegmentsOfPiece(w);
    PathSegmentsAppend(a, w);
    ResolveOne(PathSegments(a), w);
  }

  /** `cleanPath`: the normalised segments joined by `/` under a leading `/`. */
  function CleanPath(path: string): (r: string)
    ensures |r| >= 1 && r[0] == '/'
  {
    "/" + Join(PathSegments(path), "/")
  }

  lemma SegmentsOfEmpty()
    ensures Segments("") == []
  {
    assert Trim("") == "";
  }

  /** A leading separator adds no segment. */
  lemma SegmentsAfterSeparator(c: char, s: string)
    requires IsSeparator(c)
    ensures Segments([c] + s) == Segments(s)
  {
    assert [c] + s == [] + [c] + s;
    SegmentsConcat([], c, s);
    SegmentsOfEmpty();
  }

  lemma SegmentsOfRooted(s: string)
    ensures Segments("/" + s) == Segments(s)
  {
    SegmentsAfterSeparator('/', s);
  }

  /** Valid segments joined by `/` split back into exactly those segments. */
  lemma SegmentsOfJoin(segs: seq<string>)
    requires AllValid(segs)
    ensures Segments(Join(segs, "/")) == segs
  {
    if segs == [] {
      SegmentsOfEmpty();
    } else {
      FieldsOfJoin(segs);
      SegmentsByFields(Join(segs, "/"));
      TrimsAndKeepsValid(segs);
    }
  }

  /** A rooted join of valid segments normalises back to exactly those segments. */
  lemma PathSegmentsOfRooted(segs: seq<string>)
    requires AllValid(segs)
    ensures PathSegments("/" + Join(segs, "/")) == segs
  {
    SegmentsOfRooted(Join(segs, "/"));
    SegmentsOfJoin(segs);
    ResolveWithoutParents([], segs);
  }

  lemma TrimOfValid(p: string)
    requires ValidSegment(p)
    ensures Trim(p) == p
  {
  }

  lemma AllValidTail(segs: seq<string>)
    requires segs != [] && AllValid(segs)
    ensures ValidSegment(segs[0]) && AllValid(segs[1..])
  {
    var t := segs[1..];
    forall i | 0 <= i < |t| ensures ValidSegment(t[i]) { assert t[i] == segs[i + 1]; }
  }

  lemma KeepTrimCons(h: string, t: seq<string>)
    requires ValidSegment(h)
    ensures Keep(TrimAll([h] + t)) == [h] + Keep(TrimAll(t))
  {
    TrimOfValid(h);
    assert ([h] + t)[1..] == t;
    assert TrimAll([h] + t) == [h] + TrimAll(t);
    assert ([h] + TrimAll(t))[1..] == TrimAll(t);
  }

  lemma {:induction false} TrimsAndKeepsValid(segs: seq<string>)
    requires AllValid(segs)
    ensures Keep(TrimAll(segs)) == segs
  {
    if segs != [] {
      AllValidTail(segs);
      TrimsAndKeepsValid(segs[1..]);
      KeepTrimCons(segs[0], segs[1..]);
      assert [segs[0]] + segs[1..] == segs;
    }
  }


  /** `cleanPath` is idempotent. */
  lemma CleanPathIdempotent(path: string)
    ensures CleanPath(CleanPath(path)) == CleanPath(path)
  {
    PathSegmentsValid(path);
    PathSegmentsOfRooted(PathSegments(path));
  }

  /** Starts with `/`, holds no `\` and no `//`, and ends with `/` only when it is `/` itself. */
  predicate WellFormedRooted(r: string) {
    && |r| >= 1 && r[0] == '/'
    && (forall i :: 0 <= i < |r| ==> r[i] != '\\')
    && (forall i :: 0 <= i < |r| - 1 ==> !(r[i] == '/' && r[i + 1] == '/'))
    && (r == "/" || r[|r| - 1] != '/')
  }

  lemma {:induction false} RootedJoinShape(segs: seq<string>)
    requires forall i :: 0 <= i < |segs| ==> segs[i] != "" && NoSeparator(segs[i])
    ensures WellFormedRooted("/" + Join(segs, "/"))
  {
    var r := "/" + Join(segs, "/");
    if |segs| == 1 {
      assert r == "/" + segs[0];
    } else if |segs| > 1 {
      var a := segs[0];
      var r' := "/" + Join(segs[1..], "/");
      RootedJoinShape(segs[1..]);
      assert r == "/" + a + r';
      assert r'[0] == '/';
      forall i | 0 <= i < |r| ensures r[i] != '\\' {
        if 1 + |a| <= i { assert r[i] == r'[i - 1 - |a|]; }
      }
      forall i | 0 <= i < |r| - 1 ensures !(r[i] == '/' && r[i + 1] == '/') {
        if i < |a| {
          assert r[i + 1] == a[i];
        } else if i == |a| {
          assert r[i] == a[|a| - 1];
        } else {
          assert r[i] == r'[i - 1 - |a|] && r[i + 1] == r'[i - |a|];
        }
      }
    }
  }

  /** `cleanPath`'s output starts with `/`, holds no `\` and no `//`, and ends with `/` only when it is the root. */
  lemma CleanPathShape(path: string)
    ensures WellFormedRooted(CleanPath(path))
  {
    PathSegmentsValid(path);
    RootedJoinShape(PathSegments(path));
  }

  lemma PathSegmentsOfSingle(w: string)
    requires ValidSegment(w)
    ensures PathSegments(w) == [w]
  {
    SegmentsOfPiece(w);
    ResolveOne([], w);
  }

  lemma CleanPathOfEmpty()
    ensures CleanPath("") == "/"
  {
    SegmentsOfEmpty();
    assert PathSegments("") == [];
    assert Join([], "/") == "";
  }

  lemma ParentOfRootIsRoot()
    ensures PathSegments("..") == []
    ensures PathSegments(".." + "/" + "..") == []
  {
    assert Piece("..");
    SegmentsOfPiece("..");
    ResolveOne([], "..");
    ParentDropsLast("..");
  }

  /** `../../a`: leading `..` segments with nothing to pop are discarded. */
  lemma ParentsStopAtRoot(w: string)
    requires ValidSegment(w)
    ensures PathSegments(".." + "/" + ".." + "/" + w) == [w]
  {
    ParentOfRootIsRoot();
    ChildAppends(".." + "/" + "..", w);
  }

  lemma TwoSegments(a: string, b: string)
    requires ValidSegment(a) && ValidSegment(b)
    ensures PathSegments(a + "/" + b) == [a, b]
  {
    PathSegmentsOfSingle(a);
    ChildAppends(a, b);
  }

  lemma TwoSegmentsThenParent(a: string, b: string)
    requires ValidSegment(a) && ValidSegment(b)
    ensures PathSegments(a + "/" + b + "/" + "..") == [a]
  {
    TwoSegments(a, b);
    ParentDropsLast(a + "/" + b);
  }

  /** `a/b/../c`: `..` pops the segment before it. */
  lemma ParentPopsPrevious(a: string, b: string, c: string)
    requires ValidSegment(a) && ValidSegment(b) && ValidSegment(c)
    ensures PathSegments(a + "/" + b + "/" + ".." + "/" + c) == [a, c]
  {
    TwoSegmentsThenParent(a, b);
    ChildAppends(a + "/" + b + "/" + "..", c);
  }

  /** Every character of `run` is a path separator. */
  predicate AllSeparators(run: string) {
    forall i :: 0 <= i < |run| ==> IsSeparator(run[i])
  }

  /** A run of separators in front of a path adds no segment. */
  lemma {:induction false} LeadingRunAddsNothing(run: string, y: string)
    requires AllSeparators(run)
    ensures Segments(run + y) == Segments(y)
  {
    if run != [] {
      LeadingRunStep(run, y);
      LeadingRunAddsNothing(run[1..], y);
    } else {
      assert run + y == y;
    }
  }

  lemma LeadingRunStep(run: string, y: string)
    requires run != [] && IsSeparator(run[0])
    ensures Segments(run + y) == Segments(run[1..] + y)
  {
    var t := run[1..] + y;
    assert run + y == [run[0]] + t;
    SegmentsAfterSeparator(run[0], t);
  }

  /** A run of separators of any length and mix of kinds splits like a single one. */
  lemma SeparatorRunSplits(x: string, run: string, y: string)
    requires |run| >= 1 && AllSeparators(run)
    ensures Segments(x + run + y) == Segments(x) + Segments(y)
  {
    assert x + run + y == x + [run[0]] + (run[1..] + y);
    SegmentsConcat(x, run[0], run[1..] + y);
    LeadingRunAddsNothing(run[1..], y);
  }

  /** `splitPath("a//\\b")`-style inputs: two plain segments around any separator run resolve to exactly those two. */
  lemma RunBetweenSegments(a: string, run: string, b: string)
    requires ValidSegment(a) && ValidSegment(b)
    requires |run| >= 1 && AllSeparators(run)
    ensures PathSegments(a + run + b) == [a, b]
  {
    SegmentsAroundRun(a, run, b);
    ResolveWithoutParents([], [a, b]);
  }

  /**
    `splitPath("//a///b\\c")`-style inputs: three valid segments after a
    leading separator run and between two non-empty runs resolve to exactly
    those three.
  */
  lemma ThreeAroundRuns(lead: string, a: string, r1: string, b: string, r2: string, c: string)
    requires AllSeparators(lead)
    requires ValidSegment(a) && ValidSegment(b) && ValidSegment(c)
    requires |r1| >= 1 && AllSeparators(r1) && |r2| >= 1 && AllSeparators(r2)
    ensures PathSegments(lead + a + r1 + b + r2 + c) == [a, b, c]
  {
    SegmentsOfThree(lead, a, r1, b, r2, c);
    ResolveWithoutParents([], [a, b, c]);
  }

  lemma SegmentsOfThree(lead: string, a: string, r1: string, b: string, r2: string, c: string)
    requires AllSeparators(lead)
    requires ValidSegment(a) && ValidSegment(b) && ValidSegment(c)
    requires |r1| >= 1 && AllSeparators(r1) && |r2| >= 1 && AllSeparators(r2)
    ensures Segments(lead + a + r1 + b + r2 + c) == [a, b, c]
  {
    SeparatorRunSplits(lead + a + r1 + b, r2, c);
    SeparatorRunSplits(lead + a, r1, b);
    LeadingRunAddsNothing(lead, a);
    SegmentsOfPiece(a);
    SegmentsOfPiece(b);
    SegmentsOfPiece(c);
  }

  lemma SegmentsAroundRun(a: string, run: string, b: string)
    requires ValidSegment(a) && ValidSegment(b)
    requires |run| >= 1 && AllSeparators(run)
    ensures Segments(a + run + b) == [a, b]
  {
    SeparatorRunSplits(a, run, b);
    SegmentsOfPiece(a);
    SegmentsOfPiece(b);
  }
}
