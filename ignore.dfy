/**
 * Ignore rules for source discovery: the default pattern list, its split into
 * exact names and globs (each glob rewritten into a regular expression), and
 * the test that decides whether a path is ignored.
 */
module Ignore {
  import opened Wrappers
  import opened Text
  import opened Sequences
  import Paths

  /** Build, dependency and test directories and files that are never scanned. */
  const DefaultIgnorePatterns: seq<string> := [
    "node_modules", ".git", "dist", "build", "target", ".next", ".nuxt", ".cache",
    "coverage", ".idea", ".vscode", ".DS_Store", "*.log",
    "__tests__", "tests", "test",
    "*.test.js", "*.test.jsx", "*.test.ts", "*.test.tsx",
    "*.spec.js", "*.spec.jsx", "*.spec.ts", "*.spec.tsx", "*.snap"
  ]

  /** The compiled patterns: names compared with path components, and glob regexes (as regex text). */
  datatype IgnorePatterns = IgnorePatterns(exactMatches: set<string>, globRegexes: seq<string>)

  // ---------------------------------------------------------------------------
  // Glob to regex, and the fragment of regex syntax the rewrite produces
  // ---------------------------------------------------------------------------

  /** Every `.` becomes `\.`, then every `*` becomes `.*` (in that order). */
  function GlobToRegex(glob: string): string {
    ReplaceChar(ReplaceChar(glob, '.', "\\."), '*', ".*")
  }

  datatype Atom = Literal(c: char) | AnyButNewline
  datatype Piece = Once(atom: Atom) | Repeated(atom: Atom)

  /**
   * Reads regex text made of literal characters, escapes `\c`, the wildcard
   * `.` and the postfix `*`. Other regex syntax never arises from the default
   * patterns and is read as literal characters.
   */
  function Tokens(re: string): seq<Piece>
    decreases |re|
  {
    if re == [] then []
    else
      var escaped := re[0] == '\\' && |re| > 1;
      var atom := if escaped then Literal(re[1]) else if re[0] == '.' then AnyButNewline else Literal(re[0]);
      var rest := if escaped then re[2..] else re[1..];
      if rest != [] && rest[0] == '*' then [Repeated(atom)] + Tokens(rest[1..])
      else [Once(atom)] + Tokens(rest)
  }

  predicate AtomMatches(a: Atom, c: char) {
    match a
    case Literal(l) => c == l
    case AnyButNewline => c != '\n'
  }

  /** The pieces match a prefix of `s[i..]` (what follows the match is unconstrained). */
  predicate MatchHere(ps: seq<Piece>, s: string, i: nat)
    requires i <= |s|
    decreases |ps|, |s| - i
  {
    if ps == [] then true
    else match ps[0]
      case Once(a) => i < |s| && AtomMatches(a, s[i]) && MatchHere(ps[1..], s, i + 1)
      case Repeated(a) =>
        MatchHere(ps[1..], s, i) || (i < |s| && AtomMatches(a, s[i]) && MatchHere(ps, s, i + 1))
  }

  /** `Regex::is_match`: the regex is unanchored, so a match may start anywhere. */
  predicate RegexIsMatch(re: string, s: string) {
    exists i | 0 <= i <= |s| :: MatchHere(Tokens(re), s, i)
  }

  /** The meaning of a glob: `*` is any run of characters other than newline, every other character itself. */
  function GlobPieces(glob: string): seq<Piece> {
    if glob == [] then []
    else [if glob[0] == '*' then Repeated(AnyButNewline) else Once(Literal(glob[0]))] + GlobPieces(glob[1..])
  }

  // ---------------------------------------------------------------------------
  // Loading the defaults
  // ---------------------------------------------------------------------------

  /** The regexes of the patterns that contain `*`, in list order. */
  function GlobRegexes(patterns: seq<string>): seq<string> {
    if patterns == [] then []
    else
      var last := patterns[|patterns| - 1];
      GlobRegexes(patterns[..|patterns| - 1]) + (if '*' in last then [GlobToRegex(last)] else [])
  }

  /** The patterns without `*`: names compared with whole path components. */
  function ExactNames(patterns: seq<string>): set<string> {
    set p | p in patterns && '*' !in p
  }

  /** The value `load_ignore_patterns` builds from the default list. */
  function DefaultPatterns(): IgnorePatterns {
    IgnorePatterns(ExactNames(DefaultIgnorePatterns), GlobRegexes(DefaultIgnorePatterns))
  }

  /** The loop of `load_ignore_patterns`, over any pattern list. */
  method LoadPatterns(list: seq<string>) returns (patterns: IgnorePatterns)
    ensures patterns == IgnorePatterns(ExactNames(list), GlobRegexes(list))
  {
    var exactMatches: set<string> := {};
    var globRegexes: seq<string> := [];
    for i := 0 to |list|
      invariant exactMatches == ExactNames(list[..i])
      invariant globRegexes == GlobRegexes(list[..i])
    {
      var pattern := list[i];
      assert list[..i + 1] == list[..i] + [pattern];
      assert list[..i + 1][..i] == list[..i];
      if '*' in pattern {
        globRegexes := globRegexes + [GlobToRegex(pattern)];
      } else {
        exactMatches := exactMatches + {pattern};
      }
    }
    assert list[..|list|] == list;
    patterns := IgnorePatterns(exactMatches, globRegexes);
  }

  method LoadIgnorePatterns() returns (patterns: IgnorePatterns)
    ensures patterns == DefaultPatterns()
  {
    patterns := LoadPatterns(DefaultIgnorePatterns);
  }

  // ---------------------------------------------------------------------------
  // The test
  // ---------------------------------------------------------------------------

  /**
   * A path is ignored when one of its `Normal` components is an exact name, or
   * when a glob regex matches its file name or the whole path.
   */
  predicate Ignored(patterns: IgnorePatterns, path: string) {
    || (exists c | c in Paths.NormalComponents(path) :: c in patterns.exactMatches)
    || (exists re | re in patterns.globRegexes :: GlobHits(re, path))
  }

  /** A glob regex hits a path when it matches the file name or the whole path. */
  predicate GlobHits(re: string, path: string) {
    || (Paths.FileName(path).Some? && RegexIsMatch(re, Paths.FileName(path).value))
    || RegexIsMatch(re, path)
  }

  /** The first loop of `should_ignore`: does some component name an exact pattern? */
  method AnyExactComponent(exactMatches: set<string>, components: seq<string>) returns (found: bool)
    ensures found <==> exists c | c in components :: c in exactMatches
  {
    for i := 0 to |components|
      invariant forall j :: 0 <= j < i ==> components[j] !in exactMatches
    {
      if components[i] in exactMatches {
        return true;
      }
    }
    return false;
  }

  /** The second loop of `should_ignore`: does some glob regex hit the file name or the path? */
  method AnyGlobHit(globRegexes: seq<string>, path: string) returns (found: bool)
    ensures found <==> exists re | re in globRegexes :: GlobHits(re, path)
  {
    var fileName := Paths.FileName(path);
    for i := 0 to |globRegexes|
      invariant forall j :: 0 <= j < i ==> !GlobHits(globRegexes[j], path)
    {
      var re := globRegexes[i];
      if fileName.Some? && RegexIsMatch(re, fileName.value) {
        assert GlobHits(re, path);
        return true;
      }
      if RegexIsMatch(re, path) {
        assert GlobHits(re, path);
        return true;
      }
    }
    return false;
  }

  /** `should_ignore`: components first, then globs; the first hit decides. */
  method ShouldIgnore(patterns: IgnorePatterns, path: string) returns (ignored: bool)
    ensures ignored == Ignored(patterns, path)
  {
    ignored := AnyExactComponent(patterns.exactMatches, Paths.NormalComponents(path));
    if !ignored {
      ignored := AnyGlobHit(patterns.globRegexes, path);
    }
  }

  // ---------------------------------------------------------------------------
  // What the rewritten globs mean
  // ---------------------------------------------------------------------------

  /** Letters, digits, `.`, `_`, `-` and `*`: characters the rewrite leaves no regex syntax behind for. */
  predicate IsPlainChar(c: char) {
    || 'a' <= c <= 'z' || 'A' <= c <= 'Z' || '0' <= c <= '9'
    || c == '.' || c == '_' || c == '-' || c == '*'
  }

  /** A glob made only of plain characters, as every default pattern is. */
  predicate IsPlainGlob(glob: string) {
    forall i :: 0 <= i < |glob| ==> IsPlainChar(glob[i])
  }

  /** The rewrite works character by character. */
  lemma GlobToRegexCons(c: char, rest: string)
    ensures GlobToRegex([c] + rest)
         == (if c == '*' then ".*" else if c == '.' then "\\." else [c]) + GlobToRegex(rest)
  {
    assert ([c] + rest)[1..] == rest;
    var head := if c == '.' then "\\." else [c];
    assert ReplaceChar([c] + rest, '.', "\\.") == head + ReplaceChar(rest, '.', "\\.");
    ReplaceCharConcat(head, ReplaceChar(rest, '.', "\\."), '*', ".*");
    if c != '.' {
      assert head[1..] == [];
    }
  }

  /** Every `*` of a rewritten glob comes right after a `.`, so none comes first. */
  lemma RegexDoesNotStartWithStar(glob: string)
    ensures GlobToRegex(glob) == [] || GlobToRegex(glob)[0] != '*'
  {
    if glob != [] {
      assert glob == [glob[0]] + glob[1..];
      GlobToRegexCons(glob[0], glob[1..]);
    }
  }

  /** Reading back the rewrite of a plain glob gives exactly the glob's meaning. */
  lemma {:induction false} TokensOfGlob(glob: string)
    requires IsPlainGlob(glob)
    ensures Tokens(GlobToRegex(glob)) == GlobPieces(glob)
    decreases |glob|
  {
    if glob == [] {
    } else {
      var c, rest := glob[0], glob[1..];
      assert glob == [c] + rest;
      assert IsPlainGlob(rest) by {
        forall i | 0 <= i < |rest| ensures IsPlainChar(rest[i]) {
          assert rest[i] == glob[i + 1];
        }
      }
      GlobToRegexCons(c, rest);
      TokensOfGlob(rest);
      RegexDoesNotStartWithStar(rest);
      var re, tail := GlobToRegex(glob), GlobToRegex(rest);
      assert c != '\\' by { assert IsPlainChar(glob[0]); }
      if c == '*' {
        assert re == ".*" + tail;
        assert re[1..][1..] == tail;
      } else if c == '.' {
        assert re == "\\." + tail;
        assert re[2..] == tail;
      } else {
        assert re == [c] + tail;
        assert re[1..] == tail;
      }
    }
  }

  /** A glob without `*` matches at `i` exactly when its text occurs there. */
  lemma {:induction false} LiteralMatch(w: string, s: string, i: nat)
    requires '*' !in w && i <= |s|
    ensures MatchHere(GlobPieces(w), s, i) <==> OccursAt(s, w, i)
    decreases |w|
  {
    if w != [] {
      var ps := GlobPieces(w);
      assert ps[0] == Once(Literal(w[0]));
      assert ps[1..] == GlobPieces(w[1..]);
      assert '*' !in w[1..] by {
        forall j | 0 <= j < |w| - 1 ensures w[1..][j] != '*' {
          assert w[1..][j] == w[j + 1];
        }
      }
      if i < |s| {
        LiteralMatch(w[1..], s, i + 1);
        if OccursAt(s, w, i) {
          assert s[i] == s[i..i + |w|][0];
          assert s[i + 1..i + 1 + |w[1..]|] == s[i..i + |w|][1..];
        }
        if s[i] == w[0] && OccursAt(s, w[1..], i + 1) {
          assert s[i..i + |w|] == [s[i]] + s[i + 1..i + 1 + |w[1..]|];
        }
      }
    }
  }

  /**
   * A match of the rest of the pattern at `i` is still a match after a leading `.*`;
   * and a match with the leading `.*` at `i` has the rest matching at some `k >= i`.
   */
  lemma {:induction false} StarThen(ps: seq<Piece>, s: string, i: nat)
    requires i <= |s|
    ensures MatchHere(ps, s, i) ==> MatchHere([Repeated(AnyButNewline)] + ps, s, i)
    ensures MatchHere([Repeated(AnyButNewline)] + ps, s, i) ==> exists k | i <= k <= |s| :: MatchHere(ps, s, k)
    decreases |s| - i
  {
    var star := [Repeated(AnyButNewline)] + ps;
    assert star[1..] == ps;
    if MatchHere(star, s, i) && !MatchHere(ps, s, i) {
      StarThen(ps, s, i + 1);
    }
  }

  /** A glob `*w` (that is, `.*w` as a regex) matches exactly the strings containing `w`. */
  lemma StarGlobMatches(w: string, s: string)
    requires IsPlainGlob(w) && '*' !in w
    ensures RegexIsMatch(GlobToRegex("*" + w), s) <==> Contains(s, w)
  {
    var glob := "*" + w;
    assert IsPlainGlob(glob) by {
      forall i | 0 <= i < |glob| ensures IsPlainChar(glob[i]) {
        if i > 0 { assert glob[i] == w[i - 1]; }
      }
    }
    TokensOfGlob(glob);
    assert glob == ['*'] + w;
    assert glob[1..] == w;
    var ps := GlobPieces(w);
    assert Tokens(GlobToRegex(glob)) == [Repeated(AnyButNewline)] + ps;
    if RegexIsMatch(GlobToRegex(glob), s) {
      var i :| 0 <= i <= |s| && MatchHere([Repeated(AnyButNewline)] + ps, s, i);
      StarThen(ps, s, i);
      var k :| i <= k <= |s| && MatchHere(ps, s, k);
      LiteralMatch(w, s, k);
      assert OccursAt(s, w, k);
    }
    if Contains(s, w) {
      var i :| 0 <= i <= |s| - |w| && OccursAt(s, w, i);
      LiteralMatch(w, s, i);
      StarThen(ps, s, i);
    }
  }

  // ---------------------------------------------------------------------------
  // Properties of loading
  // ---------------------------------------------------------------------------

  /** A regex is compiled exactly when some pattern contains `*` and rewrites to it. */
  lemma {:induction false} GlobRegexesMembers(patterns: seq<string>, re: string)
    ensures re in GlobRegexes(patterns)
        <==> exists i :: 0 <= i < |patterns| && '*' in patterns[i] && re == GlobToRegex(patterns[i])
    decreases |patterns|
  {
    if patterns != [] {
      var n := |patterns| - 1;
      var init := patterns[..n];
      GlobRegexesMembers(init, re);
      if re in GlobRegexes(init) {
        var i :| 0 <= i < |init| && '*' in init[i] && re == GlobToRegex(init[i]);
        assert patterns[i] == init[i];
      }
      if exists i :: 0 <= i < |patterns| && '*' in patterns[i] && re == GlobToRegex(patterns[i]) {
        var i :| 0 <= i < |patterns| && '*' in patterns[i] && re == GlobToRegex(patterns[i]);
        if i < n {
          assert init[i] == patterns[i];
        }
      }
    }
  }

  /** Every pattern lands on exactly one side: names without `*`, regexes of those with it. */
  lemma PatternsPartitioned(patterns: seq<string>, i: nat)
    requires i < |patterns|
    ensures patterns[i] in ExactNames(patterns) <==> '*' !in patterns[i]
    ensures '*' in patterns[i] ==> GlobToRegex(patterns[i]) in GlobRegexes(patterns)
  {
    GlobRegexesMembers(patterns, GlobToRegex(patterns[i]));
  }

  // ---------------------------------------------------------------------------
  // Hits and misses decided from the pattern list
  // ---------------------------------------------------------------------------

  /** A listed name without `*` that is a component of the path ignores it. */
  lemma ListedNameHit(list: seq<string>, i: nat, path: string)
    requires i < |list| && '*' !in list[i] && list[i] in Paths.NormalComponents(path)
    ensures Ignored(IgnorePatterns(ExactNames(list), GlobRegexes(list)), path)
  {
  }

  /** A listed glob `*w` ignores every path whose text contains `w`. */
  lemma ListedGlobHit(list: seq<string>, i: nat, w: string, path: string)
    requires i < |list| && list[i] == "*" + w
    requires IsPlainGlob(w) && '*' !in w && Contains(path, w)
    ensures Ignored(IgnorePatterns(ExactNames(list), GlobRegexes(list)), path)
  {
    PatternsPartitioned(list, i);
    StarGlobMatches(w, path);
    assert GlobHits(GlobToRegex(list[i]), path);
  }

  /** A star-prefixed glob misses every text lacking one of the characters after the star. */
  lemma StarGlobMisses(w: string, s: string, j: nat)
    requires IsPlainGlob(w) && '*' !in w && j < |w| && w[j] !in s
    ensures !RegexIsMatch(GlobToRegex("*" + w), s)
  {
    StarGlobMatches(w, s);
    if Contains(s, w) {
      ContainsChars(s, w, j);
    }
  }

  /** `p` is `*.` followed by plain characters, one of which does not occur in `name`. */
  predicate MissesByChar(p: string, name: string) {
    && |p| >= 2 && p[0] == '*' && p[1] == '.'
    && (forall k :: 1 <= k < |p| ==> IsPlainChar(p[k]) && p[k] != '*')
    && exists j :: 1 <= j < |p| && p[j] !in name
  }

  /** A listed glob of that shape hits neither the file name nor, under a dot-free directory, the path. */
  lemma ListedGlobMisses(p: string, path: string, dir: string, name: string)
    requires MissesByChar(p, name)
    requires Paths.FileName(path) == Some(name) && path == dir + name && '.' !in dir
    ensures !GlobHits(GlobToRegex(p), path)
  {
    var w := p[1..];
    assert p == "*" + w;
    assert IsPlainGlob(w) && '*' !in w by {
      forall k | 0 <= k < |w| ensures IsPlainChar(w[k]) && w[k] != '*' {
        assert w[k] == p[k + 1];
      }
    }
    var j :| 1 <= j < |p| && p[j] !in name;
    assert w[j - 1] == p[j];
    StarGlobMisses(w, name, j - 1);
    if RegexIsMatch(GlobToRegex(p), path) {
      StarGlobMatches(w, path);
      ContainsInSuffix(dir, name, w);
      StarGlobMatches(w, name);
    }
  }

  /**
   * A path none of whose components is listed, under a directory without dots,
   * is kept when every listed glob is a `*.` suffix missing from its file name.
   */
  lemma NothingListedHits(list: seq<string>, path: string, dir: string, name: string)
    requires forall c | c in Paths.NormalComponents(path) :: c !in list
    requires Paths.FileName(path) == Some(name) && path == dir + name && '.' !in dir
    requires forall i | 0 <= i < |list| && '*' in list[i] :: MissesByChar(list[i], name)
    ensures !Ignored(IgnorePatterns(ExactNames(list), GlobRegexes(list)), path)
  {
    forall re | re in GlobRegexes(list) ensures !GlobHits(re, path) {
      GlobRegexesMembers(list, re);
      var i :| 0 <= i < |list| && '*' in list[i] && re == GlobToRegex(list[i]);
      ListedGlobMisses(list[i], path, dir, name);
    }
  }
}
