/**
 * The default ignore list on the paths its unit tests use: dependency and
 * tool directories and log files are ignored, an ordinary component file is not.
 */
module IgnoreExamples {
  import opened Wrappers
  import opened Text
  import opened Ignore
  import Paths

  /** Which entries of the default list are globs: `*.log` and the test and snapshot suffixes. */
  lemma DefaultGlobIndices(list: seq<string>, i: nat)
    requires list == DefaultIgnorePatterns && i < |list|
    ensures '*' in list[i] <==> i == 12 || 16 <= i
  {
  }

  /**
   * Every default entry is made of letters, digits, `.`, `_`, `-` and `*`, so each glob's
   * rewrite is a regex that compiles and none is dropped.
   */
  lemma DefaultPatternsArePlain(list: seq<string>, i: nat)
    requires list == DefaultIgnorePatterns && i < |list|
    ensures IsPlainGlob(list[i])
  {
    if i < 13 {
      DefaultPatternsArePlainA(list, i);
    } else {
      DefaultPatternsArePlainB(list, i);
    }
  }

  lemma DefaultPatternsArePlainA(list: seq<string>, i: nat)
    requires list == DefaultIgnorePatterns && i < 13
    ensures IsPlainGlob(list[i])
  {
  }

  lemma DefaultPatternsArePlainB(list: seq<string>, i: nat)
    requires list == DefaultIgnorePatterns && 13 <= i < |list|
    ensures IsPlainGlob(list[i])
  {
  }

  lemma DefaultGlobsMissA(list: seq<string>, name: string, i: nat)
    requires list == DefaultIgnorePatterns && name == "Button.tsx" && (i == 12 || 16 <= i <= 19)
    ensures MissesByChar(list[i], name)
  {
    var p := list[i];
    if i == 12 {
      assert p[2] == 'l';
    } else {
      assert p[3] == 'e';
    }
  }

  lemma DefaultGlobsMissB(list: seq<string>, name: string, i: nat)
    requires list == DefaultIgnorePatterns && name == "Button.tsx" && 20 <= i <= 24
    ensures MissesByChar(list[i], name)
  {
    var p := list[i];
    if i == 24 {
      assert p[4] == 'a';
    } else {
      assert p[3] == 'p';
    }
  }

  /** A `node_modules` component anywhere in the path hides the file. */
  lemma NodeModulesIgnored(path: string)
    requires "node_modules" in Paths.NormalComponents(path)
    ensures Ignored(DefaultPatterns(), path)
  {
    ListedNameHit(DefaultIgnorePatterns, 0, path);
  }

  /** In particular `dir/node_modules/rest`, as in `src/node_modules/foo.js`. */
  lemma NestedNodeModulesIgnored(dir: string, rest: string)
    ensures Ignored(DefaultPatterns(), dir + "/node_modules/" + rest)
  {
    Paths.NormalComponentOfMiddle(dir, "node_modules", rest);
    assert dir + "/node_modules/" + rest == dir + "/" + "node_modules" + "/" + rest;
    NodeModulesIgnored(dir + "/node_modules/" + rest);
  }

  /** A `.git` component anywhere in the path hides the file. */
  lemma GitDirectoryIgnored(path: string)
    requires ".git" in Paths.NormalComponents(path)
    ensures Ignored(DefaultPatterns(), path)
  {
    ListedNameHit(DefaultIgnorePatterns, 1, path);
  }

  /** In particular everything under a top-level `.git`, as in `.git/config`. */
  lemma TopLevelGitIgnored(rest: string)
    ensures Ignored(DefaultPatterns(), ".git/" + rest)
  {
    Paths.NormalComponentOfFirst(".git", rest);
    assert ".git/" + rest == ".git" + "/" + rest;
    GitDirectoryIgnored(".git/" + rest);
  }

  lemma DefaultLogGlob()
    ensures DefaultIgnorePatterns[12] == "*" + ".log"
    ensures IsPlainGlob(".log") && '*' !in ".log"
  {
    assert ".log"[1] == 'l';
  }

  /** Any path containing `.log`, such as `app.log`, is hidden by the `*.log` glob. */
  lemma LogFileIgnored(path: string)
    requires Contains(path, ".log")
    ensures Ignored(DefaultPatterns(), path)
  {
    DefaultLogGlob();
    ListedGlobHit(DefaultIgnorePatterns, 12, ".log", path);
  }

  lemma SourceNamesUnlisted(list: seq<string>, components: seq<string>)
    requires list == DefaultIgnorePatterns && components == ["src", "components", "Button.tsx"]
    ensures forall c | c in components :: c !in list
  {
  }

  lemma SourceGlobsMiss(list: seq<string>, name: string)
    requires list == DefaultIgnorePatterns && name == "Button.tsx"
    ensures forall i | 0 <= i < |list| && '*' in list[i] :: MissesByChar(list[i], name)
  {
    forall i | 0 <= i < |list| && '*' in list[i] ensures MissesByChar(list[i], name) {
      DefaultGlobIndices(list, i);
      if i < 20 {
        DefaultGlobsMissA(list, name, i);
      } else {
        DefaultGlobsMissB(list, name, i);
      }
    }
  }

  /** The components, file name and directory prefix of a path `a/b/c` of `Normal` names. */
  lemma ThreeNamePath(a: string, b: string, c: string)
    requires Paths.IsNormal(a) && '/' !in a && Paths.IsNormal(b) && '/' !in b && Paths.IsNormal(c) && '/' !in c
    ensures Paths.NormalComponents(a + "/" + b + "/" + c) == [a, b, c]
    ensures Paths.FileName(a + "/" + b + "/" + c) == Some(c)
    ensures a + "/" + b + "/" + c == (a + "/" + b + "/") + c
  {
    Paths.NormalComponentsOfThree(a, b, c);
    Paths.FileNameOfJoin(a + "/" + b, c);
  }

  /** An ordinary source file, `src/components/Button.tsx`, is scanned. */
  lemma SourceFileKept(list: seq<string>, a: string, b: string, c: string)
    requires list == DefaultIgnorePatterns && a == "src" && b == "components" && c == "Button.tsx"
    ensures !Ignored(IgnorePatterns(ExactNames(list), GlobRegexes(list)), a + "/" + b + "/" + c)
  {
    var path, dir := a + "/" + b + "/" + c, a + "/" + b + "/";
    ThreeNamePath(a, b, c);
    SourceNamesUnlisted(list, Paths.NormalComponents(path));
    SourceGlobsMiss(list, c);
    assert '.' !in dir;
    NothingListedHits(list, path, dir, c);
  }
}
