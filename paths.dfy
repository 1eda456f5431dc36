/**
 * The parts of `std::path::Path` the Rust code uses on Unix-style paths:
 * `components()` restricted to its `Normal` components, `file_name()` and
 * `extension()`. A path is a string whose separator is `/`.
 */
module Paths {
  import opened Wrappers
  import opened Text
  import opened Sequences

  /** A piece between separators that `components()` reports as `Normal`. */
  predicate IsNormal(piece: string) {
    piece != "" && piece != "." && piece != ".."
  }

  /** Pieces that `components()` does not drop: everything except empty pieces and `.`. */
  predicate IsComponent(piece: string) {
    piece != "" && piece != "."
  }

  /**
   * The `Normal` components of a path, in order: the root, repeated or trailing
   * separators, `.` and `..` contribute nothing.
   */
  function NormalComponents(path: string): (r: seq<string>)
    ensures forall i :: 0 <= i < |r| ==> IsNormal(r[i]) && '/' !in r[i]
  {
    var pieces := Split(path, '/');
    var r := Filter(pieces, IsNormal);
    SplitSpec(path, '/');
    assert forall i :: 0 <= i < |r| ==> '/' !in r[i] by {
      forall i | 0 <= i < |r| ensures '/' !in r[i] {
        FilterMembers(pieces, IsNormal, r[i]);
      }
    }
    r
  }

  /** `file_name()`: the last component, when it is a `Normal` one. */
  function FileName(path: string): (r: Option<string>)
    ensures r.Some? ==> IsNormal(r.value) && '/' !in r.value
  {
    var kept := Filter(Split(path, '/'), IsComponent);
    if kept == [] || kept[|kept| - 1] == ".." then None
    else
      FilterMembers(Split(path, '/'), IsComponent, kept[|kept| - 1]);
      SplitSpec(path, '/');
      Some(kept[|kept| - 1])
  }

  predicate EndsWith(s: string, suffix: string) {
    |suffix| <= |s| && s[|s| - |suffix|..] == suffix
  }

  /**
   * `extension()`: the text after the last `.` of the file name, unless that
   * `.` is the first character of the name (as in `.bashrc`).
   */
  function Extension(path: string): (r: Option<string>)
    ensures r.Some? <==> FileName(path).Some? && '.' in FileName(path).value[1..]
    ensures r.Some? ==> '.' !in r.value && EndsWith(FileName(path).value, "." + r.value)
  {
    match FileName(path)
    case None => None
    case Some(name) =>
      match LastIndexOf(name, '.')
      case None => None
      case Some(i) =>
        if i == 0 then
          assert '.' !in name[1..] by {
            forall j | 0 <= j < |name| - 1 ensures name[1..][j] != '.' {
              assert name[1..][j] == name[j + 1];
            }
          }
          None
        else
          var ext := name[i + 1..];
          assert '.' in name[1..] by { assert name[1..][i - 1] == '.'; }
          assert '.' !in ext by {
            forall j | 0 <= j < |ext| ensures ext[j] != '.' {
              assert ext[j] == name[i + 1 + j];
            }
          }
          assert name[|name| - |ext| - 1..] == "." + ext;
          Some(ext)
  }

  /** The file name of `dir/name` is `name`, whatever `dir` is. */
  lemma FileNameOfJoin(dir: string, name: string)
    requires IsNormal(name) && '/' !in name
    ensures FileName(dir + "/" + name) == Some(name)
  {
    SplitConcat(dir, name, '/');
    SplitNoSeparator(name, '/');
    FilterConcat(Split(dir, '/'), [name], IsComponent);
  }

  /** The components of `a/b` are those of `a` followed by those of `b`. */
  lemma NormalComponentsOfJoin(a: string, b: string)
    ensures NormalComponents(a + "/" + b) == NormalComponents(a) + NormalComponents(b)
  {
    SplitConcat(a, b, '/');
    FilterConcat(Split(a, '/'), Split(b, '/'), IsNormal);
  }

  /** A piece without separators that is `Normal` is a path of one component. */
  lemma NormalComponentsOfName(name: string)
    requires IsNormal(name) && '/' !in name
    ensures NormalComponents(name) == [name]
  {
    SplitNoSeparator(name, '/');
  }

  /** A `Normal` name between two separators is a component, whatever surrounds it. */
  lemma NormalComponentOfMiddle(dir: string, name: string, rest: string)
    requires IsNormal(name) && '/' !in name
    ensures name in NormalComponents(dir + "/" + name + "/" + rest)
  {
    assert dir + "/" + name + "/" + rest == dir + "/" + (name + "/" + rest);
    NormalComponentsOfJoin(dir, name + "/" + rest);
    NormalComponentsOfJoin(name, rest);
    NormalComponentsOfName(name);
  }

  /** A leading `Normal` name is a component, whatever follows it. */
  lemma NormalComponentOfFirst(name: string, rest: string)
    requires IsNormal(name) && '/' !in name
    ensures name in NormalComponents(name + "/" + rest)
  {
    NormalComponentsOfJoin(name, rest);
    NormalComponentsOfName(name);
  }

  /** A path of two `Normal` names has exactly those components. */
  lemma NormalComponentsOfTwo(a: string, b: string)
    requires IsNormal(a) && '/' !in a
    requires IsNormal(b) && '/' !in b
    ensures NormalComponents(a + "/" + b) == [a, b]
  {
    NormalComponentsOfJoin(a, b);
    NormalComponentsOfName(a);
    NormalComponentsOfName(b);
  }

  /** A path of three `Normal` names has exactly those components. */
  lemma NormalComponentsOfThree(a: string, b: string, c: string)
    requires IsNormal(a) && '/' !in a
    requires IsNormal(b) && '/' !in b
    requires IsNormal(c) && '/' !in c
    ensures NormalComponents(a + "/" + b + "/" + c) == [a, b, c]
  {
    var bc := b + "/" + c;
    assert a + "/" + b + "/" + c == a + "/" + bc;
    NormalComponentsOfJoin(a, bc);
    NormalComponentsOfTwo(b, c);
    NormalComponentsOfName(a);
  }

  /** The extension of `dir/stem.ext` is `ext` when `stem` is not empty and `ext` has no dot. */
  lemma ExtensionOfJoin(dir: string, stem: string, ext: string)
    requires stem != "" && ext != "" && '/' !in stem && '/' !in ext && '.' !in ext
    ensures Extension(dir + "/" + stem + "." + ext) == Some(ext)
  {
    var name := stem + "." + ext;
    assert '/' !in name;
    assert IsNormal(name) by {
      assert name[|stem|] == '.';
      assert |name| >= 2;
      assert name[|name| - 1] == ext[|ext| - 1];
    }
    FileNameOfJoin(dir, name);
    assert dir + "/" + stem + "." + ext == dir + "/" + name;
    LastIndexOfAt(stem, '.', ext);
    assert name[|stem| + 1..] == ext;
  }

  lemma DotFileHasNoExtension()
    ensures Extension("src/.ts") == None
  {
    FileNameOfJoin("src", ".ts");
    assert "src/.ts" == "src" + "/" + ".ts";
    LastIndexOfAt("", '.', "ts");
    assert ".ts" == "" + "." + "ts";
  }
}
