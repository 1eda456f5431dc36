/** The command line's defaulting of the source directories to search. */
module Cli {
  import opened Sequences

  predicate NonEmpty(dir: string) {
    dir != []
  }

  /**
   * `Cli::validate_source_dirs`: the given directories without the empty
   * strings, in their order, or the current directory `.` when none is left.
   */
  function ValidateSourceDirs(sourceDirs: seq<string>): (r: seq<string>)
    ensures r != []
    ensures forall i | 0 <= i < |r| :: r[i] != []
    ensures (forall i | 0 <= i < |sourceDirs| :: sourceDirs[i] == []) <==> r == ["."] && "." !in sourceDirs
    ensures (exists i | 0 <= i < |sourceDirs| :: sourceDirs[i] != []) ==> IsSubsequence(r, sourceDirs)
    ensures (exists i | 0 <= i < |sourceDirs| :: sourceDirs[i] != []) ==> r == Filter(sourceDirs, NonEmpty)
  {
    var validDirs := Filter(sourceDirs, NonEmpty);
    FilterEmpty(sourceDirs, NonEmpty);
    FilterIsSubsequence(sourceDirs, NonEmpty);
    FilterMembers(sourceDirs, NonEmpty, ".");
    if validDirs == [] then ["."] else validDirs
  }

  /**
   * A directory appears in the result exactly when it was given and is not empty, unless none
   * was; a repeated directory keeps all its occurrences.
   */
  lemma KeptDirectories(sourceDirs: seq<string>, dir: string)
    requires exists i | 0 <= i < |sourceDirs| :: sourceDirs[i] != []
    ensures dir in ValidateSourceDirs(sourceDirs) <==> dir in sourceDirs && dir != []
    ensures multiset(ValidateSourceDirs(sourceDirs))[dir] == if dir != [] then multiset(sourceDirs)[dir] else 0
  {
    FilterEmpty(sourceDirs, NonEmpty);
    FilterMembers(sourceDirs, NonEmpty, dir);
    FilterCounts(sourceDirs, NonEmpty, dir);
  }

  /** Validating an already validated list changes nothing. */
  lemma ValidateIdempotent(sourceDirs: seq<string>)
    ensures ValidateSourceDirs(ValidateSourceDirs(sourceDirs)) == ValidateSourceDirs(sourceDirs)
  {
    var r := ValidateSourceDirs(sourceDirs);
    FilterKeepsAll(r, NonEmpty);
  }
}
