/**
 * The usage scan: the two kinds of pattern built from the translation keys,
 * the grouping of keys by their base prefix, the single pass over the source
 * files that combines both kinds with its short cuts, and the filter that
 * decides which discovered files take part.
 */
module Search {
  import opened Wrappers
  import opened Text
  import opened Sequences
  import Paths
  import Ignore

  // ---------------------------------------------------------------------------
  // The two matchers
  // ---------------------------------------------------------------------------

  /** A character that `\w` accepts (the ASCII part of it). */
  predicate IsWordChar(c: char) {
    ('a' <= c <= 'z') || ('A' <= c <= 'Z') || ('0' <= c <= '9') || c == '_'
  }

  predicate WordBefore(s: string, i: int) {
    0 < i <= |s| && IsWordChar(s[i - 1])
  }

  predicate WordAt(s: string, i: int) {
    0 <= i < |s| && IsWordChar(s[i])
  }

  /** `\b` at position `i`: exactly one of the two neighbouring characters is a word character. */
  predicate IsBoundary(s: string, i: int) {
    WordBefore(s, i) != WordAt(s, i)
  }

  /** The escaped key between two `\b`, as found by `Regex::is_match` anywhere in the text. */
  predicate ExactMatch(key: string, content: string) {
    exists i | 0 <= i <= |content| - |key| ::
      OccursAt(content, key, i) && IsBoundary(content, i) && IsBoundary(content, i + |key|)
  }

  /** The text that introduces an interpolation after a prefix: `.${`. */
  const InterpolationOpen: string := ".${"

  /**
   * `prefix\.\$\{[^}]+\}` found anywhere in the text: the prefix, `.${`, a
   * non-empty run of characters other than `}`, then `}`.
   */
  predicate DynamicMatch(prefix: string, content: string) {
    exists i, j | 0 <= i && i + |prefix| + 3 < j < |content| ::
      OccursAt(content, prefix + InterpolationOpen, i) && content[j] == '}' &&
      forall k | i + |prefix| + 3 <= k < j :: content[k] != '}'
  }

  /** The shape of an interpolation match, in both directions: text, prefix, `.${`, a run without `}`, `}`, text. */
  lemma DynamicMatchShape(prefix: string, content: string)
    ensures DynamicMatch(prefix, content)
        <==> exists before, inner, after ::
               content == before + prefix + InterpolationOpen + inner + "}" + after && inner != [] && '}' !in inner
  {
    if DynamicMatch(prefix, content) {
      var before, inner, after := DynamicMatchParts(prefix, content);
    }
    if exists before, inner, after ::
         content == before + prefix + InterpolationOpen + inner + "}" + after && inner != [] && '}' !in inner {
      var before, inner, after :|
        content == before + prefix + InterpolationOpen + inner + "}" + after && inner != [] && '}' !in inner;
      InterpolationFound(prefix, before, inner, after);
    }
  }

  /** The pieces of a text that an interpolation pattern matches. */
  lemma DynamicMatchParts(prefix: string, content: string) returns (before: string, inner: string, after: string)
    requires DynamicMatch(prefix, content)
    ensures content == before + prefix + InterpolationOpen + inner + "}" + after && inner != [] && '}' !in inner
  {
    var n := |prefix| + 3;
    var i, j :| 0 <= i && i + n < j < |content| &&
      OccursAt(content, prefix + InterpolationOpen, i) && content[j] == '}' &&
      forall k | i + n <= k < j :: content[k] != '}';
    before, inner, after := content[..i], content[i + n..j], content[j + 1..];
    InterpolationPieces(prefix, content, i, j);
    assert forall k | 0 <= k < |inner| :: inner[k] == content[i + n + k];
  }

  /** Cutting a text around an occurrence of `prefix.${` at `i` and a `}` at `j`. */
  lemma InterpolationPieces(prefix: string, content: string, i: nat, j: nat)
    requires i + |prefix| + 3 < j < |content| && OccursAt(content, prefix + InterpolationOpen, i) && content[j] == '}'
    ensures content == content[..i] + prefix + InterpolationOpen + content[i + |prefix| + 3..j] + "}" + content[j + 1..]
  {
    var n := |prefix| + 3;
    assert |InterpolationOpen| == 3;
    Decompose(content, i, i + n, j);
    assert content[i..i + n] == prefix + InterpolationOpen;
    assert [content[j]] == "}";
  }

  /** Any non-empty run without `}` between `prefix.${` and `}` matches, with no anchor on either side. */
  lemma InterpolationFound(prefix: string, before: string, inner: string, after: string)
    requires inner != [] && '}' !in inner
    ensures DynamicMatch(prefix, before + prefix + InterpolationOpen + inner + "}" + after)
  {
    var content := before + prefix + InterpolationOpen + inner + "}" + after;
    var i, n := |before|, |prefix| + 3;
    var j := i + n + |inner|;
    assert |InterpolationOpen| == 3;
    assert content[i..i + n] == prefix + InterpolationOpen;
    assert content[j] == '}';
    forall k | i + n <= k < j
      ensures content[k] != '}'
    {
      assert content[k] == inner[k - i - n];
    }
    assert OccursAt(content, prefix + InterpolationOpen, i) && content[j] == '}' &&
      forall k | i + n <= k < j :: content[k] != '}';
  }

  /** After a key ending in a non-word character such as `]`, `\b` holds only before a word character. */
  lemma NonWordEndNeedsWordAfter(key: string, content: string)
    requires |key| > 0 && !IsWordChar(key[|key| - 1])
    ensures ExactMatch(key, content)
        ==> exists i | 0 <= i <= |content| - |key| :: OccursAt(content, key, i) && WordAt(content, i + |key|)
  {
    if ExactMatch(key, content) {
      var i :| 0 <= i <= |content| - |key| &&
        OccursAt(content, key, i) && IsBoundary(content, i) && IsBoundary(content, i + |key|);
      assert content[i + |key| - 1] == content[i..i + |key|][|key| - 1];
    }
  }

  /** A key starting with a word character is not found where a word character precedes each occurrence. */
  lemma NotFoundInsideWord(key: string, content: string)
    requires |key| > 0 && IsWordChar(key[0])
    requires forall i | 0 <= i <= |content| - |key| && OccursAt(content, key, i) :: WordBefore(content, i)
    ensures !ExactMatch(key, content)
  {
    forall i | 0 <= i <= |content| - |key| && OccursAt(content, key, i)
      ensures !IsBoundary(content, i)
    {
      assert content[i] == content[i..i + |key|][0];
    }
  }

  /** A compiled pattern: the word-bounded key, or the interpolated prefix. */
  datatype Matcher = WordBounded(key: string) | Interpolation(prefix: string)

  /** `Regex::is_match` for the two shapes of pattern the scan compiles. */
  predicate IsMatch(m: Matcher, content: string) {
    match m
    case WordBounded(key) => ExactMatch(key, content)
    case Interpolation(prefix) => DynamicMatch(prefix, content)
  }

  /** A pattern list pairs each name (a key or a prefix) with its matcher. */
  type Patterns = seq<(string, Matcher)>

  // ---------------------------------------------------------------------------
  // Base prefixes
  // ---------------------------------------------------------------------------

  /** Everything before the last `.` of a key; a key without `.` has no prefix. */
  function BasePrefix(key: string): (r: Option<string>)
    ensures r.None? <==> '.' !in key
    ensures r.Some? ==> |r.value| < |key| && key[|r.value|] == '.' && key[..|r.value|] == r.value
    ensures r.Some? ==> '.' !in key[|r.value| + 1..]
  {
    match LastIndexOf(key, '.')
    case None => None
    case Some(dotPos) =>
      var tail := key[dotPos + 1..];
      assert forall j | 0 <= j < |tail| :: tail[j] == key[dotPos + 1 + j];
      Some(key[..dotPos])
  }

  /** The prefixes that occur among `keys`. */
  function PrefixesOf(keys: set<string>): set<string> {
    set k | k in keys && BasePrefix(k).Some? :: BasePrefix(k).value
  }

  /** The grouping of keys by base prefix that the scan works with. */
  function Groups(keys: set<string>): map<string, set<string>> {
    map p | p in PrefixesOf(keys) :: set k | k in keys && BasePrefix(k) == Some(p)
  }

  /** A key sits in the group of exactly its own base prefix, and nowhere else. */
  lemma GroupMembership(keys: set<string>, p: string, k: string)
    ensures (p in Groups(keys) && k in Groups(keys)[p]) <==> (k in keys && BasePrefix(k) == Some(p))
  {
    if k in keys && BasePrefix(k) == Some(p) {
      assert p in PrefixesOf(keys);
    }
  }

  /** Every group is non-empty, and the groups together hold exactly the dotted keys. */
  lemma GroupsCoverDottedKeys(keys: set<string>)
    ensures forall p | p in Groups(keys) :: Groups(keys)[p] != {}
    ensures forall k | k in keys && '.' in k :: exists p :: p in Groups(keys) && k in Groups(keys)[p]
    ensures forall p, k | p in Groups(keys) && k in Groups(keys)[p] :: k in keys && '.' in k
  {
    forall p | p in Groups(keys)
      ensures Groups(keys)[p] != {}
    {
      var k :| k in keys && BasePrefix(k).Some? && BasePrefix(k).value == p;
      assert k in Groups(keys)[p];
    }
    forall k | k in keys && '.' in k
      ensures exists p :: p in Groups(keys) && k in Groups(keys)[p]
    {
      GroupMembership(keys, BasePrefix(k).value, k);
    }
  }

  /** The prefix of `a.b` where `b` has no dot is `a`: only the last dot splits. */
  lemma BasePrefixOfDotted(a: string, b: string)
    requires '.' !in b
    ensures BasePrefix(a + "." + b) == Some(a)
  {
    LastIndexOfAt(a, '.', b);
    assert a + "." + b == a + ['.'] + b;
    assert (a + "." + b)[..|a|] == a;
  }

  /** Adding a key without a dot changes no group. */
  lemma GroupsInsertUndotted(done: set<string>, key: string)
    requires BasePrefix(key).None?
    ensures Groups(done + {key}) == Groups(done)
  {
    assert PrefixesOf(done + {key}) == PrefixesOf(done);
    forall p | p in Groups(done)
      ensures Groups(done + {key})[p] == Groups(done)[p]
    {
    }
  }

  /** Adding a dotted key puts it in the group of its prefix and leaves the other groups alone. */
  lemma GroupsInsertDotted(done: set<string>, key: string, p: string)
    requires BasePrefix(key) == Some(p)
    ensures Groups(done + {key}) == Groups(done)[p := (if p in Groups(done) then Groups(done)[p] else {}) + {key}]
  {
    var g, g' := Groups(done), Groups(done + {key});
    var h := g[p := (if p in g then g[p] else {}) + {key}];
    PrefixesInsertDotted(done, key, p);
    assert g'.Keys == h.Keys;
    forall q | q in g' && q != p
      ensures g'[q] == h[q]
    {
      GroupInsertOther(done, key, p, q);
    }
    GroupInsertOwn(done, key, p);
  }

  lemma PrefixesInsertDotted(done: set<string>, key: string, p: string)
    requires BasePrefix(key) == Some(p)
    ensures PrefixesOf(done + {key}) == PrefixesOf(done) + {p}
  {
  }

  /** The groups of the other prefixes do not change when a key is added. */
  lemma GroupInsertOther(done: set<string>, key: string, p: string, q: string)
    requires BasePrefix(key) == Some(p) && q != p && q in Groups(done + {key})
    ensures q in Groups(done) && Groups(done + {key})[q] == Groups(done)[q]
  {
    PrefixesInsertDotted(done, key, p);
  }

  /** The group of the new key's prefix gains exactly that key. */
  lemma GroupInsertOwn(done: set<string>, key: string, p: string)
    requires BasePrefix(key) == Some(p)
    ensures p in Groups(done + {key})
    ensures Groups(done + {key})[p] == (if p in Groups(done) then Groups(done)[p] else {}) + {key}
  {
    GroupMembership(done + {key}, p, key);
    forall k
      ensures k in Groups(done + {key})[p] <==> k == key || (p in Groups(done) && k in Groups(done)[p])
    {
      GroupMembership(done + {key}, p, k);
      GroupMembership(done, p, k);
    }
  }

  /** `extract_base_prefixes`: one pass over the keys, entry by entry. */
  method ExtractBasePrefixes(keys: set<string>) returns (prefixMap: map<string, set<string>>)
    ensures prefixMap == Groups(keys)
  {
    prefixMap := map[];
    var remaining := keys;
    ghost var done: set<string> := {};
    assert PrefixesOf({}) == {};
    while remaining != {}
      invariant done + remaining == keys && done !! remaining
      invariant prefixMap == Groups(done)
      decreases remaining
    {
      var key :| key in remaining;
      if BasePrefix(key).Some? {
        GroupsInsertDotted(done, key, BasePrefix(key).value);
      } else {
        GroupsInsertUndotted(done, key);
      }
      match LastIndexOf(key, '.') {
        case Some(dotPos) =>
          var prefix := key[..dotPos];
          var group := if prefix in prefixMap then prefixMap[prefix] else {};
          prefixMap := prefixMap[prefix := group + {key}];
        case None =>
      }
      done := done + {key};
      remaining := remaining - {key};
    }
  }

  // ---------------------------------------------------------------------------
  // Compiling the patterns
  // ---------------------------------------------------------------------------

  /** `patterns` holds one entry per name in `names`, and nothing else. */
  predicate OneEntryPerName(patterns: Patterns, names: set<string>) {
    (forall i | 0 <= i < |patterns| :: patterns[i].0 in names) &&
    (forall n | n in names :: exists i :: 0 <= i < |patterns| && patterns[i].0 == n) &&
    (forall i, j | 0 <= i < j < |patterns| :: patterns[i].0 != patterns[j].0)
  }

  /** Every entry is the `\b`-bounded pattern of its own key. */
  predicate AllWordBounded(patterns: Patterns) {
    forall i | 0 <= i < |patterns| :: patterns[i].1 == WordBounded(patterns[i].0)
  }

  /** Every entry is the interpolation pattern of its own prefix. */
  predicate AllInterpolations(patterns: Patterns) {
    forall i | 0 <= i < |patterns| :: patterns[i].1 == Interpolation(patterns[i].0)
  }

  /** Appending an entry for a new name keeps one entry per name, and keeps the entries' shape. */
  lemma OneEntryAppend(patterns: Patterns, names: set<string>, n: string, m: Matcher)
    requires OneEntryPerName(patterns, names) && n !in names
    ensures OneEntryPerName(patterns + [(n, m)], names + {n})
    ensures AllWordBounded(patterns) && m == WordBounded(n) ==> AllWordBounded(patterns + [(n, m)])
    ensures AllInterpolations(patterns) && m == Interpolation(n) ==> AllInterpolations(patterns + [(n, m)])
  {
    var q := patterns + [(n, m)];
    forall x | x in names + {n}
      ensures exists i :: 0 <= i < |q| && q[i].0 == x
    {
      if x == n {
        assert q[|patterns|].0 == x;
      } else {
        var i :| 0 <= i < |patterns| && patterns[i].0 == x;
        assert q[i].0 == x;
      }
    }
  }

  /** Part way through a loop over `names`: `done` has its entries, `remaining` is still to come. */
  predicate Progress(patterns: Patterns, done: set<string>, remaining: set<string>, names: set<string>) {
    done + remaining == names && done !! remaining &&
    OneEntryPerName(patterns, done) && |patterns| == |done|
  }

  /** One more name handled. */
  lemma ProgressStep(patterns: Patterns, done: set<string>, remaining: set<string>, names: set<string>,
                     n: string, m: Matcher)
    requires Progress(patterns, done, remaining, names) && n in remaining
    ensures Progress(patterns + [(n, m)], done + {n}, remaining - {n}, names)
    ensures AllWordBounded(patterns) && m == WordBounded(n) ==> AllWordBounded(patterns + [(n, m)])
    ensures AllInterpolations(patterns) && m == Interpolation(n) ==> AllInterpolations(patterns + [(n, m)])
  {
    OneEntryAppend(patterns, done, n, m);
  }

  /** `compile_regex_patterns`: a `\b`-bounded pattern for each key. */
  method CompileRegexPatterns(keys: set<string>) returns (patterns: Patterns)
    ensures OneEntryPerName(patterns, keys) && |patterns| == |keys|
    ensures AllWordBounded(patterns)
  {
    patterns := [];
    var remaining := keys;
    ghost var done: set<string> := {};
    while remaining != {}
      invariant Progress(patterns, done, remaining, keys) && AllWordBounded(patterns)
      decreases remaining
    {
      var key :| key in remaining;
      ProgressStep(patterns, done, remaining, keys, key, WordBounded(key));
      patterns := patterns + [(key, WordBounded(key))];
      done := done + {key};
      remaining := remaining - {key};
    }
  }

  /** `compile_dynamic_patterns`: an interpolation pattern for each prefix of the grouping. */
  method CompileDynamicPatterns(prefixes: map<string, set<string>>) returns (patterns: Patterns)
    ensures OneEntryPerName(patterns, prefixes.Keys) && |patterns| == |prefixes|
    ensures AllInterpolations(patterns)
  {
    patterns := [];
    var remaining := prefixes.Keys;
    ghost var done: set<string> := {};
    while remaining != {}
      invariant Progress(patterns, done, remaining, prefixes.Keys) && AllInterpolations(patterns)
      decreases remaining
    {
      var prefix :| prefix in remaining;
      ProgressStep(patterns, done, remaining, prefixes.Keys, prefix, Interpolation(prefix));
      patterns := patterns + [(prefix, Interpolation(prefix))];
      done := done + {prefix};
      remaining := remaining - {prefix};
    }
  }

  // ---------------------------------------------------------------------------
  // What the scan computes
  // ---------------------------------------------------------------------------

  /** The names of the entries of `patterns` whose matcher matches `content`. */
  function HitsIn(patterns: Patterns, content: string): set<string> {
    set i | 0 <= i < |patterns| && IsMatch(patterns[i].1, content) :: patterns[i].0
  }

  /** The names whose matcher matches some readable file; `None` is a file that could not be read. */
  function Hits(patterns: Patterns, files: seq<Option<string>>): set<string> {
    set i, f | 0 <= i < |patterns| && 0 <= f < |files| && files[f].Some? && IsMatch(patterns[i].1, files[f].value)
      :: patterns[i].0
  }

  /** All keys of the groups whose prefix is in `prefixes`. */
  function Members(groups: map<string, set<string>>, prefixes: set<string>): set<string> {
    set p, k | p in prefixes && p in groups && k in groups[p] :: k
  }

  /** A prefix enters the completed set only once every key of its group has been seen. */
  predicate CompleteSound(groups: map<string, set<string>>, complete: set<string>, used: set<string>) {
    forall p | p in complete :: p in groups && groups[p] <= used
  }

  /** `owner` sends a key to a prefix whose group holds it, and knows every grouped key. */
  predicate OwnerSound(owner: map<string, string>, groups: map<string, set<string>>) {
    (forall k | k in owner :: owner[k] in groups && k in groups[owner[k]]) &&
    (forall p, k | p in groups && k in groups[p] :: k in owner)
  }

  lemma HitsInSnoc(patterns: Patterns, i: nat, content: string)
    requires i < |patterns|
    ensures HitsIn(patterns[..i + 1], content)
         == HitsIn(patterns[..i], content) + (if IsMatch(patterns[i].1, content) then {patterns[i].0} else {})
  {
    var a, b := patterns[..i + 1], patterns[..i];
    assert forall j | 0 <= j < i :: a[j] == b[j];
    if IsMatch(patterns[i].1, content) {
      assert patterns[i].0 in HitsIn(a, content) by {
        assert a[i] == patterns[i];
      }
    }
  }

  lemma HitsSnoc(patterns: Patterns, files: seq<Option<string>>, file: Option<string>)
    ensures Hits(patterns, files + [file])
         == Hits(patterns, files) + (if file.Some? then HitsIn(patterns, file.value) else {})
  {
    var g := files + [file];
    assert forall f | 0 <= f < |files| :: g[f] == files[f];
    if file.Some? {
      forall n | n in HitsIn(patterns, file.value)
        ensures n in Hits(patterns, g)
      {
        var i :| 0 <= i < |patterns| && IsMatch(patterns[i].1, file.value) && patterns[i].0 == n;
        assert g[|files|] == file;
      }
    }
  }

  lemma MembersInsert(groups: map<string, set<string>>, prefixes: set<string>, p: string)
    ensures Members(groups, prefixes + {p})
         == Members(groups, prefixes) + (if p in groups then groups[p] else {})
  {
  }

  lemma MembersUnion(groups: map<string, set<string>>, a: set<string>, b: set<string>)
    ensures Members(groups, a + b) == Members(groups, a) + Members(groups, b)
  {
  }

  /** A prefix whose keys are all used already can join the seen prefixes without changing the union. */
  lemma CoveredPrefix(groups: map<string, set<string>>, used: set<string>, found: set<string>,
                      seen: set<string>, seen': set<string>, p: string)
    requires used + Members(groups, found) == used + Members(groups, seen)
    requires p in found || (p in groups && groups[p] <= used)
    requires seen <= seen' <= seen + {p}
    ensures used + Members(groups, found) == used + Members(groups, seen')
  {
    MembersInsert(groups, seen, p);
    MembersInsert(groups, found - {p}, p);
    assert found == (found - {p}) + (if p in found then {p} else {});
    if seen' != seen {
      assert seen' == seen + {p};
    }
  }

  /** The two steps on one file extend the union by that file's hits. */
  lemma FileStep(groups: map<string, set<string>>, used: set<string>, found: set<string>,
                 used1: set<string>, found1: set<string>,
                 exactSoFar: set<string>, dynamicSoFar: set<string>, exactHere: set<string>, dynamicHere: set<string>)
    requires used + Members(groups, found) == exactSoFar + Members(groups, dynamicSoFar)
    requires used1 + Members(groups, found) == used + Members(groups, found) + exactHere
    requires used1 + Members(groups, found1) == used1 + Members(groups, found + dynamicHere)
    ensures used1 + Members(groups, found1) == exactSoFar + exactHere + Members(groups, dynamicSoFar + dynamicHere)
  {
    MembersUnion(groups, found, dynamicHere);
    MembersUnion(groups, dynamicSoFar, dynamicHere);
  }

  // ---------------------------------------------------------------------------
  // The single pass
  // ---------------------------------------------------------------------------

  /** The reverse lookup from key to prefix, filled group by group. */
  method BuildKeyToPrefix(groups: map<string, set<string>>) returns (owner: map<string, string>)
    ensures OwnerSound(owner, groups)
  {
    owner := map[];
    var prefixesLeft := groups.Keys;
    while prefixesLeft != {}
      invariant prefixesLeft <= groups.Keys
      invariant forall k | k in owner :: owner[k] in groups && k in groups[owner[k]]
      invariant forall p, k | p in groups && p !in prefixesLeft && k in groups[p] :: k in owner
      decreases prefixesLeft
    {
      var prefix :| prefix in prefixesLeft;
      var keysLeft := groups[prefix];
      while keysLeft != {}
        invariant keysLeft <= groups[prefix]
        invariant forall k | k in owner :: owner[k] in groups && k in groups[owner[k]]
        invariant forall p, k | p in groups && p !in prefixesLeft && k in groups[p] :: k in owner
        invariant forall k | k in groups[prefix] && k !in keysLeft :: k in owner
        decreases keysLeft
      {
        var key :| key in keysLeft;
        owner := owner[key := prefix];
        keysLeft := keysLeft - {key};
      }
      prefixesLeft := prefixesLeft - {prefix};
    }
  }

  /**
   * Step 1 for one file: each key not yet used, and whose prefix has not been
   * found by interpolation, is probed; a hit may complete its prefix. `probed`
   * records the keys whose matcher ran.
   */
  method ExactStep(exact: Patterns, groups: map<string, set<string>>, owner: map<string, string>,
                   found: set<string>, content: string, used0: set<string>, complete0: set<string>)
    returns (used: set<string>, complete: set<string>, ghost probed: set<string>)
    requires OwnerSound(owner, groups) && CompleteSound(groups, complete0, used0)
    ensures CompleteSound(groups, complete, used)
    ensures used0 <= used && complete0 <= complete
    ensures used <= used0 + HitsIn(exact, content)
    ensures used + Members(groups, found) == used0 + Members(groups, found) + HitsIn(exact, content)
    ensures forall k | k in probed :: k !in used0 && !(k in owner && owner[k] in found)
  {
    used, complete, probed := used0, complete0, {};
    for i := 0 to |exact|
      invariant CompleteSound(groups, complete, used)
      invariant used0 <= used && complete0 <= complete
      invariant used <= used0 + HitsIn(exact[..i], content)
      invariant used + Members(groups, found) == used0 + Members(groups, found) + HitsIn(exact[..i], content)
      invariant forall k | k in probed :: k !in used0 && !(k in owner && owner[k] in found)
    {
      HitsInSnoc(exact, i, content);
      var (key, pattern) := exact[i];
      if key in used {
        continue;
      }
      if key in owner && owner[key] in found {
        continue;
      }
      probed := probed + {key};
      if IsMatch(pattern, content) {
        used := used + {key};
        if key in owner {
          var prefix := owner[key];
          if prefix !in complete && prefix in groups && groups[prefix] <= used {
            complete := complete + {prefix};
          }
        }
      }
    }
    assert exact[..|exact|] == exact;
  }

  /**
   * Step 2 for one file: each prefix neither found nor complete is first
   * checked for completeness, and only then is its matcher run. `probed`
   * records the prefixes whose matcher ran.
   */
  method DynamicStep(dynamic: Patterns, groups: map<string, set<string>>, used: set<string>,
                     content: string, found0: set<string>, complete0: set<string>)
    returns (found: set<string>, complete: set<string>, ghost probed: set<string>)
    requires CompleteSound(groups, complete0, used)
    ensures CompleteSound(groups, complete, used)
    ensures found0 <= found && complete0 <= complete
    ensures found <= found0 + HitsIn(dynamic, content)
    ensures used + Members(groups, found) == used + Members(groups, found0 + HitsIn(dynamic, content))
    ensures forall p | p in probed :: p !in found0 && p !in complete0
  {
    found, complete, probed := found0, complete0, {};
    for i := 0 to |dynamic|
      invariant CompleteSound(groups, complete, used)
      invariant found0 <= found && complete0 <= complete
      invariant found <= found0 + HitsIn(dynamic[..i], content)
      invariant used + Members(groups, found) == used + Members(groups, found0 + HitsIn(dynamic[..i], content))
      invariant forall p | p in probed :: p !in found0 && p !in complete0
    {
      HitsInSnoc(dynamic, i, content);
      var (prefix, pattern) := dynamic[i];
      ghost var seen := found0 + HitsIn(dynamic[..i], content);
      ghost var seen' := found0 + HitsIn(dynamic[..i + 1], content);
      assert seen' == seen + (if IsMatch(pattern, content) then {prefix} else {});
      if prefix in found {
        CoveredPrefix(groups, used, found, seen, seen', prefix);
        continue;
      }
      if prefix in complete {
        CoveredPrefix(groups, used, found, seen, seen', prefix);
        continue;
      }
      var allKeysFound := prefix in groups && groups[prefix] <= used;
      if allKeysFound {
        CoveredPrefix(groups, used, found, seen, seen', prefix);
        complete := complete + {prefix};
        continue;
      }
      probed := probed + {prefix};
      if IsMatch(pattern, content) {
        MembersInsert(groups, found, prefix);
        MembersInsert(groups, seen, prefix);
        found := found + {prefix};
      }
    }
    assert dynamic[..|dynamic|] == dynamic;
  }

  /** The closing loop: every key of every prefix found by interpolation becomes used. */
  method MarkFoundPrefixes(groups: map<string, set<string>>, found: set<string>, used0: set<string>)
    returns (used: set<string>)
    ensures used == used0 + Members(groups, found)
  {
    used := used0;
    var prefixesLeft := found;
    while prefixesLeft != {}
      invariant prefixesLeft <= found
      invariant used == used0 + Members(groups, found - prefixesLeft)
      decreases prefixesLeft
    {
      var prefix :| prefix in prefixesLeft;
      MembersInsert(groups, found - prefixesLeft, prefix);
      if prefix in groups {
        var keysLeft := groups[prefix];
        while keysLeft != {}
          invariant keysLeft <= groups[prefix]
          invariant used == used0 + Members(groups, found - prefixesLeft) + (groups[prefix] - keysLeft)
          decreases keysLeft
        {
          var key :| key in keysLeft;
          used := used + {key};
          keysLeft := keysLeft - {key};
        }
      }
      assert (found - prefixesLeft) + {prefix} == found - (prefixesLeft - {prefix});
      prefixesLeft := prefixesLeft - {prefix};
    }
    assert found - prefixesLeft == found;
  }

  /**
   * `find_used_keys_combined`: one pass over the files, exact patterns first
   * and interpolations second, then the found prefixes are expanded. The
   * result is the declarative union however the short cuts fired.
   */
  method FindUsedKeysCombined(exact: Patterns, dynamic: Patterns, groups: map<string, set<string>>,
                              files: seq<Option<string>>)
    returns (used: set<string>)
    ensures used == Hits(exact, files) + Members(groups, Hits(dynamic, files))
  {
    used := {};
    var found: set<string> := {};
    var complete: set<string> := {};
    var owner := BuildKeyToPrefix(groups);
    for f := 0 to |files|
      invariant CompleteSound(groups, complete, used)
      invariant used + Members(groups, found)
             == Hits(exact, files[..f]) + Members(groups, Hits(dynamic, files[..f]))
    {
      assert files[..f + 1] == files[..f] + [files[f]];
      HitsSnoc(exact, files[..f], files[f]);
      HitsSnoc(dynamic, files[..f], files[f]);
      match files[f] {
        case None =>
        case Some(content) =>
          ghost var probedKeys, probedPrefixes;
          var used1, found1;
          used1, complete, probedKeys := ExactStep(exact, groups, owner, found, content, used, complete);
          found1, complete, probedPrefixes := DynamicStep(dynamic, groups, used1, content, found, complete);
          FileStep(groups, used, found, used1, found1, Hits(exact, files[..f]), Hits(dynamic, files[..f]),
                   HitsIn(exact, content), HitsIn(dynamic, content));
          used, found := used1, found1;
      }
    }
    assert files[..|files|] == files;
    used := MarkFoundPrefixes(groups, found, used);
  }

  // ---------------------------------------------------------------------------
  // The whole usage check
  // ---------------------------------------------------------------------------

  /** Some readable file holds the key as a whole token. */
  predicate ExactlyUsed(key: string, files: seq<Option<string>>) {
    exists f | 0 <= f < |files| && files[f].Some? :: ExactMatch(key, files[f].value)
  }

  /** Some readable file interpolates after the prefix. */
  predicate DynamicallyUsed(prefix: string, files: seq<Option<string>>) {
    exists f | 0 <= f < |files| && files[f].Some? :: DynamicMatch(prefix, files[f].value)
  }

  /** A key is used when a readable file names it whole, or interpolates after its base prefix. */
  predicate Used(key: string, files: seq<Option<string>>) {
    ExactlyUsed(key, files) || (BasePrefix(key).Some? && DynamicallyUsed(BasePrefix(key).value, files))
  }

  /** The keys of the catalog that the scan reports as used. */
  function UsedKeys(keys: set<string>, files: seq<Option<string>>): (r: set<string>)
    ensures r <= keys
    ensures forall k | k in keys :: k in r <==> Used(k, files)
  {
    set k | k in keys && Used(k, files)
  }

  /** The exact patterns compiled from the keys hit exactly the keys some file names whole. */
  lemma ExactHitsOfCompiled(exact: Patterns, keys: set<string>, files: seq<Option<string>>)
    requires OneEntryPerName(exact, keys)
    requires AllWordBounded(exact)
    ensures Hits(exact, files) == set k | k in keys && ExactlyUsed(k, files)
  {
    forall k | k in keys && ExactlyUsed(k, files)
      ensures k in Hits(exact, files)
    {
      var i :| 0 <= i < |exact| && exact[i].0 == k;
      var f :| 0 <= f < |files| && files[f].Some? && ExactMatch(k, files[f].value);
      assert IsMatch(exact[i].1, files[f].value);
    }
  }

  /** The interpolation patterns, expanded through the groups, give the keys whose prefix some file interpolates. */
  lemma DynamicHitsOfCompiled(dynamic: Patterns, keys: set<string>, files: seq<Option<string>>)
    requires OneEntryPerName(dynamic, Groups(keys).Keys)
    requires AllInterpolations(dynamic)
    ensures Members(Groups(keys), Hits(dynamic, files))
         == set k | k in keys && BasePrefix(k).Some? && DynamicallyUsed(BasePrefix(k).value, files)
  {
    var groups := Groups(keys);
    forall k | k in Members(groups, Hits(dynamic, files))
      ensures k in keys && BasePrefix(k).Some? && DynamicallyUsed(BasePrefix(k).value, files)
    {
      var p :| p in Hits(dynamic, files) && p in groups && k in groups[p];
      GroupMembership(keys, p, k);
      var i, f :| 0 <= i < |dynamic| && 0 <= f < |files| && files[f].Some?
               && IsMatch(dynamic[i].1, files[f].value) && dynamic[i].0 == p;
      assert DynamicMatch(p, files[f].value);
    }
    forall k | k in keys && BasePrefix(k).Some? && DynamicallyUsed(BasePrefix(k).value, files)
      ensures k in Members(groups, Hits(dynamic, files))
    {
      var p := BasePrefix(k).value;
      GroupMembership(keys, p, k);
      var i :| 0 <= i < |dynamic| && dynamic[i].0 == p;
      var f :| 0 <= f < |files| && files[f].Some? && DynamicMatch(p, files[f].value);
      assert IsMatch(dynamic[i].1, files[f].value);
      assert p in Hits(dynamic, files);
    }
  }

  /**
   * `check_translation_usage`: compile both kinds of pattern from the catalog,
   * group the keys, and run the single pass. `files` holds each source file's
   * text, or `None` where it could not be read.
   */
  method CheckTranslationUsage<V>(translations: map<string, V>, files: seq<Option<string>>)
    returns (used: set<string>)
    ensures used == UsedKeys(translations.Keys, files)
  {
    var keys := translations.Keys;
    var compiledPatterns := CompileRegexPatterns(keys);
    var basePrefixes := ExtractBasePrefixes(keys);
    var dynamicPatterns := CompileDynamicPatterns(basePrefixes);
    used := FindUsedKeysCombined(compiledPatterns, dynamicPatterns, basePrefixes, files);
    ExactHitsOfCompiled(compiledPatterns, keys, files);
    DynamicHitsOfCompiled(dynamicPatterns, keys, files);
  }

  /** The files are scanned independently: the result for two lists is the union of their results. */
  lemma UsedKeysConcat(keys: set<string>, a: seq<Option<string>>, b: seq<Option<string>>)
    ensures UsedKeys(keys, a + b) == UsedKeys(keys, a) + UsedKeys(keys, b)
  {
    var ab := a + b;
    forall k | k in keys
      ensures Used(k, ab) <==> Used(k, a) || Used(k, b)
    {
      assert forall f | 0 <= f < |a| :: ab[f] == a[f];
      assert forall f | 0 <= f < |b| :: ab[|a| + f] == b[f];
      if ExactlyUsed(k, ab) {
        var f :| 0 <= f < |ab| && ab[f].Some? && ExactMatch(k, ab[f].value);
        if f >= |a| {
          assert b[f - |a|] == ab[f];
        }
      }
      if BasePrefix(k).Some? && DynamicallyUsed(BasePrefix(k).value, ab) {
        var f :| 0 <= f < |ab| && ab[f].Some? && DynamicMatch(BasePrefix(k).value, ab[f].value);
        if f >= |a| {
          assert b[f - |a|] == ab[f];
        }
      }
    }
  }

  /** An unreadable file adds nothing, wherever it sits in the list, and the files after it still count. */
  lemma UnreadableFileAddsNothing(keys: set<string>, a: seq<Option<string>>, b: seq<Option<string>>)
    ensures UsedKeys(keys, a + [None] + b) == UsedKeys(keys, a + b)
  {
    UsedKeysConcat(keys, a + [None], b);
    UsedKeysConcat(keys, a, [None]);
    UsedKeysConcat(keys, a, b);
    forall k | k in keys
      ensures !Used(k, [None])
    {
      var files: seq<Option<string>> := [None];
      assert forall f | 0 <= f < |files| :: files[f].None?;
    }
  }

  /** `main`: the unused keys are the catalog minus the used ones. */
  function UnusedKeys(keys: set<string>, used: set<string>): (r: set<string>)
    ensures r <= keys && r !! used
    ensures forall k | k in keys && k !in used :: k in r
  {
    keys - used
  }

  // ---------------------------------------------------------------------------
  // Which discovered files are scanned
  // ---------------------------------------------------------------------------

  const SupportedExtensions: seq<string> := ["js", "jsx", "ts", "tsx"]

  predicate HasSupportedExtension(path: string) {
    match Paths.Extension(path)
    case None => false
    case Some(ext) => ext in SupportedExtensions
  }

  /** A file found by the walk is scanned when its extension is supported and its path is not ignored. */
  predicate Discoverable(patterns: Ignore.IgnorePatterns, path: string) {
    HasSupportedExtension(path) && !Ignore.Ignored(patterns, path)
  }

  /** The file filter of `discover_source_files`, over the files the walk reaches, in walk order. */
  method FilterDiscovered(patterns: Ignore.IgnorePatterns, candidates: seq<string>) returns (files: seq<string>)
    ensures files == Filter(candidates, p => Discoverable(patterns, p))
  {
    files := [];
    for i := 0 to |candidates|
      invariant files == Filter(candidates[..i], p => Discoverable(patterns, p))
    {
      var path := candidates[i];
      FilterPrefixStep(candidates, i, p => Discoverable(patterns, p));
      if HasSupportedExtension(path) {
        var ignored := Ignore.ShouldIgnore(patterns, path);
        if !ignored {
          files := files + [path];
        }
      }
    }
    assert candidates[..|candidates|] == candidates;
  }

  /** A scanned file is a candidate with a supported extension and a path the patterns let through, and conversely. */
  lemma DiscoveredMembers(patterns: Ignore.IgnorePatterns, candidates: seq<string>, path: string)
    ensures path in Filter(candidates, p => Discoverable(patterns, p))
        <==> path in candidates && Paths.Extension(path).Some? && Paths.Extension(path).value in SupportedExtensions
             && !Ignore.Ignored(patterns, path)
  {
    FilterMembers(candidates, p => Discoverable(patterns, p), path);
  }
}

