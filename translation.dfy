/**
 * The translation catalogue: a JSON tree flattened into a map from dot and
 * bracket paths to its scalar leaves, the merge of the JSON files of a
 * directory, and the pruning of unused keys from a JSON tree.
 */
module Translation {
  import opened Wrappers
  import opened Text
  import opened Sequences
  import Paths

  /** A member of a JSON object. serde_json's `Map` keeps member keys distinct. */
  datatype Member = Member(key: string, value: Json)

  /** serde_json's `Value`; a number is kept as its source text. */
  datatype Json =
    | JNull
    | JBool(b: bool)
    | JNumber(text: string)
    | JString(s: string)
    | JArray(items: seq<Json>)
    | JObject(members: seq<Member>)

  predicate IsScalar(v: Json) {
    !v.JArray? && !v.JObject?
  }

  /** The path of an object member: the bare key at the top level, `prefix.key` below it. */
  function MemberPath(prefix: string, key: string): (r: string)
    ensures StartsWith(r, prefix)
    ensures prefix == [] ==> r == key
  {
    if prefix == [] then key
    else
      assert (prefix + "." + key)[..|prefix|] == prefix;
      prefix + "." + key
  }

  /** The path of an array element, `prefix[i]`; at the top level this is `[i]`. */
  function ItemPath(prefix: string, i: nat): (r: string)
    ensures StartsWith(r, prefix) && |r| > |prefix| + 2
    ensures r[|prefix|] == '[' && r[|r| - 1] == ']'
    ensures r[|prefix| + 1..|r| - 1] == NatToDecimal(i)
  {
    var r := prefix + "[" + NatToDecimal(i) + "]";
    assert r[..|prefix|] == prefix;
    assert r[|prefix| + 1..|r| - 1] == NatToDecimal(i);
    r
  }

  lemma AllStartWith(sub: map<string, Json>, mid: string, prefix: string)
    requires forall k | k in sub :: StartsWith(k, mid)
    requires StartsWith(mid, prefix)
    ensures forall k | k in sub :: StartsWith(k, prefix)
  {
    forall k | k in sub ensures StartsWith(k, prefix) {
      StartsWithTrans(k, mid, prefix);
    }
  }

  // ---------------------------------------------------------------------------
  // Flattening
  // ---------------------------------------------------------------------------

  /**
   * `flatten_json`: every scalar leaf is entered at its path. The members of
   * an object and the elements of an array are visited in order and each
   * one's entries are added with `extend`, so a later entry for the same path
   * replaces an earlier one (Dafny's `+` on maps is right-biased too).
   */
  function Flatten(value: Json, prefix: string): (r: map<string, Json>)
    ensures forall k | k in r :: IsScalar(r[k]) && StartsWith(k, prefix)
    decreases value, 1
  {
    match value
    case JObject(members) => FlattenMembers(members, prefix)
    case JArray(items) => FlattenItems(items, prefix)
    case _ => map[prefix := value]
  }

  function FlattenMembers(members: seq<Member>, prefix: string): (r: map<string, Json>)
    ensures forall k | k in r :: IsScalar(r[k]) && StartsWith(k, prefix)
    decreases members, 0
  {
    if members == [] then map[]
    else
      var m := members[|members| - 1];
      var sub := Flatten(m.value, MemberPath(prefix, m.key));
      AllStartWith(sub, MemberPath(prefix, m.key), prefix);
      FlattenMembers(members[..|members| - 1], prefix) + sub
  }

  function FlattenItems(items: seq<Json>, prefix: string): (r: map<string, Json>)
    ensures forall k | k in r :: IsScalar(r[k]) && StartsWith(k, prefix)
    decreases items, 0
  {
    if items == [] then map[]
    else
      var sub := Flatten(items[|items| - 1], ItemPath(prefix, |items| - 1));
      AllStartWith(sub, ItemPath(prefix, |items| - 1), prefix);
      FlattenItems(items[..|items| - 1], prefix) + sub
  }

  /** `leaf` is a scalar of `value` reached along `path`, when `value` itself sits at `prefix`. */
  ghost predicate LeafAt(value: Json, prefix: string, path: string, leaf: Json)
    decreases value, 1
  {
    match value
    case JObject(members) => MemberLeafAt(members, prefix, path, leaf)
    case JArray(items) => ItemLeafAt(items, prefix, path, leaf)
    case _ => path == prefix && leaf == value
  }

  /** Some member of `members` holds `leaf` at `path`. */
  ghost predicate MemberLeafAt(members: seq<Member>, prefix: string, path: string, leaf: Json)
    decreases members, 0
  {
    var n := |members| - 1;
    members != [] &&
    (MemberLeafAt(members[..n], prefix, path, leaf) ||
     LeafAt(members[n].value, MemberPath(prefix, members[n].key), path, leaf))
  }

  /** Some element of `items` holds `leaf` at `path`. */
  ghost predicate ItemLeafAt(items: seq<Json>, prefix: string, path: string, leaf: Json)
    decreases items, 0
  {
    var n := |items| - 1;
    items != [] &&
    (ItemLeafAt(items[..n], prefix, path, leaf) || LeafAt(items[n], ItemPath(prefix, n), path, leaf))
  }

  lemma FlattenMembersLast(members: seq<Member>, prefix: string)
    requires members != []
    ensures FlattenMembers(members, prefix)
         == FlattenMembers(members[..|members| - 1], prefix)
          + Flatten(members[|members| - 1].value, MemberPath(prefix, members[|members| - 1].key))
  {
  }

  lemma FlattenItemsLast(items: seq<Json>, prefix: string)
    requires items != []
    ensures FlattenItems(items, prefix)
         == FlattenItems(items[..|items| - 1], prefix) + Flatten(items[|items| - 1], ItemPath(prefix, |items| - 1))
  {
  }

  /** Every entry of the flattened map holds a leaf found at its path. */
  lemma {:induction false} FlattenSound(value: Json, prefix: string, path: string)
    requires path in Flatten(value, prefix)
    ensures LeafAt(value, prefix, path, Flatten(value, prefix)[path])
    decreases value, 1
  {
    match value
    case JObject(members) => MembersSound(members, prefix, path);
    case JArray(items) => ItemsSound(items, prefix, path);
    case _ =>
  }

  lemma {:induction false} MembersSound(members: seq<Member>, prefix: string, path: string)
    requires path in FlattenMembers(members, prefix)
    ensures MemberLeafAt(members, prefix, path, FlattenMembers(members, prefix)[path])
    decreases members, 0
  {
    var n := |members| - 1;
    var mp := MemberPath(prefix, members[n].key);
    FlattenMembersLast(members, prefix);
    var r := FlattenMembers(members, prefix);
    if path in Flatten(members[n].value, mp) {
      FlattenSound(members[n].value, mp, path);
    } else {
      MembersSound(members[..n], prefix, path);
    }
  }

  lemma {:induction false} ItemsSound(items: seq<Json>, prefix: string, path: string)
    requires path in FlattenItems(items, prefix)
    ensures ItemLeafAt(items, prefix, path, FlattenItems(items, prefix)[path])
    decreases items, 0
  {
    var n := |items| - 1;
    var ip := ItemPath(prefix, n);
    FlattenItemsLast(items, prefix);
    var r := FlattenItems(items, prefix);
    if path in Flatten(items[n], ip) {
      FlattenSound(items[n], ip, path);
    } else {
      ItemsSound(items[..n], prefix, path);
    }
  }

  /** Every leaf has an entry at its path. */
  lemma {:induction false} FlattenComplete(value: Json, prefix: string, path: string, leaf: Json)
    requires LeafAt(value, prefix, path, leaf)
    ensures path in Flatten(value, prefix)
    decreases value, 1
  {
    match value
    case JObject(members) => MembersComplete(members, prefix, path, leaf);
    case JArray(items) => ItemsComplete(items, prefix, path, leaf);
    case _ =>
  }

  lemma {:induction false} MembersComplete(members: seq<Member>, prefix: string, path: string, leaf: Json)
    requires MemberLeafAt(members, prefix, path, leaf)
    ensures path in FlattenMembers(members, prefix)
    decreases members, 0
  {
    var n := |members| - 1;
    FlattenMembersLast(members, prefix);
    if LeafAt(members[n].value, MemberPath(prefix, members[n].key), path, leaf) {
      FlattenComplete(members[n].value, MemberPath(prefix, members[n].key), path, leaf);
    } else {
      MembersComplete(members[..n], prefix, path, leaf);
    }
  }

  lemma {:induction false} ItemsComplete(items: seq<Json>, prefix: string, path: string, leaf: Json)
    requires ItemLeafAt(items, prefix, path, leaf)
    ensures path in FlattenItems(items, prefix)
    decreases items, 0
  {
    var n := |items| - 1;
    FlattenItemsLast(items, prefix);
    if LeafAt(items[n], ItemPath(prefix, n), path, leaf) {
      FlattenComplete(items[n], ItemPath(prefix, n), path, leaf);
    } else {
      ItemsComplete(items[..n], prefix, path, leaf);
    }
  }

  /** A leaf that is the only one at its path is entered there with its original value. */
  lemma UniqueLeafEntered(value: Json, prefix: string, path: string, leaf: Json)
    requires LeafAt(value, prefix, path, leaf)
    requires forall other :: LeafAt(value, prefix, path, other) ==> other == leaf
    ensures path in Flatten(value, prefix) && Flatten(value, prefix)[path] == leaf
  {
    FlattenComplete(value, prefix, path, leaf);
    FlattenSound(value, prefix, path);
  }

  /** A tree flattens to some key exactly when it has a scalar leaf; nested empty objects and arrays give none. */
  lemma SomeKeyIffSomeLeaf(value: Json, prefix: string)
    ensures Flatten(value, prefix) != map[] <==> exists path, leaf :: LeafAt(value, prefix, path, leaf)
  {
    var r := Flatten(value, prefix);
    if r != map[] {
      var path :| path in r;
      FlattenSound(value, prefix, path);
      assert LeafAt(value, prefix, path, r[path]);
      assert exists p, l :: LeafAt(value, prefix, p, l);
    }
    if exists path, leaf :: LeafAt(value, prefix, path, leaf) {
      var path, leaf :| LeafAt(value, prefix, path, leaf);
      FlattenComplete(value, prefix, path, leaf);
    }
  }

  /** The members of an object are flattened independently: a split sequence flattens to the union of its parts. */
  lemma {:induction false} FlattenMembersConcat(a: seq<Member>, b: seq<Member>, prefix: string)
    ensures FlattenMembers(a + b, prefix) == FlattenMembers(a, prefix) + FlattenMembers(b, prefix)
    decreases |b|
  {
    if b == [] {
      assert a + b == a;
    } else {
      var n := |b| - 1;
      var ab := a + b;
      assert ab[..|ab| - 1] == a + b[..n] && ab[|ab| - 1] == b[n];
      var x, y, z := FlattenMembers(a, prefix), FlattenMembers(b[..n], prefix),
                     Flatten(b[n].value, MemberPath(prefix, b[n].key));
      calc {
        FlattenMembers(ab, prefix);
        { FlattenMembersLast(ab, prefix); }
        FlattenMembers(a + b[..n], prefix) + z;
        { FlattenMembersConcat(a, b[..n], prefix); }
        (x + y) + z;
        { UnionAssociates(x, y, z); }
        x + (y + z);
        { FlattenMembersLast(b, prefix); }
        x + FlattenMembers(b, prefix);
      }
    }
  }

  lemma UnionAssociates<K, V>(x: map<K, V>, y: map<K, V>, z: map<K, V>)
    ensures (x + y) + z == x + (y + z)
  {
  }

  /** A member whose value is an empty object or an empty array adds no key, wherever it sits among the members. */
  lemma EmptyMemberAddsNothing(a: seq<Member>, b: seq<Member>, prefix: string, key: string, empty: Json)
    requires empty == JObject([]) || empty == JArray([])
    ensures Flatten(JObject(a + [Member(key, empty)] + b), prefix) == Flatten(JObject(a + b), prefix)
  {
    EmptySingleMember(prefix, key, empty);
    DropSilentMembers(a, [Member(key, empty)], b, prefix);
  }

  /** Members that flatten to nothing can be dropped from anywhere in an object. */
  lemma DropSilentMembers(a: seq<Member>, silent: seq<Member>, b: seq<Member>, prefix: string)
    requires FlattenMembers(silent, prefix) == map[]
    ensures FlattenMembers(a + silent + b, prefix) == FlattenMembers(a + b, prefix)
  {
    var x, y := FlattenMembers(a, prefix), FlattenMembers(b, prefix);
    calc {
      FlattenMembers(a + silent + b, prefix);
      { FlattenMembersConcat(a + silent, b, prefix); }
      FlattenMembers(a + silent, prefix) + y;
      { FlattenMembersConcat(a, silent, prefix); UnionEmpty(x); }
      x + y;
      { FlattenMembersConcat(a, b, prefix); }
      FlattenMembers(a + b, prefix);
    }
  }

  lemma UnionEmpty<K, V>(x: map<K, V>)
    ensures x + map[] == x
  {
  }

  lemma EmptySingleMember(prefix: string, key: string, empty: Json)
    requires empty == JObject([]) || empty == JArray([])
    ensures FlattenMembers([Member(key, empty)], prefix) == map[]
  {
    var single := [Member(key, empty)];
    FlattenMembersLast(single, prefix);
    assert single[..0] == [];
    assert Flatten(empty, MemberPath(prefix, key)) == map[];
  }

  /** A leaf of an array is a leaf of one of its elements, at that element's index path. */
  lemma {:induction false} ItemLeafIsElementLeaf(items: seq<Json>, prefix: string, path: string, leaf: Json)
    requires ItemLeafAt(items, prefix, path, leaf)
    ensures exists j | 0 <= j < |items| :: LeafAt(items[j], ItemPath(prefix, j), path, leaf)
    decreases |items|
  {
    var n := |items| - 1;
    if !LeafAt(items[n], ItemPath(prefix, n), path, leaf) {
      ItemLeafIsElementLeaf(items[..n], prefix, path, leaf);
      var j :| 0 <= j < n && LeafAt(items[..n][j], ItemPath(prefix, j), path, leaf);
      assert items[..n][j] == items[j];
    }
  }

  /**
   * An element that is an empty object or an empty array adds no key, wherever it sits: every
   * entry of the array's flattening is a leaf of some other element.
   */
  lemma EmptyItemAddsNothing(items: seq<Json>, prefix: string, i: nat)
    requires i < |items| && (items[i] == JObject([]) || items[i] == JArray([]))
    ensures forall path | path in Flatten(JArray(items), prefix) ::
              exists j | 0 <= j < |items| && j != i ::
                LeafAt(items[j], ItemPath(prefix, j), path, Flatten(JArray(items), prefix)[path])
  {
    var r := Flatten(JArray(items), prefix);
    forall path | path in r
      ensures exists j | 0 <= j < |items| && j != i :: LeafAt(items[j], ItemPath(prefix, j), path, r[path])
    {
      ItemsSound(items, prefix, path);
      ItemLeafIsElementLeaf(items, prefix, path, r[path]);
      var j :| 0 <= j < |items| && LeafAt(items[j], ItemPath(prefix, j), path, r[path]);
      assert j != i;
    }
  }

  /** An empty object or array appended to an array leaves its flattening unchanged. */
  lemma EmptyLastItemAddsNothing(items: seq<Json>, prefix: string, empty: Json)
    requires empty == JObject([]) || empty == JArray([])
    ensures Flatten(JArray(items + [empty]), prefix) == Flatten(JArray(items), prefix)
  {
    var all := items + [empty];
    assert all[..|all| - 1] == items && all[|all| - 1] == empty;
    var x := FlattenItems(items, prefix);
    calc {
      FlattenItems(all, prefix);
      { FlattenItemsLast(all, prefix); }
      x + Flatten(empty, ItemPath(prefix, |items|));
      { assert Flatten(empty, ItemPath(prefix, |items|)) == map[]; UnionEmpty(x); }
      x;
    }
  }

  // ---------------------------------------------------------------------------
  // Merging the JSON files of a directory
  // ---------------------------------------------------------------------------

  /**
   * An entry of the translations directory: its path, whether it is a file,
   * and what reading and parsing it gives (`None` when either fails).
   */
  datatype DirEntry = DirEntry(path: string, isFile: bool, content: Option<Json>)

  datatype LoadError = NoJsonFiles | Unreadable(path: string)

  /** The entries that are merged: files whose extension is `json`. */
  predicate IsJsonFile(e: DirEntry) {
    e.isFile && Paths.Extension(e.path) == Some("json")
  }

  /** Some entry among `entries` is a JSON file. */
  ghost predicate HasJsonFile(entries: seq<DirEntry>) {
    entries != [] && (HasJsonFile(entries[..|entries| - 1]) || IsJsonFile(entries[|entries| - 1]))
  }

  /** The file `e` is merged and sets `key`. */
  ghost predicate Defines(e: DirEntry, key: string) {
    IsJsonFile(e) && e.content.Some? && key in Flatten(e.content.value, "")
  }

  /** Some file among `entries` is merged and sets `key`. */
  ghost predicate DefinedIn(entries: seq<DirEntry>, key: string) {
    entries != [] && (DefinedIn(entries[..|entries| - 1], key) || Defines(entries[|entries| - 1], key))
  }

  /** The directory fold: the first unreadable JSON file stops it, the others are merged in order. */
  function MergeFiles(entries: seq<DirEntry>): (r: Result<map<string, Json>, LoadError>)
  {
    if entries == [] then Success(map[])
    else
      var e := entries[|entries| - 1];
      match MergeFiles(entries[..|entries| - 1])
      case Failure(err) => Failure(err)
      case Success(all) =>
        if !IsJsonFile(e) then Success(all)
        else match e.content
          case None => Failure(Unreadable(e.path))
          case Some(json) => Success(all + Flatten(json, ""))
  }

  /** What `load_translations_from_dir` returns for the entries of a directory. */
  ghost function LoadedTranslations(entries: seq<DirEntry>): Result<map<string, Json>, LoadError> {
    match MergeFiles(entries)
    case Failure(err) => Failure(err)
    case Success(all) => if HasJsonFile(entries) then Success(all) else Failure(NoJsonFiles)
  }

  /** A successful fold is the fold of all but the last entry, extended by the last one's keys. */
  lemma MergeFilesLast(entries: seq<DirEntry>)
    requires entries != [] && MergeFiles(entries).Success?
    ensures MergeFiles(entries[..|entries| - 1]).Success?
    ensures IsJsonFile(entries[|entries| - 1]) ==> entries[|entries| - 1].content.Some?
    ensures MergeFiles(entries).value
         == MergeFiles(entries[..|entries| - 1]).value
          + (if IsJsonFile(entries[|entries| - 1]) then Flatten(entries[|entries| - 1].content.value, "") else map[])
  {
    var e, front := entries[|entries| - 1], entries[..|entries| - 1];
    var r := MergeFiles(entries);
    assert MergeFiles(front).Success?;
    if IsJsonFile(e) {
      assert e.content.Some?;
      assert r.value == MergeFiles(front).value + Flatten(e.content.value, "");
    } else {
      assert r.value == MergeFiles(front).value;
    }
  }

  /** One more entry of the loop, read off the fold. */
  lemma MergeStep(entries: seq<DirEntry>, i: nat, all: map<string, Json>)
    requires i < |entries| && MergeFiles(entries[..i]) == Success(all)
    ensures !IsJsonFile(entries[i]) ==> MergeFiles(entries[..i + 1]) == Success(all)
    ensures IsJsonFile(entries[i]) && entries[i].content.None? ==>
              MergeFiles(entries[..i + 1]) == Failure(Unreadable(entries[i].path))
    ensures IsJsonFile(entries[i]) && entries[i].content.Some? ==>
              MergeFiles(entries[..i + 1]) == Success(all + Flatten(entries[i].content.value, ""))
    ensures HasJsonFile(entries[..i + 1]) <==> HasJsonFile(entries[..i]) || IsJsonFile(entries[i])
  {
    assert entries[..i + 1][..i] == entries[..i];
  }

  /** Once the fold has failed, later entries do not change the outcome. */
  lemma {:induction false} FailureIsFinal(entries: seq<DirEntry>, i: nat)
    requires i <= |entries| && MergeFiles(entries[..i]).Failure?
    ensures MergeFiles(entries) == MergeFiles(entries[..i])
    decreases |entries| - i
  {
    if i < |entries| {
      assert entries[..i + 1][..i] == entries[..i];
      FailureIsFinal(entries, i + 1);
    } else {
      assert entries[..i] == entries;
    }
  }

  /** `for (key, value) in translations { all.insert(key, value) }`: the new entries replace the old ones. */
  method InsertAll(all: map<string, Json>, translations: map<string, Json>) returns (merged: map<string, Json>)
    ensures merged == all + translations
  {
    merged := all;
    var pending := translations.Keys;
    ghost var done: set<string> := {};
    while pending != {}
      invariant done + pending == translations.Keys && done !! pending
      invariant merged.Keys == all.Keys + done
      invariant forall k | k in merged :: merged[k] == if k in done then translations[k] else all[k]
      decreases pending
    {
      var key :| key in pending;
      merged := merged[key := translations[key]];
      pending := pending - {key};
      done := done + {key};
    }
  }

  /**
   * `load_translations_from_dir` over the directory's entries in the order
   * `read_dir` yields them.
   */
  method LoadTranslationsFromDir(entries: seq<DirEntry>) returns (r: Result<map<string, Json>, LoadError>)
    ensures r == LoadedTranslations(entries)
  {
    var all: map<string, Json> := map[];
    var foundFiles := false;
    for i := 0 to |entries|
      invariant MergeFiles(entries[..i]) == Success(all)
      invariant foundFiles <==> HasJsonFile(entries[..i])
    {
      var e := entries[i];
      MergeStep(entries, i, all);
      if IsJsonFile(e) {
        match e.content {
          case None =>
            FailureIsFinal(entries, i + 1);
            return Failure(Unreadable(e.path));
          case Some(json) =>
            all := InsertAll(all, Flatten(json, ""));
            foundFiles := true;
        }
      }
    }
    assert entries[..|entries|] == entries;
    if !foundFiles {
      return Failure(NoJsonFiles);
    }
    return Success(all);
  }

  /** A directory without JSON files is an error, and it is the only cause of `NoJsonFiles`. */
  lemma NoJsonFilesIsError(entries: seq<DirEntry>)
    ensures LoadedTranslations(entries) == Failure(NoJsonFiles) <==> !HasJsonFile(entries)
  {
    if !HasJsonFile(entries) {
      SkippedEntriesMergeNothing(entries);
    } else if MergeFiles(entries).Failure? {
      MergeFailureIsUnreadable(entries);
    }
  }

  lemma {:induction false} SkippedEntriesMergeNothing(entries: seq<DirEntry>)
    requires !HasJsonFile(entries)
    ensures MergeFiles(entries) == Success(map[])
  {
    if entries != [] {
      SkippedEntriesMergeNothing(entries[..|entries| - 1]);
    }
  }

  /** The fold fails only on a JSON file that cannot be read or parsed, and then names it. */
  lemma {:induction false} MergeFailureIsUnreadable(entries: seq<DirEntry>)
    requires MergeFiles(entries).Failure?
    ensures exists i | 0 <= i < |entries| :: IsJsonFile(entries[i]) && entries[i].content.None?
                                         && MergeFiles(entries).error == Unreadable(entries[i].path)
  {
    var n := |entries| - 1;
    var front := entries[..n];
    if MergeFiles(front).Failure? {
      MergeFailureIsUnreadable(front);
      var i :| 0 <= i < |front| && IsJsonFile(front[i]) && front[i].content.None?
                                && MergeFiles(front).error == Unreadable(front[i].path);
      assert entries[i] == front[i];
    } else {
      assert IsJsonFile(entries[n]) && entries[n].content.None?;
    }
  }

  /** Every JSON file that cannot be read or parsed makes the whole load fail. */
  lemma {:induction false} UnreadableJsonFails(entries: seq<DirEntry>, i: nat)
    requires i < |entries| && IsJsonFile(entries[i]) && entries[i].content.None?
    ensures LoadedTranslations(entries).Failure?
  {
    if MergeFiles(entries[..i]).Failure? {
      FailureIsFinal(entries, i);
    } else {
      MergeStep(entries, i, MergeFiles(entries[..i]).value);
      FailureIsFinal(entries, i + 1);
    }
  }

  /** The merged map has exactly the keys that some readable JSON file defines. */
  lemma {:induction false} MergedKeys(entries: seq<DirEntry>, key: string)
    requires MergeFiles(entries).Success?
    ensures key in MergeFiles(entries).value <==> DefinedIn(entries, key)
  {
    if entries != [] {
      MergeFilesLast(entries);
      MergedKeys(entries[..|entries| - 1], key);
    }
  }

  /** Later files override earlier ones: a key takes its value from the last file that defines it. */
  lemma {:induction false} LastDefinitionWins(entries: seq<DirEntry>, i: nat, key: string)
    requires MergeFiles(entries).Success?
    requires i < |entries| && Defines(entries[i], key)
    requires forall j | i < j < |entries| :: !Defines(entries[j], key)
    ensures key in MergeFiles(entries).value
    ensures MergeFiles(entries).value[key] == Flatten(entries[i].content.value, "")[key]
  {
    var n := |entries| - 1;
    var front := entries[..n];
    MergeFilesLast(entries);
    if i < n {
      forall j | i < j < |front| ensures !Defines(front[j], key) {
        assert front[j] == entries[j];
      }
      assert front[i] == entries[i];
      LastDefinitionWins(front, i, key);
    }
  }

  // ---------------------------------------------------------------------------
  // Removing unused keys
  // ---------------------------------------------------------------------------

  /**
   * The keep rule of `should_keep_key`: the path is used, or a used key lies
   * below it, or it is not listed as unused.
   */
  predicate KeepsPath(path: string, used: set<string>, unused: set<string>) {
    path in used || (exists u | u in used :: StartsWith(u, path + ".")) || path !in unused
  }

  /** `should_keep_key`, with its scan of the used keys and early returns. */
  method ShouldKeepKey(path: string, used: set<string>, unused: set<string>) returns (keep: bool)
    ensures keep == KeepsPath(path, used, unused)
  {
    if path in used {
      return true;
    }
    var rest := used;
    while rest != {}
      invariant rest <= used
      invariant forall u | u in used - rest :: !StartsWith(u, path + ".")
      decreases rest
    {
      var u :| u in rest;
      if StartsWith(u, path + ".") || u == path {
        return true;
      }
      rest := rest - {u};
    }
    return path !in unused;
  }

  /**
   * `remove_recursive`: objects lose the members the keep rule rejects,
   * arrays lose their null elements, and scalars are returned as they are.
   */
  function RemoveRecursive(value: Json, prefix: string, used: set<string>, unused: set<string>): (r: Json)
    ensures IsScalar(value) ==> r == value
    ensures r.JObject? <==> value.JObject?
    ensures r.JArray? <==> value.JArray?
    ensures r.JNull? <==> value.JNull?
    decreases value, 2
  {
    match value
    case JObject(members) => JObject(CleanMembers(members, prefix, used, unused))
    case JArray(items) => JArray(CleanItems(items, prefix, used, unused))
    case _ => value
  }

  /** The kept members of an object, each with its cleaned value. */
  function CleanMembers(members: seq<Member>, prefix: string, used: set<string>, unused: set<string>): (r: seq<Member>)
    ensures |r| <= |members|
    decreases members, 0
  {
    if members == [] then []
    else
      var n := |members| - 1;
      var m := members[n];
      var path := MemberPath(prefix, m.key);
      var front := CleanMembers(members[..n], prefix, used, unused);
      front + (if KeepsPath(path, used, unused) then [Member(m.key, RemoveRecursive(m.value, path, used, unused))] else [])
  }

  /** The elements of an array, each cleaned at its own index. */
  function CleanedItems(items: seq<Json>, prefix: string, used: set<string>, unused: set<string>): (r: seq<Json>)
    ensures |r| == |items|
    decreases items, 0
  {
    if items == [] then []
    else
      var n := |items| - 1;
      CleanedItems(items[..n], prefix, used, unused) + [RemoveRecursive(items[n], ItemPath(prefix, n), used, unused)]
  }

  /** The keep test never drops an element: each one is cleaned at its own index. */
  lemma {:induction false} CleanedItemAt(items: seq<Json>, prefix: string, used: set<string>, unused: set<string>, i: nat)
    requires i < |items|
    ensures CleanedItems(items, prefix, used, unused)[i] == RemoveRecursive(items[i], ItemPath(prefix, i), used, unused)
  {
    var n := |items| - 1;
    if i < n {
      CleanedItemAt(items[..n], prefix, used, unused, i);
    }
  }

  /** The cleaned elements of an array with the nulls filtered out. */
  function CleanItems(items: seq<Json>, prefix: string, used: set<string>, unused: set<string>): (r: seq<Json>)
    ensures |r| <= |items|
    ensures forall i | 0 <= i < |r| :: !r[i].JNull?
    decreases items, 1
  {
    Filter(CleanedItems(items, prefix, used, unused), (v: Json) => !v.JNull?)
  }

  function Keys(members: seq<Member>): (r: seq<string>)
    ensures |r| == |members| && forall i | 0 <= i < |members| :: r[i] == members[i].key
  {
    seq(|members|, i requires 0 <= i < |members| => members[i].key)
  }

  lemma KeysConcat(a: seq<Member>, b: seq<Member>)
    ensures Keys(a + b) == Keys(a) + Keys(b)
  {
  }

  lemma KeysSnoc(members: seq<Member>)
    requires members != []
    ensures Keys(members) == Keys(members[..|members| - 1]) + [members[|members| - 1].key]
  {
    SplitLast(members);
    KeysConcat(members[..|members| - 1], [members[|members| - 1]]);
  }

  /** The keep test applied to the members of an object at `prefix`, by key. */
  function KeepKey(prefix: string, used: set<string>, unused: set<string>): (keep: string -> bool)
    ensures forall k :: keep(k) == KeepsPath(MemberPath(prefix, k), used, unused)
  {
    k => KeepsPath(MemberPath(prefix, k), used, unused)
  }

  /** The surviving keys are the input's keys that pass the keep rule, in their original order. */
  lemma {:induction false} CleanMembersKeys(members: seq<Member>, prefix: string, used: set<string>, unused: set<string>)
    ensures Keys(CleanMembers(members, prefix, used, unused)) == Filter(Keys(members), KeepKey(prefix, used, unused))
  {
    var keep := KeepKey(prefix, used, unused);
    if members != [] {
      var n := |members| - 1;
      var m := members[n];
      var path := MemberPath(prefix, m.key);
      CleanMembersKeys(members[..n], prefix, used, unused);
      KeysSnoc(members);
      FilterSnoc(Keys(members[..n]), m.key, keep);
      var front := CleanMembers(members[..n], prefix, used, unused);
      var last := if KeepsPath(path, used, unused) then [Member(m.key, RemoveRecursive(m.value, path, used, unused))] else [];
      assert CleanMembers(members, prefix, used, unused) == front + last;
      KeysConcat(front, last);
      assert Keys(last) == if keep(m.key) then [m.key] else [];
    }
  }

  /** In an object (whose keys are distinct), a member survives exactly when the keep rule accepts its path. */
  lemma MemberSurvives(members: seq<Member>, prefix: string, used: set<string>, unused: set<string>, key: string)
    ensures key in Keys(CleanMembers(members, prefix, used, unused))
        <==> key in Keys(members) && KeepsPath(MemberPath(prefix, key), used, unused)
  {
    CleanMembersKeys(members, prefix, used, unused);
    FilterMembers(Keys(members), KeepKey(prefix, used, unused), key);
  }

  /** A surviving member carries the cleaned value of the input member with its key. */
  lemma {:induction false} KeptMemberCleaned(members: seq<Member>, prefix: string, used: set<string>, unused: set<string>, i: nat)
    requires i < |CleanMembers(members, prefix, used, unused)|
    ensures var kept := CleanMembers(members, prefix, used, unused)[i];
            exists j | 0 <= j < |members| ::
              members[j].key == kept.key &&
              kept.value == RemoveRecursive(members[j].value, MemberPath(prefix, kept.key), used, unused)
  {
    var n := |members| - 1;
    var front := CleanMembers(members[..n], prefix, used, unused);
    var kept := CleanMembers(members, prefix, used, unused)[i];
    if i < |front| {
      KeptMemberCleaned(members[..n], prefix, used, unused, i);
      var j :| 0 <= j < n && members[..n][j].key == kept.key &&
               kept.value == RemoveRecursive(members[..n][j].value, MemberPath(prefix, kept.key), used, unused);
      assert members[j] == members[..n][j];
    } else {
      assert members[n].key == kept.key;
    }
  }

  /** An array loses only its nulls: one without null elements keeps its length. */
  lemma NoNullsKeepLength(items: seq<Json>, prefix: string, used: set<string>, unused: set<string>)
    requires forall i | 0 <= i < |items| :: !items[i].JNull?
    ensures |CleanItems(items, prefix, used, unused)| == |items|
  {
    var cleaned := CleanedItems(items, prefix, used, unused);
    forall i | 0 <= i < |cleaned| ensures !cleaned[i].JNull? {
      CleanedItemAt(items, prefix, used, unused, i);
    }
    FilterKeepsAll(cleaned, (v: Json) => !v.JNull?);
  }

  /** The set form of the `unused_keys` slice. */
  function UnusedSet(unusedKeys: seq<string>): (r: set<string>)
    ensures forall k :: k in r <==> k in unusedKeys
  {
    set k | k in unusedKeys
  }

  /**
   * `remove_keys_from_value`: it never fails, and a top-level object keeps
   * the members the keep rule accepts, in order.
   */
  function RemoveKeysFromValue(value: Json, unusedKeys: seq<string>, used: set<string>): (r: Result<Json, string>)
    ensures r.Success?
    ensures IsScalar(value) ==> r.value == value
    ensures value.JObject? ==>
              r.value.JObject? &&
              Keys(r.value.members) == Filter(Keys(value.members), KeepKey("", used, UnusedSet(unusedKeys)))
  {
    var unused := UnusedSet(unusedKeys);
    if value.JObject? then
      CleanMembersKeys(value.members, "", used, unused);
      Success(RemoveRecursive(value, "", used, unused))
    else
      Success(RemoveRecursive(value, "", used, unused))
  }
}
