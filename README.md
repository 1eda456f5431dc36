# hunt, modelled in Dafny

hunt is a command-line tool that finds dead translation keys in a JavaScript
or TypeScript code base. It loads a JSON translation catalogue from a file or
a directory and flattens it into dotted keys (`user.name`, `items[0]`). It
walks the source directories, skipping ignored paths, and scans every `.js`,
`.jsx`, `.ts` and `.tsx` file. A key counts as used when a file names it as a
whole word. It also counts as used when a file builds it dynamically, from
its base prefix followed by a `${...}` interpolation. The remaining keys are
reported, and on request they are pruned from the JSON files.

This project models the core of that pipeline and proves what it computes.

- `wrappers.dfy` (`Wrappers`) holds `Option` and `Result`.
- `sequences.dfy` (`Sequences`) holds order-preserving filtering, the shape
  of `iter().filter(..).collect()`.
- `text.dfy` (`Text`) holds the `str` operations the code relies on:
  `starts_with`, `contains`, `rfind`, `replace`, and decimal `format!`. It
  also holds a split at `/`, which is what `Path::components` rests on in
  the paths model.
- `paths.dfy` (`Paths`) models the `std::path` queries the code uses:
  `components()` restricted to `Normal` components, `file_name()` and
  `extension()`.
- `ignore.dfy` (`Ignore`) covers the default ignore list and its split into
  exact names and globs. Each glob is rewritten to a regex, and a small
  interpreter covers the regex fragment that the rewrite produces. It also
  covers `should_ignore`. `ignore_examples.dfy` holds the unit tests.
- `search.dfy` (`Search`) covers:
  - the two matchers, word-bounded and interpolation;
  - `extract_base_prefixes`;
  - the two pattern compilers;
  - the single-pass scan `find_used_keys_combined`, with its three sets and
    its skips;
  - `check_translation_usage`;
  - the file filter of `discover_source_files`.

  `search_examples.dfy` holds the unit tests and three matcher edge cases.
- `translation.dfy` (`Translation`) covers:
  - a JSON datatype and `flatten_json`;
  - the right-biased merge of `load_translations_from_dir`;
  - `should_keep_key` and `remove_recursive`, inside `remove_keys_from_value`.

  `translation_examples.dfy` holds the unit tests and two consequences of the
  pruning rules.
- `cli.dfy` (`Cli`) covers `validate_source_dirs`.

Loops in the source are methods with loop invariants, each proved against a
specification function:
- the scan and its steps;
- the grouping;
- the compilers;
- the ignore test;
- the key-keeping test;
- the directory merge.

The results that come only from a recursive computation are functions:
- the JSON flattening;
- JSON pruning;
- the glob rewrite.

Hash-set and hash-map iteration is modelled by picking an arbitrary element
(`:|`). Every proved result is therefore independent of the iteration order.

Modelling choices:
- **Source files:** a source file is `Option<string>`, where `None` stands
  for a file that `fs::read_to_string` could not read.
- **Directory entries:** a directory entry of the catalogue directory carries
  its path, whether it is a file, and its parsed JSON. `None` stands for a
  file that could not be read or parsed.
- **JSON objects:** a JSON object is a sequence of members in the iteration
  order of serde_json's `Map`, whose keys are distinct.
- **Word characters:** the regex `\b` is modelled with ASCII word characters.

## Model

| member | source | states |
|---|---|---|
| Search.DynamicMatchShape | src/search.rs:160-163 | the interpolation pattern matches exactly when the text contains the prefix, then `.${`, a non-empty run without `}`, then `}`; a namespace or quote may precede it |
| Search.DynamicMatchParts | src/search.rs:160-163 | a match splits the text into before, prefix, `.${`, interpolated text free of `}`, `}` and after |
| Search.InterpolationFound | src/search.rs:160-163 | any text of that shape is matched, whatever surrounds it |
| Search.NonWordEndNeedsWordAfter | src/search.rs:105-106 | a key ending in a non-word character (such as `items[0]`) is only found where a word character follows it, so `t('items[0]')` does not match it |
| Search.NotFoundInsideWord | src/search.rs:105-106 | a key starting with a word character is not found where every occurrence follows a word character |
| Search.BasePrefix | src/search.rs:124-125 | no prefix exactly when the key has no dot; otherwise the text before the last dot |
| Search.BasePrefixOfDotted | src/search.rs:124-125 | `a.b`, with no dot in `b`, has prefix `a` |
| Search.GroupMembership | src/search.rs:116-134 | a key is in the group of prefix `p` exactly when it is a catalogue key whose base prefix is `p` |
| Search.GroupsCoverDottedKeys | src/search.rs:122-131 | no group is empty, every dotted key is in a group, and every grouped key is a dotted catalogue key |
| Search.GroupsInsertDotted | src/search.rs:126-129 | inserting a dotted key adds it to its prefix's group, creating the group if needed, and changes no other group |
| Search.GroupsInsertUndotted | src/search.rs:124 | inserting a key without a dot changes no group |
| Search.ExtractBasePrefixes | src/search.rs:116-134 | the loop builds exactly the grouping of the keys by base prefix |
| Search.CompileRegexPatterns | src/search.rs:100-112 | one word-bounded pattern per key, and nothing else |
| Search.CompileDynamicPatterns | src/search.rs:137-171 | one interpolation pattern per prefix, and nothing else |
| Search.BuildKeyToPrefix | src/search.rs:186-191 | the reverse map sends every grouped key to its group's prefix |
| Search.ExactStep | src/search.rs:198-226 | after the exact step, used plus the members of the found groups equals before plus this file's exact hits; the completed prefixes stay sound; a key is matched against the file only when it is neither used nor in a found group |
| Search.DynamicStep | src/search.rs:229-256 | after the dynamic step, used plus the members of the found groups equals that of the old found set plus this file's interpolation hits; a prefix is matched against the file only when it is neither found nor completed, so skipping loses no key |
| Search.MarkFoundPrefixes | src/search.rs:261-267 | the final loop adds exactly the members of the found groups |
| Search.FindUsedKeysCombined | src/search.rs:174-270 | the single pass returns the keys some readable file names, plus every key of every group some readable file interpolates, despite the skips |
| Search.UsedKeys | src/search.rs:64-86 | a catalogue key is used exactly when a readable file names it as a word or interpolates after its base prefix |
| Search.ExactHitsOfCompiled | src/search.rs:100-112 | the compiled exact patterns hit exactly the keys some file names |
| Search.DynamicHitsOfCompiled | src/search.rs:137-171 | the compiled interpolation patterns, expanded through the groups, give exactly the keys whose prefix some file interpolates |
| Search.CheckTranslationUsage | src/search.rs:64-86 | compile, group and scan together return exactly the used keys of the catalogue |
| Search.UsedKeysConcat | src/search.rs:194-258 | files are scanned independently: two file lists give the union of their results |
| Search.UnreadableFileAddsNothing | src/search.rs:195 | a file that cannot be read adds nothing and does not stop the scan |
| Search.UnusedKeys | src/main.rs:41-45 | the unused keys are the catalogue keys outside the used set, all of them |
| Search.FilterDiscovered | src/search.rs:45-53 | the walk's files are kept in order when their extension is supported and the ignore test lets them through |
| Search.DiscoveredMembers | src/search.rs:45-53 | a path is scanned exactly when it was reached, has extension js, jsx, ts or tsx, and is not ignored |
| SearchExamples.ExtractBasePrefixesExample | src/search.rs:293-306 | the four test keys give the groups `expenseCategory` and `status`, two keys each |
| SearchExamples.LastDotGroupsExample | src/search.rs:124-125 | `a.b.c` is grouped under `a.b`, not under `a` |
| SearchExamples.QuotedUsesMatch | src/search.rs:319-320 | ``const key = `expenseCategory.${variable}`;`` matches prefix `expenseCategory`, and `t('status.${item.status}', { ns: 'App' });` matches prefix `status` |
| SearchExamples.EmptyInterpolationMisses | src/search.rs:160-163 | `status.${}` does not match prefix `status`: the pattern needs at least one character between the braces |
| SearchExamples.NamespacedMatches | src/search.rs:321 | `Reimbursement:expenseCategory.${reimbursement.expenseCategory}` matches prefix `expenseCategory` |
| SearchExamples.KeyInsideWordNotFound | src/search.rs:106 | `id` is not found in `valid` |
| SearchExamples.BracketKeyInQuotesNotFound | src/search.rs:106 | the flattened key `items[0]` is not found in `t('items[0]')` |
| Ignore.LoadPatterns | src/ignore.rs:76-99 | the loop puts every pattern without `*` into the exact names and the rewrite of every other one, in order, into the glob regexes |
| Ignore.LoadIgnorePatterns | src/ignore.rs:76-99 | the default list loads into exactly its names and glob regexes |
| Ignore.PatternsPartitioned | src/ignore.rs:81-93 | a pattern is an exact name exactly when it has no `*`, and a pattern with `*` contributes its regex |
| Ignore.GlobRegexesMembers | src/ignore.rs:82-89 | the glob regexes are exactly the rewrites of the patterns that contain `*` |
| Ignore.RegexDoesNotStartWithStar | src/ignore.rs:84-86 | the rewrite never starts with `*`, because a leading `*` becomes `.*` |
| Ignore.TokensOfGlob | src/ignore.rs:84-86 | escaping dots first, then expanding `*`, yields a regex that reads back as the glob: each `*` a run of non-newline characters, each other character a literal |
| Ignore.LiteralMatch | src/ignore.rs:84-86 | a glob without `*` matches at a position exactly where the text occurs there |
| Ignore.StarThen | src/ignore.rs:86 | a match of the rest of the pattern at `i` survives a leading `.*`, and a match with the leading `.*` at `i` has the rest matching at some position `k >= i` (`.*` does not cross a newline, so not every later position is reachable) |
| Ignore.StarGlobMatches | src/ignore.rs:58-69 | the unanchored regex of `*w` matches a text exactly when the text contains `w` |
| Ignore.StarGlobMisses | src/ignore.rs:58-69 | the regex of `*w` misses a text lacking some character of `w` |
| Ignore.AnyExactComponent | src/ignore.rs:48-55 | the component loop returns true exactly when some component is an exact name |
| Ignore.AnyGlobHit | src/ignore.rs:58-69 | the glob loop returns true exactly when some regex matches the file name or the whole path |
| Ignore.ShouldIgnore | src/ignore.rs:43-72 | `should_ignore` is the disjunction of the component rule and the glob rule |
| Ignore.ListedNameHit | src/ignore.rs:48-55 | a path with a listed name as a component is ignored |
| Ignore.ListedGlobHit | src/ignore.rs:58-69 | a path containing the text of a listed `*w` glob is ignored |
| Ignore.ListedGlobMisses | src/ignore.rs:58-69 | a glob `*.w` with a character that does not occur in the file name matches neither the name nor a path under a directory without dots |
| Ignore.NothingListedHits | src/ignore.rs:43-72 | a path `dir + name`, with no dot in `dir` and file name `name`, is kept when none of its components is listed and every listed `*` entry is `*.` followed by plain characters, one of which does not occur in `name` |
| IgnoreExamples.DefaultPatternsArePlain | src/ignore.rs:5-33 | every default entry is made of letters, digits, `.`, `_`, `-` and `*`, so the rewrite of each default glob is a plain regex |
| IgnoreExamples.DefaultGlobIndices | src/ignore.rs:5-33 | an entry of the default list contains `*` exactly when it is `*.log` (entry 12) or one of the test, spec and snapshot globs (entries 16 to 24) |
| IgnoreExamples.NodeModulesIgnored | src/ignore.rs:47-53 | any path with `node_modules` among its normal components is ignored, wherever that component stands |
| IgnoreExamples.NestedNodeModulesIgnored | src/ignore.rs:108 | every `dir/node_modules/rest` path, such as `src/node_modules/foo.js`, is ignored |
| IgnoreExamples.GitDirectoryIgnored | src/ignore.rs:47-53 | any path with `.git` among its normal components is ignored |
| IgnoreExamples.TopLevelGitIgnored | src/ignore.rs:109 | every `.git/rest` path, such as `.git/config`, is ignored |
| IgnoreExamples.LogFileIgnored | src/ignore.rs:117 | `app.log`, and any path containing `.log`, is ignored |
| IgnoreExamples.SourceFileKept | src/ignore.rs:118 | `src/components/Button.tsx` is not ignored by the patterns loaded from the default list |
| Paths.NormalComponents | src/ignore.rs:48-50 | the components kept are `Normal`: non-empty, not `.` or `..`, without separators |
| Paths.NormalComponentsOfJoin | src/ignore.rs:48-50 | the components of `a/b` are those of `a` followed by those of `b` |
| Paths.FileName | src/ignore.rs:60 | the file name, when present, is a `Normal` component |
| Paths.FileNameOfJoin | src/ignore.rs:60 | the file name of `dir/name` is `name` |
| Paths.Extension | src/search.rs:46-48 | an extension exists exactly when the file name has a dot after its first character; it is the text after the last dot |
| Paths.ExtensionOfJoin | src/search.rs:46-48 | the extension of `dir/stem.ext` is `ext` |
| Paths.DotFileHasNoExtension | src/search.rs:46-48 | a dot file such as `src/.ts` has no extension, so it is never scanned |
| Text.LastIndexOf | src/search.rs:124 | `rfind('.')` gives the last position of the character, or nothing exactly when it is absent |
| Text.NatToDecimal | src/translation.rs:94 | an array index is printed as non-empty digits without a leading zero, denoting the index |
| Text.SplitSpec | src/ignore.rs:48 | no piece of a split holds the separator, and joining the pieces gives the text back |
| Text.ReplaceCharSpec | src/ignore.rs:84-86 | a replacement without the replaced character leaves none behind |
| Translation.MemberPath | src/translation.rs:70-74 | the path of a member is its key at the top level, otherwise it extends the prefix |
| Translation.ItemPath | src/translation.rs:94 | the path of an element extends the prefix with `[`, then the decimal digits of the index, then a closing `]` |
| Translation.Flatten | src/translation.rs:64-102 | every flattened value is a scalar, and every flattened key extends the prefix |
| Translation.FlattenSound | src/translation.rs:64-102 | every entry of the flattened map holds a scalar leaf found at exactly that path |
| Translation.FlattenComplete | src/translation.rs:64-102 | every scalar leaf has an entry at its path |
| Translation.UniqueLeafEntered | src/translation.rs:80-91 | a leaf alone at its path is entered with its original value |
| Translation.SomeKeyIffSomeLeaf | src/translation.rs:64-102 | a tree flattens to some key exactly when it has a scalar leaf |
| Translation.FlattenMembersConcat | src/translation.rs:68-79 | the members of an object are flattened one by one and their entries merged in order: a split member list flattens to the right-biased union of its two parts |
| Translation.EmptyMemberAddsNothing | src/translation.rs:68-79 | a member whose value is `{}` or `[]`, at any position among the members, contributes no key: removing it leaves the flattening unchanged |
| Translation.ItemLeafIsElementLeaf | src/translation.rs:92-98 | a leaf of an array is a leaf of one of its elements, found under that element's `[i]` path |
| Translation.EmptyItemAddsNothing | src/translation.rs:92-98 | when element `i` is `{}` or `[]`, every entry of the array's flattening is a leaf of some other element, wherever `i` sits |
| Translation.EmptyLastItemAddsNothing | src/translation.rs:92-98 | appending `{}` or `[]` to an array leaves its flattening unchanged |
| Translation.InsertAll | src/translation.rs:37-39 | the insert loop yields the old map overridden by the new entries |
| Translation.LoadTranslationsFromDir | src/translation.rs:20-51 | the directory loop returns the merge of its JSON files, the first unreadable one's error, or the no-files error |
| Translation.FailureIsFinal | src/translation.rs:34 | once a JSON file fails, later entries do not change the result |
| Translation.NoJsonFilesIsError | src/translation.rs:46-48 | the load reports no JSON files exactly when the directory has none |
| Translation.MergeFailureIsUnreadable | src/translation.rs:34 | the merge fails only when some JSON file cannot be read or parsed |
| Translation.UnreadableJsonFails | src/translation.rs:34 | any JSON file that cannot be read or parsed makes the load fail |
| Translation.MergedKeys | src/translation.rs:36-39 | the merged keys are exactly the keys some readable JSON file defines |
| Translation.LastDefinitionWins | src/translation.rs:36-39 | later files override earlier ones: a key holds its value from the last file that defines it |
| Translation.ShouldKeepKey | src/translation.rs:167-186 | the scan with early returns decides exactly the keep rule: used, or a used key below it, or not listed as unused |
| Translation.RemoveRecursive | src/translation.rs:188-247 | scalars come back unchanged, and objects, arrays and nulls keep their kind |
| Translation.CleanedItemAt | src/translation.rs:220-237 | every array element is kept and cleaned at its own index path, whatever the keep test says |
| Translation.CleanItems | src/translation.rs:239-243 | a cleaned array holds no null and is no longer than the input |
| Translation.NoNullsKeepLength | src/translation.rs:239-243 | an array without nulls keeps its length |
| Translation.CleanMembersKeys | src/translation.rs:196-215 | the surviving members' keys are the input's keys that pass the keep rule, in their original order |
| Translation.MemberSurvives | src/translation.rs:209-212 | a key survives exactly when it is a key of the object and the keep rule accepts its path |
| Translation.KeptMemberCleaned | src/translation.rs:205-211 | a surviving member carries the cleaned value of the input member with that key |
| Translation.UnusedSet | src/translation.rs:165 | the unused set holds exactly the listed keys |
| Translation.RemoveKeysFromValue | src/translation.rs:160-250 | removal never fails, leaves a scalar unchanged, and filters a top-level object's members by the keep rule in order |
| TranslationExamples.FlattenSimpleObject | src/translation.rs:257-267 | `{"hello": "world", "foo": "bar"}` flattens to exactly `hello` and `foo` |
| TranslationExamples.FlattenNestedObject | src/translation.rs:270-282 | the nested `user` object flattens to exactly `user.name` and `user.age` |
| TranslationExamples.FlattenArray | src/translation.rs:285-293 | `{"items": ["a", "b"]}` flattens to `items[0]` and `items[1]` |
| TranslationExamples.ParentOfUsedKeyKept | src/translation.rs:177-182 | `user` is kept when `user.name` is used, even if `user` is listed as unused |
| TranslationExamples.EmptiedObjectStays | src/translation.rs:184-185 | removing the only member of `user` leaves `{"user": {}}`, since `user` is not listed as unused |
| TranslationExamples.DroppedNullShiftsIndex | src/translation.rs:239-241 | a dropped null shifts later elements down, so the old `items[1]` becomes `items[0]` |
| Cli.ValidateSourceDirs | src/cli.rs:39-53 | the result is never empty and has no empty entry; every given directory is empty exactly when the result is the default `["."]` that was not itself given; otherwise the result is the input with the empty strings removed, in order and with repeats kept |
| Cli.KeptDirectories | src/cli.rs:40-45 | when some directory is non-empty, a directory is in the result exactly when it was given and is not empty, and it occurs there as often as in the input |
| Cli.ValidateIdempotent | src/cli.rs:39-53 | validating a validated list changes nothing |

## Left out

- File system access is left out. This covers `WalkDir` and its `filter_entry` pruning of ignored directories, `fs::read_to_string`, `fs::read_dir` and `fs::write`. The walk is modelled by the sequence of files it reaches, and the directory listing by a sequence of entries in `read_dir` order.
- `load_translations` and `load_translation_file` are left out: the file or directory dispatch and the read-and-parse calls are I/O. Their parse result is an input of the directory model.
- `remove_unused_keys`, `remove_unused_from_file` and `remove_unused_from_directory` are left out: they read, prune with `remove_keys_from_value` and write back. They are I/O around the modelled pruning.
- serde_json parsing and pretty-printing are left out. A JSON number is kept as its text; floating point is not modelled.
- The regex crate is replaced by hand-written matchers.
  - `\b` is modelled with ASCII word characters `[A-Za-z0-9_]`; Unicode word characters are not modelled.
  - `regex::escape` is the identity on the modelled matcher, which compares the key literally.
  - The `Regex::new` failure branches of `compile_regex_patterns` and `compile_dynamic_patterns` cannot fire on escaped text, so they are not modelled.
- The progress bar, `output.rs`, `stats.rs` and the `clap` argument parsing are left out: they are presentation.
- The iteration order of `HashMap` and `HashSet` is not modelled. Sets and maps are Dafny `set` and `map`, and every result is proved independent of the order.
- Search.ExactMatch: a `\b` boundary counts only ASCII letters, digits and `_` as word characters, while the regex crate's `\b` is Unicode-aware. The model errs in both directions.
  - A key next to a non-ASCII letter, such as `id` in `éid`, is found by the model but not by the program.
  - A key that starts or ends with a non-ASCII letter, such as `café` in `t('café')`, is found by the program but not by the model. The model then reports that key as unused, and pruning would delete a key the program keeps.
- Ignore.LoadPatterns: it treats the rewrite of every glob as a regex that compiles, while `load_ignore_patterns` drops a glob whose rewrite `Regex::new` rejects. The rewrite only escapes `.` and expands `*`, so a glob such as `[*` would be dropped by the program and kept by the model. Every default pattern is plain (IgnoreExamples.DefaultPatternsArePlain), so the loaded default patterns agree.
- Ignore.TokensOfGlob: it requires a glob made of characters with no regex meaning besides `.` and `*` (IsPlainGlob). This holds for every default pattern; the regex reading of other metacharacters is not modelled.
- Translation.UniqueLeafEntered: it states the value only for a leaf that is alone at its path. When two leaves share a path, as in `{"a.b": 1, "a": {"b": 2}}`, FlattenSound says only that the entry holds one of them, not that it is the later one.
- Translation.KeptMemberCleaned: the value is that of some input member with the same key. Since serde_json keeps object keys distinct, that member is unique.
