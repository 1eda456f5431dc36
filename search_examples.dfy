/**
 * The usage scan on the inputs its unit tests use, and on the two edge cases
 * of the word-bounded matcher: a key inside a longer word, and a key that
 * ends in `]`.
 */
module SearchExamples {
  import opened Wrappers
  import opened Text
  import opened Search

  /** The keys' prefixes, when two keys share each of two prefixes. */
  lemma PrefixesOfTwoPairs(a1: string, a2: string, b1: string, b2: string, p: string, q: string)
    requires BasePrefix(a1) == Some(p) && BasePrefix(a2) == Some(p)
    requires BasePrefix(b1) == Some(q) && BasePrefix(b2) == Some(q)
    ensures PrefixesOf({a1, a2, b1, b2}) == {p, q}
  {
  }

  /** A group holds exactly the keys that carry its prefix. */
  lemma GroupOfTwo(keys: set<string>, a1: string, a2: string, p: string)
    requires a1 in keys && a2 in keys && BasePrefix(a1) == Some(p) && BasePrefix(a2) == Some(p)
    requires forall k | k in keys && k != a1 && k != a2 :: BasePrefix(k) != Some(p)
    ensures p in Groups(keys) && Groups(keys)[p] == {a1, a2}
  {
    GroupMembership(keys, p, a1);
  }

  /** Four keys under two different prefixes make exactly two groups of two. */
  lemma GroupsOfTwoPairs(a1: string, a2: string, b1: string, b2: string, p: string, q: string)
    requires BasePrefix(a1) == Some(p) && BasePrefix(a2) == Some(p)
    requires BasePrefix(b1) == Some(q) && BasePrefix(b2) == Some(q)
    requires p != q
    ensures Groups({a1, a2, b1, b2}) == map[p := {a1, a2}, q := {b1, b2}]
  {
    var keys := {a1, a2, b1, b2};
    PrefixesOfTwoPairs(a1, a2, b1, b2, p, q);
    GroupOfTwo(keys, a1, a2, p);
    GroupOfTwo(keys, b1, b2, q);
  }

  /** A single dotted key makes a single group. */
  lemma GroupsOfOne(k: string, p: string)
    requires BasePrefix(k) == Some(p)
    ensures Groups({k}) == map[p := {k}]
  {
    assert PrefixesOf({k}) == {p};
    GroupOfTwo({k}, k, k, p);
    assert {k, k} == {k};
    assert Groups({k}).Keys == {p};
  }

  /** A key made of a prefix and a suffix `.name`, where `name` has no dot, has that prefix. */
  lemma BasePrefixOfSuffix(p: string, suffix: string)
    requires |suffix| > 0 && suffix[0] == '.' && '.' !in suffix[1..]
    ensures BasePrefix(p + suffix) == Some(p)
  {
    BasePrefixOfDotted(p, suffix[1..]);
    assert p + "." + suffix[1..] == p + suffix;
  }

  /** The grouping test: `expenseCategory` and `status` each hold their two keys, and nothing else is grouped. */
  lemma ExtractBasePrefixesExample(e: string, s: string)
    requires e == "expenseCategory" && s == "status"
    ensures Groups({e + ".foo", e + ".bar", s + ".open", s + ".closed"})
         == map[e := {e + ".foo", e + ".bar"}, s := {s + ".open", s + ".closed"}]
  {
    BasePrefixOfSuffix(e, ".foo");
    BasePrefixOfSuffix(e, ".bar");
    BasePrefixOfSuffix(s, ".open");
    BasePrefixOfSuffix(s, ".closed");
    GroupsOfTwoPairs(e + ".foo", e + ".bar", s + ".open", s + ".closed", e, s);
  }

  /** Only the last dot counts: `a.b.c` is grouped under `a.b`, and `a` has no group. */
  lemma LastDotGroupsExample(ab: string)
    requires ab == "a.b"
    ensures Groups({ab + ".c"}) == map[ab := {ab + ".c"}]
  {
    BasePrefixOfSuffix(ab, ".c");
    GroupsOfOne(ab + ".c", ab);
  }

  /**
   * The two quoted uses of the dynamic-pattern test: a template literal
   * `const key = \`expenseCategory.${variable}\`;` and a call
   * `t('status.${item.status}', { ns: 'App' });`, whose interpolated text itself holds a dot.
   */
  lemma QuotedUsesMatch()
    ensures DynamicMatch("expenseCategory", "const key = `" + "expenseCategory" + ".${" + "variable" + "}" + "`;")
    ensures DynamicMatch("status", "t('" + "status" + ".${" + "item.status" + "}" + "', { ns: 'App' });")
  {
    InterpolationFound("expenseCategory", "const key = `", "variable", "`;");
    InterpolationFound("status", "t('", "item.status", "', { ns: 'App' });");
  }

  /** An empty interpolation `status.${}` is not a use: the pattern needs at least one character between the braces. */
  lemma EmptyInterpolationMisses()
    ensures !DynamicMatch("status", "status" + ".${" + "}")
  {
    assert |"status" + ".${" + "}"| == |"status"| + 4;
  }

  /** `Reimbursement:expenseCategory.${reimbursement.expenseCategory}`: a namespace before the prefix does not stop the match, as there is no anchor. */
  lemma NamespacedMatches()
    ensures DynamicMatch("expenseCategory",
                         "Reimbursement:" + "expenseCategory" + ".${" + "reimbursement.expenseCategory" + "}")
  {
    InterpolationFound("expenseCategory", "Reimbursement:", "reimbursement.expenseCategory", "");
    assert "Reimbursement:" + "expenseCategory" + ".${" + "reimbursement.expenseCategory" + "}" + ""
        == "Reimbursement:" + "expenseCategory" + ".${" + "reimbursement.expenseCategory" + "}";
  }

  /** `id` is not found inside `valid`: its only occurrence follows a word character. */
  lemma KeyInsideWordNotFound()
    ensures !ExactMatch("id", "valid")
  {
    var content := "valid";
    forall i | 0 <= i <= |content| - 2 && OccursAt(content, "id", i)
      ensures WordBefore(content, i)
    {
      assert content[i] == 'i' by {
        assert content[i..i + 2][0] == content[i];
      }
    }
    NotFoundInsideWord("id", content);
  }

  /** A flattened array key such as `items[0]` is not found in a quoted call, where a quote follows the `]`. */
  lemma BracketKeyInQuotesNotFound()
    ensures !ExactMatch("items[0]", "t('items[0]')")
  {
    var key, content := "items[0]", "t('items[0]')";
    forall i | 0 <= i <= |content| - |key| && OccursAt(content, key, i)
      ensures !WordAt(content, i + |key|)
    {
      assert content[i] == 'i' && content[i + 5] == '[' by {
        assert content[i..i + |key|][0] == content[i];
        assert content[i..i + |key|][5] == content[i + 5];
      }
    }
    NonWordEndNeedsWordAfter(key, content);
  }
}
