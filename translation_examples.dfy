/**
 * Flattening and pruning on the catalogues of the unit tests, and two
 * consequences of the pruning rules: an object whose members are all removed
 * stays behind empty, and dropping a null shifts the later array indices.
 */
module TranslationExamples {
  import opened Wrappers
  import opened Text
  import opened Translation

  /** `{"hello": "world", "foo": "bar"}` flattens to exactly `hello` and `foo`. */
  lemma FlattenSimpleObject()
    ensures Flatten(JObject([Member("hello", JString("world")), Member("foo", JString("bar"))]), "")
         == map["hello" := JString("world"), "foo" := JString("bar")]
  {
  }

  /** `{"user": {"name": "John", "age": 30}}` flattens to `user.name` and `user.age`. */
  lemma FlattenNestedObject()
    ensures Flatten(JObject([Member("user", JObject([Member("name", JString("John")), Member("age", JNumber("30"))]))]), "")
         == map["user.name" := JString("John"), "user.age" := JNumber("30")]
  {
    var user := [Member("name", JString("John")), Member("age", JNumber("30"))];
    assert MemberPath("user", "name") == "user.name";
    assert MemberPath("user", "age") == "user.age";
    assert user[..1] == [Member("name", JString("John"))];
    assert Flatten(JObject(user), "user") == map["user.name" := JString("John"), "user.age" := JNumber("30")];
  }

  lemma ItemPathsOfItems()
    ensures ItemPath("items", 0) == "items[0]" && ItemPath("items", 1) == "items[1]"
  {
    assert NatToDecimal(0) == "0" && NatToDecimal(1) == "1";
  }

  lemma FlattenItemsOfItems()
    ensures Flatten(JArray([JString("a"), JString("b")]), "items")
         == map["items[0]" := JString("a"), "items[1]" := JString("b")]
  {
    var items := [JString("a"), JString("b")];
    ItemPathsOfItems();
    FlattenItemsLast(items, "items");
    assert items[..1] == [JString("a")];
  }

  /** `{"items": ["a", "b"]}` flattens to `items[0]` and `items[1]`. */
  lemma FlattenArray()
    ensures Flatten(JObject([Member("items", JArray([JString("a"), JString("b")]))]), "")
         == map["items[0]" := JString("a"), "items[1]" := JString("b")]
  {
    FlattenItemsOfItems();
  }

  /** A path with a used key below it is kept even when it is listed as unused. */
  lemma ParentOfUsedKeyKept()
    ensures KeepsPath("user", {"user.name"}, {"user"})
  {
    assert StartsWith("user.name", "user" + ".");
  }

  /** Removing the only member of `user` leaves `{"user": {}}`: `user` itself is not listed as unused. */
  lemma EmptiedObjectStays()
    ensures RemoveKeysFromValue(JObject([Member("user", JObject([Member("name", JString("John"))]))]), ["user.name"], {})
         == Success(JObject([Member("user", JObject([]))]))
  {
    var unused := UnusedSet(["user.name"]);
    assert unused == {"user.name"};
    assert MemberPath("user", "name") == "user.name";
    assert !KeepsPath("user.name", {}, unused);
    assert KeepsPath("user", {}, unused);
    var inner := [Member("name", JString("John"))];
    assert CleanMembers(inner, "user", {}, unused) == [];
    var outer := [Member("user", JObject(inner))];
    assert CleanMembers(outer, "", {}, unused) == [Member("user", JObject([]))];
  }

  /** A null element is dropped, so the string that was `items[1]` becomes `items[0]`. */
  lemma DroppedNullShiftsIndex(used: set<string>, unused: set<string>)
    ensures RemoveRecursive(JArray([JNull, JString("b")]), "items", used, unused) == JArray([JString("b")])
  {
    var items := [JNull, JString("b")];
    CleanedItemAt(items, "items", used, unused, 0);
    CleanedItemAt(items, "items", used, unused, 1);
    var cleaned := CleanedItems(items, "items", used, unused);
    assert cleaned == [JNull, JString("b")];
    assert cleaned[1..] == [JString("b")];
  }
}
