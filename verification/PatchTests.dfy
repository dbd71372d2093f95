/** The "test" operation of JSON Patch (section 4.6 of RFC 6902). */
module PatchTests {
  import opened CStrings
  import opened JsonTree
  import opened Locations
  import opened Equality
  import opened Patches

  /** A "test" changes nothing, and succeeds exactly when the pointer leads to an equal value. */
  lemma {:induction false} TestPatchExact(cs: bool, doc: Json, patch: Json, path: string, expected: Json)
    requires Field(cs, patch, "op") == Some(String("test")) && Field(cs, patch, "path") == Some(String(path))
    requires Field(cs, patch, "value") == Some(expected) && Unique(cs, doc) && Unique(cs, expected)
    ensures var (o, found) := (ApplyPatch(cs, doc, patch), Resolve(cs, doc, path));
      && o.doc == Some(doc)
      && (o.status == 0 <==> found.Some? && Same(cs, At(doc, found.value), expected))
  {
    hide Field;
    var found := Resolve(cs, doc, path);
    if found.Some? {
      UniqueBelow(cs, doc, found.value);
      CompareSortedMeansSame(cs, At(doc, found.value), expected);
    }
  }

  lemma {:induction false} UniqueBelow(cs: bool, doc: Json, at: Location)
    requires Unique(cs, doc) && IsLocation(doc, at)
    ensures Unique(cs, At(doc, at))
    decreases |at|
  {
    if at != [] { UniqueBelow(cs, Child(doc, at[0]), at[1..]); }
  }
}
