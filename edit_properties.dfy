/** What the edit engine promises about the tree it edits: the upsert and no-op
    rules of each operation, and strict list order. */
module EditProperties {
  import opened Wrappers
  import opened YamlTree
  import opened Models
  import opened PubspecParser
  import Strings

  /** An empty edit list leaves the tree unchanged. */
  lemma ApplyAllEmpty(root: seq<Pair>)
    ensures ApplyAll(root, []) == root
  {
  }

  /** Edits apply strictly in list order: running `a` then `b` is running `a + b`. */
  lemma {:induction false} ApplyAllConcat(root: seq<Pair>, a: seq<PubspecEdit>, b: seq<PubspecEdit>)
    ensures ApplyAll(root, a + b) == ApplyAll(ApplyAll(root, a), b)
    decreases |b|
  {
    if b == [] {
      assert a + b == a;
    } else {
      assert (a + b)[..|a + b| - 1] == a + b[..|b| - 1];
      assert (a + b)[|a + b| - 1] == b[|b| - 1];
      ApplyAllConcat(root, a, b[..|b| - 1]);
    }
  }

  /** Upserting the value a key already holds changes nothing. */
  lemma UpsertUnchanged(items: seq<Pair>, name: string)
    requires Has(items, name)
    ensures Upsert(items, name, Lookup(items, name).value) == items
  {
  }

  /** Every top-level key but `key` looks up as before after upserting `key`. */
  lemma UpsertLeavesOthers(root: seq<Pair>, key: string, value: Node)
    ensures forall k :: k != key ==> Lookup(Upsert(root, key, value), k) == Lookup(root, k)
    ensures Others(Upsert(root, key, value), key) == Others(root, key)
  {
    forall k | k != key
      ensures Lookup(Upsert(root, key, value), k) == Lookup(root, k)
    {
      LookupUpsertOther(root, key, value, k);
    }
    UpsertOthers(root, key, value);
  }

  /** `setField` with a path that is not exactly two segments treats the path as
      one top-level key: an empty value deletes it (a no-op when absent), any
      other value upserts it, and every other entry is unchanged. */
  lemma SetFieldTopLevel(root: seq<Pair>, path: string, value: string)
    requires |Strings.Split(path, '.')| != 2
    ensures value != "" ==> Lookup(ApplyEdit(root, SetField(path, value)), path) == Some(Scalar(Some(value)))
    ensures value == "" && DistinctNames(root) ==> !Has(ApplyEdit(root, SetField(path, value)), path)
    ensures value == "" && !Has(root, path) ==> ApplyEdit(root, SetField(path, value)) == root
    ensures Others(ApplyEdit(root, SetField(path, value)), path) == Others(root, path)
    ensures forall k :: k != path ==> Lookup(ApplyEdit(root, SetField(path, value)), k) == Lookup(root, k)
  {
    if value == "" {
      RemoveOthers(root, path);
      if DistinctNames(root) {
        LookupRemoveSame(root, path);
      }
      forall k | k != path
        ensures Lookup(Remove(root, path), k) == Lookup(root, k)
      {
        LookupRemoveOther(root, path, k);
      }
    } else {
      LookupUpsertSame(root, path, Scalar(Some(value)));
      UpsertLeavesOthers(root, path, Scalar(Some(value)));
    }
  }

  /** `setField` with a two-segment path `a.b`. */
  lemma SetFieldNested(root: seq<Pair>, path: string, a: string, b: string, value: string)
    requires Strings.Split(path, '.') == [a, b]
    // an empty value is a no-op unless `a` is a map
    ensures value == "" && !IsMap(Lookup(root, a)) ==> ApplyEdit(root, SetField(path, value)) == root
    // a non-empty value leaves `a` a map holding `b`
    ensures value != "" ==>
              && IsMap(Lookup(ApplyEdit(root, SetField(path, value)), a))
              && Lookup(Lookup(ApplyEdit(root, SetField(path, value)), a).value.items, b) == Some(Scalar(Some(value)))
    // a non-map `a` is replaced by a map holding only `b`
    ensures value != "" && !IsMap(Lookup(root, a)) ==>
              Lookup(ApplyEdit(root, SetField(path, value)), a) == Some(Mapping([Pair(Str(b), Scalar(Some(value)))]))
    // inside a map `a`, only `b` changes, and an empty value deletes it
    ensures IsMap(Lookup(root, a)) ==>
              && IsMap(Lookup(ApplyEdit(root, SetField(path, value)), a))
              && Others(Lookup(ApplyEdit(root, SetField(path, value)), a).value.items, b)
                 == Others(Lookup(root, a).value.items, b)
    ensures value == "" && IsMap(Lookup(root, a)) && DistinctNames(Lookup(root, a).value.items) ==>
              !Has(Lookup(ApplyEdit(root, SetField(path, value)), a).value.items, b)
    // no other top-level entry changes
    ensures Others(ApplyEdit(root, SetField(path, value)), a) == Others(root, a)
    ensures forall k :: k != a ==> Lookup(ApplyEdit(root, SetField(path, value)), k) == Lookup(root, k)
  {
    var parent := Lookup(root, a);
    var r := ApplyEdit(root, SetField(path, value));
    if !IsMap(parent) {
      if value != "" {
        var inner := Upsert([], b, Scalar(Some(value)));
        assert inner == [Pair(Str(b), Scalar(Some(value)))];
        LookupUpsertSame([], b, Scalar(Some(value)));
        LookupUpsertSame(root, a, Mapping(inner));
        UpsertLeavesOthers(root, a, Mapping(inner));
      }
    } else {
      var items := parent.value.items;
      var inner := if value == "" then Remove(items, b) else Upsert(items, b, Scalar(Some(value)));
      LookupUpsertSame(root, a, Mapping(inner));
      UpsertLeavesOthers(root, a, Mapping(inner));
      if value == "" {
        RemoveOthers(items, b);
        if DistinctNames(items) {
          LookupRemoveSame(items, b);
        }
      } else {
        LookupUpsertSame(items, b, Scalar(Some(value)));
        UpsertOthers(items, b, Scalar(Some(value)));
      }
    }
  }

  /** A dependency edit touches only its own section's top-level entry. */
  lemma DependencyEditLeavesOthers(root: seq<Pair>, edit: PubspecEdit)
    requires !edit.SetField?
    ensures forall k :: k != edit.section.Key() ==> Lookup(ApplyEdit(root, edit), k) == Lookup(root, k)
    ensures Others(ApplyEdit(root, edit), edit.section.Key()) == Others(root, edit.section.Key())
  {
    var key := edit.section.Key();
    var deps := Lookup(root, key);
    match edit
    case SetDependencyVersion(_, name, version) =>
      if IsMap(deps) {
        UpsertLeavesOthers(root, key, Mapping(Upsert(deps.value.items, name, Scalar(Some(version)))));
      }
    case AddDependency(_, name, version) =>
      var base := if IsMap(deps) then deps.value.items else [];
      UpsertLeavesOthers(root, key, Mapping(Upsert(base, name, Scalar(Some(version)))));
    case RemoveDependency(_, name) =>
      if IsMap(deps) {
        UpsertLeavesOthers(root, key, Mapping(Remove(deps.value.items, name)));
      }
  }

  /** `setDependencyVersion` is a no-op unless the section is a map, and then
      upserts the entry to a scalar version, leaving the other entries alone. */
  lemma SetDependencyVersionTree(root: seq<Pair>, section: Section, name: string, version: string)
    ensures !IsMap(Lookup(root, section.Key())) ==>
              ApplyEdit(root, SetDependencyVersion(section, name, version)) == root
    ensures IsMap(Lookup(root, section.Key())) ==>
              var after := Lookup(ApplyEdit(root, SetDependencyVersion(section, name, version)), section.Key());
              && IsMap(after)
              && Lookup(after.value.items, name) == Some(Scalar(Some(version)))
              && Others(after.value.items, name) == Others(Lookup(root, section.Key()).value.items, name)
    // a present entry keeps its index and key, an absent one is appended last
    ensures IsMap(Lookup(root, section.Key())) ==>
              var items := Lookup(root, section.Key()).value.items;
              var r := Lookup(ApplyEdit(root, SetDependencyVersion(section, name, version)), section.Key()).value.items;
              && (Has(items, name) ==>
                    var i := Find(items, name).value;
                    && |r| == |items| && r[i] == Pair(items[i].key, Scalar(Some(version)))
                    && forall j :: 0 <= j < |items| && j != i ==> r[j] == items[j])
              && (!Has(items, name) ==> r == items + [Pair(Str(name), Scalar(Some(version)))])
  {
    var key := section.Key();
    var deps := Lookup(root, key);
    if IsMap(deps) {
      var inner := Upsert(deps.value.items, name, Scalar(Some(version)));
      LookupUpsertSame(root, key, Mapping(inner));
      LookupUpsertSame(deps.value.items, name, Scalar(Some(version)));
      UpsertOthers(deps.value.items, name, Scalar(Some(version)));
      UpsertPlaces(deps.value.items, name, Scalar(Some(version)));
    }
  }

  /** `addDependency` makes the section a map (a fresh one if it was missing or
      not a map) and sets `name` to a scalar version, replacing any complex entry. */
  lemma AddDependencyTree(root: seq<Pair>, section: Section, name: string, version: string)
    ensures var after := Lookup(ApplyEdit(root, AddDependency(section, name, version)), section.Key());
            && IsMap(after)
            && Lookup(after.value.items, name) == Some(Scalar(Some(version)))
    ensures IsMap(Lookup(root, section.Key())) ==>
              Others(Lookup(ApplyEdit(root, AddDependency(section, name, version)), section.Key()).value.items, name)
              == Others(Lookup(root, section.Key()).value.items, name)
    ensures !IsMap(Lookup(root, section.Key())) ==>
              Lookup(ApplyEdit(root, AddDependency(section, name, version)), section.Key())
              == Some(Mapping([Pair(Str(name), Scalar(Some(version)))]))
    // in a map, a present entry keeps its index and key, an absent one is appended last
    ensures IsMap(Lookup(root, section.Key())) ==>
              var items := Lookup(root, section.Key()).value.items;
              var r := Lookup(ApplyEdit(root, AddDependency(section, name, version)), section.Key()).value.items;
              && (Has(items, name) ==>
                    var i := Find(items, name).value;
                    && |r| == |items| && r[i] == Pair(items[i].key, Scalar(Some(version)))
                    && forall j :: 0 <= j < |items| && j != i ==> r[j] == items[j])
              && (!Has(items, name) ==> r == items + [Pair(Str(name), Scalar(Some(version)))])
  {
    var key := section.Key();
    var deps := Lookup(root, key);
    var base := if IsMap(deps) then deps.value.items else [];
    var inner := Upsert(base, name, Scalar(Some(version)));
    assert !IsMap(deps) ==> inner == [Pair(Str(name), Scalar(Some(version)))];
    LookupUpsertSame(root, key, Mapping(inner));
    LookupUpsertSame(base, name, Scalar(Some(version)));
    UpsertOthers(base, name, Scalar(Some(version)));
    UpsertPlaces(base, name, Scalar(Some(version)));
  }

  /** `removeDependency` is a no-op when the section is not a map or lacks the
      entry; otherwise it deletes the entry and nothing else. */
  lemma RemoveDependencyTree(root: seq<Pair>, section: Section, name: string)
    ensures !IsMap(Lookup(root, section.Key())) ==> ApplyEdit(root, RemoveDependency(section, name)) == root
    ensures IsMap(Lookup(root, section.Key())) && !Has(Lookup(root, section.Key()).value.items, name) ==>
              ApplyEdit(root, RemoveDependency(section, name)) == root
    ensures IsMap(Lookup(root, section.Key())) ==>
              var after := Lookup(ApplyEdit(root, RemoveDependency(section, name)), section.Key());
              && IsMap(after)
              && Others(after.value.items, name) == Others(Lookup(root, section.Key()).value.items, name)
              && (DistinctNames(Lookup(root, section.Key()).value.items) ==> !Has(after.value.items, name))
  {
    var key := section.Key();
    var deps := Lookup(root, key);
    if IsMap(deps) {
      var items := deps.value.items;
      LookupUpsertSame(root, key, Mapping(Remove(items, name)));
      RemoveOthers(items, name);
      if !Has(items, name) {
        UpsertUnchanged(root, key);
      }
      if DistinctNames(items) {
        LookupRemoveSame(items, name);
      }
    }
  }
}
