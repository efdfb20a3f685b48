/** Reading the manifest back after an edit: the model-level effect of each
    edit operation. */
module ReparseProperties {
  import opened Wrappers
  import opened YamlTree
  import opened Models
  import opened PubspecParser
  import opened ReadProperties
  import opened EditProperties
  import Seqs
  import Strings

  /** The dependency list of one section of the model. */
  function SectionDeps(m: PubspecModel, section: Section): seq<PubspecDependency>
  {
    match section
    case Dependencies => m.dependencies
    case DevDependencies => m.devDependencies
  }

  function OtherSection(section: Section): Section
  {
    match section
    case Dependencies => DevDependencies
    case DevDependencies => Dependencies
  }

  /** The entries not named `name`, in order. */
  function WithoutName(deps: seq<PubspecDependency>, name: string): seq<PubspecDependency>
  {
    Seqs.Filter(deps, (d: PubspecDependency) => d.name != name)
  }

  /** A key that reads the same in both roots yields the same string field... */
  lemma SameString(root: seq<Pair>, root': seq<Pair>, key: string, render: Render)
    requires Lookup(root', key) == Lookup(root, key)
    ensures GetString(MapRoot(root'), key, render) == GetString(MapRoot(root), key, render)
  {
  }

  /** ...and the same dependency list... */
  lemma SameDeps(root: seq<Pair>, root': seq<Pair>, key: string, render: Render)
    requires Lookup(root', key) == Lookup(root, key)
    ensures DependenciesOf(MapRoot(root'), key, render) == DependenciesOf(MapRoot(root), key, render)
  {
  }

  /** ...and `environment` the same record. */
  lemma SameEnvironment(root: seq<Pair>, root': seq<Pair>, render: Render)
    requires Lookup(root', "environment") == Lookup(root, "environment")
    ensures EnvironmentOf(MapRoot(root'), render) == EnvironmentOf(MapRoot(root), render)
  {
  }

  /** The metadata fields read the same when their keys do. */
  lemma SameMetadata(root: seq<Pair>, root': seq<Pair>, render: Render)
    requires Lookup(root', "name") == Lookup(root, "name")
    requires Lookup(root', "description") == Lookup(root, "description")
    requires Lookup(root', "version") == Lookup(root, "version")
    requires Lookup(root', "homepage") == Lookup(root, "homepage")
    requires Lookup(root', "repository") == Lookup(root, "repository")
    requires Lookup(root', "issue_tracker") == Lookup(root, "issue_tracker")
    requires Lookup(root', "publish_to") == Lookup(root, "publish_to")
    ensures var m := ModelOf(MapRoot(root), render);
            var m' := ModelOf(MapRoot(root'), render);
            && m'.name == m.name && m'.description == m.description && m'.version == m.version
            && m'.homepage == m.homepage && m'.repository == m.repository
            && m'.issueTracker == m.issueTracker && m'.publishTo == m.publishTo
  {
    SameString(root, root', "name", render);
    SameString(root, root', "description", render);
    SameString(root, root', "version", render);
    SameString(root, root', "homepage", render);
    SameString(root, root', "repository", render);
    SameString(root, root', "issue_tracker", render);
    SameString(root, root', "publish_to", render);
  }

  /** Changing one dependency section leaves the rest of the model as it was. */
  lemma SectionOutside(root: seq<Pair>, root': seq<Pair>, section: Section, render: Render)
    requires forall k :: k != section.Key() ==> Lookup(root', k) == Lookup(root, k)
    ensures var m := ModelOf(MapRoot(root), render);
            var m' := ModelOf(MapRoot(root'), render);
            && SectionDeps(m', OtherSection(section)) == SectionDeps(m, OtherSection(section))
            && m'.(dependencies := m.dependencies, devDependencies := m.devDependencies) == m
  {
    forall f: Field
      ensures f.Key() != section.Key()
    {
      FieldKeys(f, f);
    }
    MetadataKeysOutside(root, root', section.Key());
    KeyOutside(root, root', section.Key(), "environment");
    KeyOutside(root, root', section.Key(), OtherSection(section).Key());
    SameMetadata(root, root', render);
    SameEnvironment(root, root', render);
    SameDeps(root, root', OtherSection(section).Key(), render);
  }

  /** The metadata keys read the same when only some other key changed. */
  lemma MetadataKeysOutside(root: seq<Pair>, root': seq<Pair>, changed: string)
    requires forall k :: k != changed ==> Lookup(root', k) == Lookup(root, k)
    requires forall f: Field :: f.Key() != changed
    ensures Lookup(root', "name") == Lookup(root, "name")
    ensures Lookup(root', "description") == Lookup(root, "description")
    ensures Lookup(root', "version") == Lookup(root, "version")
    ensures Lookup(root', "homepage") == Lookup(root, "homepage")
    ensures Lookup(root', "repository") == Lookup(root, "repository")
    ensures Lookup(root', "issue_tracker") == Lookup(root, "issue_tracker")
    ensures Lookup(root', "publish_to") == Lookup(root, "publish_to")
  {
    assert Name.Key() != changed && Description.Key() != changed && Version.Key() != changed;
    assert Homepage.Key() != changed && Repository.Key() != changed;
    assert IssueTracker.Key() != changed && PublishTo.Key() != changed;
    KeyOutside(root, root', changed, "name");
    KeyOutside(root, root', changed, "description");
    KeyOutside(root, root', changed, "version");
    KeyOutside(root, root', changed, "homepage");
    KeyOutside(root, root', changed, "repository");
    KeyOutside(root, root', changed, "issue_tracker");
    KeyOutside(root, root', changed, "publish_to");
  }

  lemma KeyOutside(root: seq<Pair>, root': seq<Pair>, changed: string, k: string)
    requires forall k :: k != changed ==> Lookup(root', k) == Lookup(root, k)
    requires k != changed
    ensures Lookup(root', k) == Lookup(root, k)
  {
  }

  /** Changing the environment leaves the rest of the model as it was. */
  lemma EnvironmentOutside(root: seq<Pair>, root': seq<Pair>, render: Render)
    requires forall k :: k != "environment" ==> Lookup(root', k) == Lookup(root, k)
    ensures var m := ModelOf(MapRoot(root), render);
            var m' := ModelOf(MapRoot(root'), render);
            && m'.name == m.name && m'.description == m.description && m'.version == m.version
            && m'.homepage == m.homepage && m'.repository == m.repository
            && m'.issueTracker == m.issueTracker && m'.publishTo == m.publishTo
            && m'.dependencies == m.dependencies && m'.devDependencies == m.devDependencies
  {
    forall f: Field
      ensures f.Key() != "environment"
    {
      FieldKeys(f, f);
    }
    MetadataKeysOutside(root, root', "environment");
    KeyOutside(root, root', "environment", "dependencies");
    KeyOutside(root, root', "environment", "dev_dependencies");
    SameMetadata(root, root', render);
    SameDeps(root, root', "dependencies", render);
    SameDeps(root, root', "dev_dependencies", render);
  }

  /** A dependency edit changes nothing in the model but its own section. */
  lemma DependencyEditModelOutside(root: seq<Pair>, edit: PubspecEdit, render: Render)
    requires !edit.SetField?
    ensures var m := ModelOf(MapRoot(root), render);
            var m' := ModelOf(MapRoot(ApplyEdit(root, edit)), render);
            && SectionDeps(m', OtherSection(edit.section)) == SectionDeps(m, OtherSection(edit.section))
            && m'.(dependencies := m.dependencies, devDependencies := m.devDependencies) == m
  {
    DependencyEditLeavesOthers(root, edit);
    SectionOutside(root, ApplyEdit(root, edit), edit.section, render);
  }

  /** `after` is `before` with one entry named `d.name` replaced by `d` where it
      stands: the same length, and every other index unchanged. */
  predicate ReplacedInPlace(before: seq<PubspecDependency>, after: seq<PubspecDependency>, d: PubspecDependency)
  {
    exists j :: 0 <= j < |before| && before[j].name == d.name && after == before[j := d]
  }

  lemma WithoutNameSkip(a: seq<PubspecDependency>, d: PubspecDependency, b: seq<PubspecDependency>, name: string)
    requires d.name == name
    ensures WithoutName(a + [d] + b, name) == WithoutName(a + b, name)
  {
    var p := (e: PubspecDependency) => e.name != name;
    assert [d][1..] == [];
    assert Seqs.Filter([d], p) == [];
    Seqs.FilterConcat(a + [d], b, p);
    Seqs.FilterConcat(a, [d], p);
    Seqs.FilterConcat(a, b, p);
  }

  /** The entries of a section after upserting `name` to a scalar version: that
      entry reads as hosted, not complex, with that version, in place or at the
      end, and no other entry changes. */
  lemma UpsertEntries(items: seq<Pair>, name: string, version: string, render: Render)
    ensures var before := DependencyEntries(items, render);
            var after := DependencyEntries(Upsert(items, name, Scalar(Some(version))), render);
            && PubspecDependency(name, version, false, Hosted) in after
            && WithoutName(after, name) == WithoutName(before, name)
            && |after| == (if Has(items, name) then |before| else |before| + 1)
            && (Has(items, name) ==> ReplacedInPlace(before, after, PubspecDependency(name, version, false, Hosted)))
            && (!Has(items, name) ==> after == before + [PubspecDependency(name, version, false, Hosted)])
  {
    var entry := PubspecDependency(name, version, false, Hosted);
    match Find(items, name)
    case Some(i) =>
      UpsertEntriesFound(items, name, version, render, i);
    case None =>
      var y := Pair(Str(name), Scalar(Some(version)));
      EntriesConcat(items, [y], render);
      assert [y][..0] == [];
      var e := DependencyEntries(items, render);
      assert DependencyEntries([y], render) == [entry];
      WithoutNameSkip(e, entry, [], name);
      assert e + [entry] + [] == e + [entry];
      assert e + [] == e;
  }

  /** The found case of the above: the entry is replaced where it stands. */
  lemma UpsertEntriesFound(items: seq<Pair>, name: string, version: string, render: Render, i: nat)
    requires Find(items, name) == Some(i)
    ensures var before := DependencyEntries(items, render);
            var after := DependencyEntries(Upsert(items, name, Scalar(Some(version))), render);
            && PubspecDependency(name, version, false, Hosted) in after
            && WithoutName(after, name) == WithoutName(before, name)
            && |after| == |before|
            && ReplacedInPlace(before, after, PubspecDependency(name, version, false, Hosted))
  {
    var entry := PubspecDependency(name, version, false, Hosted);
    var a, x, b := items[..i], items[i], items[i + 1..];
    var y := Pair(x.key, Scalar(Some(version)));
    assert items == a + [x] + b;
    assert Upsert(items, name, Scalar(Some(version))) == a + [y] + b;
    EntriesAround(a, x, b, render);
    EntriesAround(a, y, b, render);
    var ea, eb := DependencyEntries(a, render), DependencyEntries(b, render);
    assert Classify(y.key.text, y.value, render) == entry;
    WithoutNameSkip(ea, Classify(name, x.value, render), eb, name);
    WithoutNameSkip(ea, entry, eb, name);
    assert (ea + [entry] + eb)[|ea|] == entry;
    ReplaceMiddle(ea, Classify(name, x.value, render), eb, entry);
  }

  /** Replacing the middle entry by one of the same name is a replacement in place. */
  lemma ReplaceMiddle(a: seq<PubspecDependency>, c: PubspecDependency, b: seq<PubspecDependency>, d: PubspecDependency)
    requires c.name == d.name
    ensures ReplacedInPlace(a + [c] + b, a + [d] + b, d)
  {
    assert (a + [c] + b)[|a|] == c;
    assert (a + [c] + b)[|a| := d] == a + [d] + b;
  }

  /** The entries around one scalar-keyed pair. */
  lemma EntriesAround(a: seq<Pair>, x: Pair, b: seq<Pair>, render: Render)
    requires !x.key.Complex?
    ensures DependencyEntries(a + [x] + b, render)
            == DependencyEntries(a, render) + [Classify(x.key.text, x.value, render)] + DependencyEntries(b, render)
  {
    EntriesConcat(a + [x], b, render);
    EntriesConcat(a, [x], render);
    assert [x][..0] == [];
  }

  /** With distinct names, deleting a present entry removes exactly its entry. */
  lemma RemoveEntries(items: seq<Pair>, name: string, render: Render)
    requires DistinctNames(items) && Has(items, name)
    ensures DependencyEntries(Remove(items, name), render) == WithoutName(DependencyEntries(items, render), name)
  {
    var i := Find(items, name).value;
    var a, x, b := items[..i], items[i], items[i + 1..];
    assert items == a + [x] + b;
    EntriesAround(a, x, b, render);
    EntriesConcat(a, b, render);
    var ea, eb := DependencyEntries(a, render), DependencyEntries(b, render);
    WithoutNameSkip(ea, Classify(name, x.value, render), eb, name);
    AroundFoundAbsent(items, name, i, render);
    Seqs.FilterConcat(ea, eb, (e: PubspecDependency) => e.name != name);
  }

  /** With distinct names, no entry before or after the found pair is named `name`. */
  lemma AroundFoundAbsent(items: seq<Pair>, name: string, i: nat, render: Render)
    requires DistinctNames(items) && Find(items, name) == Some(i)
    ensures WithoutName(DependencyEntries(items[..i], render), name) == DependencyEntries(items[..i], render)
    ensures WithoutName(DependencyEntries(items[i + 1..], render), name) == DependencyEntries(items[i + 1..], render)
  {
    var a, b := items[..i], items[i + 1..];
    forall j | 0 <= j < |a|
      ensures a[j].key.Complex? || a[j].key.text != name
    {
      assert a[j] == items[j];
    }
    forall j | 0 <= j < |b|
      ensures b[j].key.Complex? || b[j].key.text != name
    {
      assert b[j] == items[i + 1 + j];
    }
    WithoutAbsent(a, name, render);
    WithoutAbsent(b, name, render);
  }

  /** Pairs none of which is named `name` read as entries none of which is. */
  lemma WithoutAbsent(s: seq<Pair>, name: string, render: Render)
    requires forall j :: 0 <= j < |s| ==> s[j].key.Complex? || s[j].key.text != name
    ensures WithoutName(DependencyEntries(s, render), name) == DependencyEntries(s, render)
  {
    var e := DependencyEntries(s, render);
    var p := (d: PubspecDependency) => d.name != name;
    forall k | 0 <= k < |e|
      ensures p(e[k])
    {
      EntryNames(s, render, k);
    }
    Seqs.FilterKeepsAll(e, p);
  }

  /** A section of the model is read from that section's map, if it is one. */
  lemma SectionDepsOf(root: seq<Pair>, section: Section, render: Render)
    ensures var deps := Lookup(root, section.Key());
            SectionDeps(ModelOf(MapRoot(root), render), section)
            == if IsMap(deps) then DependencyEntries(deps.value.items, render) else []
  {
  }

  /** Re-reading after `addDependency`: the entry is hosted, not complex, with
      the given version; every other entry and every other part of the model is
      unchanged. */
  lemma AddDependencyReparse(root: seq<Pair>, section: Section, name: string, version: string, render: Render)
    ensures var m := ModelOf(MapRoot(root), render);
            var m' := ModelOf(MapRoot(ApplyEdit(root, AddDependency(section, name, version))), render);
            && PubspecDependency(name, version, false, Hosted) in SectionDeps(m', section)
            && WithoutName(SectionDeps(m', section), name) == WithoutName(SectionDeps(m, section), name)
            && SectionDeps(m', OtherSection(section)) == SectionDeps(m, OtherSection(section))
            && m'.(dependencies := m.dependencies, devDependencies := m.devDependencies) == m
    // a present entry is replaced where it stands; otherwise the entry comes last
    ensures var m := ModelOf(MapRoot(root), render);
            var m' := ModelOf(MapRoot(ApplyEdit(root, AddDependency(section, name, version))), render);
            var deps := Lookup(root, section.Key());
            var entry := PubspecDependency(name, version, false, Hosted);
            if IsMap(deps) && Has(deps.value.items, name)
            then ReplacedInPlace(SectionDeps(m, section), SectionDeps(m', section), entry)
            else SectionDeps(m', section) == SectionDeps(m, section) + [entry]
  {
    var key := section.Key();
    var deps := Lookup(root, key);
    var base := if IsMap(deps) then deps.value.items else [];
    var inner := Upsert(base, name, Scalar(Some(version)));
    var root' := ApplyEdit(root, AddDependency(section, name, version));
    LookupUpsertSame(root, key, Mapping(inner));
    SectionDepsOf(root, section, render);
    SectionDepsOf(root', section, render);
    UpsertEntries(base, name, version, render);
    DependencyEditModelOutside(root, AddDependency(section, name, version), render);
  }

  /** Re-reading after `setDependencyVersion`: a no-op when the section is not a
      map, otherwise the same upsert as `addDependency`. */
  lemma SetDependencyVersionReparse(root: seq<Pair>, section: Section, name: string, version: string, render: Render)
    ensures var m := ModelOf(MapRoot(root), render);
            var m' := ModelOf(MapRoot(ApplyEdit(root, SetDependencyVersion(section, name, version))), render);
            && (!IsMap(Lookup(root, section.Key())) ==> m' == m)
            && (IsMap(Lookup(root, section.Key())) ==>
                  && PubspecDependency(name, version, false, Hosted) in SectionDeps(m', section)
                  && WithoutName(SectionDeps(m', section), name) == WithoutName(SectionDeps(m, section), name))
            && SectionDeps(m', OtherSection(section)) == SectionDeps(m, OtherSection(section))
            && m'.(dependencies := m.dependencies, devDependencies := m.devDependencies) == m
    // in a map, a present entry is replaced where it stands; an absent one comes last
    ensures var m := ModelOf(MapRoot(root), render);
            var m' := ModelOf(MapRoot(ApplyEdit(root, SetDependencyVersion(section, name, version))), render);
            var deps := Lookup(root, section.Key());
            var entry := PubspecDependency(name, version, false, Hosted);
            IsMap(deps) ==>
              if Has(deps.value.items, name)
              then ReplacedInPlace(SectionDeps(m, section), SectionDeps(m', section), entry)
              else SectionDeps(m', section) == SectionDeps(m, section) + [entry]
  {
    var key := section.Key();
    var deps := Lookup(root, key);
    if IsMap(deps) {
      var inner := Upsert(deps.value.items, name, Scalar(Some(version)));
      LookupUpsertSame(root, key, Mapping(inner));
      SectionDepsOf(root, section, render);
      SectionDepsOf(ApplyEdit(root, SetDependencyVersion(section, name, version)), section, render);
      UpsertEntries(deps.value.items, name, version, render);
    }
    DependencyEditModelOutside(root, SetDependencyVersion(section, name, version), render);
  }

  /** Re-reading after `removeDependency`: a no-op when the section is not a map
      or lacks the entry; otherwise (names being distinct) exactly that entry is
      gone and the rest keep their order. */
  lemma RemoveDependencyReparse(root: seq<Pair>, section: Section, name: string, render: Render)
    ensures var m := ModelOf(MapRoot(root), render);
            var m' := ModelOf(MapRoot(ApplyEdit(root, RemoveDependency(section, name))), render);
            var deps := Lookup(root, section.Key());
            && (!IsMap(deps) || !Has(deps.value.items, name) ==> m' == m)
            && (IsMap(deps) && DistinctNames(deps.value.items) && Has(deps.value.items, name) ==>
                  && SectionDeps(m', section) == WithoutName(SectionDeps(m, section), name)
                  && forall i :: 0 <= i < |SectionDeps(m', section)| ==> SectionDeps(m', section)[i].name != name)
            && SectionDeps(m', OtherSection(section)) == SectionDeps(m, OtherSection(section))
            && m'.(dependencies := m.dependencies, devDependencies := m.devDependencies) == m
  {
    var key := section.Key();
    var deps := Lookup(root, key);
    if IsMap(deps) {
      var inner := Remove(deps.value.items, name);
      LookupUpsertSame(root, key, Mapping(inner));
      SectionDepsOf(root, section, render);
      SectionDepsOf(ApplyEdit(root, RemoveDependency(section, name)), section, render);
      if DistinctNames(deps.value.items) && Has(deps.value.items, name) {
        RemoveEntries(deps.value.items, name, render);
      }
    }
    DependencyEditModelOutside(root, RemoveDependency(section, name), render);
  }

  /** Re-reading after `setField` on a metadata key: a non-empty value is read
      back as the field, an empty one (names being distinct) leaves it undefined,
      and nothing else in the model changes. */
  lemma SetMetadataReparse(root: seq<Pair>, f: Field, value: string, render: Render)
    ensures var m := ModelOf(MapRoot(root), render);
            var m' := ModelOf(MapRoot(ApplyEdit(root, SetField(f.Key(), value))), render);
            && (value != "" ==> f.In(m') == Some(value))
            && (value == "" && DistinctNames(root) ==> f.In(m') == None)
            && (forall g: Field :: g != f ==> g.In(m') == g.In(m))
            && m'.environment == m.environment
            && m'.dependencies == m.dependencies
            && m'.devDependencies == m.devDependencies
  {
    FieldKeys(f, f);
    Strings.SplitWithoutSeparator(f.Key(), '.');
    SetFieldTopLevel(root, f.Key(), value);
    var root' := ApplyEdit(root, SetField(f.Key(), value));
    MetadataRead(root', f, render);
    MetadataOutside(root, root', f, render);
  }

  /** Changing one metadata key leaves the other fields, the environment and
      the dependencies as they were. */
  lemma MetadataOutside(root: seq<Pair>, root': seq<Pair>, f: Field, render: Render)
    requires forall k :: k != f.Key() ==> Lookup(root', k) == Lookup(root, k)
    ensures var m := ModelOf(MapRoot(root), render);
            var m' := ModelOf(MapRoot(root'), render);
            && (forall g: Field :: g != f ==> g.In(m') == g.In(m))
            && m'.environment == m.environment
            && m'.dependencies == m.dependencies
            && m'.devDependencies == m.devDependencies
  {
    forall g: Field | g != f
      ensures g.In(ModelOf(MapRoot(root'), render)) == g.In(ModelOf(MapRoot(root), render))
    {
      FieldKeys(f, g);
      KeyOutside(root, root', f.Key(), g.Key());
      SameString(root, root', g.Key(), render);
      match g
      case Name =>
      case Description =>
      case Version =>
      case Homepage =>
      case Repository =>
      case IssueTracker =>
      case PublishTo =>
    }
    FieldKeys(f, f);
    KeyOutside(root, root', f.Key(), "environment");
    KeyOutside(root, root', f.Key(), "dependencies");
    KeyOutside(root, root', f.Key(), "dev_dependencies");
    SameEnvironment(root, root', render);
    SameDeps(root, root', "dependencies", render);
    SameDeps(root, root', "dev_dependencies", render);
  }

  /** The environment record of a concatenation: the later pairs win. */
  lemma {:induction false} EnvironmentConcat(a: seq<Pair>, b: seq<Pair>, render: Render)
    ensures EnvironmentEntries(a + b, render) == EnvironmentEntries(a, render) + EnvironmentEntries(b, render)
    decreases |b|
  {
    if b == [] {
      assert a + b == a;
    } else {
      var bi := b[..|b| - 1];
      assert (a + b)[..|a + b| - 1] == a + bi;
      assert (a + b)[|a + b| - 1] == b[|b| - 1];
      EnvironmentConcat(a, bi, render);
    }
  }

  /** A name that no scalar key of `pairs` has is not in their record. */
  lemma EnvironmentMissing(pairs: seq<Pair>, render: Render, k: string)
    requires forall j :: 0 <= j < |pairs| && !pairs[j].key.Complex? ==> pairs[j].key.text != k
    ensures k !in EnvironmentEntries(pairs, render)
  {
    EnvironmentKeys(pairs, render, k);
  }

  lemma EnvironmentSplit(a: seq<Pair>, x: Pair, b: seq<Pair>, render: Render)
    ensures EnvironmentEntries(a + [x] + b, render)
         == EnvironmentEntries(a, render) + EnvironmentEntries([x], render) + EnvironmentEntries(b, render)
  {
    EnvironmentConcat(a + [x], b, render);
    EnvironmentConcat(a, [x], render);
  }

  lemma EnvironmentSingle(k: string, n: Node, render: Render)
    ensures EnvironmentEntries([Pair(Str(k), n)], render) == map[k := NodeString(n, render)]
  {
    assert [Pair(Str(k), n)][..0] == [];
  }

  /** With distinct names, the name found at `i` occurs nowhere before or after it. */
  lemma AroundFound(items: seq<Pair>, k: string, render: Render)
    requires DistinctNames(items) && Has(items, k)
    ensures var i := Find(items, k).value;
            && items == items[..i] + [items[i]] + items[i + 1..]
            && k !in EnvironmentEntries(items[..i], render)
            && k !in EnvironmentEntries(items[i + 1..], render)
  {
    var i := Find(items, k).value;
    var a, b := items[..i], items[i + 1..];
    assert items == a + [items[i]] + b;
    assert forall j :: 0 <= j < |a| ==> a[j] == items[j];
    assert forall j :: 0 <= j < |b| ==> b[j] == items[i + 1 + j];
    EnvironmentMissing(a, render, k);
    EnvironmentMissing(b, render, k);
  }

  lemma MapRemoveMiddle<K, V>(a: map<K, V>, k: K, v: V, b: map<K, V>)
    requires k !in a && k !in b
    ensures (a + map[k := v] + b) - {k} == a + b
  {
  }

  lemma MapUpdateMiddle<K, V>(a: map<K, V>, k: K, v: V, w: V, b: map<K, V>)
    requires k !in b
    ensures (a + map[k := v] + b)[k := w] == a + map[k := w] + b
  {
  }

  /** Upserting a scalar into a map with distinct names sets that name in its record. */
  lemma EnvironmentUpsert(items: seq<Pair>, k: string, value: string, render: Render)
    requires DistinctNames(items)
    ensures EnvironmentEntries(Upsert(items, k, Scalar(Some(value))), render) == EnvironmentEntries(items, render)[k := value]
  {
    var y := Pair(Str(k), Scalar(Some(value)));
    if Has(items, k) {
      var i := Find(items, k).value;
      var a, x, b := items[..i], items[i], items[i + 1..];
      AroundFound(items, k, render);
      assert x == Pair(Str(k), x.value);
      EnvironmentSplit(a, x, b, render);
      EnvironmentSingle(k, x.value, render);
      assert Upsert(items, k, Scalar(Some(value))) == a + [y] + b;
      EnvironmentSplit(a, y, b, render);
      EnvironmentSingle(k, y.value, render);
      MapUpdateMiddle(EnvironmentEntries(a, render), k, NodeString(x.value, render), value, EnvironmentEntries(b, render));
    } else {
      var inner := items + [y];
      assert Upsert(items, k, Scalar(Some(value))) == inner;
      assert inner[..|inner| - 1] == items;
    }
  }

  /** Removing a present name from a map with distinct names removes it from its record. */
  lemma EnvironmentRemove(items: seq<Pair>, k: string, render: Render)
    requires DistinctNames(items) && Has(items, k)
    ensures EnvironmentEntries(Remove(items, k), render) == EnvironmentEntries(items, render) - {k}
  {
    var i := Find(items, k).value;
    var a, x, b := items[..i], items[i], items[i + 1..];
    AroundFound(items, k, render);
    assert x == Pair(Str(k), x.value);
    EnvironmentSplit(a, x, b, render);
    EnvironmentSingle(k, x.value, render);
    assert Remove(items, k) == a + b;
    EnvironmentConcat(a, b, render);
    MapRemoveMiddle(EnvironmentEntries(a, render), k, NodeString(x.value, render), EnvironmentEntries(b, render));
  }

  /** The environment record after `setField` on the path `environment.<k>`. */
  lemma EnvironmentEdit(root: seq<Pair>, path: string, k: string, value: string, render: Render)
    requires Strings.Split(path, '.') == ["environment", k]
    requires IsMap(Lookup(root, "environment")) ==> DistinctNames(Lookup(root, "environment").value.items)
    ensures var env := EnvironmentOf(MapRoot(root), render);
            var env' := EnvironmentOf(MapRoot(ApplyEdit(root, SetField(path, value))), render);
            var node := Lookup(root, "environment");
            && (value != "" ==> env' == env[k := value])
            && (value == "" ==> env' == if IsMap(node) && Has(node.value.items, k) then env - {k} else env)
  {
    var node := Lookup(root, "environment");
    if !IsMap(node) {
      if value != "" {
        var inner := Upsert([], k, Scalar(Some(value)));
        LookupUpsertSame(root, "environment", Mapping(inner));
        EnvironmentUpsert([], k, value, render);
      }
    } else {
      var items := node.value.items;
      var inner := if value == "" then Remove(items, k) else Upsert(items, k, Scalar(Some(value)));
      LookupUpsertSame(root, "environment", Mapping(inner));
      if value == "" {
        if Has(items, k) {
          EnvironmentRemove(items, k, render);
        } else {
          RemoveAbsent(items, k);
        }
      } else {
        EnvironmentUpsert(items, k, value, render);
      }
    }
  }

  /** Re-reading after `setField("environment.<k>", value)` (the engine's
      two-segment path): a non-empty value sets `k` in the record, creating the
      environment map if needed; an empty one removes `k`; nothing else in the
      model changes. */
  lemma SetEnvironmentReparse(root: seq<Pair>, k: string, value: string, render: Render)
    requires '.' !in k
    requires IsMap(Lookup(root, "environment")) ==> DistinctNames(Lookup(root, "environment").value.items)
    ensures var m := ModelOf(MapRoot(root), render);
            var m' := ModelOf(MapRoot(ApplyEdit(root, SetField("environment." + k, value))), render);
            var env := Lookup(root, "environment");
            && (value != "" ==> m'.environment == m.environment[k := value])
            && (value == "" ==>
                  m'.environment == if IsMap(env) && Has(env.value.items, k) then m.environment - {k}
                                    else m.environment)
            && m'.name == m.name && m'.description == m.description && m'.version == m.version
            && m'.homepage == m.homepage && m'.repository == m.repository
            && m'.issueTracker == m.issueTracker && m'.publishTo == m.publishTo
            && m'.dependencies == m.dependencies && m'.devDependencies == m.devDependencies
  {
    var path := "environment." + k;
    assert path == "environment" + ['.'] + k;
    Strings.SplitAtSeparator("environment", k, '.');
    SetFieldNested(root, path, "environment", k, value);
    EnvironmentOutside(root, ApplyEdit(root, SetField(path, value)), render);
    EnvironmentEdit(root, path, k, value, render);
  }
}
