/** The editor provider's staleness and update logic: the record of version
    information `fetchOutdatedInfo` builds, the list of edits `updateAllPackages`
    applies, and the one-edit lists of `updatePackage`, `addPackage` and
    `removePackage`. The registry is a parameter: the map of what it reported
    for each package name. */
module EditorProvider {
  import opened Wrappers
  import opened YamlTree
  import opened Models
  import opened PubspecParser
  import opened Versions
  import opened ReparseProperties
  import Seqs

  /** What the registry client reports for one package. */
  datatype PackageInfo = PackageInfo(latestVersion: string, description: string)

  predicate NotComplex(d: PubspecDependency)
  {
    !d.isComplex
  }

  /** `allDeps`: the plain dependencies, then the plain dev dependencies. */
  function HostedDeps(m: PubspecModel): seq<PubspecDependency>
  {
    Seqs.Filter(m.dependencies, NotComplex) + Seqs.Filter(m.devDependencies, NotComplex)
  }

  /** The registry gave a real latest version for `name`. */
  predicate Known(infos: map<string, PackageInfo>, name: string)
  {
    name in infos && infos[name].latestVersion != "unknown"
  }

  // ---------------------------------------------------------------------
  // fetchOutdatedInfo
  // ---------------------------------------------------------------------

  /** The entry written for one dependency. */
  function RecordOf(dep: PubspecDependency, infos: map<string, PackageInfo>): VersionInfo
  {
    if !Known(infos, dep.name) then VersionInfo(dep.version, "unknown", "", Unknown)
    else
      var info := infos[dep.name];
      VersionInfo(dep.version, info.latestVersion, info.description,
                  Compare(CleanVersion(dep.version), info.latestVersion))
  }

  /** The record after the loop has run over `deps`, a later entry of a name
      overwriting an earlier one. */
  function Records(deps: seq<PubspecDependency>, infos: map<string, PackageInfo>): map<string, VersionInfo>
  {
    if deps == [] then map[]
    else
      var last := deps[|deps| - 1];
      Records(deps[..|deps| - 1], infos)[last.name := RecordOf(last, infos)]
  }

  /** `fetchOutdatedInfo` on the parsed model: nothing is posted (`None`) when
      there is no plain dependency; otherwise the record built by the loop. */
  method FetchOutdatedInfo(model: PubspecModel, infos: map<string, PackageInfo>)
    returns (result: Option<map<string, VersionInfo>>)
    ensures result.None? <==> HostedDeps(model) == []
    ensures result.Some? ==> result.value == Records(HostedDeps(model), infos)
  {
    var allDeps := Seqs.Filter(model.dependencies, NotComplex) + Seqs.Filter(model.devDependencies, NotComplex);
    if |allDeps| == 0 {
      return None;
    }
    var versionInfo: map<string, VersionInfo> := map[];
    for i := 0 to |allDeps|
      invariant versionInfo == Records(allDeps[..i], infos)
    {
      var dep := allDeps[i];
      var entry: VersionInfo;
      if dep.name !in infos || infos[dep.name].latestVersion == "unknown" {
        entry := VersionInfo(dep.version, "unknown", "", Unknown);
      } else {
        var info := infos[dep.name];
        var currentClean := CleanVersion(dep.version);
        entry := VersionInfo(dep.version, info.latestVersion, info.description,
                             Compare(currentClean, info.latestVersion));
      }
      assert entry == RecordOf(dep, infos);
      versionInfo := versionInfo[dep.name := entry];
      assert allDeps[..i + 1][..i] == allDeps[..i];
    }
    assert allDeps[..|allDeps|] == allDeps;
    return Some(versionInfo);
  }

  /** The plain dependencies of either section, and nothing else, take part. */
  lemma HostedDepsMembers(m: PubspecModel, d: PubspecDependency)
    ensures d in HostedDeps(m) <==> (d in m.dependencies || d in m.devDependencies) && !d.isComplex
  {
    Seqs.FilterMembers(m.dependencies, NotComplex, d);
    Seqs.FilterMembers(m.devDependencies, NotComplex, d);
  }

  /** One entry: `current` is always the raw constraint; without a real latest
      version the entry is `unknown` with an empty description; with one it
      carries the registry's data and the comparison of the cleaned constraint. */
  lemma RecordOfEntry(dep: PubspecDependency, infos: map<string, PackageInfo>)
    ensures RecordOf(dep, infos).current == dep.version
    ensures RecordOf(dep, infos).latest == "unknown" <==> !Known(infos, dep.name)
    ensures !Known(infos, dep.name) ==> RecordOf(dep, infos).status == Unknown && RecordOf(dep, infos).description == ""
    ensures Known(infos, dep.name) ==>
              && RecordOf(dep, infos).latest == infos[dep.name].latestVersion
              && RecordOf(dep, infos).description == infos[dep.name].description
              && RecordOf(dep, infos).status == Compare(CleanVersion(dep.version), infos[dep.name].latestVersion)
  {
  }

  /** An entry is up to date exactly when the registry knows the package and the
      cleaned constraint and the latest version agree on three numeric components. */
  lemma RecordUpToDate(dep: PubspecDependency, infos: map<string, PackageInfo>)
    ensures RecordOf(dep, infos).status == UpToDate <==>
              && Known(infos, dep.name)
              && var clean, latest := CleanVersion(dep.version), infos[dep.name].latestVersion;
                 Numeric3(clean) && Numeric3(latest) && Triple(clean) == Triple(latest)
  {
    if Known(infos, dep.name) {
      CompareUpToDate(CleanVersion(dep.version), infos[dep.name].latestVersion);
    }
  }

  /** The record has an entry for exactly the names of `deps`. */
  lemma {:induction false} RecordsKeys(deps: seq<PubspecDependency>, infos: map<string, PackageInfo>, name: string)
    ensures name in Records(deps, infos) <==> exists i :: 0 <= i < |deps| && deps[i].name == name
  {
    if deps != [] {
      var init := deps[..|deps| - 1];
      RecordsKeys(init, infos, name);
      if exists i :: 0 <= i < |init| && init[i].name == name {
        var i :| 0 <= i < |init| && init[i].name == name;
        assert deps[i].name == name;
      }
      if exists i :: 0 <= i < |deps| && deps[i].name == name {
        var i :| 0 <= i < |deps| && deps[i].name == name;
        if i < |init| {
          assert init[i].name == name;
        }
      }
    }
  }

  /** A name's entry comes from its last dependency in `deps`. */
  lemma {:induction false} RecordsLastWins(deps: seq<PubspecDependency>, infos: map<string, PackageInfo>, i: int)
    requires 0 <= i < |deps|
    requires forall j :: i < j < |deps| ==> deps[j].name != deps[i].name
    ensures deps[i].name in Records(deps, infos)
    ensures Records(deps, infos)[deps[i].name] == RecordOf(deps[i], infos)
  {
    var init := deps[..|deps| - 1];
    if i < |deps| - 1 {
      assert forall j :: i < j < |init| ==> init[j] == deps[j];
      RecordsLastWins(init, infos, i);
      assert init[i] == deps[i];
    }
  }

  /** So the record of a model has an entry for exactly the names of its plain
      dependencies of either section. */
  lemma RecordsOfModel(m: PubspecModel, infos: map<string, PackageInfo>, name: string)
    ensures name in Records(HostedDeps(m), infos) <==>
              exists d :: d in HostedDeps(m) && d.name == name
  {
    var deps := HostedDeps(m);
    RecordsKeys(deps, infos, name);
    if exists d :: d in deps && d.name == name {
      var d :| d in deps && d.name == name;
      var i :| 0 <= i < |deps| && deps[i] == d;
      assert deps[i].name == name;
    }
  }

  // ---------------------------------------------------------------------
  // updateAllPackages
  // ---------------------------------------------------------------------

  /** `allHosted`: the plain dependencies tagged `dependencies`, then the plain
      dev dependencies tagged `dev_dependencies`. */
  function HostedTagged(m: PubspecModel): seq<TaggedDep>
  {
    TagAll(Seqs.Filter(m.dependencies, NotComplex), Dependencies)
    + TagAll(Seqs.Filter(m.devDependencies, NotComplex), DevDependencies)
  }

  /** The registry knows a latest version and the cleaned constraint is not up to date with it. */
  predicate NeedsUpdate(t: TaggedDep, infos: map<string, PackageInfo>)
  {
    Known(infos, t.dep.name) && Compare(CleanVersion(t.dep.version), infos[t.dep.name].latestVersion) != UpToDate
  }

  /** The edit pushed for such a dependency: its section, its name, `^` + latest. */
  function UpdateEdit(t: TaggedDep, infos: map<string, PackageInfo>): PubspecEdit
    requires t.dep.name in infos
  {
    SetDependencyVersion(t.section, t.dep.name, "^" + infos[t.dep.name].latestVersion)
  }

  /** The edits the loop has pushed after running over `ts`. */
  function Plan(ts: seq<TaggedDep>, infos: map<string, PackageInfo>): seq<PubspecEdit>
  {
    Seqs.FilterMap(ts, Needs(infos), Update(infos))
  }

  function Needs(infos: map<string, PackageInfo>): TaggedDep -> bool
  {
    (t: TaggedDep) => NeedsUpdate(t, infos)
  }

  function Update(infos: map<string, PackageInfo>): TaggedDep --> PubspecEdit
  {
    (t: TaggedDep) requires t.dep.name in infos => UpdateEdit(t, infos)
  }

  /** The loop of `updateAllPackages` that builds `edits`. */
  method UpdatePlan(model: PubspecModel, infos: map<string, PackageInfo>) returns (edits: seq<PubspecEdit>)
    ensures edits == Plan(HostedTagged(model), infos)
  {
    var allHosted := TagAll(Seqs.Filter(model.dependencies, NotComplex), Dependencies)
                     + TagAll(Seqs.Filter(model.devDependencies, NotComplex), DevDependencies);
    edits := [];
    for i := 0 to |allHosted|
      invariant edits == Plan(allHosted[..i], infos)
    {
      var dep := allHosted[i];
      assert allHosted[..i + 1][..i] == allHosted[..i];
      assert Plan(allHosted[..i + 1], infos)
          == if NeedsUpdate(dep, infos) then Plan(allHosted[..i], infos) + [UpdateEdit(dep, infos)]
             else Plan(allHosted[..i], infos);
      if dep.dep.name in infos && infos[dep.dep.name].latestVersion != "unknown" {
        var currentClean := CleanVersion(dep.dep.version);
        if Compare(currentClean, infos[dep.dep.name].latestVersion) != UpToDate {
          edits := edits + [SetDependencyVersion(dep.section, dep.dep.name, "^" + infos[dep.dep.name].latestVersion)];
        }
      }
    }
    assert allHosted[..|allHosted|] == allHosted;
  }

  /** The plan of a concatenation is the concatenation of the plans: the edits
      keep the order of their dependencies. */
  lemma PlanConcat(a: seq<TaggedDep>, b: seq<TaggedDep>, infos: map<string, PackageInfo>)
    ensures Plan(a + b, infos) == Plan(a, infos) + Plan(b, infos)
  {
    Seqs.FilterMapConcat(a, b, Needs(infos), Update(infos));
  }

  /** An edit is in the plan exactly when it is the update of a dependency that needs one. */
  lemma PlanMembers(ts: seq<TaggedDep>, infos: map<string, PackageInfo>, e: PubspecEdit)
    ensures e in Plan(ts, infos) <==>
              exists i :: 0 <= i < |ts| && NeedsUpdate(ts[i], infos) && e == UpdateEdit(ts[i], infos)
  {
    Seqs.FilterMapMembers(ts, Needs(infos), Update(infos), e);
    if e in Plan(ts, infos) {
      var i :| 0 <= i < |ts| && Needs(infos)(ts[i]) && e == Update(infos)(ts[i]);
      assert NeedsUpdate(ts[i], infos) && e == UpdateEdit(ts[i], infos);
    }
    if exists i :: 0 <= i < |ts| && NeedsUpdate(ts[i], infos) && e == UpdateEdit(ts[i], infos) {
      var i :| 0 <= i < |ts| && NeedsUpdate(ts[i], infos) && e == UpdateEdit(ts[i], infos);
      assert Needs(infos)(ts[i]) && e == Update(infos)(ts[i]);
    }
  }

  /** Every planned edit sets a dependency version to `^` followed by a latest
      version the registry reported, and the plan is no longer than its input. */
  lemma PlanEdits(ts: seq<TaggedDep>, infos: map<string, PackageInfo>)
    ensures |Plan(ts, infos)| <= |ts|
    ensures forall e :: e in Plan(ts, infos) ==>
              && e.SetDependencyVersion?
              && e.name in infos
              && e.version == "^" + infos[e.name].latestVersion
              && infos[e.name].latestVersion != "unknown"
  {
    forall e | e in Plan(ts, infos)
      ensures e.SetDependencyVersion? && e.name in infos && e.version == "^" + infos[e.name].latestVersion
      ensures infos[e.name].latestVersion != "unknown"
    {
      PlanMembers(ts, infos, e);
    }
  }

  /** The plan is empty exactly when no dependency needs an update, which is
      when `updateAllPackages` applies nothing. */
  lemma PlanEmpty(ts: seq<TaggedDep>, infos: map<string, PackageInfo>)
    ensures Plan(ts, infos) == [] <==> forall i :: 0 <= i < |ts| ==> !NeedsUpdate(ts[i], infos)
  {
    Seqs.FilterMapEmpty(ts, Needs(infos), Update(infos));
    assert forall i :: 0 <= i < |ts| ==> Needs(infos)(ts[i]) == NeedsUpdate(ts[i], infos);
  }

  /** All edits of one section's tagged list target that section. */
  lemma PlanSection(deps: seq<PubspecDependency>, section: Section, infos: map<string, PackageInfo>)
    ensures forall e :: e in Plan(TagAll(deps, section), infos) ==> e.SetDependencyVersion? && e.section == section
  {
    forall e | e in Plan(TagAll(deps, section), infos)
      ensures e.SetDependencyVersion? && e.section == section
    {
      PlanMembers(TagAll(deps, section), infos, e);
    }
  }

  /** The plan of a model: the dependencies' edits, all on `dependencies`,
      before the dev dependencies' edits, all on `dev_dependencies`. */
  lemma PlanOfModel(m: PubspecModel, infos: map<string, PackageInfo>)
    ensures var first := Plan(TagAll(Seqs.Filter(m.dependencies, NotComplex), Dependencies), infos);
            var second := Plan(TagAll(Seqs.Filter(m.devDependencies, NotComplex), DevDependencies), infos);
            && Plan(HostedTagged(m), infos) == first + second
            && (forall e :: e in first ==> e.SetDependencyVersion? && e.section == Dependencies)
            && (forall e :: e in second ==> e.SetDependencyVersion? && e.section == DevDependencies)
  {
    PlanConcat(TagAll(Seqs.Filter(m.dependencies, NotComplex), Dependencies),
               TagAll(Seqs.Filter(m.devDependencies, NotComplex), DevDependencies), infos);
    PlanSection(Seqs.Filter(m.dependencies, NotComplex), Dependencies, infos);
    PlanSection(Seqs.Filter(m.devDependencies, NotComplex), DevDependencies, infos);
  }

  /** The plan agrees with the record: a dependency is updated exactly when its
      entry has a real latest version and is not up to date. */
  lemma NeedsUpdateRecord(t: TaggedDep, infos: map<string, PackageInfo>)
    ensures NeedsUpdate(t, infos) <==>
              RecordOf(t.dep, infos).latest != "unknown" && RecordOf(t.dep, infos).status != UpToDate
  {
  }

  /** Applying a list of dependency edits changes only the two dependency lists
      of the re-parsed model. */
  lemma {:induction false} DependencyEditsKeepRest(root: seq<Pair>, edits: seq<PubspecEdit>, render: Render)
    requires forall e :: e in edits ==> !e.SetField?
    ensures var m := ModelOf(MapRoot(root), render);
            var m' := ModelOf(MapRoot(ApplyAll(root, edits)), render);
            m'.(dependencies := m.dependencies, devDependencies := m.devDependencies) == m
    decreases |edits|
  {
    if edits != [] {
      var init := edits[..|edits| - 1];
      assert forall e :: e in init ==> e in edits;
      DependencyEditsKeepRest(root, init, render);
      DependencyEditModelOutside(ApplyAll(root, init), edits[|edits| - 1], render);
    }
  }

  /** So running the plan leaves the metadata and the environment alone. */
  lemma PlanKeepsRest(root: seq<Pair>, infos: map<string, PackageInfo>, render: Render)
    ensures var m := ModelOf(MapRoot(root), render);
            var m' := ModelOf(MapRoot(ApplyAll(root, Plan(HostedTagged(m), infos))), render);
            m'.(dependencies := m.dependencies, devDependencies := m.devDependencies) == m
  {
    var m := ModelOf(MapRoot(root), render);
    PlanEdits(HostedTagged(m), infos);
    DependencyEditsKeepRest(root, Plan(HostedTagged(m), infos), render);
  }

  // ---------------------------------------------------------------------
  // updatePackage, addPackage, removePackage
  // ---------------------------------------------------------------------

  /** The edit list of `updatePackage`. */
  function UpdatePackageEdits(section: Section, name: string, latest: string): seq<PubspecEdit>
  {
    [SetDependencyVersion(section, name, "^" + latest)]
  }

  /** The edit list of `addPackage`. */
  function AddPackageEdits(section: Section, name: string, version: string): seq<PubspecEdit>
  {
    [AddDependency(section, name, "^" + version)]
  }

  /** The edit list of `removePackage`. */
  function RemovePackageEdits(section: Section, name: string): seq<PubspecEdit>
  {
    [RemoveDependency(section, name)]
  }

  /** After `updatePackage` on an existing section the re-parsed section holds
      `name` as a plain hosted dependency at `^latest`, every other entry as
      before; nothing else of the model changes. */
  lemma UpdatePackageReparse(root: seq<Pair>, section: Section, name: string, latest: string, render: Render)
    ensures var m := ModelOf(MapRoot(root), render);
            var m' := ModelOf(MapRoot(ApplyAll(root, UpdatePackageEdits(section, name, latest))), render);
            && (IsMap(Lookup(root, section.Key())) ==>
                  && PubspecDependency(name, "^" + latest, false, Hosted) in SectionDeps(m', section)
                  && WithoutName(SectionDeps(m', section), name) == WithoutName(SectionDeps(m, section), name))
            && (!IsMap(Lookup(root, section.Key())) ==> m' == m)
            && SectionDeps(m', OtherSection(section)) == SectionDeps(m, OtherSection(section))
            && m'.(dependencies := m.dependencies, devDependencies := m.devDependencies) == m
    // in a map, a present entry is replaced where it stands; an absent one comes last
    ensures var m := ModelOf(MapRoot(root), render);
            var m' := ModelOf(MapRoot(ApplyAll(root, UpdatePackageEdits(section, name, latest))), render);
            var deps := Lookup(root, section.Key());
            var entry := PubspecDependency(name, "^" + latest, false, Hosted);
            IsMap(deps) ==>
              if Has(deps.value.items, name)
              then ReplacedInPlace(SectionDeps(m, section), SectionDeps(m', section), entry)
              else SectionDeps(m', section) == SectionDeps(m, section) + [entry]
  {
    assert ApplyAll(root, UpdatePackageEdits(section, name, latest))
        == ApplyEdit(root, SetDependencyVersion(section, name, "^" + latest));
    SetDependencyVersionReparse(root, section, name, "^" + latest, render);
  }

  /** After `addPackage` the re-parsed section holds `name` as a plain hosted
      dependency at `^version`, whatever it held before. */
  lemma AddPackageReparse(root: seq<Pair>, section: Section, name: string, version: string, render: Render)
    ensures var m := ModelOf(MapRoot(root), render);
            var m' := ModelOf(MapRoot(ApplyAll(root, AddPackageEdits(section, name, version))), render);
            && PubspecDependency(name, "^" + version, false, Hosted) in SectionDeps(m', section)
            && WithoutName(SectionDeps(m', section), name) == WithoutName(SectionDeps(m, section), name)
            && SectionDeps(m', OtherSection(section)) == SectionDeps(m, OtherSection(section))
            && m'.(dependencies := m.dependencies, devDependencies := m.devDependencies) == m
    // a present entry is replaced where it stands; otherwise the entry comes last
    ensures var m := ModelOf(MapRoot(root), render);
            var m' := ModelOf(MapRoot(ApplyAll(root, AddPackageEdits(section, name, version))), render);
            var deps := Lookup(root, section.Key());
            var entry := PubspecDependency(name, "^" + version, false, Hosted);
            if IsMap(deps) && Has(deps.value.items, name)
            then ReplacedInPlace(SectionDeps(m, section), SectionDeps(m', section), entry)
            else SectionDeps(m', section) == SectionDeps(m, section) + [entry]
  {
    assert ApplyAll(root, AddPackageEdits(section, name, version))
        == ApplyEdit(root, AddDependency(section, name, "^" + version));
    AddDependencyReparse(root, section, name, "^" + version, render);
  }

  /** After `removePackage` the re-parsed section no longer lists `name`, and
      removing a name the section lacks changes nothing. */
  lemma RemovePackageReparse(root: seq<Pair>, section: Section, name: string, render: Render)
    ensures var m := ModelOf(MapRoot(root), render);
            var m' := ModelOf(MapRoot(ApplyAll(root, RemovePackageEdits(section, name))), render);
            var deps := Lookup(root, section.Key());
            && (!IsMap(deps) || !Has(deps.value.items, name) ==> m' == m)
            && (IsMap(deps) && DistinctNames(deps.value.items) && Has(deps.value.items, name) ==>
                  && SectionDeps(m', section) == WithoutName(SectionDeps(m, section), name)
                  && forall i :: 0 <= i < |SectionDeps(m', section)| ==> SectionDeps(m', section)[i].name != name)
            && SectionDeps(m', OtherSection(section)) == SectionDeps(m, OtherSection(section))
            && m'.(dependencies := m.dependencies, devDependencies := m.devDependencies) == m
  {
    assert ApplyAll(root, RemovePackageEdits(section, name)) == ApplyEdit(root, RemoveDependency(section, name));
    RemoveDependencyReparse(root, section, name, render);
  }

  /** Removing the first of two dependencies and then adding a third leaves the
      section holding the second, untouched, followed by the new one at `^version`. */
  lemma RemoveThenAdd(root: seq<Pair>, a: string, b: string, c: string, va: Node, vb: Node, version: string,
                      render: Render)
    requires a != b && c != a && c != b
    requires Lookup(root, "dependencies") == Some(Mapping([Pair(Str(a), va), Pair(Str(b), vb)]))
    ensures var after := ApplyAll(root, RemovePackageEdits(Dependencies, a) + AddPackageEdits(Dependencies, c, version));
            && Lookup(after, "dependencies") == Some(Mapping([Pair(Str(b), vb), Pair(Str(c), Scalar(Some("^" + version)))]))
            && ModelOf(MapRoot(after), render).dependencies
               == [Classify(b, vb, render), PubspecDependency(c, "^" + version, false, Hosted)]
  {
    var once := ApplyEdit(root, RemoveDependency(Dependencies, a));
    RemoveFirst(root, a, b, va, vb);
    var after := ApplyEdit(once, AddDependency(Dependencies, c, "^" + version));
    AddAfter(once, b, c, vb, "^" + version);
    assert RemovePackageEdits(Dependencies, a) + AddPackageEdits(Dependencies, c, version)
        == [RemoveDependency(Dependencies, a), AddDependency(Dependencies, c, "^" + version)];
    ApplyTwo(root, RemoveDependency(Dependencies, a), AddDependency(Dependencies, c, "^" + version));
    EntriesOfTwo(b, vb, c, Scalar(Some("^" + version)), render);
  }

  lemma ApplyTwo(root: seq<Pair>, first: PubspecEdit, second: PubspecEdit)
    ensures ApplyAll(root, [first, second]) == ApplyEdit(ApplyEdit(root, first), second)
  {
    assert [first, second][..1] == [first];
    assert [first][..0] == [];
    assert ApplyAll(root, [first]) == ApplyEdit(ApplyAll(root, []), first);
  }

  lemma EntriesOfTwo(b: string, vb: Node, c: string, vc: Node, render: Render)
    ensures DependencyEntries([Pair(Str(b), vb), Pair(Str(c), vc)], render) == [Classify(b, vb, render), Classify(c, vc, render)]
  {
    var one := [Pair(Str(b), vb)];
    assert [Pair(Str(b), vb), Pair(Str(c), vc)][..1] == one;
    assert one[..0] == [];
    assert DependencyEntries(one, render) == DependencyEntries([], render) + [Classify(b, vb, render)];
  }

  lemma RemoveFirst(root: seq<Pair>, a: string, b: string, va: Node, vb: Node)
    requires a != b
    requires Lookup(root, "dependencies") == Some(Mapping([Pair(Str(a), va), Pair(Str(b), vb)]))
    ensures Lookup(ApplyEdit(root, RemoveDependency(Dependencies, a)), "dependencies")
            == Some(Mapping([Pair(Str(b), vb)]))
  {
    var items := [Pair(Str(a), va), Pair(Str(b), vb)];
    assert Find(items, a) == Some(0);
    assert Remove(items, a) == [Pair(Str(b), vb)];
    LookupUpsertSame(root, "dependencies", Mapping([Pair(Str(b), vb)]));
  }

  lemma AddAfter(root: seq<Pair>, b: string, c: string, vb: Node, version: string)
    requires c != b
    requires Lookup(root, "dependencies") == Some(Mapping([Pair(Str(b), vb)]))
    ensures Lookup(ApplyEdit(root, AddDependency(Dependencies, c, version)), "dependencies")
            == Some(Mapping([Pair(Str(b), vb), Pair(Str(c), Scalar(Some(version)))]))
  {
    var rest := [Pair(Str(b), vb)];
    assert Find(rest, c) == None;
    var added := [Pair(Str(b), vb), Pair(Str(c), Scalar(Some(version)))];
    assert Upsert(rest, c, Scalar(Some(version))) == added;
    LookupUpsertSame(root, "dependencies", Mapping(added));
  }

  /** The same with `b` a path dependency: it is still reported as complex. */
  lemma RemoveThenAddPath(root: seq<Pair>, a: string, b: string, c: string, va: Node, path: string, version: string,
                          render: Render)
    requires a != b && c != a && c != b
    requires Lookup(root, "dependencies")
             == Some(Mapping([Pair(Str(a), va), Pair(Str(b), Mapping([Pair(Str("path"), Scalar(Some(path)))]))]))
    ensures ModelOf(MapRoot(ApplyAll(root, RemovePackageEdits(Dependencies, a) + AddPackageEdits(Dependencies, c, version))),
                    render).dependencies
            == [PubspecDependency(b, path, true, Path), PubspecDependency(c, "^" + version, false, Hosted)]
  {
    var dep := [Pair(Str("path"), Scalar(Some(path)))];
    RemoveThenAdd(root, a, b, c, va, Mapping(dep), version, render);
    assert Find(dep, "git") == None;
    assert Find(dep, "path") == Some(0);
  }
}
