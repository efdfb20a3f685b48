/** The data types of the manifest model: what the reader produces, the
    staleness record the provider computes, and the closed set of edits. */
module Models {
  import opened Wrappers

  /** Where a dependency comes from. */
  datatype Source = Hosted | Git | Path | Sdk

  /** One entry of a dependency section. `isComplex` marks an entry declared as
      a nested map (git, path or sdk) rather than a plain version. */
  datatype PubspecDependency = PubspecDependency(
    name: string,
    version: string,
    isComplex: bool,
    source: Source)

  /** The logical snapshot of a manifest. The seven metadata fields are optional;
      the environment and both dependency lists are always present. */
  datatype PubspecModel = PubspecModel(
    name: Option<string>,
    description: Option<string>,
    version: Option<string>,
    homepage: Option<string>,
    repository: Option<string>,
    issueTracker: Option<string>,
    publishTo: Option<string>,
    environment: map<string, string>,
    dependencies: seq<PubspecDependency>,
    devDependencies: seq<PubspecDependency>)

  /** The staleness classification of a dependency. */
  datatype Status = UpToDate | OutdatedMinor | OutdatedMajor | Unknown

  datatype VersionInfo = VersionInfo(
    current: string,
    latest: string,
    description: string,
    status: Status)

  /** The two dependency sections an edit can target. */
  datatype Section = Dependencies | DevDependencies {
    /** The section's top-level key in the manifest. */
    function Key(): (k: string)
      ensures k == "dependencies" || k == "dev_dependencies"
      ensures k == "dependencies" <==> this == Dependencies
    {
      match this
      case Dependencies => "dependencies"
      case DevDependencies => "dev_dependencies"
    }
  }

  /** The four edit operations, applied in order by the edit engine. */
  datatype PubspecEdit =
    | SetField(path: string, value: string)
    | SetDependencyVersion(section: Section, name: string, version: string)
    | AddDependency(section: Section, name: string, version: string)
    | RemoveDependency(section: Section, name: string)

  /** A dependency paired with the section it was declared in. */
  datatype TaggedDep = TaggedDep(dep: PubspecDependency, section: Section)

  /** Each dependency of `deps` tagged with `section`. */
  function TagAll(deps: seq<PubspecDependency>, section: Section): (r: seq<TaggedDep>)
    ensures |r| == |deps|
    ensures forall i :: 0 <= i < |r| ==> r[i] == TaggedDep(deps[i], section)
  {
    seq(|deps|, i requires 0 <= i < |deps| => TaggedDep(deps[i], section))
  }
}
