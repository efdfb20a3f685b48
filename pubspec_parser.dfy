/** The manifest reader and the edit engine of `PubspecParser`.

    Reading: `parse` turns the document's root map into a `PubspecModel`. The
    functions below are the specification of each reader; the methods are the
    loops of the source, proved equal to them.

    Writing: `applyEdits` runs the edits in order against a mutable copy of the
    tree. `ApplyEdit`/`ApplyAll` specify one edit and a whole list. */
module PubspecParser {
  import opened Wrappers
  import opened YamlTree
  import opened Models
  import Strings

  /** The document's root: null (an empty document) or a map. */
  datatype Document = NullRoot | MapRoot(items: seq<Pair>)

  /** What `String(node)` gives for a non-scalar node: the `yaml` library's own
      rendering, which is not part of this model. */
  type Render = Node -> string

  /** `String(node)`: a scalar node prints its value, so a null scalar prints "null". */
  function NodeString(n: Node, render: Render): string
  {
    match n
    case Scalar(None) => "null"
    case Scalar(Some(s)) => s
    case _ => render(n)
  }

  /** `String(map.get(key) ?? default)` for a key that is present: `get`
      unwraps a scalar, and a null value falls back to `default`. */
  function ValueString(n: Node, default: string, render: Render): string
  {
    match n
    case Scalar(None) => default
    case Scalar(Some(s)) => s
    case _ => render(n)
  }

  /** `getString(map, key)`: absent and null values give undefined. */
  function GetString(doc: Document, key: string, render: Render): Option<string>
  {
    match doc
    case NullRoot => None
    case MapRoot(items) =>
      match Lookup(items, key)
      case None => None
      case Some(Scalar(None)) => None
      case Some(n) => Some(ValueString(n, "", render))
  }

  /** The record built from the pairs of `environment`: every pair with a scalar
      key is copied, a later pair overwriting an earlier one of the same name. */
  function EnvironmentEntries(pairs: seq<Pair>, render: Render): map<string, string>
  {
    if pairs == [] then map[]
    else
      var m := EnvironmentEntries(pairs[..|pairs| - 1], render);
      var p := pairs[|pairs| - 1];
      if p.key.Complex? then m else m[p.key.text := NodeString(p.value, render)]
  }

  /** `getEnvironment(map)`: empty unless `environment` is a map. */
  function EnvironmentOf(doc: Document, render: Render): map<string, string>
  {
    match doc
    case NullRoot => map[]
    case MapRoot(items) =>
      var env := Lookup(items, "environment");
      if IsMap(env) then EnvironmentEntries(env.value.items, render) else map[]
  }

  /** The classification of a dependency declared as a map: git, then path,
      then sdk, then an explicit version, then a bare version "". */
  function ClassifyMap(name: string, dep: seq<Pair>, render: Render): PubspecDependency
  {
    var (source, version) :=
      if Has(dep, "git") then (Git, "git")
      else if Has(dep, "path") then (Path, ValueString(Lookup(dep, "path").value, "", render))
      else if Has(dep, "sdk") then (Sdk, ValueString(Lookup(dep, "sdk").value, "", render))
      else if Has(dep, "version") then (Hosted, ValueString(Lookup(dep, "version").value, "any", render))
      else (Hosted, "");
    PubspecDependency(name, version, source != Hosted, source)
  }

  /** The classification of one dependency entry by the kind of its value. */
  function Classify(name: string, value: Node, render: Render): PubspecDependency
  {
    match value
    case Scalar(v) => PubspecDependency(name, v.GetOr("any"), false, Hosted)
    case Mapping(dep) => ClassifyMap(name, dep, render)
    case Other => PubspecDependency(name, "any", false, Hosted)
  }

  /** The dependencies declared by `pairs`, in order; non-scalar keys are skipped. */
  function DependencyEntries(pairs: seq<Pair>, render: Render): seq<PubspecDependency>
  {
    if pairs == [] then []
    else
      var init := DependencyEntries(pairs[..|pairs| - 1], render);
      var p := pairs[|pairs| - 1];
      if p.key.Complex? then init else init + [Classify(p.key.text, p.value, render)]
  }

  /** `getDependencies(map, section)`: empty unless the section is a map. */
  function DependenciesOf(doc: Document, section: string, render: Render): seq<PubspecDependency>
  {
    match doc
    case NullRoot => []
    case MapRoot(items) =>
      var deps := Lookup(items, section);
      if IsMap(deps) then DependencyEntries(deps.value.items, render) else []
  }

  /** `parse(text)`, on the document `text` parses to. */
  function ModelOf(doc: Document, render: Render): PubspecModel
  {
    PubspecModel(
      GetString(doc, "name", render),
      GetString(doc, "description", render),
      GetString(doc, "version", render),
      GetString(doc, "homepage", render),
      GetString(doc, "repository", render),
      GetString(doc, "issue_tracker", render),
      GetString(doc, "publish_to", render),
      EnvironmentOf(doc, render),
      DependenciesOf(doc, "dependencies", render),
      DependenciesOf(doc, "dev_dependencies", render))
  }

  /** The loop of `getEnvironment`. */
  method GetEnvironment(doc: Document, render: Render) returns (result: map<string, string>)
    ensures result == EnvironmentOf(doc, render)
  {
    result := map[];
    if doc.NullRoot? {
      return;
    }
    var env := Lookup(doc.items, "environment");
    if !IsMap(env) {
      return;
    }
    var pairs := env.value.items;
    for i := 0 to |pairs|
      invariant result == EnvironmentEntries(pairs[..i], render)
    {
      var pair := pairs[i];
      if !pair.key.Complex? {
        result := result[pair.key.text := NodeString(pair.value, render)];
      }
      assert pairs[..i + 1][..i] == pairs[..i];
    }
    assert pairs[..|pairs|] == pairs;
  }

  /** The loop of `getDependencies`. */
  method GetDependencies(doc: Document, section: string, render: Render)
    returns (result: seq<PubspecDependency>)
    ensures result == DependenciesOf(doc, section, render)
  {
    result := [];
    if doc.NullRoot? {
      return;
    }
    var deps := Lookup(doc.items, section);
    if !IsMap(deps) {
      return;
    }
    var pairs := deps.value.items;
    for i := 0 to |pairs|
      invariant result == DependencyEntries(pairs[..i], render)
    {
      var pair := pairs[i];
      if !pair.key.Complex? {
        result := result + [Classify(pair.key.text, pair.value, render)];
      }
      assert pairs[..i + 1][..i] == pairs[..i];
    }
    assert pairs[..|pairs|] == pairs;
  }

  /** `parse`. */
  method Parse(doc: Document, render: Render) returns (model: PubspecModel)
    ensures model == ModelOf(doc, render)
  {
    var environment := GetEnvironment(doc, render);
    var dependencies := GetDependencies(doc, "dependencies", render);
    var devDependencies := GetDependencies(doc, "dev_dependencies", render);
    model := PubspecModel(
      GetString(doc, "name", render),
      GetString(doc, "description", render),
      GetString(doc, "version", render),
      GetString(doc, "homepage", render),
      GetString(doc, "repository", render),
      GetString(doc, "issue_tracker", render),
      GetString(doc, "publish_to", render),
      environment, dependencies, devDependencies);
  }

  /** The effect of one edit on the root map. */
  function ApplyEdit(root: seq<Pair>, edit: PubspecEdit): seq<Pair>
  {
    match edit
    case SetField(path, value) =>
      var parts := Strings.Split(path, '.');
      if |parts| == 2 then
        var parent := Lookup(root, parts[0]);
        if !IsMap(parent) then
          if value == "" then root
          else Upsert(root, parts[0], Mapping(Upsert([], parts[1], Scalar(Some(value)))))
        else if value == "" then Upsert(root, parts[0], Mapping(Remove(parent.value.items, parts[1])))
        else Upsert(root, parts[0], Mapping(Upsert(parent.value.items, parts[1], Scalar(Some(value)))))
      else if value == "" then Remove(root, path)
      else Upsert(root, path, Scalar(Some(value)))
    case SetDependencyVersion(section, name, version) =>
      var deps := Lookup(root, section.Key());
      if IsMap(deps) then Upsert(root, section.Key(), Mapping(Upsert(deps.value.items, name, Scalar(Some(version)))))
      else root
    case AddDependency(section, name, version) =>
      var deps := Lookup(root, section.Key());
      var base := if IsMap(deps) then deps.value.items else [];
      Upsert(root, section.Key(), Mapping(Upsert(base, name, Scalar(Some(version)))))
    case RemoveDependency(section, name) =>
      var deps := Lookup(root, section.Key());
      if IsMap(deps) then Upsert(root, section.Key(), Mapping(Remove(deps.value.items, name)))
      else root
  }

  /** The edits applied one after another, in list order. */
  function ApplyAll(root: seq<Pair>, edits: seq<PubspecEdit>): seq<Pair>
  {
    if edits == [] then root
    else ApplyEdit(ApplyAll(root, edits[..|edits| - 1]), edits[|edits| - 1])
  }

  /** Upserting a key twice keeps only the second value. */
  lemma UpsertTwice(items: seq<Pair>, name: string, first: Node, second: Node)
    ensures Upsert(Upsert(items, name, first), name, second) == Upsert(items, name, second)
  {
    LookupUpsertSame(items, name, first);
    match Find(items, name)
    case Some(i) =>
      var once := Upsert(items, name, first);
      assert once[i].key == items[i].key;
      FindAt(once, name, i);
    case None =>
      var once := Upsert(items, name, first);
      FindAt(once, name, |items|);
  }

  /** `applyEdits`, on the document `originalText` parses to: the loop over the
      edits against one mutable document, returning the edited root map. */
  method ApplyEdits(original: seq<Pair>, edits: seq<PubspecEdit>) returns (result: seq<Pair>)
    ensures result == ApplyAll(original, edits)
  {
    var doc := new YamlDocument(original);
    for i := 0 to |edits|
      invariant doc.items == ApplyAll(original, edits[..i])
    {
      assert edits[..i + 1][..i] == edits[..i];
      ghost var before := doc.items;
      match edits[i]
      case SetField(path, value) =>
        var parts := Strings.Split(path, '.');
        if |parts| == 2 {
          var parent := doc.Get(parts[0]);
          if !IsMap(parent) {
            if value != "" {
              doc.Set(parts[0], Mapping([]));
              LookupUpsertSame(before, parts[0], Mapping([]));
              doc.SetIn(parts[0], parts[1], Scalar(Some(value)));
              UpsertTwice(before, parts[0], Mapping([]),
                          Mapping(Upsert([], parts[1], Scalar(Some(value)))));
            }
          } else if value == "" {
            doc.DeleteIn(parts[0], parts[1]);
          } else {
            doc.SetIn(parts[0], parts[1], Scalar(Some(value)));
          }
        } else if value == "" {
          doc.Delete(path);
        } else {
          doc.Set(path, Scalar(Some(value)));
        }
      case SetDependencyVersion(section, name, version) =>
        var deps := doc.Get(section.Key());
        if IsMap(deps) {
          doc.SetIn(section.Key(), name, Scalar(Some(version)));
        }
      case AddDependency(section, name, version) =>
        var deps := doc.Get(section.Key());
        if !IsMap(deps) {
          doc.Set(section.Key(), Mapping([]));
          LookupUpsertSame(before, section.Key(), Mapping([]));
          doc.SetIn(section.Key(), name, Scalar(Some(version)));
          UpsertTwice(before, section.Key(), Mapping([]),
                      Mapping(Upsert([], name, Scalar(Some(version)))));
        } else {
          doc.SetIn(section.Key(), name, Scalar(Some(version)));
        }
      case RemoveDependency(section, name) =>
        var deps := doc.Get(section.Key());
        if IsMap(deps) {
          doc.DeleteIn(section.Key(), name);
        }
    }
    assert edits[..|edits|] == edits;
    result := doc.items;
  }
}
