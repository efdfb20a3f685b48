/** What the reader promises about the model it builds. */
module ReadProperties {
  import opened Wrappers
  import opened YamlTree
  import opened Models
  import opened PubspecParser
  import Seqs

  /** The seven metadata fields of the model, with the top-level key each is read from. */
  datatype Field = Name | Description | Version | Homepage | Repository | IssueTracker | PublishTo {
    function Key(): string
    {
      match this
      case Name => "name"
      case Description => "description"
      case Version => "version"
      case Homepage => "homepage"
      case Repository => "repository"
      case IssueTracker => "issue_tracker"
      case PublishTo => "publish_to"
    }

    function In(m: PubspecModel): Option<string>
    {
      match this
      case Name => m.name
      case Description => m.description
      case Version => m.version
      case Homepage => m.homepage
      case Repository => m.repository
      case IssueTracker => m.issueTracker
      case PublishTo => m.publishTo
    }
  }

  /** The top-level keys the model is read from are pairwise distinct and contain no dot. */
  lemma FieldKeys(f: Field, g: Field)
    ensures f.Key() == g.Key() <==> f == g
    ensures f.Key() != "environment" && f.Key() != "dependencies" && f.Key() != "dev_dependencies"
    ensures '.' !in f.Key()
  {
  }

  /** A null root reads as a model with every field undefined and empty collections. */
  lemma NullRootModel(render: Render)
    ensures ModelOf(NullRoot, render) == PubspecModel(None, None, None, None, None, None, None, map[], [], [])
  {
  }

  /** A metadata field is undefined exactly when its key is absent or null; a
      scalar gives its own text and any other node its rendering. */
  lemma MetadataRead(items: seq<Pair>, f: Field, render: Render)
    ensures f.In(ModelOf(MapRoot(items), render)) == None <==>
              (!Has(items, f.Key()) || Lookup(items, f.Key()) == Some(Scalar(None)))
    ensures Lookup(items, f.Key()).Some? && Lookup(items, f.Key()).value.Scalar? &&
            Lookup(items, f.Key()).value.value.Some? ==>
              f.In(ModelOf(MapRoot(items), render)) == Lookup(items, f.Key()).value.value
    ensures Lookup(items, f.Key()).Some? && !Lookup(items, f.Key()).value.Scalar? ==>
              f.In(ModelOf(MapRoot(items), render)) == Some(render(Lookup(items, f.Key()).value))
  {
    match f
    case Name =>
    case Description =>
    case Version =>
    case Homepage =>
    case Repository =>
    case IssueTracker =>
    case PublishTo =>
  }

  /** An environment that is absent or not a map reads as the empty record. */
  lemma EnvironmentNotMap(items: seq<Pair>, render: Render)
    requires !IsMap(Lookup(items, "environment"))
    ensures EnvironmentOf(MapRoot(items), render) == map[]
  {
  }

  /** The record has exactly the names of the scalar-keyed pairs. */
  lemma {:induction false} EnvironmentKeys(pairs: seq<Pair>, render: Render, k: string)
    ensures k in EnvironmentEntries(pairs, render) <==>
            exists i :: 0 <= i < |pairs| && !pairs[i].key.Complex? && pairs[i].key.text == k
  {
    if pairs != [] {
      var init := pairs[..|pairs| - 1];
      EnvironmentKeys(init, render, k);
      assert forall i :: 0 <= i < |init| ==> init[i] == pairs[i];
    }
  }

  /** Each name maps to the stringified value of the last pair of that name. */
  lemma {:induction false} EnvironmentValue(pairs: seq<Pair>, render: Render, i: nat)
    requires i < |pairs| && !pairs[i].key.Complex?
    requires forall j :: i < j < |pairs| && !pairs[j].key.Complex? ==> pairs[j].key.text != pairs[i].key.text
    ensures pairs[i].key.text in EnvironmentEntries(pairs, render)
    ensures EnvironmentEntries(pairs, render)[pairs[i].key.text] == NodeString(pairs[i].value, render)
  {
    if i < |pairs| - 1 {
      var init := pairs[..|pairs| - 1];
      assert init[i] == pairs[i];
      EnvironmentValue(init, render, i);
    }
  }

  /** The classification of one entry, case by case, and `isComplex` always
      agreeing with `source`. */
  lemma ClassifySpec(name: string, value: Node, render: Render)
    ensures Classify(name, value, render).name == name
    ensures Classify(name, value, render).isComplex <==> Classify(name, value, render).source != Hosted
    ensures value.Scalar? ==>
              Classify(name, value, render) == PubspecDependency(name, value.value.GetOr("any"), false, Hosted)
    ensures value.Other? ==> Classify(name, value, render) == PubspecDependency(name, "any", false, Hosted)
    ensures value.Mapping? ==>
              var dep := value.items;
              var d := Classify(name, value, render);
              && (d.source == Git <==> Has(dep, "git"))
              && (d.source == Git ==> d.version == "git")
              && (d.source == Path <==> !Has(dep, "git") && Has(dep, "path"))
              && (d.source == Path ==> d.version == ValueString(Lookup(dep, "path").value, "", render))
              && (d.source == Sdk <==> !Has(dep, "git") && !Has(dep, "path") && Has(dep, "sdk"))
              && (d.source == Sdk ==> d.version == ValueString(Lookup(dep, "sdk").value, "", render))
              && (d.source == Hosted ==>
                    d.version == if Has(dep, "version") then ValueString(Lookup(dep, "version").value, "any", render)
                                 else "")
  {
  }

  /** The entries of a concatenation are the entries of each part. */
  lemma {:induction false} EntriesConcat(a: seq<Pair>, b: seq<Pair>, render: Render)
    ensures DependencyEntries(a + b, render) == DependencyEntries(a, render) + DependencyEntries(b, render)
    decreases |b|
  {
    if b == [] {
      assert a + b == a;
    } else {
      var bi := b[..|b| - 1];
      assert (a + b)[..|a + b| - 1] == a + bi;
      assert (a + b)[|a + b| - 1] == b[|b| - 1];
      EntriesConcat(a, bi, render);
    }
  }

  /** One entry per scalar-keyed pair, in declaration order. */
  lemma {:induction false} EntriesInOrder(pairs: seq<Pair>, render: Render)
    ensures var kept := Seqs.Filter(pairs, (p: Pair) => !p.key.Complex?);
            && |DependencyEntries(pairs, render)| == |kept|
            && forall i :: 0 <= i < |kept| ==>
                 DependencyEntries(pairs, render)[i] == Classify(kept[i].key.text, kept[i].value, render)
  {
    var scalar := (p: Pair) => !p.key.Complex?;
    if pairs != [] {
      var init := pairs[..|pairs| - 1];
      var last := pairs[|pairs| - 1];
      EntriesInOrder(init, render);
      assert pairs == init + [last];
      Seqs.FilterConcat(init, [last], scalar);
      assert [last][1..] == [];
    }
  }

  /** Every entry is named after the key of some scalar-keyed pair. */
  lemma {:induction false} EntryNames(pairs: seq<Pair>, render: Render, k: nat)
    requires k < |DependencyEntries(pairs, render)|
    ensures exists j :: 0 <= j < |pairs| && !pairs[j].key.Complex? &&
                        pairs[j].key.text == DependencyEntries(pairs, render)[k].name
  {
    var init := pairs[..|pairs| - 1];
    var entries := DependencyEntries(pairs, render);
    if k < |DependencyEntries(init, render)| {
      EntryNames(init, render, k);
      var j :| 0 <= j < |init| && !init[j].key.Complex? && init[j].key.text == DependencyEntries(init, render)[k].name;
      assert pairs[j] == init[j];
    } else {
      assert !pairs[|pairs| - 1].key.Complex?;
    }
  }

  /** With distinct key names, the entries of a section have distinct names,
      and `isComplex` agrees with `source` on every entry. */
  lemma {:induction false} EntriesWellFormed(pairs: seq<Pair>, render: Render)
    ensures forall i :: 0 <= i < |DependencyEntries(pairs, render)| ==>
              (DependencyEntries(pairs, render)[i].isComplex <==> DependencyEntries(pairs, render)[i].source != Hosted)
    ensures DistinctNames(pairs) ==>
              forall i, j :: 0 <= i < j < |DependencyEntries(pairs, render)| ==>
                DependencyEntries(pairs, render)[i].name != DependencyEntries(pairs, render)[j].name
  {
    if pairs != [] {
      var init := pairs[..|pairs| - 1];
      var last := pairs[|pairs| - 1];
      EntriesWellFormed(init, render);
      var entries := DependencyEntries(pairs, render);
      var before := DependencyEntries(init, render);
      if !last.key.Complex? {
        ClassifySpec(last.key.text, last.value, render);
      }
      if DistinctNames(pairs) {
        assert DistinctNames(init) by {
          assert forall i :: 0 <= i < |init| ==> init[i] == pairs[i];
        }
        if !last.key.Complex? {
          forall i | 0 <= i < |before|
            ensures before[i].name != last.key.text
          {
            EntryNames(init, render, i);
            var j :| 0 <= j < |init| && !init[j].key.Complex? && init[j].key.text == before[i].name;
            assert pairs[j] == init[j];
          }
        }
      }
    }
  }
}
