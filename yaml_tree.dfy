/** The abstract YAML tree the edit engine works on, standing for the `yaml`
    library's document: a node is a scalar (its string form, or null), an ordered
    map of key/node pairs, or anything else (a sequence, an alias, ...).

    A key is a string-valued scalar (`Str`), another scalar such as a number or a
    boolean (`NonStr`, carrying what `String(key.value)` gives), or a non-scalar
    node (`Complex`). The library's lookups by a string key match only `Str` keys,
    and take the first match. */
module YamlTree {
  import opened Wrappers
  import Seqs

  datatype Key = Str(text: string) | NonStr(text: string) | Complex

  datatype Node = Scalar(value: Option<string>) | Mapping(items: seq<Pair>) | Other

  datatype Pair = Pair(key: Key, value: Node)

  /** Position of the first pair whose key is the string `name`. */
  function Find(items: seq<Pair>, name: string): (r: Option<nat>)
    ensures r.Some? ==> r.value < |items| && items[r.value].key == Str(name)
    ensures r.Some? ==> forall j :: 0 <= j < r.value ==> items[j].key != Str(name)
    ensures r.None? ==> forall j :: 0 <= j < |items| ==> items[j].key != Str(name)
  {
    if items == [] then None
    else if items[0].key == Str(name) then Some(0)
    else match Find(items[1..], name)
      case None => None
      case Some(i) => Some(i + 1)
  }

  /** `map.has(name)`. */
  predicate Has(items: seq<Pair>, name: string)
  {
    Find(items, name).Some?
  }

  /** `map.get(name, true)`: the node stored under `name`, if any. */
  function Lookup(items: seq<Pair>, name: string): Option<Node>
  {
    match Find(items, name)
    case Some(i) => Some(items[i].value)
    case None => None
  }

  /** `map.set(name, value)`: an upsert. An existing pair keeps its place and its
      key and gets the new value; a missing key is appended at the end. */
  function Upsert(items: seq<Pair>, name: string, value: Node): seq<Pair>
  {
    match Find(items, name)
    case Some(i) => items[i := Pair(items[i].key, value)]
    case None => items + [Pair(Str(name), value)]
  }

  /** `map.delete(name)`: removes the first pair stored under `name`, if any. */
  function Remove(items: seq<Pair>, name: string): seq<Pair>
  {
    match Find(items, name)
    case Some(i) => items[..i] + items[i + 1..]
    case None => items
  }

  /** Is the node a map (`isMap`)? */
  predicate IsMap(n: Option<Node>)
  {
    n.Some? && n.value.Mapping?
  }

  /** No two scalar keys of the map have the same string form. */
  predicate DistinctNames(items: seq<Pair>)
  {
    forall i, j :: 0 <= i < j < |items| && !items[i].key.Complex? && !items[j].key.Complex? ==>
      items[i].key.text != items[j].key.text
  }

  /** The pairs not stored under the string key `name`, in order. */
  function Others(items: seq<Pair>, name: string): seq<Pair>
  {
    Seqs.Filter(items, (p: Pair) => p.key != Str(name))
  }

  /** After `set`, `name` holds the new value. */
  lemma LookupUpsertSame(items: seq<Pair>, name: string, value: Node)
    ensures Lookup(Upsert(items, name, value), name) == Some(value)
    ensures Has(Upsert(items, name, value), name)
  {
    var r := Upsert(items, name, value);
    match Find(items, name)
    case Some(i) =>
      assert r[i].key == Str(name);
      assert forall j :: 0 <= j < i ==> r[j] == items[j];
      assert Find(r, name) == Some(i);
    case None =>
      assert r[|items|].key == Str(name);
      assert forall j :: 0 <= j < |items| ==> r[j] == items[j];
      assert Find(r, name) == Some(|items|);
  }

  /** `set` leaves every other key's lookup as it was. */
  lemma LookupUpsertOther(items: seq<Pair>, name: string, value: Node, other: string)
    requires other != name
    ensures Lookup(Upsert(items, name, value), other) == Lookup(items, other)
  {
    var r := Upsert(items, name, value);
    assert forall j :: 0 <= j < |items| ==> r[j].key == items[j].key;
    assert forall j :: 0 <= j < |items| && items[j].key == Str(other) ==> r[j] == items[j];
    match Find(items, other)
    case Some(i) =>
      assert Find(r, other) == Some(i);
    case None =>
      assert forall j :: 0 <= j < |r| ==> r[j].key != Str(other);
  }

  /** Dropping a pair stored under `name` does not change `Others`. */
  lemma OthersSkip(a: seq<Pair>, x: Pair, b: seq<Pair>, name: string)
    requires x.key == Str(name)
    ensures Others(a + [x] + b, name) == Others(a + b, name)
  {
    var p := (q: Pair) => q.key != Str(name);
    assert [x][1..] == [];
    assert Seqs.Filter([x], p) == [];
    Seqs.FilterConcat(a + [x], b, p);
    Seqs.FilterConcat(a, [x], p);
    Seqs.FilterConcat(a, b, p);
  }

  /** `set` changes only the pair stored under `name` (or appends one). */
  lemma UpsertOthers(items: seq<Pair>, name: string, value: Node)
    ensures Others(Upsert(items, name, value), name) == Others(items, name)
    ensures |Upsert(items, name, value)| == if Has(items, name) then |items| else |items| + 1
  {
    match Find(items, name)
    case Some(i) =>
      var r := Upsert(items, name, value);
      assert items == items[..i] + [items[i]] + items[i + 1..];
      assert r == items[..i] + [r[i]] + items[i + 1..];
      OthersSkip(items[..i], items[i], items[i + 1..], name);
      OthersSkip(items[..i], r[i], items[i + 1..], name);
    case None =>
      assert items + [Pair(Str(name), value)] == items + [Pair(Str(name), value)] + [];
      assert items + [] == items;
      OthersSkip(items, Pair(Str(name), value), [], name);
  }

  /** Where `set` puts the pair: under a present key the pair keeps its index
      and its key and only its value changes; a new key's pair goes last. */
  lemma UpsertPlaces(items: seq<Pair>, name: string, value: Node)
    ensures Has(items, name) ==>
              var i, r := Find(items, name).value, Upsert(items, name, value);
              && |r| == |items| && r[i] == Pair(items[i].key, value)
              && forall j :: 0 <= j < |items| && j != i ==> r[j] == items[j]
    ensures !Has(items, name) ==> Upsert(items, name, value) == items + [Pair(Str(name), value)]
  {
  }

  /** `delete` of a missing key changes nothing. */
  lemma RemoveAbsent(items: seq<Pair>, name: string)
    requires !Has(items, name)
    ensures Remove(items, name) == items
  {
  }

  /** `delete` removes only the pair stored under `name`. */
  lemma RemoveOthers(items: seq<Pair>, name: string)
    ensures Others(Remove(items, name), name) == Others(items, name)
    ensures |Remove(items, name)| == if Has(items, name) then |items| - 1 else |items|
  {
    match Find(items, name)
    case Some(i) =>
      assert items == items[..i] + [items[i]] + items[i + 1..];
      OthersSkip(items[..i], items[i], items[i + 1..], name);
    case None =>
  }

  /** With distinct names, `delete` leaves nothing under `name`. */
  lemma LookupRemoveSame(items: seq<Pair>, name: string)
    requires DistinctNames(items)
    ensures !Has(Remove(items, name), name)
  {
    match Find(items, name)
    case Some(i) =>
      var r := Remove(items, name);
      forall j | 0 <= j < |r|
        ensures r[j].key != Str(name)
      {
        if j < i {
          assert r[j] == items[j];
        } else {
          assert r[j] == items[j + 1];
        }
      }
    case None =>
  }

  /** `Find` is determined by where the first matching key is. */
  lemma FindAt(items: seq<Pair>, name: string, k: nat)
    requires k < |items| && items[k].key == Str(name)
    requires forall j :: 0 <= j < k ==> items[j].key != Str(name)
    ensures Find(items, name) == Some(k)
  {
  }

  /** `delete` leaves every other key's lookup as it was. */
  lemma LookupRemoveOther(items: seq<Pair>, name: string, other: string)
    requires other != name
    ensures Lookup(Remove(items, name), other) == Lookup(items, other)
  {
    match Find(items, name)
    case Some(i) =>
      var r := Remove(items, name);
      SpliceIndex(items, i);
      match Find(items, other) {
        case Some(k) =>
          if k < i {
            FindAt(r, other, k);
          } else {
            FindAfterSplice(items, other, i, k);
          }
        case None =>
          assert forall j :: 0 <= j < |r| ==> r[j].key != Str(other);
      }
    case None =>
  }

  /** The pairs of `items` with the one at `i` spliced out, index by index. */
  lemma SpliceIndex(items: seq<Pair>, i: nat)
    requires i < |items|
    ensures var r := items[..i] + items[i + 1..];
            && |r| == |items| - 1
            && (forall j :: 0 <= j < i ==> r[j] == items[j])
            && (forall j :: i <= j < |r| ==> r[j] == items[j + 1])
  {
  }

  /** A first match behind the spliced-out pair moves one place forward. */
  lemma FindAfterSplice(items: seq<Pair>, other: string, i: nat, k: nat)
    requires i < k && Find(items, other) == Some(k)
    ensures Find(items[..i] + items[i + 1..], other) == Some(k - 1)
  {
    var r := items[..i] + items[i + 1..];
    SpliceIndex(items, i);
    assert r[k - 1] == items[k];
    forall j | 0 <= j < k - 1
      ensures r[j].key != Str(other)
    {
      if j >= i {
        assert r[j] == items[j + 1];
      } else {
        assert r[j] == items[j];
      }
    }
    FindAt(r, other, k - 1);
  }

  /** `set` and `delete` keep the names of a map distinct (for `set`, unless a
      non-string scalar key already has the string form `name`). */
  lemma UpsertKeepsDistinct(items: seq<Pair>, name: string, value: Node)
    requires DistinctNames(items)
    requires Has(items, name) || forall j :: 0 <= j < |items| ==> items[j].key != NonStr(name)
    ensures DistinctNames(Upsert(items, name, value))
  {
    match Find(items, name)
    case Some(i) =>
    case None =>
      var r := Upsert(items, name, value);
      forall i, j | 0 <= i < j < |r| && !r[i].key.Complex? && !r[j].key.Complex?
        ensures r[i].key.text != r[j].key.text
      {
        if j == |items| {
          assert r[i] == items[i];
          assert items[i].key != Str(name);
        }
      }
  }

  lemma RemoveKeepsDistinct(items: seq<Pair>, name: string)
    requires DistinctNames(items)
    ensures DistinctNames(Remove(items, name))
  {
    match Find(items, name)
    case Some(i) =>
      var r := Remove(items, name);
      assert forall j :: 0 <= j < |r| ==> r[j] == items[if j < i then j else j + 1];
    case None =>
  }

  /** The `yaml` document of one manifest, whose root is a map. Its methods are
      the library calls the edit engine makes. A nested map is reached through
      its key in the root, so `parent.set` and `parent.delete` on the map that
      `doc.get(parentKey)` returned are `SetIn` and `DeleteIn`. */
  class YamlDocument {
    var items: seq<Pair>

    constructor (root: seq<Pair>)
      ensures items == root
    {
      items := root;
    }

    /** `doc.get(key)`. */
    function Get(key: string): Option<Node>
      reads this
    {
      Lookup(items, key)
    }

    /** `doc.set(key, value)`. */
    method Set(key: string, value: Node)
      modifies this
      ensures items == Upsert(old(items), key, value)
    {
      items := Upsert(items, key, value);
    }

    /** `doc.delete(key)`. */
    method Delete(key: string)
      modifies this
      ensures items == Remove(old(items), key)
    {
      items := Remove(items, key);
    }

    /** `parent.set(key, value)` on the map stored under `parentKey`. */
    method SetIn(parentKey: string, key: string, value: Node)
      requires IsMap(Get(parentKey))
      modifies this
      ensures items == Upsert(old(items), parentKey,
                                    Mapping(Upsert(old(Get(parentKey)).value.items, key, value)))
    {
      var parent := Get(parentKey).value.items;
      items := Upsert(items, parentKey, Mapping(Upsert(parent, key, value)));
    }

    /** `parent.delete(key)` on the map stored under `parentKey`. */
    method DeleteIn(parentKey: string, key: string)
      requires IsMap(Get(parentKey))
      modifies this
      ensures items == Upsert(old(items), parentKey,
                                    Mapping(Remove(old(Get(parentKey)).value.items, key)))
    {
      var parent := Get(parentKey).value.items;
      items := Upsert(items, parentKey, Mapping(Remove(parent, key)));
    }
  }
}
