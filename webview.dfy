/** The pure logic of the editor's web view: the dependency list it shows for a
    filter tab and a search text, the badge counting the packages with an update,
    the "already added" mark of a search result, and the escaping of attribute
    values. The view's module-level state (the current model, the version
    information, the active filter and the search text) is passed in. */
module Webview {
  import opened Wrappers
  import opened Models
  import Seqs
  import Strings

  /** The filter tabs: `all`, `deps`, `dev`, `outdated`. */
  datatype Filter = All | Deps | Dev | Outdated

  /** Both lists, dependencies first, each entry tagged with its section. */
  function AllTagged(m: PubspecModel): seq<TaggedDep>
  {
    TagAll(m.dependencies, Dependencies) + TagAll(m.devDependencies, DevDependencies)
  }

  /** The version information of `name` says an update is available. */
  predicate HasUpdate(info: map<string, VersionInfo>, name: string)
  {
    name in info && (info[name].status == OutdatedMinor || info[name].status == OutdatedMajor)
  }

  /** The lower-cased name contains the lower-cased search text. */
  predicate Matches(t: TaggedDep, search: string)
  {
    Strings.Includes(Strings.ToLower(t.dep.name), Strings.ToLower(search))
  }

  /** The items the filter tab selects, before the search text is applied. */
  function TabItems(m: PubspecModel, filter: Filter, info: map<string, VersionInfo>): seq<TaggedDep>
  {
    var deps := TagAll(m.dependencies, Dependencies);
    var devDeps := TagAll(m.devDependencies, DevDependencies);
    match filter
    case All => deps + devDeps
    case Deps => deps
    case Dev => devDeps
    case Outdated => Seqs.Filter(deps + devDeps, (t: TaggedDep) => HasUpdate(info, t.dep.name))
  }

  /** `getFilteredDeps()`: nothing without a model; otherwise the tab's items,
      narrowed by a non-empty search text. */
  function FilteredDeps(model: Option<PubspecModel>, filter: Filter, search: string,
                        info: map<string, VersionInfo>): seq<TaggedDep>
  {
    match model
    case None => []
    case Some(m) =>
      var items := TabItems(m, filter, info);
      if search == "" then items else Seqs.Filter(items, (t: TaggedDep) => Matches(t, search))
  }

  /** With no search text, `all` shows the dependencies then the dev
      dependencies, each in declaration order and tagged with its own section. */
  lemma FilteredAll(m: PubspecModel, info: map<string, VersionInfo>)
    ensures var r := FilteredDeps(Some(m), All, "", info);
            var n := |m.dependencies|;
            && |r| == n + |m.devDependencies|
            && (forall i :: 0 <= i < n ==> r[i] == TaggedDep(m.dependencies[i], Dependencies))
            && (forall i :: n <= i < |r| ==> r[i] == TaggedDep(m.devDependencies[i - n], DevDependencies))
  {
  }

  /** `deps` and `dev` each show exactly one list. */
  lemma FilteredOneSection(m: PubspecModel, info: map<string, VersionInfo>)
    ensures var r := FilteredDeps(Some(m), Deps, "", info);
            |r| == |m.dependencies| && forall i :: 0 <= i < |r| ==> r[i] == TaggedDep(m.dependencies[i], Dependencies)
    ensures var r := FilteredDeps(Some(m), Dev, "", info);
            |r| == |m.devDependencies| && forall i :: 0 <= i < |r| ==> r[i] == TaggedDep(m.devDependencies[i], DevDependencies)
  {
  }

  /** `outdated` keeps exactly the items whose information says an update is available. */
  lemma FilteredOutdated(m: PubspecModel, info: map<string, VersionInfo>, t: TaggedDep)
    ensures t in FilteredDeps(Some(m), Outdated, "", info) <==> t in AllTagged(m) && HasUpdate(info, t.dep.name)
  {
    Seqs.FilterMembers(AllTagged(m), (t: TaggedDep) => HasUpdate(info, t.dep.name), t);
  }

  /** A non-empty search text keeps exactly the tab's items whose name contains it,
      ignoring ASCII case. */
  lemma FilteredSearch(m: PubspecModel, filter: Filter, search: string, info: map<string, VersionInfo>, t: TaggedDep)
    requires search != ""
    ensures t in FilteredDeps(Some(m), filter, search, info) <==>
              t in FilteredDeps(Some(m), filter, "", info) && Matches(t, search)
  {
    Seqs.FilterMembers(TabItems(m, filter, info), (t: TaggedDep) => Matches(t, search), t);
  }

  /** Whatever the tab and the search text, the result is an order-preserving
      subsequence of the `all` list. */
  lemma FilteredSubsequence(m: PubspecModel, filter: Filter, search: string, info: map<string, VersionInfo>)
    ensures Seqs.IsSubsequence(FilteredDeps(Some(m), filter, search, info), AllTagged(m))
  {
    var deps, devDeps := TagAll(m.dependencies, Dependencies), TagAll(m.devDependencies, DevDependencies);
    var items := TabItems(m, filter, info);
    assert Seqs.IsSubsequence(items, AllTagged(m)) by {
      match filter
      case All =>
        Seqs.SubsequenceReflexive(items);
      case Deps =>
        Seqs.PrefixIsSubsequence(deps, devDeps);
      case Dev =>
        Seqs.SuffixIsSubsequence(deps, devDeps);
      case Outdated =>
        Seqs.FilterIsSubsequence(deps + devDeps, (t: TaggedDep) => HasUpdate(info, t.dep.name));
    }
    if search != "" {
      Seqs.FilterIsSubsequence(items, (t: TaggedDep) => Matches(t, search));
      Seqs.SubsequenceTransitive(FilteredDeps(Some(m), filter, search, info), items, AllTagged(m));
    }
  }

  /** The badge count of the `outdated` tab: the declared dependencies of either
      section whose information says an update is available. */
  function OutdatedCount(m: PubspecModel, info: map<string, VersionInfo>): nat
  {
    |Seqs.Filter(m.dependencies + m.devDependencies, (d: PubspecDependency) => HasUpdate(info, d.name))|
  }

  /** Filtering the tagged list is tagging the filtered list. */
  lemma {:induction false} FilterTagAll(xs: seq<PubspecDependency>, section: Section,
                                        p: PubspecDependency -> bool, q: TaggedDep -> bool)
    requires forall d :: q(TaggedDep(d, section)) == p(d)
    ensures Seqs.Filter(TagAll(xs, section), q) == TagAll(Seqs.Filter(xs, p), section)
  {
    if xs != [] {
      assert TagAll(xs, section)[1..] == TagAll(xs[1..], section);
      FilterTagAll(xs[1..], section, p, q);
      assert TagAll(xs, section)[0] == TaggedDep(xs[0], section);
    }
  }

  /** The count equals the length of the `outdated` tab with no search text. */
  lemma OutdatedCountMatchesTab(m: PubspecModel, info: map<string, VersionInfo>)
    ensures OutdatedCount(m, info) == |FilteredDeps(Some(m), Outdated, "", info)|
  {
    var p := (d: PubspecDependency) => HasUpdate(info, d.name);
    var q := (t: TaggedDep) => HasUpdate(info, t.dep.name);
    var deps, devDeps := TagAll(m.dependencies, Dependencies), TagAll(m.devDependencies, DevDependencies);
    Seqs.FilterConcat(deps, devDeps, q);
    Seqs.FilterConcat(m.dependencies, m.devDependencies, p);
    FilterTagAll(m.dependencies, Dependencies, p, q);
    FilterTagAll(m.devDependencies, DevDependencies, p, q);
  }

  /** `alreadyAdded`: a search result's name is declared in either section
      (false while there is no model). */
  predicate AlreadyAdded(model: Option<PubspecModel>, name: string)
  {
    match model
    case None => false
    case Some(m) =>
      Seqs.Some(m.dependencies, (d: PubspecDependency) => d.name == name)
      || Seqs.Some(m.devDependencies, (d: PubspecDependency) => d.name == name)
  }

  lemma AlreadyAddedIff(m: PubspecModel, name: string)
    ensures AlreadyAdded(Some(m), name) <==>
              exists d :: (d in m.dependencies || d in m.devDependencies) && d.name == name
  {
    var p := (d: PubspecDependency) => d.name == name;
    Seqs.SomeIsExists(m.dependencies, p);
    Seqs.SomeIsExists(m.devDependencies, p);
    if exists d :: (d in m.dependencies || d in m.devDependencies) && d.name == name {
      var d :| (d in m.dependencies || d in m.devDependencies) && d.name == name;
      if d in m.dependencies {
        var i :| 0 <= i < |m.dependencies| && m.dependencies[i] == d;
        assert p(m.dependencies[i]);
      } else {
        var i :| 0 <= i < |m.devDependencies| && m.devDependencies[i] == d;
        assert p(m.devDependencies[i]);
      }
    }
  }

  // ---------------------------------------------------------------------
  // escapeAttr
  // ---------------------------------------------------------------------

  /** `escapeAttr(text)`: five global replacements, `&` first. */
  function EscapeAttr(s: string): string
  {
    var amp := Strings.ReplaceAll(s, '&', "&amp;");
    var quot := Strings.ReplaceAll(amp, '"', "&quot;");
    var apos := Strings.ReplaceAll(quot, '\'', "&#39;");
    var lt := Strings.ReplaceAll(apos, '<', "&lt;");
    Strings.ReplaceAll(lt, '>', "&gt;")
  }

  /** What one character becomes. */
  function EscapeChar(c: char): string
  {
    if c == '&' then "&amp;"
    else if c == '"' then "&quot;"
    else if c == '\'' then "&#39;"
    else if c == '<' then "&lt;"
    else if c == '>' then "&gt;"
    else [c]
  }

  /** Each character escaped on its own, left to right. */
  function EscapeEach(s: string): string
  {
    if s == [] then [] else EscapeChar(s[0]) + EscapeEach(s[1..])
  }

  lemma EscapeAttrConcat(a: string, b: string)
    ensures EscapeAttr(a + b) == EscapeAttr(a) + EscapeAttr(b)
  {
    Strings.ReplaceAllConcat(a, b, '&', "&amp;");
    var a1, b1 := Strings.ReplaceAll(a, '&', "&amp;"), Strings.ReplaceAll(b, '&', "&amp;");
    Strings.ReplaceAllConcat(a1, b1, '"', "&quot;");
    var a2, b2 := Strings.ReplaceAll(a1, '"', "&quot;"), Strings.ReplaceAll(b1, '"', "&quot;");
    Strings.ReplaceAllConcat(a2, b2, '\'', "&#39;");
    var a3, b3 := Strings.ReplaceAll(a2, '\'', "&#39;"), Strings.ReplaceAll(b2, '\'', "&#39;");
    Strings.ReplaceAllConcat(a3, b3, '<', "&lt;");
    var a4, b4 := Strings.ReplaceAll(a3, '<', "&lt;"), Strings.ReplaceAll(b3, '<', "&lt;");
    Strings.ReplaceAllConcat(a4, b4, '>', "&gt;");
  }

  /** One replacement on a single character. */
  lemma ReplaceOne(c: char, x: char, rep: string)
    ensures Strings.ReplaceAll([c], x, rep) == if c == x then rep else [c]
  {
    assert [c][1..] == [];
    assert Strings.ReplaceAll([c], x, rep) == (if c == x then rep else [c]) + Strings.ReplaceAll([], x, rep);
  }

  /** The chain on a single character. */
  lemma EscapeAttrChar(c: char)
    ensures EscapeAttr([c]) == EscapeChar(c)
  {
    ReplaceOne(c, '&', "&amp;");
    if c == '&' {
      EntityUntouched("&amp;");
    } else {
      ReplaceOne(c, '"', "&quot;");
      if c == '"' {
        EntityUntouched("&quot;");
      } else {
        ReplaceOne(c, '\'', "&#39;");
        if c == '\'' {
          EntityUntouched("&#39;");
        } else {
          ReplaceOne(c, '<', "&lt;");
          if c == '<' {
            EntityUntouched("&lt;");
          } else {
            ReplaceOne(c, '>', "&gt;");
          }
        }
      }
    }
  }

  /** The later replacements do not touch an entity brought in earlier. */
  lemma EntityUntouched(e: string)
    requires '"' !in e && '\'' !in e && '<' !in e && '>' !in e
    ensures Strings.ReplaceAll(e, '"', "&quot;") == e
    ensures Strings.ReplaceAll(e, '\'', "&#39;") == e
    ensures Strings.ReplaceAll(e, '<', "&lt;") == e
    ensures Strings.ReplaceAll(e, '>', "&gt;") == e
  {
    Strings.ReplaceAllAbsent(e, '"', "&quot;");
    Strings.ReplaceAllAbsent(e, '\'', "&#39;");
    Strings.ReplaceAllAbsent(e, '<', "&lt;");
    Strings.ReplaceAllAbsent(e, '>', "&gt;");
  }

  /** Because `&` goes first, the chain is the same as escaping each character
      once: no entity is escaped again. */
  lemma {:induction false} EscapeAttrSinglePass(s: string)
    ensures EscapeAttr(s) == EscapeEach(s)
  {
    if s != [] {
      assert s == [s[0]] + s[1..];
      EscapeAttrConcat([s[0]], s[1..]);
      EscapeAttrChar(s[0]);
      EscapeAttrSinglePass(s[1..]);
    }
  }

  /** `t` starts with one of the five entities. */
  predicate StartsEntity(t: string)
  {
    Strings.IsPrefix("&amp;", t) || Strings.IsPrefix("&quot;", t) || Strings.IsPrefix("&#39;", t)
    || Strings.IsPrefix("&lt;", t) || Strings.IsPrefix("&gt;", t)
  }

  /** No escaped character is `"`, `'`, `<` or `>`; an `&` appears only at the
      head of an entity. */
  lemma EscapeCharSafe(c: char, rest: string)
    ensures var e := EscapeChar(c);
            && '"' !in e && '\'' !in e && '<' !in e && '>' !in e
            && (forall i :: 0 < i < |e| ==> e[i] != '&')
            && (e[0] == '&' ==> StartsEntity(e + rest))
  {
    var r := EscapeChar(c) + rest;
    assert r[..|EscapeChar(c)|] == EscapeChar(c);
  }

  /** The escaped text holds no `"`, `'`, `<` or `>`. */
  lemma {:induction false} EscapeEachNoSpecial(s: string)
    ensures var r := EscapeEach(s);
            '"' !in r && '\'' !in r && '<' !in r && '>' !in r
  {
    if s != [] {
      EscapeEachNoSpecial(s[1..]);
      EscapeCharSafe(s[0], EscapeEach(s[1..]));
    }
  }

  /** Every `&` of `r` begins an entity. */
  predicate AmpersandsEscaped(r: string)
  {
    forall i :: 0 <= i < |r| && r[i] == '&' ==> StartsEntity(r[i..])
  }

  lemma {:induction false} EscapeEachAmpersands(s: string)
    ensures AmpersandsEscaped(EscapeEach(s))
  {
    if s != [] {
      var e, rest := EscapeChar(s[0]), EscapeEach(s[1..]);
      EscapeEachAmpersands(s[1..]);
      EscapeCharSafe(s[0], rest);
      var r := e + rest;
      forall i | 0 <= i < |r| && r[i] == '&'
        ensures StartsEntity(r[i..])
      {
        if i >= |e| {
          var j := i - |e|;
          assert r[i..] == rest[j..];
          assert rest[j] == '&';
        } else {
          assert i == 0 && r[i..] == r;
          assert e[0] == r[0];
        }
      }
      assert EscapeEach(s) == r;
    }
  }

  lemma EscapeAttrSafe(s: string)
    ensures var r := EscapeAttr(s);
            && '"' !in r && '\'' !in r && '<' !in r && '>' !in r
            && AmpersandsEscaped(r)
  {
    EscapeAttrSinglePass(s);
    EscapeEachNoSpecial(s);
    EscapeEachAmpersands(s);
  }

  /** An HTML attribute reader's decoding of the five entities, left to right. */
  function Unescape(r: string): string
    decreases |r|
  {
    if r == [] then []
    else if Strings.IsPrefix("&amp;", r) then "&" + Unescape(r[5..])
    else if Strings.IsPrefix("&quot;", r) then "\"" + Unescape(r[6..])
    else if Strings.IsPrefix("&#39;", r) then "'" + Unescape(r[5..])
    else if Strings.IsPrefix("&lt;", r) then "<" + Unescape(r[4..])
    else if Strings.IsPrefix("&gt;", r) then ">" + Unescape(r[4..])
    else [r[0]] + Unescape(r[1..])
  }

  /** `p` is not a prefix of `r` once they differ at position `k`. */
  lemma NotPrefix(p: string, r: string, k: int)
    requires 0 <= k < |p| && k < |r| && p[k] != r[k]
    ensures !Strings.IsPrefix(p, r)
  {
    if |p| <= |r| {
      assert r[..|p|][k] == r[k];
    }
  }

  /** Decoding one escaped character gives it back. */
  lemma UnescapeChar(c: char, rest: string)
    ensures Unescape(EscapeChar(c) + rest) == [c] + Unescape(rest)
  {
    var e := EscapeChar(c);
    var r := e + rest;
    assert r[..|e|] == e && r[|e|..] == rest;
    if c == '"' {
      NotPrefix("&amp;", r, 1);
    } else if c == '\'' {
      NotPrefix("&amp;", r, 1);
      NotPrefix("&quot;", r, 1);
    } else if c == '<' {
      NotPrefix("&amp;", r, 1);
      NotPrefix("&quot;", r, 1);
      NotPrefix("&#39;", r, 1);
    } else if c == '>' {
      NotPrefix("&amp;", r, 1);
      NotPrefix("&quot;", r, 1);
      NotPrefix("&#39;", r, 1);
      NotPrefix("&lt;", r, 1);
    } else if c != '&' {
      NotPrefix("&amp;", r, 0);
      NotPrefix("&quot;", r, 0);
      NotPrefix("&#39;", r, 0);
      NotPrefix("&lt;", r, 0);
      NotPrefix("&gt;", r, 0);
      assert r[0] == c && r[1..] == rest;
    }
  }

  /** Escaping loses nothing: decoding the escaped text gives the text back. */
  lemma {:induction false} UnescapeEscapeAttr(s: string)
    ensures Unescape(EscapeAttr(s)) == s
  {
    EscapeAttrSinglePass(s);
    UnescapeEach(s);
  }

  lemma {:induction false} UnescapeEach(s: string)
    ensures Unescape(EscapeEach(s)) == s
  {
    if s != [] {
      UnescapeChar(s[0], EscapeEach(s[1..]));
      UnescapeEach(s[1..]);
    }
  }
}
