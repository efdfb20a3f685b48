/** The version-staleness comparator of the editor provider: cleaning a
    dependency's constraint down to a bare version, JavaScript's `Number` on
    one dotted component, and `compareVersions`. */
module Versions {
  import opened Wrappers
  import opened Models
  import Seqs
  import Strings

  /** A character matched by `\s` in a JavaScript regular expression (the same
      set `Number` and `trim` skip). */
  predicate IsSpace(c: char)
  {
    || c == ' ' || c == '\t' || c == '\n' || c == '\U{0B}' || c == '\U{0C}' || c == '\r'
    || c == '\U{A0}' || c == '\U{1680}' || ('\U{2000}' <= c <= '\U{200A}')
    || c == '\U{2028}' || c == '\U{2029}' || c == '\U{202F}' || c == '\U{205F}'
    || c == '\U{3000}' || c == '\U{FEFF}'
  }

  /** A constraint operator character: `^ ~ > = <`. */
  predicate IsOperator(c: char)
  {
    c == '^' || c == '~' || c == '>' || c == '=' || c == '<'
  }

  // ---------------------------------------------------------------------
  // Cleaning a constraint
  // ---------------------------------------------------------------------

  /** A character the cleaning keeps. */
  predicate Kept(c: char)
  {
    !IsOperator(c) && !IsSpace(c)
  }

  /** `s.replace(/[\^~>=<\s]/g, '')`: every operator and every white-space
      character removed, the rest kept in order. */
  function Stripped(s: string): (r: string)
    ensures forall i :: 0 <= i < |r| ==> Kept(r[i])
    ensures Seqs.IsSubsequence(r, s)
  {
    Seqs.FilterIsSubsequence(s, Kept);
    Seqs.Filter(s, Kept)
  }

  /** The cleaning written at lines 151 and 236: strip, then keep what comes
      before the first space. */
  function CleanVersion(s: string): string
  {
    Strings.Split(Stripped(s), ' ')[0]
  }

  /** No space survives the stripping, so the split never cuts anything: the
      cleaned value is the whole stripped string, upper-bound clause included. */
  lemma CleanVersionKeepsAll(s: string)
    ensures CleanVersion(s) == Stripped(s)
    ensures forall i :: 0 <= i < |CleanVersion(s)| ==> !IsOperator(CleanVersion(s)[i]) && !IsSpace(CleanVersion(s)[i])
  {
    Strings.SplitWithoutSeparator(Stripped(s), ' ');
  }

  /** Cleaning a cleaned value changes nothing more. */
  lemma CleanVersionIdempotent(s: string)
    ensures CleanVersion(CleanVersion(s)) == CleanVersion(s)
  {
    CleanVersionKeepsAll(s);
    CleanVersionKeepsAll(Stripped(s));
    StrippedKeeps(Stripped(s));
  }

  lemma StrippedConcat(a: string, b: string)
    ensures Stripped(a + b) == Stripped(a) + Stripped(b)
  {
    Seqs.FilterConcat(a, b, Kept);
  }

  lemma StrippedKeeps(v: string)
    requires forall i :: 0 <= i < |v| ==> Kept(v[i])
    ensures Stripped(v) == v
  {
    Seqs.FilterKeepsAll(v, Kept);
  }

  /** A range `>=v <w` of two bare versions strips to `v` and `w` run together. */
  lemma StrippedRange(v: string, w: string)
    requires forall i :: 0 <= i < |v| ==> Kept(v[i])
    requires forall i :: 0 <= i < |w| ==> Kept(w[i])
    ensures Stripped(">=" + v + " <" + w) == v + w
  {
    assert ">=" + v + " <" + w == (">=" + v) + (" <" + w);
    StrippedConcat(">=" + v, " <" + w);
    StrippedConcat(">=", v);
    StrippedConcat(" <", w);
    StrippedKeeps(v);
    StrippedKeeps(w);
    assert Stripped(">=") == [] by {
      assert ">="[1..] == "=" && "="[1..] == [];
    }
    assert Stripped(" <") == [] by {
      assert " <"[1..] == "<" && "<"[1..] == [];
    }
  }

  /** So the cleaning keeps the upper bound of every such range. */
  lemma CleanVersionJoins(v: string, w: string)
    requires forall i :: 0 <= i < |v| ==> Kept(v[i])
    requires forall i :: 0 <= i < |w| ==> Kept(w[i])
    ensures CleanVersion(">=" + v + " <" + w) == v + w
  {
    CleanVersionKeepsAll(">=" + v + " <" + w);
    StrippedRange(v, w);
  }

  /** `>=1.0.0 <2.0.0` cleans to "1.0.02.0.0" ... */
  lemma CleanVersionOfRange()
    ensures CleanVersion(">=1.0.0 <2.0.0") == "1.0.02.0.0"
  {
    assert ">=1.0.0 <2.0.0" == ">=" + "1.0.0" + " <" + "2.0.0";
    CleanVersionJoins("1.0.0", "2.0.0");
    assert "1.0.0" + "2.0.0" == "1.0.02.0.0";
  }

  /** ... which compares as outdated against the range's own lower bound 1.0.0. */
  lemma CleanVersionJoinsRange()
    ensures CleanVersion(">=1.0.0 <2.0.0") == "1.0.02.0.0"
    ensures Compare(CleanVersion(">=1.0.0 <2.0.0"), "1.0.0") == OutdatedMinor
  {
    CleanVersionOfRange();
    CompareJoined();
  }

  /** The comparison half of the above. */
  lemma CompareJoined()
    ensures Compare("1.0.02.0.0", "1.0.0") == OutdatedMinor
  {
    assert "1.0.02.0.0" == "1.0.02" + ['.'] + "0.0";
    PartsJoined();
    PartsOneZeroZero();
    CompareTailTriples("1.0.02", "0.0", "1.0.0", 1, 0, 2, 1, 0, 0);
  }

  /** The leading white space of `s` dropped. */
  function TrimStart(s: string): (r: string)
    ensures |r| <= |s| && r == s[|s| - |r|..]
    ensures r == [] || !IsSpace(r[0])
  {
    if s != [] && IsSpace(s[0]) then TrimStart(s[1..]) else s
  }

  /** The trailing white space of `s` dropped. */
  function TrimEnd(s: string): string
  {
    if s != [] && IsSpace(s[|s| - 1]) then TrimEnd(s[..|s| - 1]) else s
  }

  /** `trimStart` drops exactly the leading white space. */
  lemma {:induction false} TrimStartDropsSpaces(s: string)
    ensures var r := TrimStart(s);
            && r == s[|s| - |r|..]
            && (r == [] || !IsSpace(r[0]))
            && forall i :: 0 <= i < |s| - |r| ==> IsSpace(s[i])
  {
    if s != [] && IsSpace(s[0]) {
      TrimStartDropsSpaces(s[1..]);
    }
  }

  /** `trimEnd` drops exactly the trailing white space. */
  lemma {:induction false} TrimEndDropsSpaces(s: string)
    ensures var r := TrimEnd(s);
            && |r| <= |s| && r == s[..|r|]
            && (r == [] || !IsSpace(r[|r| - 1]))
            && forall i :: |r| <= i < |s| ==> IsSpace(s[i])
  {
    if s != [] && IsSpace(s[|s| - 1]) {
      TrimEndDropsSpaces(s[..|s| - 1]);
      assert s[..|s| - 1][..|TrimEnd(s)|] == s[..|TrimEnd(s)|];
    }
  }

  // ---------------------------------------------------------------------
  // Number
  // ---------------------------------------------------------------------

  predicate IsDigit(c: char)
  {
    '0' <= c <= '9'
  }

  predicate AllDigits(s: string)
  {
    forall i :: 0 <= i < |s| ==> IsDigit(s[i])
  }

  /** The value of a string of decimal digits. */
  function DigitsValue(s: string): nat
    requires AllDigits(s)
  {
    if s == [] then 0 else 10 * DigitsValue(s[..|s| - 1]) + (s[|s| - 1] as int - '0' as int)
  }

  /** A run of decimal digits read as its value; anything else is NaN. */
  function Unsigned(t: string): Option<nat>
  {
    if AllDigits(t) then Some(DigitsValue(t)) else None
  }

  /** `Number(part)` on one dotted component, `None` standing for NaN: white
      space around it is ignored, an empty (or all-blank) component is 0, and
      a run of decimal digits is its value. */
  function NumberOf(part: string): Option<int>
  {
    var t := TrimEnd(TrimStart(part));
    if t == [] then Some(0) else Unsigned(t)
  }

  lemma NumberOfDigits(s: string)
    requires s != [] && AllDigits(s)
    ensures NumberOf(s) == Some(DigitsValue(s))
  {
    assert !IsSpace(s[0]) && !IsSpace(s[|s| - 1]);
  }

  /** The forms JavaScript reads as numbers here: an empty component and a run of digits. */
  lemma NumberOfExamples()
    ensures NumberOf("") == Some(0)
    ensures NumberOf("12") == Some(12)
  {
    DigitsTwo("12");
    NumberOfValue("12", 12);
  }

  /** A component holding anything but digits and blanks is NaN. */
  lemma NumberOfNaN(part: string, i: int)
    requires 0 <= i < |part| && !IsDigit(part[i]) && !IsSpace(part[i])
    ensures NumberOf(part) == None
  {
    TrimKeeps(part, i);
  }

  /** Trimming keeps every non-blank character, the one at `i` included. */
  lemma TrimKeeps(part: string, i: int)
    requires 0 <= i < |part| && !IsSpace(part[i])
    ensures part[i] in TrimEnd(TrimStart(part))
  {
    TrimStartKeeps(part, i);
    var s := TrimStart(part);
    TrimEndKeeps(s, i - (|part| - |s|));
  }

  lemma {:induction false} TrimStartKeeps(s: string, i: int)
    requires 0 <= i < |s| && !IsSpace(s[i])
    ensures |s| - |TrimStart(s)| <= i
  {
    if s != [] && IsSpace(s[0]) {
      TrimStartKeeps(s[1..], i - 1);
    }
  }

  lemma {:induction false} TrimEndKeeps(s: string, i: int)
    requires 0 <= i < |s| && !IsSpace(s[i])
    ensures s[i] in TrimEnd(s)
  {
    if s != [] && IsSpace(s[|s| - 1]) {
      TrimEndKeeps(s[..|s| - 1], i);
    }
  }

  /** Blanks around a component do not change its number. */
  lemma NumberOfPadded(t: string)
    requires t == [] || (!IsSpace(t[0]) && !IsSpace(t[|t| - 1]))
    ensures NumberOf([' '] + t + [' ']) == NumberOf(t)
  {
    assert [' '] + t + [' '] == [' '] + (t + [' ']);
    TrimStartBlank(t + [' ']);
    if t == [] {
      assert t + [' '] == [' '] + t;
      TrimStartBlank(t);
    } else {
      assert (t + [' '])[0] == t[0];
      TrimEndBlank(t);
    }
  }

  lemma TrimStartBlank(t: string)
    ensures TrimStart([' '] + t) == TrimStart(t)
  {
    assert ([' '] + t)[1..] == t;
  }

  lemma TrimEndBlank(t: string)
    ensures TrimEnd(t + [' ']) == TrimEnd(t)
  {
    assert (t + [' '])[..|t|] == t;
  }

  // ---------------------------------------------------------------------
  // compareVersions
  // ---------------------------------------------------------------------

  /** `parts.map(Number)`. */
  function Numbers(parts: seq<string>): (r: seq<Option<int>>)
    ensures |r| == |parts|
    ensures forall i :: 0 <= i < |r| ==> r[i] == NumberOf(parts[i])
  {
    seq(|parts|, i requires 0 <= i < |parts| => NumberOf(parts[i]))
  }

  lemma NumbersConcat(a: seq<string>, b: seq<string>)
    ensures Numbers(a + b) == Numbers(a) + Numbers(b)
  {
  }

  /** A version string's components after `split('.').map(Number)`. */
  function Parts(v: string): seq<Option<int>>
  {
    Numbers(Strings.Split(v, '.'))
  }

  /** `a === b` on two components: NaN equals nothing, not even NaN. */
  predicate Same(a: Option<int>, b: Option<int>)
  {
    a.Some? && b == a
  }

  /** `compareVersions(current, latest)`. */
  function Compare(current: string, latest: string): Status
  {
    if current == "" || latest == "" then Unknown
    else CompareParts(Parts(current), Parts(latest))
  }

  /** The comparison once both sides are split into `cParts` and `lParts`. */
  function CompareParts(c: seq<Option<int>>, l: seq<Option<int>>): Status
  {
    if |c| < 3 || |l| < 3 then Unknown
    else if c[0].None? || l[0].None? then Unknown
    else if Same(c[0], l[0]) && Same(c[1], l[1]) && Same(c[2], l[2]) then UpToDate
    else if c[0].value < l[0].value then OutdatedMajor
    else OutdatedMinor
  }

  /** Components the comparator can place: at least three, the first a number. */
  predicate Placed(p: seq<Option<int>>)
  {
    |p| >= 3 && p[0].Some?
  }

  /** At least three components, the first three all numbers. */
  predicate Numeric(p: seq<Option<int>>)
  {
    |p| >= 3 && p[0].Some? && p[1].Some? && p[2].Some?
  }

  /** major, minor and patch as numbers. */
  function TripleOf(p: seq<Option<int>>): (int, int, int)
    requires Numeric(p)
  {
    (p[0].value, p[1].value, p[2].value)
  }

  /** The comparison on components: `unknown` exactly when one side cannot be
      placed, `up-to-date` exactly when both have three numbers and they agree,
      `outdated-major` exactly when both are placed and the current major is smaller. */
  lemma ComparePartsCases(c: seq<Option<int>>, l: seq<Option<int>>)
    ensures CompareParts(c, l) == Unknown <==> !Placed(c) || !Placed(l)
    ensures CompareParts(c, l) == UpToDate <==> Numeric(c) && Numeric(l) && TripleOf(c) == TripleOf(l)
    ensures CompareParts(c, l) == OutdatedMajor <==> Placed(c) && Placed(l) && c[0].value < l[0].value
  {
  }

  /** A version the comparator can place. */
  predicate Comparable(v: string)
  {
    Placed(Parts(v))
  }

  function Major(v: string): int
    requires Comparable(v)
  {
    Parts(v)[0].value
  }

  /** A version whose first three components are numbers. */
  predicate Numeric3(v: string)
  {
    Numeric(Parts(v))
  }

  /** Its major, minor and patch. */
  function Triple(v: string): (int, int, int)
    requires Numeric3(v)
  {
    TripleOf(Parts(v))
  }

  /** The empty string splits into one component, so it needs no case of its own. */
  lemma EmptyParts(v: string)
    ensures v == "" ==> !Comparable(v) && !Numeric3(v)
  {
  }

  /** `unknown` exactly when one side cannot be placed. */
  lemma CompareUnknown(current: string, latest: string)
    ensures Compare(current, latest) == Unknown <==> !Comparable(current) || !Comparable(latest)
  {
    if current == "" || latest == "" {
      EmptyParts(current);
      EmptyParts(latest);
    } else {
      ComparePartsCases(Parts(current), Parts(latest));
    }
  }

  /** `up-to-date` exactly when both have three numeric components and they agree. */
  lemma CompareUpToDate(current: string, latest: string)
    ensures Compare(current, latest) == UpToDate <==>
            Numeric3(current) && Numeric3(latest) && Triple(current) == Triple(latest)
  {
    if current == "" || latest == "" {
      EmptyParts(current);
      EmptyParts(latest);
    } else {
      ComparePartsCases(Parts(current), Parts(latest));
    }
  }

  /** `outdated-major` exactly when both can be placed and the current major is smaller. */
  lemma CompareOutdatedMajor(current: string, latest: string)
    ensures Compare(current, latest) == OutdatedMajor <==>
            Comparable(current) && Comparable(latest) && Major(current) < Major(latest)
  {
    if current == "" || latest == "" {
      EmptyParts(current);
      EmptyParts(latest);
    } else {
      ComparePartsCases(Parts(current), Parts(latest));
    }
  }

  /** `outdated-minor` for everything else: placed, not a smaller major, and
      not the same three numbers (a newer current major lands here too). */
  lemma CompareOutdatedMinor(current: string, latest: string)
    ensures Compare(current, latest) == OutdatedMinor <==>
            && Comparable(current) && Comparable(latest) && Major(current) >= Major(latest)
            && !(Numeric3(current) && Numeric3(latest) && Triple(current) == Triple(latest))
  {
    CompareUpToDate(current, latest);
    CompareOutdatedMajor(current, latest);
    CompareUnknown(current, latest);
  }

  /** A version is up to date with itself exactly when its first three components are numbers. */
  lemma CompareReflexive(v: string)
    ensures Compare(v, v) == UpToDate <==> Numeric3(v)
  {
    CompareUpToDate(v, v);
  }

  /** Swapping the arguments keeps `unknown` and `up-to-date`, and turns
      `outdated-major` into `outdated-minor`. */
  lemma CompareSwap(a: string, b: string)
    ensures Compare(a, b) == Unknown <==> Compare(b, a) == Unknown
    ensures Compare(a, b) == UpToDate <==> Compare(b, a) == UpToDate
    ensures Compare(a, b) == OutdatedMajor ==> Compare(b, a) == OutdatedMinor
  {
    CompareUnknown(a, b);
    CompareUnknown(b, a);
    CompareUpToDate(a, b);
    CompareUpToDate(b, a);
    CompareOutdatedMajor(a, b);
    CompareOutdatedMinor(b, a);
  }

  /** Components after the third are ignored on either side. */
  lemma CompareIgnoresTail(current: string, latest: string, x: string)
    requires |Strings.Split(current, '.')| >= 3
    requires |Strings.Split(latest, '.')| >= 3
    ensures Compare(current + ['.'] + x, latest) == Compare(current, latest)
    ensures Compare(current, latest + ['.'] + x) == Compare(current, latest)
  {
    var c, l, t := Parts(current), Parts(latest), Parts(x);
    assert current != "" && latest != "";
    assert Compare(current + ['.'] + x, latest) == CompareParts(c + t, l) by {
      PartsTail(current, x);
      CompareByParts(current + ['.'] + x, latest, c + t, l);
    }
    assert Compare(current, latest + ['.'] + x) == CompareParts(c, l + t) by {
      PartsTail(latest, x);
      CompareByParts(current, latest + ['.'] + x, c, l + t);
    }
    CompareByParts(current, latest, c, l);
    ComparePartsTail(c, l, t);
  }

  /** Components after the third do not take part in the comparison. */
  lemma ComparePartsTail(c: seq<Option<int>>, l: seq<Option<int>>, t: seq<Option<int>>)
    requires |c| >= 3 && |l| >= 3
    ensures CompareParts(c + t, l) == CompareParts(c, l)
    ensures CompareParts(c, l + t) == CompareParts(c, l)
  {
    assert (c + t)[0] == c[0] && (c + t)[1] == c[1] && (c + t)[2] == c[2];
    assert (l + t)[0] == l[0] && (l + t)[1] == l[1] && (l + t)[2] == l[2];
  }

  /** A dotted tail adds its own components after the others. */
  lemma PartsTail(v: string, x: string)
    ensures Parts(v + ['.'] + x) == Parts(v) + Parts(x)
  {
    Strings.SplitConcat(v, x, '.');
    NumbersConcat(Strings.Split(v, '.'), Strings.Split(x, '.'));
  }

  /** `a.b.c` with no dot in any piece has exactly those three components. */
  lemma SplitThree(a: string, b: string, c: string)
    requires '.' !in a && '.' !in b && '.' !in c
    ensures Strings.Split(a + ['.'] + b + ['.'] + c, '.') == [a, b, c]
  {
    Strings.SplitConcat(a + ['.'] + b, c, '.');
    Strings.SplitAtSeparator(a, b, '.');
    Strings.SplitWithoutSeparator(c, '.');
  }

  /** `Compare` reads its arguments only through their components. */
  lemma CompareByParts(v: string, w: string, pv: seq<Option<int>>, pw: seq<Option<int>>)
    requires v != "" && w != "" && Parts(v) == pv && Parts(w) == pw
    ensures Compare(v, w) == CompareParts(pv, pw)
  {
  }

  /** Two versions of three known components compare by those numbers alone. */
  lemma CompareTriples(v: string, w: string, a: int, b: int, c: int, d: int, e: int, f: int)
    requires v != "" && w != ""
    requires Parts(v) == [Some(a), Some(b), Some(c)] && Parts(w) == [Some(d), Some(e), Some(f)]
    ensures Compare(v, w) == if a == d && b == e && c == f then UpToDate
                             else if a < d then OutdatedMajor
                             else OutdatedMinor
  {
  }

  /** The same with a dotted tail after the current version. */
  lemma CompareTailTriples(v: string, x: string, w: string, a: int, b: int, c: int, d: int, e: int, f: int)
    requires v != "" && w != ""
    requires Parts(v) == [Some(a), Some(b), Some(c)] && Parts(w) == [Some(d), Some(e), Some(f)]
    requires |Strings.Split(v, '.')| >= 3 && |Strings.Split(w, '.')| >= 3
    ensures Compare(v + ['.'] + x, w) == if a == d && b == e && c == f then UpToDate
                                         else if a < d then OutdatedMajor
                                         else OutdatedMinor
  {
    CompareIgnoresTail(v, w, x);
    CompareTriples(v, w, a, b, c, d, e, f);
  }

  /** The components of three dotted runs of digits are their values. */
  lemma PartsOfDigits(a: string, b: string, c: string)
    requires a != [] && AllDigits(a) && b != [] && AllDigits(b) && c != [] && AllDigits(c)
    ensures a + ['.'] + b + ['.'] + c != ""
    ensures Parts(a + ['.'] + b + ['.'] + c) == [Some(DigitsValue(a)), Some(DigitsValue(b)), Some(DigitsValue(c))]
  {
    var v := a + ['.'] + b + ['.'] + c;
    DigitsSplit(a, b, c);
    assert Parts(v) == Numbers([a, b, c]);
    NumbersThree([a, b, c]);
    NumberOfDigits(a);
    NumberOfDigits(b);
    NumberOfDigits(c);
  }

  lemma NumbersThree(parts: seq<string>)
    requires |parts| == 3
    ensures Numbers(parts) == [NumberOf(parts[0]), NumberOf(parts[1]), NumberOf(parts[2])]
  {
    ThreeElements(Numbers(parts), NumberOf(parts[0]), NumberOf(parts[1]), NumberOf(parts[2]));
  }

  lemma ThreeElements<T>(s: seq<T>, x: T, y: T, z: T)
    requires |s| == 3 && s[0] == x && s[1] == y && s[2] == z
    ensures s == [x, y, z]
  {
  }

  lemma DigitsSplit(a: string, b: string, c: string)
    requires AllDigits(a) && AllDigits(b) && AllDigits(c)
    ensures a + ['.'] + b + ['.'] + c != ""
    ensures Strings.Split(a + ['.'] + b + ['.'] + c, '.') == [a, b, c]
  {
    NoDot(a);
    NoDot(b);
    NoDot(c);
    SplitThree(a, b, c);
    assert |a + ['.'] + b + ['.'] + c| >= 2;
  }

  lemma NoDot(s: string)
    requires AllDigits(s)
    ensures '.' !in s
  {
  }

  lemma SingleDigit(d: char)
    requires IsDigit(d)
    ensures DigitsValue([d]) == d as int - '0' as int
  {
    assert [d][..0] == [];
  }

  lemma DigitsTwo(s: string)
    requires |s| == 2 && AllDigits(s)
    ensures DigitsValue(s) == 10 * (s[0] as int - '0' as int) + (s[1] as int - '0' as int)
  {
    assert s[..|s| - 1] == [s[0]];
    SingleDigit(s[0]);
  }

  lemma NumberOfValue(s: string, n: int)
    requires s != [] && AllDigits(s) && DigitsValue(s) == n
    ensures NumberOf(s) == Some(n)
  {
    NumberOfDigits(s);
  }

  /** `a.b.c` of three runs of digits with known values. */
  lemma DigitsParts(v: string, a: string, b: string, c: string, x: int, y: int, z: int)
    requires v == a + ['.'] + b + ['.'] + c
    requires a != [] && AllDigits(a) && b != [] && AllDigits(b) && c != [] && AllDigits(c)
    requires DigitsValue(a) == x && DigitsValue(b) == y && DigitsValue(c) == z
    ensures v != "" && |Strings.Split(v, '.')| == 3
    ensures Parts(v) == [Some(x), Some(y), Some(z)]
  {
    PartsOfDigits(a, b, c);
    DigitsSplit(a, b, c);
  }

  lemma PartsOneZeroZero()
    ensures Parts("1.0.0") == [Some(1), Some(0), Some(0)]
    ensures |Strings.Split("1.0.0", '.')| == 3
  {
    SingleDigit('1');
    SingleDigit('0');
    DigitsParts("1.0.0", "1", "0", "0", 1, 0, 0);
  }

  lemma PartsJoined()
    ensures Parts("1.0.02") == [Some(1), Some(0), Some(2)]
    ensures |Strings.Split("1.0.02", '.')| == 3
  {
    SingleDigit('1');
    SingleDigit('0');
    DigitsTwo("02");
    DigitsParts("1.0.02", "1", "0", "02", 1, 0, 2);
  }

  /** Three sample versions split into their parts. */
  lemma PartsExamples()
    ensures Parts("1.2.3") == [Some(1), Some(2), Some(3)]
    ensures Parts("2.0.0") == [Some(2), Some(0), Some(0)]
    ensures Parts("1.3.0") == [Some(1), Some(3), Some(0)]
  {
    SingleDigit('0');
    SingleDigit('1');
    SingleDigit('2');
    SingleDigit('3');
    DigitsParts("1.2.3", "1", "2", "3", 1, 2, 3);
    DigitsParts("2.0.0", "2", "0", "0", 2, 0, 0);
    DigitsParts("1.3.0", "1", "3", "0", 1, 3, 0);
  }

  /** Examples: equal, a newer major, a newer minor. */
  lemma CompareExamples()
    ensures Compare("1.2.3", "1.2.3") == UpToDate
    ensures Compare("1.2.3", "2.0.0") == OutdatedMajor
    ensures Compare("1.2.3", "1.3.0") == OutdatedMinor
  {
    PartsExamples();
    CompareTriples("1.2.3", "1.2.3", 1, 2, 3, 1, 2, 3);
    CompareTriples("1.2.3", "2.0.0", 1, 2, 3, 2, 0, 0);
    CompareTriples("1.2.3", "1.3.0", 1, 2, 3, 1, 3, 0);
  }

  /** The cleaning drops a caret. */
  lemma CleanVersionCaret(v: string)
    requires forall i :: 0 <= i < |v| ==> Kept(v[i])
    ensures CleanVersion("^" + v) == v
  {
    CleanVersionKeepsAll("^" + v);
    StrippedConcat("^", v);
    assert Stripped("^") == [] by {
      assert "^"[1..] == [];
    }
    StrippedKeeps(v);
  }

  /** A caret constraint compares as its version. */
  lemma CaretExample()
    ensures Compare(CleanVersion("^1.2.3"), "1.2.3") == UpToDate
  {
    assert "^1.2.3" == "^" + "1.2.3";
    CleanVersionCaret("1.2.3");
    CompareExamples();
  }
}
