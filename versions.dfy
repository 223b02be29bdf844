/**
 * Version discovery and selection: `parse_version` and the scan, sort and
 * pick of `find_latest_zalo` in installer.py.
 *
 * `parse_version` applies `re.match(r"^(ZaloPC|Zalo)-(\d+)\.(\d+)\.(\d+)",
 * name, re.IGNORECASE)`: the pattern is anchored at the start only, each
 * `\d+` is greedy, and each group is turned into a number by `int`.
 */
module Versions {
  import opened Wrappers
  import opened Text

  /** A parsed `(major, minor, patch)` triple. */
  datatype Version = Version(major: nat, minor: nat, patch: nat)

  /** Python's `<` on integer triples: lexicographic, component by component. */
  predicate Less(a: Version, b: Version)
  {
    a.major < b.major
    || (a.major == b.major && a.minor < b.minor)
    || (a.major == b.major && a.minor == b.minor && a.patch < b.patch)
  }

  /** Python's `<=` on integer triples. */
  predicate AtMost(a: Version, b: Version)
  {
    Less(a, b) || a == b
  }

  lemma AtMostIsTotalOrder(a: Version, b: Version, c: Version)
    ensures AtMost(a, a)
    ensures AtMost(a, b) || AtMost(b, a)
    ensures AtMost(a, b) && AtMost(b, a) ==> a == b
    ensures AtMost(a, b) && AtMost(b, c) ==> AtMost(a, c)
    ensures AtMost(a, b) <==> !Less(b, a)
  {
  }

  lemma LessExcludesAtMost(a: Version, b: Version)
    ensures !(Less(a, b) && AtMost(b, a))
  {
  }

  // ---------------------------------------------------------------------
  // Digits

  predicate IsDigit(c: char) { '0' <= c <= '9' }

  predicate AllDigits(s: string)
  {
    forall i :: 0 <= i < |s| ==> IsDigit(s[i])
  }

  function DigitValue(c: char): nat
    requires IsDigit(c)
  {
    c as int - '0' as int
  }

  /** The number a run of decimal digits denotes, as `int(ds)` computes it. */
  function DecimalValue(ds: string): nat
    requires AllDigits(ds)
    decreases |ds|
  {
    if ds == [] then 0
    else 10 * DecimalValue(ds[..|ds| - 1]) + DigitValue(ds[|ds| - 1])
  }

  /** Leading zeros do not change the value: `int("007") == 7`. */
  lemma {:induction false} LeadingZeroIgnored(ds: string)
    requires AllDigits(ds)
    ensures AllDigits("0" + ds) && DecimalValue("0" + ds) == DecimalValue(ds)
  {
    if ds != [] {
      var init := ds[..|ds| - 1];
      LeadingZeroIgnored(init);
      assert ("0" + ds)[..|"0" + ds| - 1] == "0" + init;
    }
  }

  /**
   * The number of characters a greedy `\d+` (or `\d*`) consumes at the
   * start of `s`: the leading digits, stopping at the first non-digit.
   */
  function DigitRun(s: string): (n: nat)
    ensures n <= |s|
    ensures AllDigits(s[..n])
    ensures n == |s| || !IsDigit(s[n])
  {
    if s != [] && IsDigit(s[0]) then
      var m := DigitRun(s[1..]);
      assert s[..1 + m] == [s[0]] + s[1..][..m];
      1 + m
    else 0
  }

  lemma {:induction false} DigitRunOfDigits(ds: string, rest: string)
    requires AllDigits(ds)
    requires rest == [] || !IsDigit(rest[0])
    ensures DigitRun(ds + rest) == |ds|
  {
    if ds != [] {
      assert (ds + rest)[1..] == ds[1..] + rest;
      DigitRunOfDigits(ds[1..], rest);
    } else {
      assert ds + rest == rest;
    }
  }

  // ---------------------------------------------------------------------
  // parse_version

  const LongPrefix: string := "zalopc-"
  const ShortPrefix: string := "zalo-"

  /**
   * The length of the `ZaloPC-` or `Zalo-` prefix of `name`, letter case
   * ignored, or 0 when `name` starts with neither. The alternation tries
   * `ZaloPC` first, but the two prefixes differ at their fifth character,
   * so at most one of them can match.
   */
  function PrefixLength(name: string): nat
  {
    if |name| >= 7 && Lower(name[..7]) == LongPrefix then 7
    else if |name| >= 5 && Lower(name[..5]) == ShortPrefix then 5
    else 0
  }

  /**
   * A `(\d+)\.` step at the start of `s`: the value of the digit run and
   * what follows the dot, or `None` when there is no digit or no dot.
   */
  function Field(s: string): Option<(nat, string)>
  {
    var n := DigitRun(s);
    if n == 0 || n == |s| || s[n] != '.' then None
    else Some((DecimalValue(s[..n]), s[n + 1..]))
  }

  /** The final `(\d+)` at the start of `s`. */
  function LastField(s: string): Option<nat>
  {
    var n := DigitRun(s);
    if n == 0 then None else Some(DecimalValue(s[..n]))
  }

  /** The `(\d+)\.(\d+)\.(\d+)` part, matched at the start of `s`. */
  function ParseTriple(s: string): Option<Version>
  {
    match Field(s)
    case None => None
    case Some((major, t)) =>
      match Field(t)
      case None => None
      case Some((minor, u)) =>
        match LastField(u)
        case None => None
        case Some(patch) => Some(Version(major, minor, patch))
  }

  /** `parse_version(name)`. */
  function ParseVersion(name: string): Option<Version>
  {
    var k := PrefixLength(name);
    if k == 0 then None else ParseTriple(name[k..])
  }

  // ---------------------------------------------------------------------
  // What parse_version accepts, stated independently of how it scans

  /**
   * `name` is the prefix `p`, three non-empty digit runs separated by dots,
   * and an arbitrary remainder `rest` that does not continue the last run.
   */
  ghost predicate Shaped(name: string, p: string, d1: string, d2: string, d3: string, rest: string)
  {
    && name == p + d1 + "." + d2 + "." + d3 + rest
    && (Lower(p) == LongPrefix || Lower(p) == ShortPrefix)
    && d1 != [] && d2 != [] && d3 != []
    && AllDigits(d1) && AllDigits(d2) && AllDigits(d3)
    && (rest == [] || !IsDigit(rest[0]))
  }

  /** `name` matches the version pattern with the groups denoting `v`. */
  ghost predicate NamesVersion(name: string, v: Version)
  {
    exists p, d1, d2, d3, rest ::
      Shaped(name, p, d1, d2, d3, rest)
      && v == Version(DecimalValue(d1), DecimalValue(d2), DecimalValue(d3))
  }

  lemma PrefixOfShaped(name: string, p: string, tail: string)
    requires name == p + tail
    requires Lower(p) == LongPrefix || Lower(p) == ShortPrefix
    ensures PrefixLength(name) == |p|
  {
    if Lower(p) == ShortPrefix {
      LowerCharFacts(p[4]);
      assert |name| >= 7 ==> Lower(name[..7])[4] == '-';
      assert name[..5] == p;
    } else {
      assert name[..7] == p;
    }
  }

  /** A digit run followed by a dot: the greedy run stops exactly at the dot. */
  lemma FieldOf(d: string, tail: string)
    requires d != [] && AllDigits(d)
    ensures Field(d + "." + tail) == Some((DecimalValue(d), tail))
  {
    var s := d + "." + tail;
    assert s == d + ("." + tail);
    DigitRunOfDigits(d, "." + tail);
    assert s[..|d|] == d && s[|d| + 1..] == tail;
  }

  lemma LastFieldOf(d: string, rest: string)
    requires d != [] && AllDigits(d)
    requires rest == [] || !IsDigit(rest[0])
    ensures LastField(d + rest) == Some(DecimalValue(d))
  {
    DigitRunOfDigits(d, rest);
    assert (d + rest)[..|d|] == d;
  }

  lemma Assoc(a: string, b: string, c: string)
    ensures (a + b) + c == a + (b + c)
  {
  }

  /** The separators and runs of a versioned name regroup freely. */
  lemma Regroup(p: string, d1: string, d2: string, d3: string, rest: string)
    ensures p + (d1 + "." + d2 + "." + d3 + rest) == p + d1 + "." + d2 + "." + d3 + rest
  {
    calc {
      p + (d1 + "." + d2 + "." + d3 + rest);
      { Assoc(p, d1 + "." + d2 + "." + d3, rest); }
      p + (d1 + "." + d2 + "." + d3) + rest;
      { Assoc(p, d1 + "." + d2 + ".", d3); }
      p + (d1 + "." + d2 + ".") + d3 + rest;
      { Assoc(p, d1 + "." + d2, "."); }
      p + (d1 + "." + d2) + "." + d3 + rest;
      { Assoc(p, d1 + ".", d2); }
      p + (d1 + ".") + d2 + "." + d3 + rest;
      { Assoc(p, d1, "."); }
      p + d1 + "." + d2 + "." + d3 + rest;
    }
  }

  lemma RegroupTriple(d1: string, d2: string, d3: string, rest: string)
    ensures d1 + "." + (d2 + "." + (d3 + rest)) == d1 + "." + d2 + "." + d3 + rest
  {
    calc {
      d1 + "." + (d2 + "." + (d3 + rest));
      { Assoc(d1 + ".", d2 + ".", d3 + rest); }
      d1 + "." + (d2 + ".") + (d3 + rest);
      { Assoc(d1 + ".", d2, "."); }
      d1 + "." + d2 + "." + (d3 + rest);
      { Assoc(d1 + "." + d2 + ".", d3, rest); }
      d1 + "." + d2 + "." + d3 + rest;
    }
  }

  lemma ParseTripleShaped(d1: string, d2: string, d3: string, rest: string)
    requires d1 != [] && d2 != [] && d3 != []
    requires AllDigits(d1) && AllDigits(d2) && AllDigits(d3)
    requires rest == [] || !IsDigit(rest[0])
    ensures ParseTriple(d1 + "." + d2 + "." + d3 + rest)
      == Some(Version(DecimalValue(d1), DecimalValue(d2), DecimalValue(d3)))
  {
    RegroupTriple(d1, d2, d3, rest);
    FieldOf(d1, d2 + "." + (d3 + rest));
    FieldOf(d2, d3 + rest);
    LastFieldOf(d3, rest);
  }

  /** Every name of the shape `Shaped` describes parses, to the values of its digit runs. */
  lemma ParseShaped(name: string, p: string, d1: string, d2: string, d3: string, rest: string)
    requires Shaped(name, p, d1, d2, d3, rest)
    ensures ParseVersion(name) == Some(Version(DecimalValue(d1), DecimalValue(d2), DecimalValue(d3)))
  {
    var s := d1 + "." + d2 + "." + d3 + rest;
    Regroup(p, d1, d2, d3, rest);
    PrefixOfShaped(name, p, s);
    assert name[|p|..] == s;
    ParseTripleShaped(d1, d2, d3, rest);
  }

  /** What a successful `Field` consumed: a digit run and a dot. */
  lemma FieldIsShaped(s: string) returns (d: string)
    requires Field(s).Some?
    ensures d != [] && AllDigits(d)
    ensures s == d + "." + Field(s).value.1 && Field(s).value.0 == DecimalValue(d)
  {
    var n := DigitRun(s);
    d := s[..n];
    assert s == s[..n] + "." + s[n + 1..];
  }

  lemma LastFieldIsShaped(s: string) returns (d: string, rest: string)
    requires LastField(s).Some?
    ensures d != [] && AllDigits(d) && (rest == [] || !IsDigit(rest[0]))
    ensures s == d + rest && LastField(s).value == DecimalValue(d)
  {
    var n := DigitRun(s);
    d, rest := s[..n], s[n..];
    assert s == s[..n] + s[n..];
  }

  /** Whatever the triple parser accepts splits into three digit runs and a remainder. */
  lemma ParsedTripleIsShaped(s: string) returns (d1: string, d2: string, d3: string, rest: string)
    requires ParseTriple(s).Some?
    ensures s == d1 + "." + d2 + "." + d3 + rest
    ensures d1 != [] && d2 != [] && d3 != []
    ensures AllDigits(d1) && AllDigits(d2) && AllDigits(d3)
    ensures rest == [] || !IsDigit(rest[0])
    ensures ParseTriple(s) == Some(Version(DecimalValue(d1), DecimalValue(d2), DecimalValue(d3)))
  {
    d1 := FieldIsShaped(s);
    var t := Field(s).value.1;
    d2 := FieldIsShaped(t);
    var u := Field(t).value.1;
    d3, rest := LastFieldIsShaped(u);
    RegroupTriple(d1, d2, d3, rest);
  }

  /** Whatever parses has the shape `Shaped` describes, with the groups' values as result. */
  lemma ParsedIsShaped(name: string)
    requires ParseVersion(name).Some?
    ensures NamesVersion(name, ParseVersion(name).value)
  {
    var k := PrefixLength(name);
    var p := name[..k];
    var d1, d2, d3, rest := ParsedTripleIsShaped(name[k..]);
    assert Shaped(name, p, d1, d2, d3, rest) by {
      assert name == p + name[k..];
      Regroup(p, d1, d2, d3, rest);
    }
    Witness(name, p, d1, d2, d3, rest);
  }

  lemma Witness(name: string, p: string, d1: string, d2: string, d3: string, rest: string)
    requires Shaped(name, p, d1, d2, d3, rest)
    ensures NamesVersion(name, Version(DecimalValue(d1), DecimalValue(d2), DecimalValue(d3)))
  {
  }

  /**
   * `parse_version` returns `(a, b, c)` exactly when the name starts,
   * ignoring letter case, with `Zalo-` or `ZaloPC-` followed by three
   * dot-separated digit runs denoting `a`, `b` and `c`; anything may follow.
   */
  lemma ParseVersionSpec(name: string, v: Version)
    ensures ParseVersion(name) == Some(v) <==> NamesVersion(name, v)
  {
    if ParseVersion(name) == Some(v) {
      ParsedIsShaped(name);
    }
    if NamesVersion(name, v) {
      var p, d1, d2, d3, rest :| Shaped(name, p, d1, d2, d3, rest)
        && v == Version(DecimalValue(d1), DecimalValue(d2), DecimalValue(d3));
      ParseShaped(name, p, d1, d2, d3, rest);
    }
  }

  /**
   * Only the start of the name is anchored: appending text that does not
   * extend the patch number leaves the parsed triple as it was.
   */
  lemma ParseIgnoresSuffix(name: string, suffix: string)
    requires ParseVersion(name).Some?
    requires suffix == [] || !IsDigit(suffix[0])
    ensures ParseVersion(name + suffix) == ParseVersion(name)
  {
    ParsedIsShaped(name);
    var v := ParseVersion(name).value;
    var p, d1, d2, d3, rest :| Shaped(name, p, d1, d2, d3, rest)
      && v == Version(DecimalValue(d1), DecimalValue(d2), DecimalValue(d3));
    assert Shaped(name + suffix, p, d1, d2, d3, rest + suffix) by {
      Assoc(p + d1 + "." + d2 + "." + d3, rest, suffix);
    }
    ParseShaped(name + suffix, p, d1, d2, d3, rest + suffix);
  }

  /** Letter case never matters: the name and its lower-cased form parse alike. */
  lemma ParseIgnoresCase(name: string)
    ensures ParseVersion(Lower(name)) == ParseVersion(name)
  {
    var k := PrefixLength(name);
    PrefixIgnoresCase(name);
    if k != 0 {
      LowerSlice(name, k, |name|);
      assert name[k..|name|] == name[k..];
      assert Lower(name)[k..] == Lower(name[k..]);
      ParseTripleIgnoresCase(name[k..]);
    }
  }

  lemma PrefixIgnoresCase(name: string)
    ensures PrefixLength(Lower(name)) == PrefixLength(name)
  {
    if |name| >= 7 {
      LowerSlice(name, 0, 7);
      LowerTwice(name[..7]);
    }
    if |name| >= 5 {
      LowerSlice(name, 0, 5);
      LowerTwice(name[..5]);
    }
  }

  lemma ParseTripleIgnoresCase(s: string)
    ensures ParseTriple(Lower(s)) == ParseTriple(s)
  {
    FieldIgnoresCase(s);
    if Field(s).Some? {
      var t := Field(s).value.1;
      FieldIgnoresCase(t);
      if Field(t).Some? {
        LastFieldIgnoresCase(Field(t).value.1);
      }
    }
  }

  lemma FieldIgnoresCase(s: string)
    ensures Field(Lower(s)) == match Field(s)
      case None => None
      case Some((a, t)) => Some((a, Lower(t)))
  {
    var n := DigitRun(s);
    DigitRunIgnoresCase(s);
    if 0 < n < |s| {
      LowerCharFacts(s[n]);
      LowerSlice(s, n + 1, |s|);
      assert s[n + 1..|s|] == s[n + 1..];
      assert Lower(s)[n + 1..|s|] == Lower(s)[n + 1..];
      assert Lower(s)[n] == '.' <==> s[n] == '.';
    }
  }

  lemma LastFieldIgnoresCase(s: string)
    ensures LastField(Lower(s)) == LastField(s)
  {
    DigitRunIgnoresCase(s);
  }

  /** Folding letter case neither lengthens nor shortens a digit run, nor alters its digits. */
  lemma {:induction false} DigitRunIgnoresCase(s: string)
    ensures DigitRun(Lower(s)) == DigitRun(s)
    ensures Lower(s)[..DigitRun(s)] == s[..DigitRun(s)]
  {
    if s != [] {
      LowerCharFacts(s[0]);
      assert Lower(s)[1..] == Lower(s[1..]);
      DigitRunIgnoresCase(s[1..]);
    }
  }

  // ---------------------------------------------------------------------
  // The scan of the base directory and the choice of the latest folder

  /** An immediate child of the base directory: its name, and whether it is a directory. */
  datatype Entry = Entry(name: string, isDir: bool)

  /** One element of `found_folders`: a parsed version and the folder it came from. */
  datatype Candidate = Candidate(version: Version, folder: string)

  /**
   * The folders `found_folders` collects from a listing, in listing order:
   * the directories whose names parse.
   */
  function Candidates(entries: seq<Entry>): (cs: seq<Candidate>)
    ensures |cs| <= |entries|
  {
    if entries == [] then []
    else
      var last := entries[|entries| - 1];
      var init := Candidates(entries[..|entries| - 1]);
      var v := if last.isDir then ParseVersion(last.name) else None;
      if v.Some? then init + [Candidate(v.value, last.name)] else init
  }

  /** A candidate is collected exactly when some directory entry with its name parses to its version. */
  lemma {:induction false} CandidatesMembers(entries: seq<Entry>)
    ensures forall c :: c in Candidates(entries) <==>
      exists e :: e in entries && e.isDir && ParseVersion(e.name) == Some(c.version) && e.name == c.folder
  {
    if entries != [] {
      var last := entries[|entries| - 1];
      CandidatesMembers(entries[..|entries| - 1]);
      assert forall e :: e in entries <==> e in entries[..|entries| - 1] || e == last;
    }
  }

  /** The scan loop of `find_latest_zalo`: parse every directory entry, keep those that parse. */
  method ScanVersions(entries: seq<Entry>) returns (found: seq<Candidate>)
    ensures found == Candidates(entries)
  {
    found := [];
    for i := 0 to |entries|
      invariant found == Candidates(entries[..i])
    {
      assert entries[..i + 1][..i] == entries[..i];
      var entry := entries[i];
      if entry.isDir {
        var version := ParseVersion(entry.name);
        if version.Some? {
          found := found + [Candidate(version.value, entry.name)];
        }
      }
    }
    assert entries[..|entries|] == entries;
  }

  /**
   * `k` is the element that `found.sort(key=version, reverse=True)` puts
   * first: its version is at least every other one, and, since Python's
   * sort is stable also when reversed, it is the first such element.
   */
  ghost predicate IsLatest(found: seq<Candidate>, k: nat)
  {
    && k < |found|
    && (forall j :: 0 <= j < |found| ==> AtMost(found[j].version, found[k].version))
    && (forall j :: 0 <= j < k ==> Less(found[j].version, found[k].version))
  }

  /** At most one element can come first. */
  lemma LatestIsUnique(found: seq<Candidate>, k1: nat, k2: nat)
    requires IsLatest(found, k1) && IsLatest(found, k2)
    ensures k1 == k2
  {
    LessExcludesAtMost(found[k1].version, found[k2].version);
    LessExcludesAtMost(found[k2].version, found[k1].version);
  }

  /**
   * `found_folders[0]` after the sort, as an index into `found`; `None`
   * when nothing was found (the source returns before sorting then).
   */
  method LatestOf(found: seq<Candidate>) returns (r: Option<nat>)
    ensures r.None? <==> found == []
    ensures r.Some? ==> IsLatest(found, r.value)
  {
    if found == [] {
      return None;
    }
    var k := 0;
    for i := 1 to |found|
      invariant k < i
      invariant forall j :: 0 <= j < i ==> AtMost(found[j].version, found[k].version)
      invariant forall j :: 0 <= j < k ==> Less(found[j].version, found[k].version)
    {
      if Less(found[k].version, found[i].version) {
        k := i;
      }
    }
    return Some(k);
  }

  // ---------------------------------------------------------------------
  // An example: Zalo-1.2.3 against Zalo-1.10.0

  const ExampleListing: seq<Entry> :=
    [Entry("Zalo-1.2.3", true), Entry("Zalo-1.10.0", true), Entry("unrelated", true)]

  /** The installer's usual folder names: `Zalo-` and three digit runs. */
  lemma ParseZaloName(d1: string, d2: string, d3: string)
    requires d1 != [] && d2 != [] && d3 != []
    requires AllDigits(d1) && AllDigits(d2) && AllDigits(d3)
    ensures ParseVersion("Zalo-" + d1 + "." + d2 + "." + d3)
      == Some(Version(DecimalValue(d1), DecimalValue(d2), DecimalValue(d3)))
  {
    var name := "Zalo-" + d1 + "." + d2 + "." + d3;
    assert Lower("Zalo-") == ShortPrefix;
    assert name + "" == name;
    ParseShaped(name, "Zalo-", d1, d2, d3, "");
  }

  lemma ParseExampleOld()
    ensures ParseVersion("Zalo-1.2.3") == Some(Version(1, 2, 3))
  {
    var s := "Zalo-1.2.3";
    assert Lower(s[..7])[4] == '-';
    assert Lower(s[..5]) == ShortPrefix;
    assert PrefixLength(s) == 5;
    assert s[5..] == "1.2.3";
    assert DigitRun("1.2.3") == 1;
    assert Field("1.2.3") == Some((1, "2.3"));
    assert DigitRun("2.3") == 1;
    assert Field("2.3") == Some((2, "3"));
    assert LastField("3") == Some(3);
  }

  lemma DecimalTen()
    ensures AllDigits("10") && DecimalValue("10") == 10
  {
    assert "10"[..1] == "1";
  }

  lemma ParseExampleNew()
    ensures ParseVersion("Zalo-1.10.0") == Some(Version(1, 10, 0))
  {
    var s := "Zalo-1.10.0";
    assert Lower(s[..7])[4] == '-';
    assert Lower(s[..5]) == ShortPrefix;
    assert PrefixLength(s) == 5;
    assert s[5..] == "1.10.0";
    assert DigitRun("1.10.0") == 1;
    assert Field("1.10.0") == Some((1, "10.0"));
    assert DigitRun("10.0") == 2;
    DecimalTen();
    assert Field("10.0") == Some((10, "0"));
    assert LastField("0") == Some(0);
  }

  lemma ParseExampleUnrelated()
    ensures ParseVersion("unrelated") == None
  {
    assert Lower("unrelated"[..7])[0] == 'u';
    assert Lower("unrelated"[..5])[0] == 'u';
  }

  const OldCandidate := Candidate(Version(1, 2, 3), "Zalo-1.2.3")
  const NewCandidate := Candidate(Version(1, 10, 0), "Zalo-1.10.0")

  /**
   * A listing of two versioned folders and one unrelated one: the unrelated
   * folder is skipped and the other two are kept in listing order.
   */
  lemma ThreeFolders(a: string, b: string, c: string, va: Version, vb: Version)
    requires ParseVersion(a) == Some(va) && ParseVersion(b) == Some(vb) && ParseVersion(c) == None
    ensures Candidates([Entry(a, true), Entry(b, true), Entry(c, true)])
      == [Candidate(va, a), Candidate(vb, b)]
  {
    var e0, e1, e2 := Entry(a, true), Entry(b, true), Entry(c, true);
    var s1, s2, s3 := [e0], [e0, e1], [e0, e1, e2];
    assert s1[..0] == [];
    assert Candidates(s1) == [Candidate(va, a)];
    assert s2[..1] == s1;
    assert Candidates(s2) == [Candidate(va, a), Candidate(vb, b)];
    assert s3[..2] == s2;
  }

  /** Of two candidates, the strictly larger version comes first after the sort. */
  lemma LatestOfTwo(x: Candidate, y: Candidate)
    requires Less(x.version, y.version)
    ensures forall k: nat :: IsLatest([x, y], k) <==> k == 1
  {
    assert IsLatest([x, y], 1);
    forall k: nat | IsLatest([x, y], k) ensures k == 1 {
      LatestIsUnique([x, y], k, 1);
    }
  }

  /** `Zalo-1.10.0` beats `Zalo-1.2.3`: the minor numbers compare as integers, not as text. */
  lemma ExampleSelectsNumericMaximum()
    ensures Candidates(ExampleListing) == [OldCandidate, NewCandidate]
    ensures forall k: nat :: IsLatest([OldCandidate, NewCandidate], k) <==> k == 1
  {
    ParseExampleOld();
    ParseExampleNew();
    ParseExampleUnrelated();
    ThreeFolders("Zalo-1.2.3", "Zalo-1.10.0", "unrelated", Version(1, 2, 3), Version(1, 10, 0));
    LatestOfTwo(OldCandidate, NewCandidate);
  }
}
