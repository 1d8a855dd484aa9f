/**
 * The dependency repository. `mutate` enriches every installed package with its description
 * (trailing dots removed), its vulnerabilities from the advisory matcher, and the `why` and
 * `why-not` reports of the command line; `all`, `outdated`, `updated` and `dependencies` are
 * views over the enriched listings. `psr/container` is never listed by `all` or `outdated`.
 */
module ComposerRepository {
  import opened Wrappers
  import opened Php
  import opened Collections
  import opened Functions
  import opened Strings
  import opened ComposerBinary
  import Packagist

  /** Packages that `all` and `outdated` never list. */
  const MayBeOutdated: seq<string> := ["psr/container"]

  const UpToDate: string := "up-to-date"

  /** The description with its trailing dots removed, '' when there is none. */
  function Described(d: Package, k: Key): (e: Package)
    ensures e == d.(description := Some(RTrim(d.description.GetOr(""), '.')))
  {
    d.(description := Some(RTrim(d.description.GetOr(""), '.')))
  }

  function NameKey(d: Package): Key {
    StrKey(d.name)
  }

  function NameField(d: Package): string {
    d.name
  }

  function LatestOf(d: Package, k: Key): string {
    d.latest
  }

  /** !in_array($dependency['name'], $this->mayBeOutdated) */
  predicate Listed(d: Package) {
    d.name !in MayBeOutdated
  }

  /** $dependency['latest-status'] !== 'up-to-date' */
  predicate NotUpToDate(d: Package) {
    d.latestStatus != UpToDate
  }

  /**
   * keyBy('name')->map(latest): each package name with the `latest` of the last package of
   * that name.
   */
  function Versions(c: Collection<Package>): (r: Collection<string>)
    ensures forall k :: k in KeysOf(r.items) <==> k in KeysOf(FieldPairs(c.items, NameKey))
  {
    c.KeyedBy(NameKey).Map(LatestOf)
  }

  /** The last step of mutate: each package's `why` and `why-not` entries, [] when absent. */
  function Annotated(c: Collection<Package>, why: Collection<PhpArray<string>>,
                     whyNots: Collection<PhpArray<string>>): (r: Collection<Package>)
    ensures KeysOf(r.items) == KeysOf(c.items)
    ensures forall i | 0 <= i < |c.items| ::
              r.items[i].1 == c.items[i].1.(why := Some(why.Get(c.items[i].1.name, Some([])).GetOr([])),
                                            whyNot := Some(whyNots.Get(c.items[i].1.name, Some([])).GetOr([])))
  {
    c.Map((d: Package, k: Key) =>
      d.(why := Some(why.Get(d.name, Some([])).GetOr([])),
         whyNot := Some(whyNots.Get(d.name, Some([])).GetOr([]))))
  }

  /** The position of a package's name among the keys of the version map. */
  lemma VersionIndex(enriched: Collection<Package>, i: nat) returns (m: nat)
    requires i < |enriched.items|
    ensures m < |Versions(enriched).items| && Versions(enriched).items[m].0 == StrKey(enriched.items[i].1.name)
  {
    var pairs := FieldPairs(enriched.items, NameKey);
    assert KeysOf(pairs)[i] == StrKey(enriched.items[i].1.name);
    var versions := Versions(enriched);
    assert StrKey(enriched.items[i].1.name) in KeysOf(versions.items);
    var k :| 0 <= k < |versions.items| && KeysOf(versions.items)[k] == StrKey(enriched.items[i].1.name);
    m := k;
  }

  /** The version map holds, under a name, the `latest` of the last package of that name. */
  lemma LatestOfLast(enriched: Collection<Package>, j: nat, m: nat)
    requires j < |enriched.items| && m < |Versions(enriched).items|
    requires Versions(enriched).items[m].0 == StrKey(enriched.items[j].1.name)
    requires forall l | j < l < |enriched.items| :: enriched.items[l].1.name != enriched.items[j].1.name
    ensures Versions(enriched).items[m].1 == enriched.items[j].1.latest
  {
    var keyed := enriched.KeyedBy(NameKey);
    KeyedByLastWins(enriched, NameKey, j);
    assert keyed.items[m].0 == KeysOf(Versions(enriched).items)[m];
  }

  lemma AnnotatedWhy(c: Collection<Package>, report: Collection<PhpArray<string>>,
                     whyNots: Collection<PhpArray<string>>, i: nat, m: nat)
    requires i < |c.items| && m < |report.items| && report.items[m].0 == StrKey(c.items[i].1.name)
    ensures Annotated(c, Collect(report.items), whyNots).items[i].1.why == Some(report.items[m].1)
  {
  }

  lemma AnnotatedWhyNot(c: Collection<Package>, why: Collection<PhpArray<string>>,
                        report: Collection<PhpArray<string>>, i: nat, m: nat)
    requires i < |c.items| && m < |report.items| && report.items[m].0 == StrKey(c.items[i].1.name)
    ensures Annotated(c, why, Collect(report.items)).items[i].1.whyNot == Some(report.items[m].1)
  {
  }

  /** all() over the enriched listing: everything but the packages of MayBeOutdated. */
  function ListedOnly(c: Collection<Package>): (r: Collection<Package>)
    ensures forall x | x in r.items :: x in c.items && x.1.name != "psr/container"
    ensures forall x | x in c.items && x.1.name != "psr/container" :: x in r.items
    ensures Subseq(r.items, c.items)
  {
    c.Filter(Listed)
  }

  /**
   * outdated() over the enriched listing: without the packages of MayBeOutdated and without
   * the up-to-date ones.
   */
  function OutdatedOnly(c: Collection<Package>): (r: Collection<Package>)
    ensures forall x | x in r.items :: x in c.items && x.1.name != "psr/container" && x.1.latestStatus != "up-to-date"
    ensures forall x | x in c.items && x.1.name != "psr/container" && x.1.latestStatus != "up-to-date" :: x in r.items
  {
    c.Filter(Listed).Filter(NotUpToDate)
  }

  /** outdated() keeps the listing's order: its packages are a subsequence of the listing. */
  lemma OutdatedInOrder(c: Collection<Package>)
    ensures Subseq(OutdatedOnly(c).items, c.items)
  {
    var listed := c.Filter(Listed);
    SubseqTrans(listed.Filter(NotUpToDate).items, listed.items, c.items);
  }

  /** $outdated->where('name', $d['name']) === null */
  predicate NoneNamed(outdated: Collection<Package>, d: Package) {
    outdated.FirstWhere(NameField, d.name, None) == None
  }

  /** The filter of updated() against a given outdated() listing. */
  function UnnamedIn(outdated: Collection<Package>): Package -> bool {
    d => NoneNamed(outdated, d)
  }

  lemma NoneNamedExact(outdated: Collection<Package>, d: Package)
    ensures NoneNamed(outdated, d) <==> forall y | y in outdated.items :: y.1.name != d.name
  {
    if y :| y in outdated.items && y.1.name == d.name {
      var k :| 0 <= k < |outdated.items| && outdated.items[k] == y;
      assert NameField(outdated.items[k].1) == d.name;
    }
  }

  /** The filter of updated() keeps exactly the packages whose name outdated() does not list. */
  lemma UnnamedExact(all: Collection<Package>, outdated: Collection<Package>)
    ensures forall x | x in all.Filter(UnnamedIn(outdated)).items :: x in all.items
    ensures forall x | x in all.items ::
              x in all.Filter(UnnamedIn(outdated)).items <==> forall y | y in outdated.items :: y.1.name != x.1.name
    ensures Subseq(all.Filter(UnnamedIn(outdated)).items, all.items)
  {
    forall x | x in all.items
      ensures x in all.Filter(UnnamedIn(outdated)).items <==> forall y | y in outdated.items :: y.1.name != x.1.name
    {
      NoneNamedExact(outdated, x.1);
    }
  }

  /** One entry after the second map of mutate, given every advisory the matcher found. */
  function VulnerabilitiesIn(all: Collection<Packagist.Vulnerability>, e: (Key, Package)): (Key, Package) {
    (e.0, e.1.(vulnerabilities := Some(Packagist.VulnerabilitiesNamed(all, e.1.name).ToArray())))
  }

  class Composer {
    const binary: Binary
    const packagist: Packagist.Packagist

    ghost predicate Valid()
      reads binary, packagist
    {
      binary.Valid() && packagist.Valid()
    }

    constructor (binary: Binary, packagist: Packagist.Packagist)
      ensures this.binary == binary && this.packagist == packagist
    {
      this.binary := binary;
      this.packagist := packagist;
    }

    /** What vulnerabilitiesOf(name)->toArray() gives. */
    function VulnerabilitiesOf(name: string): PhpArray<Packagist.Vulnerability> {
      Packagist.VulnerabilitiesNamed(Packagist.AllVulnerabilities(packagist.lock, packagist.fetch, packagist.satisfies),
                                     name).ToArray()
    }

    /** The packages after the first two maps of mutate: described, with their vulnerabilities. */
    function WithVulnerabilities(items: PhpArray<Package>): (r: Collection<Package>)
      ensures KeysOf(r.items) == KeysOf(items)
      ensures forall i | 0 <= i < |items| ::
                r.items[i].1 == Described(items[i].1, items[i].0).(vulnerabilities := Some(VulnerabilitiesOf(items[i].1.name)))
    {
      Collect(items).Map(Described)
        .Map((d: Package, k: Key) => d.(vulnerabilities := Some(VulnerabilitiesOf(d.name))))
    }

    /** The result of mutate($items). */
    function Mutated(items: PhpArray<Package>): Collection<Package> {
      var enriched := WithVulnerabilities(items);
      var versions := Versions(enriched);
      Annotated(enriched, Collect(binary.WhyReport(versions).items), Collect(binary.WhyNotReport(versions).items))
    }

    /**
     * mutate($items): the maps over the packages in the source's order; the vulnerability
     * lookups go through the advisory matcher's memo and the reports through the command cache.
     */
    method Mutate(items: PhpArray<Package>) returns (c: Collection<Package>)
      requires Valid()
      modifies binary, packagist
      ensures Valid()
      ensures c == Mutated(items)
    {
      var collection := AttachVulnerabilities(items);
      var keyed := collection.KeyBy(NameKey);
      var versions := keyed.Map(LatestOf);
      var why := binary.Why(versions);
      var whyNots := binary.WhyNot(versions);
      c := Annotated(collection, Collect(why.ToArray()), Collect(whyNots.ToArray()));
    }

    /** The first two maps of mutate: the description, then vulnerabilitiesOf(name) per package. */
    method AttachVulnerabilities(items: PhpArray<Package>) returns (r: Collection<Package>)
      requires packagist.Valid()
      modifies packagist
      ensures packagist.Valid()
      ensures r == WithVulnerabilities(items)
    {
      var described := Collect(items).Map(Described);
      ghost var all := Packagist.AllVulnerabilities(packagist.lock, packagist.fetch, packagist.satisfies);
      var enriched := AttachEach(described.items, all);
      ghost var expected := WithVulnerabilities(items).items;
      assert |enriched| == |expected|;
      forall j | 0 <= j < |expected|
        ensures enriched[j] == expected[j]
      {
        assert described.items[j].0 == KeysOf(described.items)[j] == items[j].0 == KeysOf(expected)[j];
      }
      assert enriched == expected;
      r := Collection(enriched);
    }

    /** The loop of the second map of mutate: one vulnerabilitiesOf(name) per package, in order. */
    method AttachEach(described: seq<(Key, Package)>, ghost all: Collection<Packagist.Vulnerability>)
      returns (enriched: seq<(Key, Package)>)
      requires packagist.Valid() && all == Packagist.AllVulnerabilities(packagist.lock, packagist.fetch, packagist.satisfies)
      modifies packagist
      ensures packagist.Valid()
      ensures |enriched| == |described|
      ensures forall j | 0 <= j < |described| :: enriched[j] == VulnerabilitiesIn(all, described[j])
    {
      enriched := [];
      var i := 0;
      while i < |described|
        invariant 0 <= i <= |described|
        invariant packagist.Valid()
        invariant |enriched| == i
        invariant forall j | 0 <= j < i :: enriched[j] == VulnerabilitiesIn(all, described[j])
      {
        var entry := AttachOne(described[i], all);
        SnocAt(enriched, entry);
        enriched := enriched + [entry];
        i := i + 1;
      }
    }

    /** The callback of the second map of mutate: vulnerabilitiesOf(name)->toArray(). */
    method AttachOne(e: (Key, Package), ghost all: Collection<Packagist.Vulnerability>) returns (entry: (Key, Package))
      requires packagist.Valid() && all == Packagist.AllVulnerabilities(packagist.lock, packagist.fetch, packagist.satisfies)
      modifies packagist
      ensures packagist.Valid()
      ensures entry == VulnerabilitiesIn(all, e)
    {
      var vulnerabilities := packagist.VulnerabilitiesOf(e.1.name);
      entry := (e.0, e.1.(vulnerabilities := Some(vulnerabilities.ToArray())));
    }

    /**
     * mutate keeps every key in place and changes a package only in its description and its
     * vulnerabilities (and its `why` and `why-not` entries, see MutatedWhy and MutatedWhyNot):
     * the description loses its trailing dots ('' when missing), and the vulnerabilities are
     * those vulnerabilitiesOf(name) gives.
     */
    lemma MutatedPackage(items: PhpArray<Package>, i: nat)
      requires i < |items|
      ensures KeysOf(Mutated(items).items) == KeysOf(items)
      ensures var d, e := items[i].1, Mutated(items).items[i].1;
              && e.name == d.name && e.version == d.version && e.latest == d.latest
              && e.latestStatus == d.latestStatus
              && e.description == Some(RTrim(d.description.GetOr(""), '.'))
              && e.vulnerabilities == Some(VulnerabilitiesOf(d.name))
    {
      var enriched := WithVulnerabilities(items);
      assert enriched.items[i].1.name == items[i].1.name;
    }

    /** A package's `why` entry is the parsed output of `why <name> --recursive`. */
    lemma MutatedWhy(items: PhpArray<Package>, i: nat)
      requires i < |items|
      ensures Mutated(items).items[i].1.why
              == Some(WhyEntry(Lines(binary.execute("why " + items[i].1.name + " --recursive")), binary.RootNames()))
    {
      var enriched := WithVulnerabilities(items);
      assert enriched.items[i].1.name == items[i].1.name;
      var versions := Versions(enriched);
      var m := VersionIndex(enriched, i);
      var report := binary.WhyReport(versions);
      assert report.items[m].0 == KeysOf(versions.items)[m];
      assert KeyText(versions.items[m].0) == items[i].1.name;
      AnnotatedWhy(enriched, report, Collect(binary.WhyNotReport(versions).items), i, m);
    }

    /**
     * A package's `why-not` entry is the parsed output of `why-not <name>:<latest>`, where
     * `latest` comes from the last package of that name.
     */
    lemma MutatedWhyNot(items: PhpArray<Package>, i: nat, j: nat)
      requires i < |items| && j < |items| && items[j].1.name == items[i].1.name
      requires forall l | j < l < |items| :: items[l].1.name != items[i].1.name
      ensures Mutated(items).items[i].1.whyNot
              == Some(WhyNotEntry(Lines(binary.execute("why-not " + items[i].1.name + ":" + items[j].1.latest))))
    {
      var enriched := WithVulnerabilities(items);
      assert enriched.items[i].1.name == items[i].1.name;
      assert enriched.items[j].1 == Described(items[j].1, items[j].0).(vulnerabilities := Some(VulnerabilitiesOf(items[j].1.name)));
      var versions := Versions(enriched);
      var m := VersionIndex(enriched, i);
      LatestOfLast(enriched, j, m);
      var report := binary.WhyNotReport(versions);
      assert report.items[m].0 == KeysOf(versions.items)[m];
      assert KeyText(versions.items[m].0) == items[i].1.name;
      AnnotatedWhyNot(enriched, Collect(binary.WhyReport(versions).items), report, i, m);
    }

    function AllListing(): PhpArray<Package> {
      binary.Installed(binary.execute(AllCommand))
    }

    function OutdatedListing(): PhpArray<Package> {
      binary.Installed(binary.execute(OutdatedCommand))
    }

    /** all() */
    function AllView(): Collection<Package> {
      ListedOnly(Mutated(AllListing()))
    }

    /** outdated() */
    function OutdatedView(): Collection<Package> {
      OutdatedOnly(Mutated(OutdatedListing()))
    }

    /** updated() */
    function UpdatedView(): Collection<Package> {
      AllView().Filter(UnnamedIn(OutdatedView()))
    }

    /**
     * updated() holds exactly the packages of all() for which outdated() has no package of the
     * same name, in their order and with their keys.
     */
    lemma UpdatedExact()
      ensures forall x | x in UpdatedView().items :: x in AllView().items
      ensures forall x | x in AllView().items ::
                x in UpdatedView().items <==> forall y | y in OutdatedView().items :: y.1.name != x.1.name
      ensures Subseq(UpdatedView().items, AllView().items)
    {
      UnnamedExact(AllView(), OutdatedView());
    }

    /** all() */
    method All() returns (r: Collection<Package>)
      requires Valid()
      modifies binary, packagist
      ensures Valid()
      ensures r == AllView()
    {
      var listing := binary.All();
      var mutated := Mutate(listing);
      r := ListedOnly(mutated);
    }

    /** outdated() */
    method Outdated() returns (r: Collection<Package>)
      requires Valid()
      modifies binary, packagist
      ensures Valid()
      ensures r == OutdatedView()
    {
      var listing := binary.Outdated();
      var mutated := Mutate(listing);
      r := OutdatedOnly(mutated);
    }

    /** dependencies(): the enriched `all` listing with nothing excluded. */
    method Dependencies() returns (r: Collection<Package>)
      requires Valid()
      modifies binary, packagist
      ensures Valid()
      ensures r == Mutated(AllListing())
    {
      var listing := binary.All();
      r := Mutate(listing);
    }

    /** The callback of updated(): outdated()->where('name', $d['name']) === null. */
    method CheckUpdated(d: Package, ghost outdated: Collection<Package>) returns (keep: bool)
      requires Valid() && outdated == OutdatedView()
      modifies binary, packagist
      ensures Valid()
      ensures keep == UnnamedIn(outdated)(d)
    {
      var current := Outdated();
      var found := current.Where(NameField, d.name, None);
      keep := found == None;
    }

    /** updated(): the filter over all() asks outdated() anew for every package. */
    method Updated() returns (r: Collection<Package>)
      requires Valid()
      modifies binary, packagist
      ensures Valid()
      ensures r == UpdatedView()
    {
      var all := All();
      var kept := KeepUpdated(all.items, OutdatedView());
      r := Collection(kept);
    }

    /** The array_filter of updated(), package by package in the order of `items`. */
    method KeepUpdated(items: PhpArray<Package>, ghost outdated: Collection<Package>) returns (kept: seq<(Key, Package)>)
      requires Valid() && outdated == OutdatedView()
      modifies binary, packagist
      ensures Valid() && kept == ArrayFilter(items, UnnamedIn(outdated))
    {
      kept := [];
      var i := 0;
      while i < |items|
        invariant 0 <= i <= |items|
        invariant Valid()
        invariant kept == FilterUpTo(items, UnnamedIn(outdated), i)
      {
        kept := KeepIfUpdated(items, i, kept, outdated);
        i := i + 1;
      }
      FilterUpToAll(items, UnnamedIn(outdated));
    }

    /** One step of the array_filter of updated(): the callback decides on the i-th package. */
    method KeepIfUpdated(items: PhpArray<Package>, i: nat, kept: seq<(Key, Package)>, ghost outdated: Collection<Package>)
      returns (r: seq<(Key, Package)>)
      requires Valid() && outdated == OutdatedView()
      requires i < |items| && kept == FilterUpTo(items, UnnamedIn(outdated), i)
      modifies binary, packagist
      ensures Valid() && r == FilterUpTo(items, UnnamedIn(outdated), i + 1)
    {
      var keep := CheckUpdated(items[i].1, outdated);
      FilterUpToSnoc(items, UnnamedIn(outdated), i);
      r := if keep then kept + [items[i]] else kept;
    }

    /**
     * When the feed answers with lists, every package of all() carries a vulnerability list
     * whose keys are integers.
     */
    lemma AllViewVulnerabilityLists()
      requires Packagist.ResponsesListShaped(packagist.lock, packagist.fetch)
      ensures forall i | 0 <= i < |AllView().items| ::
                AllView().items[i].1.vulnerabilities.Some? && IntKeyed(AllView().items[i].1.vulnerabilities.value)
    {
      var items := AllListing();
      var mutated := Mutated(items);
      forall i | 0 <= i < |AllView().items|
        ensures AllView().items[i].1.vulnerabilities.Some? && IntKeyed(AllView().items[i].1.vulnerabilities.value)
      {
        var x := AllView().items[i];
        assert x in AllView().items;
        var j :| 0 <= j < |mutated.items| && mutated.items[j] == x;
        MutatedPackage(items, j);
        Packagist.NamedIntKeyed(packagist.lock, packagist.fetch, packagist.satisfies, items[j].1.name);
      }
    }
  }
}
