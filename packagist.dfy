/**
 * The advisory matcher. The lock's package names go to the advisory feed in batches of 30;
 * each advisory's `affectedVersions` is cut into clauses on `|` (with `,` read as a space) and
 * the advisory is kept, narrowed to the first clause the installed version satisfies, or
 * dropped. The whole list is computed once per instance and filtered by package name.
 * The HTTP round trip (with its RequestException) and Semver::satisfies are parameters.
 */
module Packagist {
  import opened Wrappers
  import opened Php
  import opened Collections
  import opened Functions
  import Strings
  import Lock

  const BatchSize: nat := 30
  const PackagistUrl: string := "https://packagist.org/api/security-advisories"

  /** An advisory as the feed returns it. */
  datatype Advisory = Advisory(packageName: string, title: string, link: string, reportedAt: string,
                               affectedVersions: string)

  /** An advisory narrowed to the installed version: the matched clause and that version. */
  datatype Vulnerability = Vulnerability(packageName: string, title: string, link: string, reportedAt: string,
                                         affectedVersions: string, current: Option<string>)

  /** One HTTP request: verb, URL and the `packages` query parameter. */
  datatype Request = Request(verb: string, url: string, packages: seq<Key>)

  /** The feed: the decoded `advisories` member of the response, or None when the request throws. */
  type Fetch = Request -> Option<PhpArray<PhpArray<Advisory>>>

  /** Semver::satisfies(version, constraint); the version is null when the batch lacks the package. */
  type Satisfies = (Option<string>, string) -> bool

  /** The candidate clauses of an `affectedVersions` string. */
  function Clauses(affected: string): (clauses: seq<string>)
    ensures |clauses| == |Strings.Split(affected, '|')|
    ensures forall i | 0 <= i < |clauses| ::
      clauses[i] == Strings.ReplaceChar(Strings.Split(affected, '|')[i], ',', ' ')
    ensures forall i | 0 <= i < |clauses| :: ',' !in clauses[i] && '|' !in clauses[i]
  {
    var pieces := Strings.Split(affected, '|');
    seq(|pieces|, i requires 0 <= i < |pieces| => Strings.ReplaceChar(pieces[i], ',', ' '))
  }

  /** The first clause from index `from` on that `version` satisfies. */
  function FirstSatisfied(clauses: seq<string>, version: Option<string>, satisfies: Satisfies, from: nat): (r: Option<string>)
    requires from <= |clauses|
    ensures r.None? <==> forall i | from <= i < |clauses| :: !satisfies(version, clauses[i])
    ensures forall i | from <= i < |clauses| && satisfies(version, clauses[i])
              && (forall j | from <= j < i :: !satisfies(version, clauses[j])) :: r == Some(clauses[i])
    decreases |clauses| - from
  {
    if from == |clauses| then None
    else if satisfies(version, clauses[from]) then Some(clauses[from])
    else FirstSatisfied(clauses, version, satisfies, from + 1)
  }

  /**
   * The entry an advisory yields for a batch: the advisory with `affectedVersions` set to the
   * first clause satisfied by the batch's version of the package and `current` set to that
   * version; nothing when no clause is satisfied.
   */
  function Narrowed(a: Advisory, chunk: Collection<string>, satisfies: Satisfies): (r: Option<Vulnerability>)
    ensures r.None? <==> forall i | 0 <= i < |Clauses(a.affectedVersions)| ::
      !satisfies(chunk.Get(a.packageName, None), Clauses(a.affectedVersions)[i])
    ensures r.Some? ==>
      && r.value.packageName == a.packageName && r.value.title == a.title
      && r.value.link == a.link && r.value.reportedAt == a.reportedAt
      && r.value.current == chunk.Get(a.packageName, None)
      && Some(r.value.affectedVersions) == FirstSatisfied(Clauses(a.affectedVersions), r.value.current, satisfies, 0)
  {
    var installed := chunk.Get(a.packageName, None);
    match FirstSatisfied(Clauses(a.affectedVersions), installed, satisfies, 0)
    case None => None
    case Some(clause) => Some(Vulnerability(a.packageName, a.title, a.link, a.reportedAt, clause, installed))
  }

  /** The clause loop of one advisory, returning on the first satisfied clause. */
  method Narrow(a: Advisory, chunk: Collection<string>, satisfies: Satisfies) returns (r: Option<Vulnerability>)
    ensures r == Narrowed(a, chunk, satisfies)
  {
    var clauses := Clauses(a.affectedVersions);
    var installed := chunk.Get(a.packageName, None);
    var i := 0;
    while i < |clauses|
      invariant 0 <= i <= |clauses|
      invariant FirstSatisfied(clauses, installed, satisfies, i) == FirstSatisfied(clauses, installed, satisfies, 0)
    {
      if satisfies(installed, clauses[i]) {
        return Some(Vulnerability(a.packageName, a.title, a.link, a.reportedAt, clauses[i], installed));
      }
      i := i + 1;
    }
    return None;
  }

  /** The advisories of a response, one package's list after another, re-indexed. */
  function Advisories(response: PhpArray<PhpArray<Advisory>>): Collection<Advisory> {
    Flatten(Collect(response).Values())
  }

  /**
   * What one batch contributes: nothing when its request failed; otherwise the narrowed
   * advisories that matched, under their keys, in order.
   */
  function BatchResult(chunk: Collection<string>, response: Option<PhpArray<PhpArray<Advisory>>>, satisfies: Satisfies)
    : (r: PhpArray<Vulnerability>)
    ensures response.None? ==> r == []
    ensures response.Some? ==> forall i | 0 <= i < |Advisories(response.value).items| ::
      var (k, a) := Advisories(response.value).items[i];
      Narrowed(a, chunk, satisfies).Some? ==> (k, Narrowed(a, chunk, satisfies).value) in r
    ensures response.Some? ==> forall x | x in r ::
      exists i | 0 <= i < |Advisories(response.value).items| ::
        Advisories(response.value).items[i].0 == x.0 && Narrowed(Advisories(response.value).items[i].1, chunk, satisfies) == Some(x.1)
  {
    match response
    case None => []
    case Some(advisories) =>
      var narrowed := Advisories(advisories).Map((a, k) => Narrowed(a, chunk, satisfies));
      var r := FilterNulls(narrowed).ToArray();
      FilterNullsMembers(narrowed);
      assert forall i | 0 <= i < |narrowed.items| :: narrowed.items[i].0 == Advisories(advisories).items[i].0;
      forall x | x in r
        ensures exists i | 0 <= i < |narrowed.items| :: narrowed.items[i] == (x.0, Some(x.1))
      {
        var i :| 0 <= i < |narrowed.items| && narrowed.items[i] == (x.0, Some(x.1));
      }
      r
  }

  /**
   * The matched advisories keep the order of the response: the result's keys are the
   * response's advisory keys with the unmatched ones left out.
   */
  lemma BatchResultInOrder(chunk: Collection<string>, advisories: PhpArray<PhpArray<Advisory>>, satisfies: Satisfies)
    ensures Subseq(KeysOf(BatchResult(chunk, Some(advisories), satisfies)), KeysOf(Advisories(advisories).items))
  {
    var narrowed := Advisories(advisories).Map((a, k) => Narrowed(a, chunk, satisfies));
    var kept := ArrayFilter(narrowed.items, IsSome);
    assert KeysOf(BatchResult(chunk, Some(advisories), satisfies)) == KeysOf(kept);
    SubseqKeys(kept, narrowed.items);
    assert KeysOf(narrowed.items) == KeysOf(Advisories(advisories).items);
  }

  /** One batch: the request (None when it throws), then the advisory loop. */
  method Batch(chunk: Collection<string>, response: Option<PhpArray<PhpArray<Advisory>>>, satisfies: Satisfies)
    returns (r: PhpArray<Vulnerability>)
    ensures r == BatchResult(chunk, response, satisfies)
  {
    if response.None? {
      return [];
    }
    var advisories := Advisories(response.value);
    ghost var expected := advisories.Map((a, k) => Narrowed(a, chunk, satisfies));
    var narrowed: PhpArray<Option<Vulnerability>> := [];
    var i := 0;
    while i < |advisories.items|
      invariant 0 <= i <= |advisories.items|
      invariant narrowed == expected.items[..i]
    {
      var v := Narrow(advisories.items[i].1, chunk, satisfies);
      assert expected.items[i] == (advisories.items[i].0, v);
      PrefixSnoc(expected.items, i);
      narrowed := narrowed + [(advisories.items[i].0, v)];
      i := i + 1;
    }
    assert narrowed == expected.items;
    r := FilterNulls(Collection(narrowed)).ToArray();
  }

  /** The request a batch sends: its package names. */
  function Query(chunk: Collection<string>): (q: Request)
    ensures q.packages == KeysOf(chunk.items)
  {
    Request("GET", PackagistUrl, ValuesOf(chunk.Keys().ToArray()))
  }

  /** The batches of the lock: its name -> version entries, 30 at a time. */
  function Batches(lock: Lock.ComposerLock): Collection<Collection<string>> {
    Collect(lock.dependencies).Chunked(BatchSize)
  }

  /** The requests sent for a lock, one per batch, in batch order. */
  function Requests(lock: Lock.ComposerLock): (rs: seq<Request>)
    ensures |rs| == |Batches(lock).items|
  {
    var batches := Batches(lock).items;
    seq(|batches|, i requires 0 <= i < |batches| => Query(batches[i].1))
  }

  /** The per-batch results, under the batch keys. */
  function BatchResults(lock: Lock.ComposerLock, fetch: Fetch, satisfies: Satisfies): Collection<PhpArray<Vulnerability>> {
    Batches(lock).Map((chunk, k) => BatchResult(chunk, fetch(Query(chunk)), satisfies))
  }

  /** Every vulnerability of the lock: the batch results merged in batch order. */
  function AllVulnerabilities(lock: Lock.ComposerLock, fetch: Fetch, satisfies: Satisfies): Collection<Vulnerability> {
    Flatten(BatchResults(lock, fetch, satisfies))
  }

  /** vulnerabilitiesOf($d): exactly the entries for package `d`, in order, keys kept. */
  function VulnerabilitiesNamed(all: Collection<Vulnerability>, dependency: string): (r: Collection<Vulnerability>)
    ensures forall x | x in r.items :: x in all.items && x.1.packageName == dependency
    ensures forall x | x in all.items && x.1.packageName == dependency :: x in r.items
    ensures Subseq(r.items, all.items)
  {
    all.Filter((v: Vulnerability) => v.packageName == dependency)
  }

  /** The `packages` parameters of the requests, in order. */
  function RequestPackages(rs: seq<Request>): (ps: seq<seq<Key>>)
    ensures |ps| == |rs| && forall i | 0 <= i < |rs| :: ps[i] == rs[i].packages
  {
    seq(|rs|, i requires 0 <= i < |rs| => rs[i].packages)
  }

  lemma {:induction false} ConcatKeys<V>(arrays: seq<PhpArray<V>>, keys: seq<seq<Key>>)
    requires |keys| == |arrays| && forall i | 0 <= i < |arrays| :: keys[i] == KeysOf(arrays[i])
    ensures Concat(keys) == KeysOf(Concat(arrays))
  {
    if arrays != [] {
      ConcatKeys(arrays[1..], keys[1..]);
      assert KeysOf(Concat(arrays)) == KeysOf(arrays[0]) + KeysOf(Concat(arrays[1..]));
    }
  }

  /**
   * The lock's names are all queried, in lock order, each exactly once: every request carries
   * between 1 and 30 names, and the requests' names one after another are the lock's names.
   */
  lemma RequestsCoverLock(lock: Lock.ComposerLock)
    ensures forall i | 0 <= i < |Requests(lock)| :: 0 < |Requests(lock)[i].packages| <= BatchSize
    ensures Concat(RequestPackages(Requests(lock))) == KeysOf(lock.dependencies)
  {
    var batches := Batches(lock);
    var arrays := Unwrap(batches.items);
    ConcatKeys(arrays, RequestPackages(Requests(lock)));
  }

  /** A response whose per-package advisory lists are JSON lists (or a failed request). */
  predicate ListShaped(response: Option<PhpArray<PhpArray<Advisory>>>) {
    response.Some? ==> forall i | 0 <= i < |response.value| :: IntKeyed(response.value[i].1)
  }

  /** Every request the lock gives rise to is answered with lists (or fails). */
  predicate ResponsesListShaped(lock: Lock.ComposerLock, fetch: Fetch) {
    forall i | 0 <= i < |Requests(lock)| :: ListShaped(fetch(Requests(lock)[i]))
  }

  lemma BatchResultIntKeyed(chunk: Collection<string>, response: Option<PhpArray<PhpArray<Advisory>>>, satisfies: Satisfies)
    requires ListShaped(response)
    ensures IntKeyed(BatchResult(chunk, response, satisfies))
  {
    if response.Some? {
      var values := Collect(response.value).Values();
      assert forall i | 0 <= i < |values.items| :: IntKeyed(values.items[i].1);
      var advisories := Advisories(response.value);
      assert advisories.items == List(ConcatValues(ValuesOf(values.items)));
      var r := BatchResult(chunk, response, satisfies);
      forall j | 0 <= j < |r| ensures r[j].0.IntKey? {
        assert r[j] in r;
      }
    }
  }

  /** When the feed answers with lists, every batch result has integer keys only. */
  lemma BatchResultsIntKeyed(lock: Lock.ComposerLock, fetch: Fetch, satisfies: Satisfies)
    ensures ResponsesListShaped(lock, fetch) ==>
              forall i | 0 <= i < |BatchResults(lock, fetch, satisfies).items| :: IntKeyed(BatchResults(lock, fetch, satisfies).items[i].1)
  {
    if ResponsesListShaped(lock, fetch) {
      var results := BatchResults(lock, fetch, satisfies);
      forall i | 0 <= i < |results.items| ensures IntKeyed(results.items[i].1) {
        var chunk := Batches(lock).items[i].1;
        assert Requests(lock)[i] == Query(chunk);
        BatchResultIntKeyed(chunk, fetch(Query(chunk)), satisfies);
      }
    }
  }

  /**
   * When the feed answers with lists, the full vulnerability list is the batch results one
   * after another, in batch order, re-indexed from 0.
   */
  lemma AllVulnerabilitiesInBatchOrder(lock: Lock.ComposerLock, fetch: Fetch, satisfies: Satisfies)
    requires ResponsesListShaped(lock, fetch)
    ensures AllVulnerabilities(lock, fetch, satisfies).items
              == List(ConcatValues(ValuesOf(BatchResults(lock, fetch, satisfies).items)))
  {
    BatchResultsIntKeyed(lock, fetch, satisfies);
  }

  /** When the feed answers with lists, vulnerabilitiesOf($d) is a list too: its keys are integers. */
  lemma NamedIntKeyed(lock: Lock.ComposerLock, fetch: Fetch, satisfies: Satisfies, dependency: string)
    requires ResponsesListShaped(lock, fetch)
    ensures IntKeyed(VulnerabilitiesNamed(AllVulnerabilities(lock, fetch, satisfies), dependency).items)
  {
    var all := AllVulnerabilities(lock, fetch, satisfies);
    AllVulnerabilitiesInBatchOrder(lock, fetch, satisfies);
    var r := VulnerabilitiesNamed(all, dependency);
    forall j | 0 <= j < |r.items| ensures r.items[j].0.IntKey? {
      assert r.items[j] in r.items;
    }
  }

  /** The i-th batch's request and result. */
  lemma BatchAt(lock: Lock.ComposerLock, fetch: Fetch, satisfies: Satisfies, i: nat)
    requires i < |Batches(lock).items|
    ensures |Requests(lock)| == |BatchResults(lock, fetch, satisfies).items| == |Batches(lock).items|
    ensures var (k, chunk) := Batches(lock).items[i];
            && Requests(lock)[i] == Query(chunk)
            && BatchResults(lock, fetch, satisfies).items[i] == (k, BatchResult(chunk, fetch(Query(chunk)), satisfies))
  {
  }

  /** The advisory client with its memo of the full vulnerability list. */
  class Packagist {
    const fetch: Fetch
    const lock: Lock.ComposerLock
    const satisfies: Satisfies
    var vulnerabilities: Option<Collection<Vulnerability>>
    /** The requests sent so far. */
    ghost var requests: seq<Request>

    /** The memo, once set, is the full list, and the feed has been asked exactly once for it. */
    ghost predicate Valid()
      reads this
    {
      && (vulnerabilities.Some? ==> vulnerabilities.value == AllVulnerabilities(lock, fetch, satisfies))
      && requests == (if vulnerabilities.Some? then Requests(lock) else [])
    }

    constructor (fetch: Fetch, lock: Lock.ComposerLock, satisfies: Satisfies)
      ensures Valid()
      ensures this.fetch == fetch && this.lock == lock && this.satisfies == satisfies
      ensures vulnerabilities == None && requests == []
    {
      this.fetch := fetch;
      this.lock := lock;
      this.satisfies := satisfies;
      vulnerabilities := None;
      requests := [];
    }

    /** vulnerabilitiesOf($dependency) */
    method VulnerabilitiesOf(dependency: string) returns (r: Collection<Vulnerability>)
      requires Valid()
      modifies this
      ensures Valid() && vulnerabilities.Some?
      ensures r == VulnerabilitiesNamed(AllVulnerabilities(lock, fetch, satisfies), dependency)
      ensures old(vulnerabilities).Some? ==> vulnerabilities == old(vulnerabilities) && requests == old(requests)
    {
      var all := Vulnerabilities();
      r := VulnerabilitiesNamed(all, dependency);
    }

    /**
     * vulnerabilities(): the memo when set; otherwise one request per batch, in batch order,
     * and the merged results, which are memoised.
     */
    method Vulnerabilities() returns (r: Collection<Vulnerability>)
      requires Valid()
      modifies this
      ensures Valid()
      ensures vulnerabilities == Some(r) && r == AllVulnerabilities(lock, fetch, satisfies)
      ensures old(vulnerabilities).Some? ==> requests == old(requests)
    {
      if vulnerabilities.Some? {
        return vulnerabilities.value;
      }
      var chunks := Collect(lock.dependencies).Chunk(BatchSize);
      var results := RequestBatches(chunks);
      r := Flatten(Collection(results));
      vulnerabilities := Some(r);
    }

    /** The loop of vulnerabilities(): one request per batch, in order, each result kept under the batch's key. */
    method RequestBatches(chunks: Collection<Collection<string>>) returns (results: PhpArray<PhpArray<Vulnerability>>)
      requires chunks == Batches(lock) && requests == []
      modifies this
      ensures results == BatchResults(lock, fetch, satisfies).items
      ensures requests == Requests(lock) && vulnerabilities == old(vulnerabilities)
    {
      ghost var expected := BatchResults(lock, fetch, satisfies).items;
      ghost var sent := Requests(lock);
      results := [];
      var i := 0;
      while i < |chunks.items|
        invariant 0 <= i <= |chunks.items| == |expected| == |sent|
        invariant results == expected[..i]
        invariant requests == sent[..i]
        invariant vulnerabilities == old(vulnerabilities)
      {
        var chunk := chunks.items[i].1;
        var request := Query(chunk);
        BatchAt(lock, fetch, satisfies, i);
        PrefixSnoc(sent, i);
        requests := requests + [request];
        var batch := Batch(chunk, fetch(request), satisfies);
        PrefixSnoc(expected, i);
        TakeDistinct(expected, i + 1);
        results := results + [(chunks.items[i].0, batch)];
        i := i + 1;
      }
      assert results == expected;
      assert sent[..i] == sent;
    }

  }
}
