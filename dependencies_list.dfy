/**
 * The dependencies-list handler: fails the command when any dependency has a vulnerability,
 * and renders every dependency that is behind its latest release or vulnerable.
 */
module DependenciesList {
  import opened Php
  import opened Collections
  import opened ComposerBinary
  import opened Console
  import ComposerRepository

  /** ! empty($dependency['vulnerabilities']): a missing or empty list means none. */
  predicate Vulnerable(d: Package) {
    d.vulnerabilities.Some? && |d.vulnerabilities.value| > 0
  }

  /** The filter of __invoke: behind its latest release, or vulnerable. */
  predicate Shown(d: Package) {
    d.latestStatus != ComposerRepository.UpToDate || Vulnerable(d)
  }

  /**
   * The exit code after the map callback has seen `items` one by one, starting from
   * `current`: it becomes Command::FAILURE as soon as a record is vulnerable, and is
   * otherwise left alone.
   */
  function ExitAfter(current: int, items: seq<(Key, Package)>): (code: int)
    ensures (exists x | x in items :: Vulnerable(x.1)) ==> code == Failure
    ensures (forall x | x in items :: !Vulnerable(x.1)) ==> code == current
    decreases |items|
  {
    if items == [] then current
    else
      var last := items[|items| - 1];
      var before := ExitAfter(current, items[..|items| - 1]);
      assert forall x | x in items :: x in items[..|items| - 1] || x == last;
      if Vulnerable(last.1) then Failure else before
  }

  /**
   * What the handler renders: the values of the records filter() keeps, each once and in
   * the order of all().
   */
  function Rendered(all: Collection<Package>): (r: seq<Package>)
    ensures r == ValuesOf(all.Filter(Shown).items)
    ensures Subseq(r, ValuesOf(all.items))
    ensures |r| <= |all.items|
    ensures forall i | 0 <= i < |all.items| && Shown(all.items[i].1) :: all.items[i].1 in r
    ensures forall d | d in r :: Shown(d) && exists i | 0 <= i < |all.items| :: all.items[i].1 == d
  {
    var kept := all.Filter(Shown).items;
    SubseqLength(kept, all.items);
    SubseqValues(kept, all.items);
    assert forall i | 0 <= i < |all.items| && Shown(all.items[i].1) :: all.items[i] in kept;
    forall d | d in ValuesOf(kept)
      ensures Shown(d) && exists i | 0 <= i < |all.items| :: all.items[i].1 == d
    {
      var j :| 0 <= j < |kept| && kept[j].1 == d;
      assert kept[j] in all.items;
    }
    ValuesOf(kept)
  }

  /**
   * A command that has not failed yet fails exactly when one of the rendered records is
   * vulnerable: no vulnerable record goes unrendered.
   */
  lemma {:induction false} FailureIsShown(current: int, all: Collection<Package>)
    requires current != Failure
    ensures ExitAfter(current, all.items) == Failure <==> exists d | d in Rendered(all) :: Vulnerable(d)
  {
    if ExitAfter(current, all.items) == Failure {
      var x :| x in all.items && Vulnerable(x.1);
      var i :| 0 <= i < |all.items| && all.items[i] == x;
      assert all.items[i].1 in Rendered(all);
    } else {
      forall d | d in Rendered(all)
        ensures !Vulnerable(d)
      {
        var i :| 0 <= i < |all.items| && all.items[i].1 == d;
        assert all.items[i] in all.items;
      }
    }
  }

  /**
   * The map of __invoke: the callback fails the command for a vulnerable record and hands
   * every record back unchanged.
   */
  method MarkVulnerable(all: Collection<Package>, output: Output) returns (mapped: Collection<Package>)
    modifies output
    ensures mapped == all
    ensures output.exitCode == ExitAfter(old(output.exitCode), all.items)
    ensures output.written == old(output.written) && output.outdatedInfos == old(output.outdatedInfos)
  {
    var items: seq<(Key, Package)> := [];
    var i := 0;
    while i < |all.items|
      invariant 0 <= i <= |all.items|
      invariant items == all.items[..i]
      invariant output.exitCode == ExitAfter(old(output.exitCode), all.items[..i])
      invariant output.written == old(output.written) && output.outdatedInfos == old(output.outdatedInfos)
    {
      var dependency := all.items[i].1;
      assert all.items[..i + 1][..i] == all.items[..i];
      if Vulnerable(dependency) {
        output.ExitWith(Failure);
      }
      items := items + [(all.items[i].0, dependency)];
      i := i + 1;
    }
    assert items == all.items;
    mapped := Collection(items);
  }

  /** each(fn ($dependency) => $output->outdatedInfo($dependency)): one call per record, in order. */
  method RenderEach(shown: Collection<Package>, output: Output)
    modifies output
    ensures output.outdatedInfos == old(output.outdatedInfos) + ValuesOf(shown.items)
    ensures output.exitCode == old(output.exitCode) && output.written == old(output.written)
  {
    var self, calls := shown.Each();
    var i := 0;
    while i < |calls|
      invariant 0 <= i <= |calls| == |shown.items|
      invariant output.outdatedInfos == old(output.outdatedInfos) + ValuesOf(shown.items[..i])
      invariant output.exitCode == old(output.exitCode) && output.written == old(output.written)
    {
      assert ValuesOf(shown.items[..i + 1]) == ValuesOf(shown.items[..i]) + [calls[i].0];
      output.OutdatedInfo(calls[i].0);
      i := i + 1;
    }
    assert shown.items[..i] == shown.items;
  }

  /** The map, filter and each of __invoke over the records of all(). */
  method Report(all: Collection<Package>, output: Output)
    modifies output
    ensures output.exitCode == ExitAfter(old(output.exitCode), all.items)
    ensures output.outdatedInfos == old(output.outdatedInfos) + Rendered(all)
    ensures output.written == old(output.written)
  {
    var mapped := MarkVulnerable(all, output);
    var shown := mapped.Filter(Shown);
    RenderEach(shown, output);
  }

  class Handler {
    const composer: ComposerRepository.Composer

    constructor (composer: ComposerRepository.Composer)
      ensures this.composer == composer
    {
      this.composer := composer;
    }

    /**
     * __invoke: the exit code fails iff some record of all() is vulnerable (otherwise it is
     * untouched), and the records rendered are those of all() that are shown, in order.
     */
    method Invoke(output: Output)
      requires composer.Valid()
      modifies composer.binary, composer.packagist, output
      ensures composer.Valid()
      ensures output.exitCode == ExitAfter(old(output.exitCode), composer.AllView().items)
      ensures output.outdatedInfos == old(output.outdatedInfos) + Rendered(composer.AllView())
      ensures output.written == old(output.written)
    {
      var all := composer.All();
      Report(all, output);
    }
  }
}
