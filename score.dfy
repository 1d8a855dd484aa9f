/**
 * The score handler: the share of dependencies that are up to date, the colour of the
 * badge, the one-line summary and the `--min` exit rule.
 */
module Score {
  import opened Php
  import opened Collections
  import opened Strings
  import opened ComposerBinary
  import opened Console
  import ComposerRepository
  import Packagist

  /**
   * ($updated * 100) / $count when there are dependencies, and 0 otherwise. The division is
   * exact here (see "Left out" in README for floating point).
   */
  function Percent(count: nat, updated: nat): (r: real)
    ensures count > 0 ==> r * count as real == (updated * 100) as real
    ensures count == 0 ==> r == 0.0
  {
    if count > 0 then (updated * 100) as real / count as real else 0.0
  }

  /**
   * With no more up-to-date dependencies than dependencies, the percentage lies in 0..100,
   * and it is exactly 100 when, and only when, every one of at least one dependency is up to
   * date.
   */
  lemma PercentBounds(count: nat, updated: nat)
    requires updated <= count
    ensures 0.0 <= Percent(count, updated) <= 100.0
    ensures Percent(count, updated) == 100.0 <==> count > 0 && updated == count
  {
    if count > 0 {
      var p := Percent(count, updated);
      assert p * count as real == (updated * 100) as real;
      assert (updated * 100) as real <= (count * 100) as real;
      if p == 100.0 {
        assert (updated * 100) as real == (count * 100) as real;
      }
    }
  }

  /** The vulnerability list of one record, as the map of __invoke gives it to flatten. */
  function VulnerabilityList(d: Package, k: Key): PhpArray<Packagist.Vulnerability> {
    d.vulnerabilities.GetOr([])
  }

  /** The number of vulnerabilities, summed record by record. */
  function VulnerabilityTotal(items: seq<(Key, Package)>): nat {
    if items == [] then 0 else |VulnerabilityList(items[0].1, items[0].0)| + VulnerabilityTotal(items[1..])
  }

  /** The vulnerabilities of all records in one list: map to the lists, then flatten(). */
  function Vulnerabilities(all: Collection<Package>): Collection<Packagist.Vulnerability> {
    Flatten(all.Map(VulnerabilityList))
  }

  lemma {:induction false} ConcatLength(arrays: seq<PhpArray<Packagist.Vulnerability>>, items: seq<(Key, Package)>)
    requires |arrays| == |items|
    requires forall i | 0 <= i < |items| :: arrays[i] == VulnerabilityList(items[i].1, items[i].0)
    ensures |ConcatValues(arrays)| == VulnerabilityTotal(items)
  {
    if arrays != [] {
      ConcatLength(arrays[1..], items[1..]);
    }
  }

  /**
   * When every record's vulnerabilities form a list, flatten() loses none of them: the count
   * is the sum of the lengths of the records' lists.
   */
  lemma VulnerabilitiesCounted(all: Collection<Package>)
    requires forall i | 0 <= i < |all.items| :: IntKeyed(VulnerabilityList(all.items[i].1, all.items[i].0))
    ensures Vulnerabilities(all).Count() == VulnerabilityTotal(all.items)
  {
    var lists := all.Map(VulnerabilityList);
    ConcatLength(ValuesOf(lists.items), all.items);
  }

  /** Records that all carry an integer-keyed vulnerability list lose none of it to flatten(). */
  lemma ListsCounted(all: Collection<Package>)
    requires forall i | 0 <= i < |all.items| ::
               all.items[i].1.vulnerabilities.Some? && IntKeyed(all.items[i].1.vulnerabilities.value)
    ensures Vulnerabilities(all).Count() == VulnerabilityTotal(all.items)
  {
    VulnerabilitiesCounted(all);
  }

  /** getBgColor: red for any vulnerability, else green from 80, yellow from 50, red below. */
  function BgColor(percentage: real, vulnerabilities: nat): (color: string)
    ensures vulnerabilities > 0 ==> color == "red"
    ensures vulnerabilities == 0 ==> (color == "green" <==> percentage >= 80.0)
    ensures vulnerabilities == 0 ==> (color == "yellow" <==> 50.0 <= percentage < 80.0)
    ensures vulnerabilities == 0 ==> (color == "red" <==> percentage < 50.0)
  {
    if vulnerabilities > 0 then "red"
    else if percentage >= 80.0 then "green"
    else if percentage >= 50.0 then "yellow"
    else "red"
  }

  /** The badge colours from worst to best. */
  function Rank(color: string): nat {
    if color == "green" then 2 else if color == "yellow" then 1 else 0
  }

  /** With the same vulnerabilities, a higher percentage never gets a worse colour. */
  lemma BgColorMonotone(p: real, q: real, vulnerabilities: nat)
    requires p <= q
    ensures Rank(BgColor(p, vulnerabilities)) <= Rank(BgColor(q, vulnerabilities))
  {
  }

  /**
   * getPercentageAsString: exactly 100 gives "100 %"; any other value its one-decimal form
   * (number_format, the parameter `oneDecimal`) and "%", padded on the right to 5 characters.
   */
  function PercentageText(percentage: real, oneDecimal: real -> string): (r: string)
    ensures percentage == 100.0 ==> r == "100 %"
    ensures percentage != 100.0 ==> oneDecimal(percentage) + "%" <= r
    ensures |r| >= 5
    ensures percentage != 100.0 ==>
      |r| == if |oneDecimal(percentage)| + 1 < 5 then 5 else |oneDecimal(percentage)| + 1
    ensures forall i | percentage != 100.0 && |oneDecimal(percentage)| + 1 <= i < |r| :: r[i] == ' '
  {
    PadRight((if percentage == 100.0 then "100 " else oneDecimal(percentage)) + "%", 5)
  }

  /** A one-decimal form of at most four characters (0.0 up to 99.9) gives exactly five. */
  lemma PercentageTextWidth(percentage: real, oneDecimal: real -> string)
    requires percentage != 100.0 ==> |oneDecimal(percentage)| <= 4
    ensures |PercentageText(percentage, oneDecimal)| == 5
  {
  }

  /** ", <fg=yellow>N outdated</>" */
  function OutdatedTag(n: nat): string {
    ", <fg=yellow>" + NatToString(n) + " outdated</>"
  }

  /** ", <fg=red>K vulnerability</>" for one, ", <fg=red>K vulnerabilities</>" for more. */
  function VulnerabilityTag(k: nat): string {
    ", <fg=red>" + NatToString(k) + " vulnerabilit" + (if k > 1 then "ies" else "y") + "</>"
  }

  /**
   * The summary after __invoke: the count, the outdated part only when some are outdated,
   * the vulnerability part only when there are vulnerabilities, and a full stop.
   */
  function SummaryText(count: nat, outdated: nat, vulnerabilities: nat): (r: string)
    ensures |NatToString(count)| < |r| && r[..|NatToString(count)|] == NatToString(count)
    ensures r[|r| - 1] == '.'
  {
    NatToString(count) + " dependencies"
      + (if outdated > 0 then OutdatedTag(outdated) else "")
      + (if vulnerabilities > 0 then VulnerabilityTag(vulnerabilities) else "")
      + "."
  }

  /** The summary's first word reads back as the number of dependencies. */
  lemma SummaryCount(count: nat, outdated: nat, vulnerabilities: nat)
    ensures var token := FirstToken(SummaryText(count, outdated, vulnerabilities));
            (forall i | 0 <= i < |token| :: IsDigit(token[i])) && DecimalValue(token) == count
  {
    var digits := NatToString(count);
    var line := SummaryText(count, outdated, vulnerabilities);
    var token := FirstToken(line);
    assert line[..|digits|] == digits && line[|digits|] == ' ';
    assert forall i | 0 <= i < |digits| :: line[i] == digits[i] && IsDigit(digits[i]);
    assert token == digits;
    DecimalRoundTrip(count);
  }

  /** The summary is the bare "N dependencies." exactly when nothing is outdated or vulnerable. */
  lemma SummaryQuiet(count: nat, outdated: nat, vulnerabilities: nat)
    ensures SummaryText(count, outdated, vulnerabilities) == NatToString(count) + " dependencies."
            <==> outdated == 0 && vulnerabilities == 0
  {
    var base := NatToString(count) + " dependencies";
    if outdated > 0 || vulnerabilities > 0 {
      assert |SummaryText(count, outdated, vulnerabilities)| > |base + "."|;
    }
  }

  /**
   * The summary as __invoke builds it: the count, then whenNotEmpty on the outdated
   * packages and on the vulnerabilities appends their parts, then the full stop.
   */
  method Summary(count: nat, outdated: Collection<Package>, vulnerabilities: Collection<Packagist.Vulnerability>)
    returns (resume: string)
    ensures resume == SummaryText(count, outdated.Count(), vulnerabilities.Count())
  {
    resume := NatToString(count) + " dependencies";
    var _, outdatedCall := outdated.WhenNotEmpty();
    if outdatedCall.Some? {
      resume := resume + OutdatedTag(outdatedCall.value);
    }
    var _, vulnerabilitiesCall := vulnerabilities.WhenNotEmpty();
    if vulnerabilitiesCall.Some? {
      resume := resume + VulnerabilityTag(vulnerabilitiesCall.value);
    }
    resume := resume + ".";
  }

  /** The three painted lines: a blank badge row, the badge with the score and summary, a blank row. */
  function Badge(color: string, score: string, resume: string): seq<string> {
    var blank := "  <bg=" + color + ";fg=black>           </>";
    [blank, "  <bg=" + color + ";fg=black;options=bold>   " + score + "   </>  " + resume, blank]
  }

  /** The exit rule: a percentage under `min` fails the command; otherwise it is untouched. */
  function ScoreExit(current: int, percentage: real, min: real): (r: int)
    ensures r == Failure <==> percentage < min || current == Failure
    ensures min <= percentage ==> r == current
  {
    if percentage < min then Failure else current
  }

  class Handler {
    const composer: ComposerRepository.Composer

    constructor (composer: ComposerRepository.Composer)
      ensures this.composer == composer
    {
      this.composer := composer;
    }

    /** The percentage of __invoke, from the sizes of all() and updated(). */
    function Percentage(): real {
      Percent(composer.AllView().Count(), composer.UpdatedView().Count())
    }

    /** The score is a percentage: never negative and never above 100. */
    lemma PercentageBounded()
      ensures 0.0 <= Percentage() <= 100.0
    {
      composer.UpdatedExact();
      SubseqLength(composer.UpdatedView().items, composer.AllView().items);
      PercentBounds(composer.AllView().Count(), composer.UpdatedView().Count());
    }

    /**
     * When the feed answers with lists, the badge's vulnerability count is the number of
     * vulnerabilities over all packages of all(): flatten() loses none.
     */
    lemma VulnerabilitiesOfAllCounted()
      requires Packagist.ResponsesListShaped(composer.packagist.lock, composer.packagist.fetch)
      ensures Vulnerabilities(composer.AllView()).Count() == VulnerabilityTotal(composer.AllView().items)
    {
      composer.AllViewVulnerabilityLists();
      ListsCounted(composer.AllView());
    }

    /** With the default `--min` of 0.0 the score never changes the exit code. */
    lemma DefaultMinKeepsExit(current: int)
      ensures ScoreExit(current, Percentage(), 0.0) == current
    {
      PercentageBounded();
    }

    /**
     * __invoke: an empty line, the three badge lines, an empty line; the exit code fails
     * iff the percentage is under `min`. `oneDecimal` stands for number_format($p, 1, '.', '').
     */
    method Invoke(output: Output, min: real, oneDecimal: real -> string)
      requires composer.Valid()
      modifies composer.binary, composer.packagist, output
      ensures composer.Valid()
      ensures output.exitCode == ScoreExit(old(output.exitCode), Percentage(), min)
      ensures output.written
              == old(output.written) + [""]
                 + Badge(BgColor(Percentage(), Vulnerabilities(composer.AllView()).Count()),
                         PercentageText(Percentage(), oneDecimal),
                         SummaryText(composer.AllView().Count(), composer.OutdatedView().Count(),
                                     Vulnerabilities(composer.AllView()).Count()))
                 + [""]
      ensures output.outdatedInfos == old(output.outdatedInfos)
    {
      output.Line();
      var count, percentage, vulnerabilities := Figures();
      var asString := PercentageText(percentage, oneDecimal);
      var bgColor := BgColor(percentage, vulnerabilities.Count());
      var outdated := composer.Outdated();
      var resume := Summary(count, outdated, vulnerabilities);
      output.Paint(Badge(bgColor, asString, resume));
      if percentage < min {
        output.ExitWith(Failure);
      }
      output.Line();
    }

    /**
     * The figures of __invoke: the size of all(), the percentage (asking updated() only when
     * all() is not empty) and the flattened vulnerabilities of all().
     */
    method Figures() returns (count: nat, percentage: real, vulnerabilities: Collection<Packagist.Vulnerability>)
      requires composer.Valid()
      modifies composer.binary, composer.packagist
      ensures composer.Valid()
      ensures count == composer.AllView().Count() && percentage == Percentage()
      ensures vulnerabilities == Vulnerabilities(composer.AllView())
    {
      var all := composer.All();
      count := all.Count();
      percentage := 0.0;
      if count > 0 {
        var updated := composer.Updated();
        percentage := (updated.Count() * 100) as real / count as real;
      }
      var again := composer.All();
      vulnerabilities := Flatten(again.Map(VulnerabilityList));
    }
  }
}
