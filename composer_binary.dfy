/**
 * The package manager's command line. Each command's output is remembered under the exact
 * command string, so a command runs at most once; the listings are the decoded `installed`
 * list, and the `why` / `why-not` reports are reduced to the first word of each output line.
 * Running a process is the parameter `execute` (a command's output) and JSON decoding the
 * parameter `decode`.
 */
module ComposerBinary {
  import opened Wrappers
  import opened Php
  import opened Collections
  import opened Functions
  import opened Strings
  import Packagist

  const OutdatedCommand: string := "show --outdated --latest --no-dev --format=json"
  const AllCommand: string := "show --latest --no-dev --format=json"
  const RootCommand: string := "show --latest --direct --no-dev --format=json"

  /**
   * One installed package as the listings describe it. The last three fields are absent from
   * the listings and are filled in by the repository.
   */
  datatype Package = Package(name: string, version: string, latest: string, latestStatus: string,
                             description: Option<string>,
                             vulnerabilities: Option<PhpArray<Packagist.Vulnerability>>,
                             why: Option<PhpArray<string>>, whyNot: Option<PhpArray<string>>)

  /**
   * `json_decode($output, true)['installed']`: the decoded list, or None when the output does
   * not decode or has no `installed` entry.
   */
  type Decode = string -> Option<seq<Package>>

  /** A key written into a string, as PHP's `.` does. */
  function KeyText(k: Key): (s: string)
    ensures k.StrKey? ==> s == k.s
    ensures k.IntKey? ==> s == IntToString(k.i)
  {
    match k
    case StrKey(s) => s
    case IntKey(i) => IntToString(i)
  }

  function WhyCommand(version: string, name: Key): string {
    "why " + KeyText(name) + " --recursive"
  }

  function WhyNotCommand(version: string, name: Key): string {
    "why-not " + KeyText(name) + ":" + version
  }

  /** The `why` command of every dependency, under the dependency's key. */
  function WhyCommands(dependencies: Collection<string>): (r: Collection<string>)
    ensures KeysOf(r.items) == KeysOf(dependencies.items)
    ensures forall i | 0 <= i < |r.items| ::
              r.items[i].1 == "why " + KeyText(dependencies.items[i].0) + " --recursive"
  {
    dependencies.Map(WhyCommand)
  }

  /** The `why-not` command of every dependency (name and version), under its key. */
  function WhyNotCommands(dependencies: Collection<string>): (r: Collection<string>)
    ensures KeysOf(r.items) == KeysOf(dependencies.items)
    ensures forall i | 0 <= i < |r.items| ::
              r.items[i].1 == "why-not " + KeyText(dependencies.items[i].0) + ":" + dependencies.items[i].1
  {
    dependencies.Map(WhyNotCommand)
  }

  /** The commands, in order, that find no output in the cache and so start a process. */
  function Uncached(commands: seq<string>, cached: set<string>): (r: seq<string>)
    decreases |commands|
  {
    if commands == [] then []
    else
      var last := commands[|commands| - 1];
      Uncached(commands[..|commands| - 1], cached) + (if last in cached then [] else [last])
  }

  /** Exactly the commands not in the cache start a process, each occurrence once, in order. */
  lemma {:induction false} UncachedMembers(commands: seq<string>, cached: set<string>)
    ensures Subseq(Uncached(commands, cached), commands)
    ensures forall c | c in Uncached(commands, cached) :: c in commands && c !in cached
    ensures forall c | c in commands && c !in cached :: c in Uncached(commands, cached)
    decreases |commands|
  {
    if commands != [] {
      var n := |commands| - 1;
      UncachedMembers(commands[..n], cached);
      assert commands == commands[..n] + [commands[n]];
      var r := Uncached(commands[..n], cached);
      SubseqExtend(r, commands[..n], commands[n]);
      assert Uncached(commands, cached) == if commands[n] in cached then r else r + [commands[n]];
    }
  }

  lemma UncachedStep(items: seq<(Key, string)>, i: nat, cached: set<string>)
    requires i < |items|
    ensures Uncached(ValuesOf(items[..i + 1]), cached)
            == Uncached(ValuesOf(items[..i]), cached) + (if items[i].1 in cached then [] else [items[i].1])
  {
    var after := ValuesOf(items[..i + 1]);
    assert after[..|after| - 1] == ValuesOf(items[..i]);
  }

  /** Commands that are all cached start nothing, so a repeated run starts no process. */
  lemma {:induction false} AllCachedStartsNothing(commands: seq<string>, cached: set<string>)
    requires forall i | 0 <= i < |commands| :: commands[i] in cached
    ensures Uncached(commands, cached) == []
    decreases |commands|
  {
    if commands != [] {
      AllCachedStartsNothing(commands[..|commands| - 1], cached);
    }
  }

  /** The lines of an output (explode("\n", ...)). */
  function Lines(output: string): (lines: seq<string>)
    ensures |lines| >= 1
    ensures Join(lines, "\n") == output
  {
    JoinSplit(output, '\n');
    Split(output, '\n')
  }

  function FirstTokenOf(line: string, k: Key): string {
    FirstToken(line)
  }

  /** The first word of every line, as a list. */
  function Tokens(lines: seq<string>): (r: Collection<string>)
    ensures |r.items| == |lines|
    ensures forall i | 0 <= i < |lines| :: r.items[i] == (IntKey(i), FirstToken(lines[i]))
  {
    var c := Collect(List(lines)).Map(FirstTokenOf);
    assert forall i | 0 <= i < |lines| :: c.items[i].0 == KeysOf(c.items)[i] == IntKey(i);
    c
  }

  /** The lines' words that remain after `filter()` and `unique()`. */
  function DistinctTokens(lines: seq<string>): Collection<string> {
    Unique(Tokens(lines).Filter(Truthy))
  }

  /**
   * A line's word survives `filter()` and `unique()` exactly when it is truthy and not the
   * word of an earlier line.
   */
  lemma DistinctTokensExact(lines: seq<string>, i: nat)
    requires i < |lines|
    ensures (IntKey(i), FirstToken(lines[i])) in DistinctTokens(lines).items
            <==> Truthy(FirstToken(lines[i])) && forall j | 0 <= j < i :: FirstToken(lines[j]) != FirstToken(lines[i])
  {
    var t := Tokens(lines).items;
    var truthy := ArrayFilter(t, Truthy);
    var tok := FirstToken(lines[i]);
    assert t[i] == (IntKey(i), tok);
    if Truthy(tok) {
      FilterPrefix(t, Truthy, i);
      var before := ArrayFilter(t[..i], Truthy);
      var j := |before|;
      assert truthy[..j] == before;
      UniqueKeepsFirst(truthy, j);
      EarlierToken(lines, i);
    } else {
      assert t[i] !in truthy;
    }
  }

  /** A truthy word occurs among the truthy words of earlier lines iff an earlier line has it. */
  lemma EarlierToken(lines: seq<string>, i: nat)
    requires i < |lines| && Truthy(FirstToken(lines[i]))
    ensures FirstToken(lines[i]) in ValuesOf(ArrayFilter(Tokens(lines).items[..i], Truthy))
            <==> exists m | 0 <= m < i :: FirstToken(lines[m]) == FirstToken(lines[i])
  {
    var t := Tokens(lines).items;
    var before := ArrayFilter(t[..i], Truthy);
    var tok := FirstToken(lines[i]);
    if tok in ValuesOf(before) {
      var k :| 0 <= k < |before| && ValuesOf(before)[k] == tok;
      assert before[k] in t[..i];
      var m :| 0 <= m < i && t[..i][m] == before[k];
      assert FirstToken(lines[m]) == tok;
    }
    if m :| 0 <= m < i && FirstToken(lines[m]) == tok {
      assert t[m] == t[..i][m];
      assert t[m] in before;
      var k :| 0 <= k < |before| && before[k] == t[m];
      assert ValuesOf(before)[k] == tok;
    }
  }

  /**
   * One `why` entry: the first word of each line, without falsy words and repeats, keeping
   * only the root packages' names; each word keeps the index of its line.
   */
  function WhyEntry(lines: seq<string>, root: seq<string>): (r: PhpArray<string>)
    ensures forall x | x in r :: Truthy(x.1) && x.1 in root && x in Tokens(lines).items
    ensures forall x | x in r :: x in DistinctTokens(lines).items
    ensures forall x | x in DistinctTokens(lines).items && x.1 in root :: x in r
    ensures Subseq(r, Tokens(lines).items)
  {
    var tokens := Tokens(lines);
    var truthy := tokens.Filter(Truthy);
    var distinct := Unique(truthy);
    var r := distinct.Filter((d: string) => d in root).ToArray();
    SubseqTrans(distinct.items, truthy.items, tokens.items);
    SubseqTrans(r, distinct.items, tokens.items);
    r
  }

  /**
   * A line's word is in its `why` entry exactly when it is truthy, a root package's name,
   * and not the word of an earlier line.
   */
  lemma WhyEntryExact(lines: seq<string>, root: seq<string>, i: nat)
    requires i < |lines|
    ensures (IntKey(i), FirstToken(lines[i])) in WhyEntry(lines, root)
            <==> Truthy(FirstToken(lines[i])) && FirstToken(lines[i]) in root
                 && forall j | 0 <= j < i :: FirstToken(lines[j]) != FirstToken(lines[i])
  {
    DistinctTokensExact(lines, i);
  }

  /** One `why-not` entry: the first word of every line, one per line, nothing dropped. */
  function WhyNotEntry(lines: seq<string>): (r: PhpArray<string>)
    ensures |r| == |lines|
    ensures forall i | 0 <= i < |lines| :: r[i] == (IntKey(i), FirstToken(lines[i]))
    ensures forall i | 0 <= i < |lines| && lines[i] == "" :: r[i].1 == ""
  {
    Tokens(lines).ToArray()
  }

  function LinesOf(output: string, k: Key): seq<string> {
    Lines(output)
  }

  predicate NotEmpty(lines: seq<string>) {
    lines != []
  }

  /** The outputs cut into lines; the `filter` on the line arrays never drops one. */
  function OutputLines(outputs: Collection<string>): (r: Collection<seq<string>>)
    ensures KeysOf(r.items) == KeysOf(outputs.items)
    ensures forall i | 0 <= i < |r.items| :: r.items[i].1 == Lines(outputs.items[i].1)
  {
    var lines := outputs.Map(LinesOf);
    FilterAll(lines.items, NotEmpty);
    lines.Filter(NotEmpty)
  }

  /** The `why` entries of the outputs, under the outputs' keys. */
  function WhyEntries(outputs: Collection<string>, root: seq<string>): (r: Collection<PhpArray<string>>)
    ensures KeysOf(r.items) == KeysOf(outputs.items)
    ensures forall i | 0 <= i < |r.items| :: r.items[i].1 == WhyEntry(Lines(outputs.items[i].1), root)
  {
    OutputLines(outputs).Map((lines: seq<string>, k: Key) => WhyEntry(lines, root))
  }

  function WhyNotEntryOf(lines: seq<string>, k: Key): PhpArray<string> {
    WhyNotEntry(lines)
  }

  /** The `why-not` entries of the outputs, under the outputs' keys. */
  function WhyNotEntries(outputs: Collection<string>): (r: Collection<PhpArray<string>>)
    ensures KeysOf(r.items) == KeysOf(outputs.items)
    ensures forall i | 0 <= i < |r.items| :: r.items[i].1 == WhyNotEntry(Lines(outputs.items[i].1))
  {
    OutputLines(outputs).Map(WhyNotEntryOf)
  }

  function NameOf(d: Package, k: Key): string {
    d.name
  }

  /** A command still to be answered: from the cache, or by a started process. */
  datatype Pending = Cached(output: string) | Started(command: string)

  class Binary {
    const execute: string -> string
    const decode: Decode
    /** Outputs by exact command string. */
    var cache: map<string, string>
    /** The commands that started a process, in order. */
    ghost var started: seq<string>

    /** A cached output is the command's output. */
    ghost predicate Valid()
      reads this
    {
      forall c | c in cache :: cache[c] == execute(c)
    }

    constructor (execute: string -> string, decode: Decode)
      ensures this.execute == execute && this.decode == decode
      ensures Valid() && cache == map[] && started == []
    {
      this.execute := execute;
      this.decode := decode;
      cache := map[];
      started := [];
    }

    /** `$result['installed'] ?? []` over one decoded output. */
    function Installed(output: string): (r: PhpArray<Package>)
      ensures decode(output).None? ==> r == []
      ensures decode(output).Some? ==> r == List(decode(output).value)
    {
      match decode(output)
      case None => []
      case Some(installed) => List(installed)
    }

    /** The names of the root packages. */
    function RootNames(): (names: seq<string>)
      ensures |names| == |Installed(execute(RootCommand))|
      ensures forall i | 0 <= i < |names| :: names[i] == Installed(execute(RootCommand))[i].1.name
    {
      ValuesOf(Collect(Installed(execute(RootCommand))).Map(NameOf).ToArray())
    }

    /** Every command's output, under the command's key. */
    function Outputs(commands: Collection<string>): (r: Collection<string>)
      ensures KeysOf(r.items) == KeysOf(commands.items)
      ensures forall i | 0 <= i < |r.items| :: r.items[i].1 == execute(commands.items[i].1)
    {
      commands.Map((command: string, k: Key) => execute(command))
    }

    /**
     * The `why` report: for each dependency (name => version), under its key, the root
     * packages named in the output of `why <name> --recursive`.
     */
    function WhyReport(dependencies: Collection<string>): (r: Collection<PhpArray<string>>)
      ensures KeysOf(r.items) == KeysOf(dependencies.items)
      ensures forall i | 0 <= i < |r.items| ::
                r.items[i].1 == WhyEntry(Lines(execute("why " + KeyText(dependencies.items[i].0) + " --recursive")),
                                         RootNames())
    {
      WhyEntries(Outputs(WhyCommands(dependencies)), RootNames())
    }

    /**
     * The `why-not` report: for each dependency (name => version), under its key, the first
     * word of each line of the output of `why-not <name>:<version>`.
     */
    function WhyNotReport(dependencies: Collection<string>): (r: Collection<PhpArray<string>>)
      ensures KeysOf(r.items) == KeysOf(dependencies.items)
      ensures forall i | 0 <= i < |r.items| ::
                r.items[i].1 == WhyNotEntry(Lines(execute("why-not " + KeyText(dependencies.items[i].0) + ":"
                                                          + dependencies.items[i].1)))
    {
      WhyNotEntries(Outputs(WhyNotCommands(dependencies)))
    }

    /**
     * run($commands): one output per command, under the command's key and in order. A cached
     * command is answered from the cache; every other command starts a process (all of them
     * first), then each started process's output is awaited and stored under its command.
     */
    method Run(commands: Collection<string>) returns (outputs: Collection<string>)
      requires Valid()
      modifies this
      ensures Valid()
      ensures outputs == Outputs(commands)
      ensures forall c :: c in cache <==> c in old(cache) || c in ValuesOf(commands.items)
      ensures started == old(started) + Uncached(ValuesOf(commands.items), old(cache).Keys)
    {
      var pending := Start(commands.items);
      var results := Await(commands.items, pending);
      assert forall k | 0 <= k < |results| :: results[k].0 == commands.items[k].0;
      outputs := Collection(results);
      assert outputs.items == Outputs(commands).items by {
        assert forall k | 0 <= k < |results| :: Outputs(commands).items[k].0 == KeysOf(commands.items)[k];
      }
    }

    /** The first map of run(): each command is answered from the cache or starts a process. */
    method Start(items: PhpArray<string>) returns (pending: seq<(Key, Pending)>)
      requires Valid()
      modifies this
      ensures Valid() && cache == old(cache)
      ensures |pending| == |items|
      ensures forall j | 0 <= j < |items| :: pending[j] == Plan(items[j], cache.Keys)
      ensures started == old(started) + Uncached(ValuesOf(items), cache.Keys)
    {
      ghost var cached := cache.Keys;
      pending := [];
      var i := 0;
      while i < |items|
        invariant 0 <= i <= |items|
        invariant cache == old(cache)
        invariant |pending| == i
        invariant forall j | 0 <= j < i :: pending[j] == Plan(items[j], cached)
        invariant started == old(started) + Uncached(ValuesOf(items[..i]), cached)
      {
        var command := items[i].1;
        UncachedStep(items, i, cached);
        if command in cache {
          pending := pending + [(items[i].0, Cached(cache[command]))];
        } else {
          started := started + [command];
          pending := pending + [(items[i].0, Started(command))];
        }
        i := i + 1;
      }
      assert items[..i] == items;
    }

    /** What the first map of run() makes of one command. */
    function Plan(entry: (Key, string), cached: set<string>): (Key, Pending) {
      (entry.0, if entry.1 in cached then Cached(execute(entry.1)) else Started(entry.1))
    }

    /**
     * The second map of run(): a cached output is kept; a started process is awaited and its
     * output stored under its command.
     */
    method Await(items: PhpArray<string>, pending: seq<(Key, Pending)>) returns (results: seq<(Key, string)>)
      requires Valid()
      requires |pending| == |items|
      requires forall j | 0 <= j < |items| :: pending[j] == Plan(items[j], cache.Keys)
      modifies this
      ensures Valid() && started == old(started)
      ensures |results| == |items|
      ensures forall k | 0 <= k < |items| :: results[k] == (items[k].0, execute(items[k].1))
      ensures forall c :: c in cache <==> c in old(cache) || c in ValuesOf(items)
    {
      results := [];
      var j := 0;
      while j < |pending|
        invariant 0 <= j <= |pending|
        invariant Valid() && started == old(started)
        invariant |results| == j
        invariant forall k | 0 <= k < j :: results[k] == (items[k].0, execute(items[k].1))
        invariant forall c :: c in cache <==> c in old(cache) || c in ValuesOf(items[..j])
      {
        assert ValuesOf(items[..j + 1]) == ValuesOf(items[..j]) + [items[j].1];
        match pending[j].1 {
          case Cached(output) =>
            results := results + [(pending[j].0, output)];
          case Started(command) =>
            var output := execute(command);
            cache := cache[command := output];
            results := results + [(pending[j].0, output)];
        }
        j := j + 1;
      }
      assert items[..j] == items;
    }

    /** The cache's promise: running the same commands again starts no process. */
    method RunTwice(commands: Collection<string>) returns (first: Collection<string>, second: Collection<string>)
      requires Valid()
      modifies this
      ensures Valid()
      ensures first == second == Outputs(commands)
      ensures started == old(started) + Uncached(ValuesOf(commands.items), old(cache).Keys)
    {
      first := Run(commands);
      AllCachedStartsNothing(ValuesOf(commands.items), cache.Keys);
      second := Run(commands);
    }

    /** current($this->run([$command])) decoded: the installed list, [] when absent. */
    method Listing(command: string) returns (r: PhpArray<Package>)
      requires Valid()
      modifies this
      ensures Valid()
      ensures r == Installed(execute(command))
      ensures forall c :: c in cache <==> c in old(cache) || c == command
      ensures started == old(started) + Uncached([command], old(cache).Keys)
    {
      assert ValuesOf(List([command])) == [command];
      var outputs := Run(Collect(List([command])));
      r := Installed(outputs.items[0].1);
    }

    /** outdated(): the installed, outdated packages. */
    method Outdated() returns (r: PhpArray<Package>)
      requires Valid()
      modifies this
      ensures Valid()
      ensures r == Installed(execute(OutdatedCommand))
      ensures forall c :: c in cache <==> c in old(cache) || c == OutdatedCommand
      ensures started == old(started) + Uncached([OutdatedCommand], old(cache).Keys)
    {
      r := Listing(OutdatedCommand);
    }

    /** all(): every installed package. */
    method All() returns (r: PhpArray<Package>)
      requires Valid()
      modifies this
      ensures Valid()
      ensures r == Installed(execute(AllCommand))
      ensures forall c :: c in cache <==> c in old(cache) || c == AllCommand
      ensures started == old(started) + Uncached([AllCommand], old(cache).Keys)
    {
      r := Listing(AllCommand);
    }

    /** root(): the installed direct dependencies. */
    method Root() returns (r: PhpArray<Package>)
      requires Valid()
      modifies this
      ensures Valid()
      ensures r == Installed(execute(RootCommand))
      ensures forall c :: c in cache <==> c in old(cache) || c == RootCommand
      ensures started == old(started) + Uncached([RootCommand], old(cache).Keys)
    {
      r := Listing(RootCommand);
    }

    /**
     * why($dependencies): for every dependency (name => version), under its key, the root
     * packages that require it, read from `why <name> --recursive`.
     */
    method Why(dependencies: Collection<string>) returns (r: Collection<PhpArray<string>>)
      requires Valid()
      modifies this
      ensures Valid()
      ensures r == WhyReport(dependencies)
      ensures forall c :: c in cache <==> c in old(cache) || c == RootCommand
                                           || c in ValuesOf(WhyCommands(dependencies).items)
      ensures started == old(started) + Uncached([RootCommand], old(cache).Keys)
                         + Uncached(ValuesOf(WhyCommands(dependencies).items), old(cache).Keys + {RootCommand})
    {
      var root := Root();
      var names := ValuesOf(Collect(root).Map(NameOf).ToArray());
      assert names == RootNames();
      ghost var cachedBefore := cache.Keys;
      assert cachedBefore == old(cache).Keys + {RootCommand};
      var outputs := Run(WhyCommands(dependencies));
      r := WhyEntries(outputs, names);
    }

    /**
     * whyNot($dependencies): for every dependency (name => version), under its key, the first
     * word of each line of `why-not <name>:<version>`.
     */
    method WhyNot(dependencies: Collection<string>) returns (r: Collection<PhpArray<string>>)
      requires Valid()
      modifies this
      ensures Valid()
      ensures r == WhyNotReport(dependencies)
      ensures forall c :: c in cache <==> c in old(cache) || c in ValuesOf(WhyNotCommands(dependencies).items)
      ensures started == old(started) + Uncached(ValuesOf(WhyNotCommands(dependencies).items), old(cache).Keys)
    {
      var outputs := Run(WhyNotCommands(dependencies));
      r := WhyNotEntries(outputs);
    }
  }
}
