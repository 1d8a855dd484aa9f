# Patrol, modelled in Dafny

Patrol inspects a PHP project's dependencies. It reads the project's `composer.lock` and
asks the Packagist security-advisory feed about every locked package, in batches of 30.
It also runs `composer show` to list the installed and outdated packages. Each listed
package is enriched with four things:

- its description, without trailing dots;
- the advisories that match its installed version;
- the root packages that require it (`composer why`);
- what blocks its upgrade (`composer why-not`).

Two handlers then report on the result:

- **Score** prints a badge. It carries the share of packages that are up to date, a colour
  and a one-line summary, and it fails the command when the share is under `--min`.
- **DependenciesList** renders every package that is behind its latest release or has a
  vulnerability. It fails the command when any package has a vulnerability.

The model follows the source file by file, with one module per file:

| module | file | what it holds |
|---|---|---|
| `Php`, `Strings` | `php.dfy`, `strings.dfy` | The PHP built-ins Patrol relies on: arrays as ordered maps with unique `int`/`string` keys, `array_filter`, `array_chunk`, `array_merge`, `array_unique`, `$a[$k] = $v`, `explode`, `implode`, `rtrim`, `str_replace` of one character, `str_pad` and decimal printing. |
| `Collections` | `collection.dfy` | The `Collection` wrapper, a value that is never changed after construction. The foreach-loop operations (`chunk`, `keyBy`, `where`, `each`, `whenNotEmpty`) are methods, proved against the functions that specify them. |
| `Functions` | `functions.dfy` | `collect` and `tap`. `tap` runs its callback on a mutable object. |
| `Lock` | `composer_lock.dfy` | `ComposerLock::fromFile` and the name → version map. |
| `Packagist` | `packagist.dfy` | The advisory matcher: batching, clause matching, and the memo of the full list (a class). |
| `ComposerBinary` | `composer_binary.dfy` | The command cache (a class), the command strings, and the parsing of the `why` and `why-not` output. |
| `ComposerRepository` | `composer_repository.dfy` | `mutate` and the `all`, `outdated`, `updated` and `dependencies` views (a class over the two classes above). |
| `Console` | `console.dfy` | The part of the inspect command the handlers touch: the exit code, the written lines and the records passed to `outdatedInfo`. |
| `Score`, `DependenciesList` | `score.dfy`, `dependencies_list.dfy` | The two handlers. |

Outside collaborators become parameters:

- the process runner is `execute: string -> string`;
- JSON decoding is `decode`;
- the HTTP round trip is `fetch`, which yields `None` when the request throws;
- `Semver::satisfies` is `satisfies`;
- `number_format` is `oneDecimal`;
- file existence and the lock file's content are the inputs of `FromFile`.

The command cache and the advisory memo are classes:

- Each keeps the invariant that a stored value is what the collaborators give. For example,
  `cache[c] == execute(c)`.
- Each keeps a ghost log: the processes started, or the requests sent. The advisory client
  sends at most one round of batch requests over its lifetime. A command that is already cached
  starts no process again. A command listed twice in one `run()` starts two processes, as in
  the source.

The repository's results are therefore the pure functions `AllView`, `OutdatedView` and
`UpdatedView` of those collaborators, and the handlers' contracts are stated over them.

`getPercentageAsString(100.0)` is `"100 %"`: the code formats `"100 "` followed by `%`,
which is already five characters, so `str_pad` adds nothing.

## Model

| member | source | states |
|---|---|---|
| Functions.Collect | src/Support/Functions.php:32-35 | `collect($items)->toArray()` gives the items back unchanged, and `count()` is their number |
| Functions.Tap | src/Support/Functions.php:15-22 | returns the very same object; with a callback the object's state afterwards is the callback applied once to the old state; without one nothing changes |
| Collections.Collection.Count | src/Support/Collection.php:25-28 | `count()` is the number of entries |
| Collections.Collection.ToArray | src/Support/Collection.php:193-196 | `toArray()` is the items, keys included |
| Collections.Collection.Chunked | src/Support/Collection.php:35-44 | chunks are keyed 0..k-1, each is non-empty and at most `size` long, all but the last exactly `size`, and the chunks one after another are the original entries with their keys |
| Collections.Collection.Chunk | src/Support/Collection.php:35-44 | the foreach loop wrapping every run of `array_chunk` builds exactly `Chunked(size)` |
| Php.ArrayChunk | src/Support/Collection.php:39 | `array_chunk(..., true)`: non-empty runs of at most `size`, all but the last full, concatenating back to the array |
| Php.NextIndexExact | src/Support/Collection.php:40 | the next integer key of `$a[] = $v` is above every integer key present, and is 0 or one more than a key present |
| Php.Append | src/Support/Collection.php:40 | `$chunks[] = $v` keeps the existing entries and adds one holding `v`, under an integer key above every integer key present, so a key not yet used |
| Php.AppendToList | src/Support/Collection.php:40 | appending to a list gives the longer list, keyed 0..n |
| Collections.Collection.Filter | src/Support/Collection.php:61-64 | an entry is kept iff its item satisfies the callable; kept entries keep their keys and their relative order (a subsequence of the items) |
| Php.ArrayFilter | src/Support/Collection.php:63 | `array_filter`: membership iff the value passes, and the result is a subsequence (no re-indexing) |
| Collections.FilterNulls | src/Support/Collection.php:61-64 | `filter()` with no callable over null-or-array items: exactly the non-null items, unwrapped, in the order and under the keys `array_filter` keeps them |
| Collections.FilterNullsMembers | src/Support/Collection.php:61-64 | every kept entry is a non-null entry of the input, and every non-null entry of the input is kept |
| Collections.Collection.Keys | src/Support/Collection.php:71-74 | `keys()`: the i-th entry is `i => ` the i-th key |
| Collections.Collection.Values | src/Support/Collection.php:203-206 | `values()`: the i-th entry is `i => ` the i-th item |
| Collections.Collection.KeyedBy | src/Support/Collection.php:81-92 | `keyBy`: no more entries than items, and a key is present iff some item's field has that value |
| Collections.Collection.KeyBy | src/Support/Collection.php:81-92 | the foreach loop writing `$results[$item[$field]] = $item` builds exactly `KeyedBy(field)` |
| Collections.KeyedByLastWins | src/Support/Collection.php:85-89 | the key of an item's field holds the last item with that field value |
| Php.AssignAllLastWins | src/Support/Collection.php:88 | after a run of writes `$a[$k] = $v`, a key holds the value of the last write to it |
| Php.AssignAllKeys | src/Support/Collection.php:88 | after a run of writes, the keys present are exactly the keys written |
| Php.Assign | src/Support/Collection.php:88 | a write to an existing key replaces its value in place; a write to a new key appends it at the end |
| Php.Lookup | src/Support/Collection.php:113 | `$a[$k] ?? null`: absent iff the key is not in the array, otherwise the value stored under it |
| Collections.Collection.Get | src/Support/Collection.php:111-114 | `get($key, $default)`: the item stored under the string key, and `default` when the key is absent |
| Collections.Collection.FirstWhere | src/Support/Collection.php:123-132 | `where`: the first item whose field equals the value; `default` when none does; a found item's field equals the value |
| Collections.Collection.Where | src/Support/Collection.php:123-132 | the foreach loop with its early return gives `FirstWhere` |
| Collections.Collection.Each | src/Support/Collection.php:139-146 | `each` returns the same collection and calls the callable once per entry with `(item, key)`, in order |
| Collections.Collection.Map | src/Support/Collection.php:165-172 | `map`: the same keys in the same order, each item replaced by `f(item, key)` |
| Collections.Collection.WhenNotEmpty | src/Support/Collection.php:179-186 | returns the same collection; the callable is called, with `count()`, iff there are items |
| Collections.Flatten | src/Support/Collection.php:99-102 | `flatten()` over arrays that all have integer keys is their values one after another, re-indexed from 0 |
| Php.ArrayMerge | src/Support/Collection.php:101 | `array_merge` of integer-keyed arrays is the list of all their values in order, re-indexed from 0 |
| Collections.Unique | src/Support/Collection.php:213-216 | `unique()`: an entry is kept iff its item does not occur earlier; kept entries keep their keys and order; no two kept items are equal |
| Php.ArrayUnique | src/Support/Collection.php:215 | `array_unique` keeps only values of the input; `UniqueKeepsFirst`, `UniqueValuesDistinct` and `UniqueKeepsValues` say which |
| Php.UniqueKeepsFirst | src/Support/Collection.php:215 | `array_unique` keeps an entry iff its value does not occur at an earlier position |
| Php.UniqueValuesDistinct | src/Support/Collection.php:215 | `array_unique`'s values are pairwise distinct |
| Php.UniqueKeepsValues | src/Support/Collection.php:215 | every value of the input is still present after `array_unique` |
| Collections.Implode | src/Support/Collection.php:151-154 | for any separator: `""` for no items; otherwise each item in order at its offset (the lengths of the items before it, each plus the separator), the separator after every item but the last, and nothing after the last item; with a one-character separator no item holds, `explode` gives the items back |
| Strings.JoinLayout | src/Support/Collection.php:153 | `implode` of at least one piece, on a separator of any length, is laid out piece by piece as above |
| Collections.ImplodeFooBar | tests/Unit/Support/Collection.php:27-33 | `['foo', 'bar']` imploded with `', '`, then a full stop, is `"foo, bar."` |
| Strings.SplitJoin | src/Support/Collection.php:153 | exploding a join on a separator that no piece holds gives the pieces back |
| Strings.Split | src/Support/ComposerBinary.php:92 | `explode` on one character: at least one piece, and no piece holds the separator |
| Strings.JoinSplit | src/Support/ComposerBinary.php:92 | joining the pieces of an `explode` with the same separator gives the original string back |
| Lock.FromFile | src/Support/ComposerLock.php:39-55 | a missing file fails with `ComposerLockNotFound`; content that is not JSON gives an empty map; JSON with no `packages` list fails; otherwise the map `array_combine` builds from the packages' names and versions (`Combine`), with no more entries than packages |
| Lock.CombineNames | src/Support/ComposerLock.php:51-54 | a name is a key of the map iff some package has that name |
| Lock.CombineLastWins | src/Support/ComposerLock.php:51-54 | a name maps to the version of the last package with that name |
| Packagist.Clauses | src/Repositories/Packagist.php:78-81 | the clauses are the pieces of `affectedVersions` split on `\|`, with every `,` replaced by a space; no clause holds `,` or `\|` |
| Strings.ReplaceChar | src/Repositories/Packagist.php:79 | `str_replace(',', ' ', ...)`: the same length, with every `,` replaced and every other character kept |
| Packagist.FirstSatisfied | src/Repositories/Packagist.php:85-91 | no clause is found iff no clause is satisfied; otherwise the first satisfied clause is found |
| Packagist.Narrowed | src/Repositories/Packagist.php:83-93 | an advisory yields nothing iff no clause is satisfied by the batch's version of the package; otherwise the same advisory with `affectedVersions` set to the first satisfied clause and `current` set to that version |
| Packagist.Narrow | src/Repositories/Packagist.php:85-91 | the clause loop with its early return gives `Narrowed` |
| Packagist.BatchResult | src/Repositories/Packagist.php:64-93 | a failed request gives no entries; otherwise an advisory appears in the result, under its key, iff it matched, and as its narrowed form |
| Packagist.BatchResultInOrder | src/Repositories/Packagist.php:74-93 | the matched advisories keep the order of the response: their keys are a subsequence of its keys |
| Packagist.Batch | src/Repositories/Packagist.php:74-93 | the advisory loop of one batch gives `BatchResult` |
| Packagist.Query | src/Repositories/Packagist.php:65-67 | a batch's request carries exactly the batch's package names, in order |
| Packagist.RequestsCoverLock | src/Repositories/Packagist.php:61-66 | every request carries 1 to 30 names, and the requests' names one after another are exactly the lock's names in lock order |
| Packagist.AllVulnerabilitiesInBatchOrder | src/Repositories/Packagist.php:62-95 | `AllVulnerabilities`, the full list: with list-shaped responses to every request, it is the batch results one after another, in batch order, re-indexed |
| Packagist.BatchResultIntKeyed | src/Repositories/Packagist.php:74-93 | a list-shaped response gives a batch result with integer keys only |
| Packagist.VulnerabilitiesNamed | src/Repositories/Packagist.php:43-48 | `vulnerabilitiesOf($d)`: exactly the entries whose `packageName` is `d`, keys kept, in order |
| Packagist.NamedIntKeyed | src/Repositories/Packagist.php:43-48 | with list-shaped responses to every request, `vulnerabilitiesOf($d)` has integer keys only |
| Packagist.BatchAt | src/Repositories/Packagist.php:61-75 | the i-th request is the query of the i-th chunk, and the i-th batch result is that chunk's result for the response to it |
| Packagist.Packagist.constructor | src/Repositories/Packagist.php:28-36 | the memo starts empty and no request has been sent |
| Packagist.Packagist.VulnerabilitiesOf | src/Repositories/Packagist.php:43-48 | the filter over the full list; once the memo is set, no further request is sent |
| Packagist.Packagist.Vulnerabilities | src/Repositories/Packagist.php:55-96 | gives the full list and memoises it; with the memo set, it sends nothing more; otherwise it sends exactly `Requests(lock)`, one request per batch, in batch order |
| Packagist.Packagist.RequestBatches | src/Repositories/Packagist.php:61-95 | the batch loop sends the requests of `Requests(lock)` in order and keeps each batch's result under the batch's key |
| ComposerBinary.KeyText | src/Support/ComposerBinary.php:89 | a string key is written as itself, an integer key in decimal |
| ComposerBinary.WhyCommands | src/Support/ComposerBinary.php:86-91 | one `why <name> --recursive` per dependency, under the dependency's key |
| ComposerBinary.WhyNotCommands | src/Support/ComposerBinary.php:110-114 | one `why-not <name>:<version>` per dependency, under its key |
| ComposerBinary.UncachedMembers | src/Support/ComposerBinary.php:133-143 | the commands that start a process are exactly the uncached ones, in order |
| ComposerBinary.AllCachedStartsNothing | src/Support/ComposerBinary.php:133-135 | commands that are all cached start no process |
| ComposerBinary.Lines | src/Support/ComposerBinary.php:92 | `explode("\n", ...)`: at least one line, and joining the lines with `\n` gives the output back |
| Strings.FirstToken | src/Support/ComposerBinary.php:95 | `explode(' ', $line)[0]`: a prefix of the line holding no space, ended by a space or by the end of the line |
| ComposerBinary.Tokens | src/Support/ComposerBinary.php:94-96 | one entry per line, keyed by the line's index, holding its first word |
| ComposerBinary.DistinctTokensExact | src/Support/ComposerBinary.php:94-96 | after `filter()->unique()`, a line's word survives iff it is truthy and no earlier line has the same word |
| ComposerBinary.WhyEntry | src/Support/ComposerBinary.php:94-98 | a `why` entry holds truthy root-package names that survive `filter()->unique()`, and every surviving root name, keyed by line index and in line order |
| ComposerBinary.WhyEntryExact | src/Support/ComposerBinary.php:94-98 | a line's word is in the `why` entry iff it is truthy, is a root name, and is not an earlier line's word |
| ComposerBinary.WhyNotEntry | src/Support/ComposerBinary.php:117-119 | a `why-not` entry has one word per line, keyed by line index; an empty line gives `""` |
| ComposerBinary.OutputLines | src/Support/ComposerBinary.php:92-93 | every output is cut into lines, under its key; the `!empty` filter drops nothing |
| ComposerBinary.WhyEntries | src/Support/ComposerBinary.php:92-99 | every output's `why` entry, under the output's key |
| ComposerBinary.WhyNotEntries | src/Support/ComposerBinary.php:115-120 | every output's `why-not` entry, under the output's key |
| ComposerBinary.Binary.constructor | src/Support/ComposerBinary.php:21-29 | the cache starts empty and no process has been started |
| ComposerBinary.Binary.Installed | src/Support/ComposerBinary.php:40-42 | the decoded `installed` list re-indexed from 0; `[]` when it is absent |
| ComposerBinary.Binary.RootNames | src/Support/ComposerBinary.php:82-84 | the names of the root listing's packages, in order |
| ComposerBinary.Binary.Outputs | src/Support/ComposerBinary.php:130-149 | one output per command, under the command's key, in order |
| ComposerBinary.Binary.Run | src/Support/ComposerBinary.php:130-149 | `run` gives `Outputs(commands)`; the cache afterwards holds the old commands plus every command run; exactly the uncached commands start a process, in order |
| ComposerBinary.Binary.Start | src/Support/ComposerBinary.php:132-143 | the first map answers a cached command from the cache and starts a process for every other one, leaving the cache alone |
| ComposerBinary.Binary.Await | src/Support/ComposerBinary.php:144-148 | the second map gives each command's output and stores every awaited output under its command |
| ComposerBinary.Binary.RunTwice | src/Support/ComposerBinary.php:133-135 | running the same commands twice gives the same outputs and starts processes only the first time |
| ComposerBinary.Binary.Listing | src/Support/ComposerBinary.php:38-42 | `current($this->run([$command]))` decoded: the `installed` list of that command's output |
| ComposerBinary.Binary.Outdated | src/Support/ComposerBinary.php:36-43 | `outdated()` is the `installed` list of `show --outdated --latest --no-dev --format=json` |
| ComposerBinary.Binary.All | src/Support/ComposerBinary.php:50-57 | `all()` is the `installed` list of `show --latest --no-dev --format=json` |
| ComposerBinary.Binary.Root | src/Support/ComposerBinary.php:64-71 | `root()` is the `installed` list of `show --latest --direct --no-dev --format=json` |
| ComposerBinary.Binary.WhyReport | src/Support/ComposerBinary.php:80-100 | per dependency, under its key: the `why` entry of the output of `why <name> --recursive`, against the root names |
| ComposerBinary.Binary.WhyNotReport | src/Support/ComposerBinary.php:107-121 | per dependency, under its key: the `why-not` entry of the output of `why-not <name>:<version>` |
| ComposerBinary.Binary.Why | src/Support/ComposerBinary.php:80-100 | `why` gives `WhyReport`; it runs `root()` first, then the `why` commands, through the cache |
| ComposerBinary.Binary.WhyNot | src/Support/ComposerBinary.php:107-121 | `whyNot` gives `WhyNotReport`; it runs the `why-not` commands through the cache |
| ComposerRepository.Described | src/Repositories/Composer.php:92-96 | the description loses its trailing dots and becomes `''` when missing; nothing else changes |
| Strings.RTrim | src/Repositories/Composer.php:93 | `rtrim($s, '.')`: the longest prefix not ending in `.`, with only dots cut off |
| ComposerRepository.Versions | src/Repositories/Composer.php:104 | `keyBy('name')->map(latest)`: a name is a key iff some package has it |
| ComposerRepository.LatestOfLast | src/Repositories/Composer.php:104 | under a name, the version map holds the `latest` of the last package with that name |
| ComposerRepository.Annotated | src/Repositories/Composer.php:109-114 | keys are kept; each package gets the `why` and `why-not` entry stored under its name, or `[]` |
| ComposerRepository.ListedOnly | src/Repositories/Composer.php:63-69 | `all()`'s filter keeps exactly the packages not named `psr/container`, in order |
| ComposerRepository.OutdatedOnly | src/Repositories/Composer.php:48-56 | `outdated()`'s filters keep exactly the packages not named `psr/container` whose `latest-status` is not `up-to-date` |
| ComposerRepository.OutdatedInOrder | src/Repositories/Composer.php:48-56 | `outdated()`'s filters keep the packages in their listing order |
| ComposerRepository.NoneNamedExact | src/Repositories/Composer.php:39 | `where('name', $name) === null` iff no package of the listing has that name |
| ComposerRepository.UnnamedExact | src/Repositories/Composer.php:36-41 | `updated()`'s filter keeps exactly the packages whose name the outdated listing lacks, in order |
| ComposerRepository.Composer.constructor | src/Repositories/Composer.php:26-29 | the repository holds the given binary and advisory client |
| ComposerRepository.Composer.WithVulnerabilities | src/Repositories/Composer.php:90-102 | the first two maps keep the keys and give every package its trimmed description and its `vulnerabilitiesOf(name)` |
| ComposerRepository.Composer.MutatedPackage | src/Repositories/Composer.php:88-116 | `mutate` keeps every key in place and leaves name, version, latest and latest-status alone; the description loses its trailing dots; the vulnerabilities are `vulnerabilitiesOf(name)` |
| ComposerRepository.Composer.MutatedWhy | src/Repositories/Composer.php:104-110 | a package's `why` is the parsed output of `why <name> --recursive` |
| ComposerRepository.Composer.MutatedWhyNot | src/Repositories/Composer.php:104-111 | a package's `why-not` is the parsed output of `why-not <name>:<latest>`, where `latest` is that of the last package with the name |
| ComposerRepository.Composer.Mutate | src/Repositories/Composer.php:88-117 | `mutate` gives `Mutated(items)`, and the collaborators' invariants hold afterwards |
| ComposerRepository.Composer.AttachVulnerabilities | src/Repositories/Composer.php:98-102 | the second map gives each package exactly `vulnerabilitiesOf(name)`, keys and order kept, and keeps the advisory client's invariant |
| ComposerRepository.Composer.AttachEach | src/Repositories/Composer.php:98-102 | the loop of that map: one entry per package, in order, each with its advisories |
| ComposerRepository.Composer.AttachOne | src/Repositories/Composer.php:99 | one callback: the package with `vulnerabilitiesOf(name)->toArray()` |
| ComposerRepository.Composer.AllViewVulnerabilityLists | src/Repositories/Composer.php:63-69 | with list-shaped responses to every request, every package of `all()` carries an integer-keyed vulnerability list |
| ComposerRepository.Composer.UpdatedExact | src/Repositories/Composer.php:36-41 | `updated()` is the packages of `all()` for which `outdated()` has no package of the same name, in order |
| ComposerRepository.Composer.All | src/Repositories/Composer.php:63-69 | `all()` is `AllView()`: the enriched `all` listing without `psr/container` |
| ComposerRepository.Composer.Outdated | src/Repositories/Composer.php:48-56 | `outdated()` is `OutdatedView()` |
| ComposerRepository.Composer.Dependencies | src/Repositories/Composer.php:76-79 | `dependencies()` is the enriched `all` listing with nothing excluded |
| ComposerRepository.Composer.CheckUpdated | src/Repositories/Composer.php:39 | the callback keeps the package iff no package of `outdated()` has its name |
| ComposerRepository.Composer.Updated | src/Repositories/Composer.php:36-41 | `updated()` is `UpdatedView()` |
| ComposerRepository.Composer.KeepUpdated | src/Repositories/Composer.php:38-40 | the `array_filter` over `all()` keeps what the callback keeps, in order |
| ComposerRepository.Composer.KeepIfUpdated | src/Repositories/Composer.php:38-40 | one callback step adds the package iff the callback keeps it |
| Console.Output.constructor | src/Commands/InspectCommand.php:37 | a command starts with `Command::SUCCESS` and has written nothing |
| Console.Output.ExitWith | src/Commands/InspectCommand.php:79-82 | `exitWith` overwrites the exit code and changes nothing else |
| Console.Output.Line | src/Commands/Concerns/InteractsWithIO.php:89-92 | `line()` writes one empty line |
| Console.Output.Paint | src/Commands/Concerns/InteractsWithIO.php:99-106 | `paint` writes the lines in order |
| Console.Output.OutdatedInfo | src/Commands/Concerns/InteractsWithIO.php:162 | `outdatedInfo` renders exactly the record it is given |
| Score.Percent | src/Handlers/Score.php:54 | `($updated * 100) / $count`: the percentage times the count is a hundred times the updated; 0 when there are no dependencies (see `PercentBounds`) |
| Score.PercentBounds | src/Handlers/Score.php:54 | with no more updated than installed packages, the percentage lies in 0..100; it is exactly 100 iff there is at least one package and all are updated (0 when there are none) |
| Score.VulnerabilitiesCounted | src/Handlers/Score.php:56-58 | the flattened vulnerability count is the sum of the records' list lengths |
| Score.ListsCounted | src/Handlers/Score.php:56-58 | when every record carries an integer-keyed list, the flattened count is the sum of the list lengths |
| Score.BgColor | src/Handlers/Score.php:103-118 | red for any vulnerability; otherwise green iff ≥ 80, yellow iff 50 ≤ p < 80, red iff < 50 |
| Score.BgColorMonotone | src/Handlers/Score.php:103-118 | a higher percentage never gets a worse colour |
| Score.PercentageText | src/Handlers/Score.php:91-98 | exactly 100 gives `"100 %"`; anything else starts with its one-decimal form and `%`, and the rest is spaces; the length is exactly 5, or the one-decimal form plus `%` when that is longer (`"100.0%"` for 99.95 up to 100) |
| Strings.PadRight | src/Handlers/Score.php:97 | `str_pad($s, 5)`: the string, then spaces up to five characters; a longer string is unchanged |
| Score.PercentageTextWidth | src/Handlers/Score.php:91-98 | a one-decimal form of at most four characters gives exactly five |
| Score.SummaryText | src/Handlers/Score.php:63-73 | the summary starts with the dependency count and ends with a full stop (see `SummaryCount`, `SummaryQuiet`) |
| Score.SummaryCount | src/Handlers/Score.php:63 | the summary's first word is all digits and reads back as the number of dependencies |
| Strings.DecimalRoundTrip | src/Handlers/Score.php:63 | a count printed with `%s` reads back as the same number |
| Score.SummaryQuiet | src/Handlers/Score.php:63-73 | the summary is the bare `"N dependencies."` iff nothing is outdated and there is no vulnerability |
| Score.Summary | src/Handlers/Score.php:63-73 | the `.=` steps inside the `whenNotEmpty` callbacks build `SummaryText` with the outdated count and the vulnerability count |
| Score.Handler.constructor | src/Handlers/Score.php:23-26 | the handler holds the given repository |
| Score.Handler.PercentageBounded | src/Handlers/Score.php:53-54 | the score is between 0 and 100 |
| Score.ScoreExit | src/Handlers/Score.php:81-83 | the command fails iff the percentage is under `min` or it had already failed; at or above `min` the exit code is untouched (see `DefaultMinKeepsExit`) |
| Score.Handler.VulnerabilitiesOfAllCounted | src/Handlers/Score.php:56-58 | with list-shaped responses to every request, the badge's vulnerability count is the sum of the list lengths over `all()` |
| Score.Handler.DefaultMinKeepsExit | src/Handlers/Score.php:81-83 | with the default `--min` of 0.0 the score never changes the exit code |
| Score.Handler.Figures | src/Handlers/Score.php:53-58 | the count of `all()`, the percentage `Percent(count, size of updated())` and the flattened vulnerabilities of `all()` |
| Score.Handler.Invoke | src/Handlers/Score.php:49-86 | writes an empty line, the badge (colour, percentage text, summary) and an empty line; the exit code becomes failure iff the percentage is under `min`, and is otherwise untouched |
| DependenciesList.ExitAfter | src/Handlers/DependenciesList.php:59-63 | after the map callback, the exit code is failure when some record is vulnerable, and is untouched when none is |
| DependenciesList.Rendered | src/Handlers/DependenciesList.php:65-66 | the rendered records are the values `filter()` keeps: each shown record of `all()` (behind its latest release or vulnerable), once each and in the order of `all()`, and nothing else |
| DependenciesList.FailureIsShown | src/Handlers/DependenciesList.php:59-66 | a command that has not failed yet fails iff one of the rendered records is vulnerable |
| DependenciesList.MarkVulnerable | src/Handlers/DependenciesList.php:59-64 | the map returns every record unchanged and sets the exit code as `ExitAfter` says |
| DependenciesList.RenderEach | src/Handlers/DependenciesList.php:67 | each shown record is rendered once, in order |
| DependenciesList.Report | src/Handlers/DependenciesList.php:57-67 | the map, filter and each chain: the exit code as `ExitAfter` says, the records of `Rendered(all)` passed to `outdatedInfo` in order, nothing written |
| DependenciesList.Handler.constructor | src/Handlers/DependenciesList.php:23-26 | the handler holds the given repository |
| DependenciesList.Handler.Invoke | src/Handlers/DependenciesList.php:55-68 | the exit code fails iff some record of `all()` is vulnerable and is otherwise untouched; the rendered records are `Rendered(all())`, in order; nothing else is written |

## Left out

- Process spawning (`Process`, `PhpExecutableFinder`, `ExecutableFinder`, `isWindows`) is the parameter `execute`. A process's output is a function of its command.
- ComposerBinary.Binary.Run: the cache is per instance. In the source it is a static field shared by all instances.
- The HTTP request, its `RequestException` and `json_decode` of the feed are the parameter `fetch`.
- `Semver::satisfies` is the parameter `satisfies`.
- `file_exists`, `file_get_contents` and `json_decode` of the lock file are the inputs of `Lock.FromFile`.
- Lock.FromFile: a `packages` list whose entries lack `name` or `version` is not modelled. It would raise an error in PHP.
- Score.PercentageText: `number_format($p, 1, '.', '')` is the parameter `oneDecimal`. The model takes the percentage as an exact rational, not a float.
- Score.Handler.Invoke: the `--min` option is taken as a number. The string-to-number comparison PHP performs is not modelled.
- Score.VulnerabilityList: a record without a vulnerability list counts as `[]`. `mutate` always sets the list, so this case does not arise.
- Collections.Collection.Get: a stored `null` that falls back to the default is not modelled. The stored items are never null here.
- Collections.Flatten: its contract covers integer-keyed items only. For string keys inside the items the function follows `array_merge`, but the overwrite is not stated as a property. String keys on the outer collection are not modelled: PHP 8 raises an `Error` when `array_merge(...$this->items)` unpacks them (src/Support/Collection.php:101).
- Php.ArrayChunk, Collections.Collection.Chunked and Collections.Collection.Chunk: require `size >= 1`. `array_chunk` throws a `ValueError` below 1 (src/Support/Collection.php:39); the only caller passes 30.
- The `fetch` parameter (`Packagist.Fetch`) cannot express a 2xx response without an `advisories` field. `collect(null)` raises a `TypeError` there (src/Repositories/Packagist.php:75), which aborts `vulnerabilities()`. Exceptions other than `RequestException` are not modelled either.
- ComposerRepository.Composer.Mutated: its contract is stated by the lemmas `MutatedPackage`, `MutatedWhy` and `MutatedWhyNot`, not on the function itself.
- Packagist.AllVulnerabilities: its contract is the lemma `AllVulnerabilitiesInBatchOrder`, which assumes a list-shaped response to every request.
- PHP's coercion of numeric-string keys to integers (`"12"` becomes `12`) is not modelled. Package names are never numeric.
- Loose comparisons are modelled as plain string equality. This covers `array_unique`'s string-cast comparison and `in_array` without strict mode. `empty`/truthiness of a string is the explicit `Truthy` predicate (`""` and `"0"`).
- `Collection::dd` is not modelled: it dumps and exits.
- Terminal rendering is not modelled. This covers `outdatedInfo`'s and `vulnerabilityInfo`'s layout, ANSI tags, terminal width and truncation. `Console.Output.OutdatedInfo` only records which record is rendered.
- The inspect command's wiring is not modelled: argument parsing, handler resolution, and `resolve` building the collaborators. `DependenciesList::resolve` builds a second advisory client that `__invoke` never uses.
- `ComposerLockNotFound`'s message text is not modelled.
