/**
 * The lock-file reader: a name -> installed-version map built from the lock file's package
 * list. Whether the file exists and what JSON decoding makes of it are inputs.
 */
module Lock {
  import opened Wrappers
  import opened Php

  /** One entry of the lock file's `packages` list. */
  datatype LockPackage = LockPackage(name: string, version: string)

  /** What json_decode makes of the file: not JSON, or a document whose `packages` may be absent. */
  datatype LockContent = Malformed | Decoded(packages: Option<seq<LockPackage>>)

  datatype LockError =
    | ComposerLockNotFound  // the file does not exist
    | PackagesMissing       // decoded, but no `packages` list: array_map raises a TypeError

  /** The lock value object: package name -> installed version. */
  datatype ComposerLock = ComposerLock(dependencies: PhpArray<string>)

  /** The (name, version) writes array_combine performs, in list order. */
  function NameVersionPairs(packages: seq<LockPackage>): (ps: seq<(Key, string)>)
    ensures |ps| == |packages|
    ensures forall i | 0 <= i < |packages| :: ps[i] == (StrKey(packages[i].name), packages[i].version)
  {
    seq(|packages|, i requires 0 <= i < |packages| => (StrKey(packages[i].name), packages[i].version))
  }

  /** array_combine(names, versions): a later entry with the same name overwrites an earlier one. */
  function Combine(packages: seq<LockPackage>): PhpArray<string> {
    AssignAll(NameVersionPairs(packages))
  }

  /**
   * fromFile($file): fails when the file does not exist; content that is not JSON reads as an
   * empty package list; otherwise each package name maps to its version.
   */
  function FromFile(fileExists: bool, content: LockContent): (r: Result<ComposerLock, LockError>)
    ensures !fileExists ==> r == Failure(ComposerLockNotFound)
    ensures fileExists && content.Malformed? ==> r == Success(ComposerLock([]))
    ensures fileExists && content.Decoded? && content.packages.None? ==> r == Failure(PackagesMissing)
    ensures fileExists && content.Decoded? && content.packages.Some? ==>
      r == Success(ComposerLock(Combine(content.packages.value)))
    ensures fileExists && content.Decoded? && content.packages.Some? ==>
      |r.value.dependencies| <= |content.packages.value|
  {
    if !fileExists then Failure(ComposerLockNotFound)
    else
      var packages := match content
        case Malformed => Some([])
        case Decoded(packages) => packages;
      match packages
      case None => Failure(PackagesMissing)
      case Some(ps) => Success(ComposerLock(Combine(ps)))
  }

  /** The dependency names are exactly the package names of the list. */
  lemma CombineNames(packages: seq<LockPackage>, name: string)
    ensures StrKey(name) in KeysOf(Combine(packages)) <==> exists i | 0 <= i < |packages| :: packages[i].name == name
  {
    var ps := NameVersionPairs(packages);
    AssignAllKeys(ps);
    if exists i | 0 <= i < |packages| :: packages[i].name == name {
      var i :| 0 <= i < |packages| && packages[i].name == name;
      assert KeysOf(ps)[i] == StrKey(name);
    } else {
      assert forall i | 0 <= i < |ps| :: KeysOf(ps)[i] != StrKey(name);
    }
  }

  /** A package name maps to the version of the last list entry with that name. */
  lemma CombineLastWins(packages: seq<LockPackage>, j: nat)
    requires j < |packages|
    requires forall i | j < i < |packages| :: packages[i].name != packages[j].name
    ensures Lookup(Combine(packages), StrKey(packages[j].name)) == Some(packages[j].version)
  {
    AssignAllLastWins(NameVersionPairs(packages), j);
  }
}
