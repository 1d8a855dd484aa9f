/**
 * The part of the inspect command the handlers talk to: the exit code that `exitWith`
 * overwrites, the lines written by `line` and `paint`, and the records handed to
 * `outdatedInfo` (whose terminal rendering is not modelled).
 */
module Console {
  import opened ComposerBinary

  /** Symfony's Command::SUCCESS and Command::FAILURE. */
  const Success := 0
  const Failure := 1

  class Output {
    var exitCode: int
    var written: seq<string>
    var outdatedInfos: seq<Package>

    /** A fresh command starts with Command::SUCCESS and has written nothing. */
    constructor ()
      ensures exitCode == Success && written == [] && outdatedInfos == []
    {
      exitCode := Success;
      written := [];
      outdatedInfos := [];
    }

    /** exitWith($exitCode): overwrites the exit code, whatever it was. */
    method ExitWith(code: int)
      modifies this
      ensures exitCode == code
      ensures written == old(written) && outdatedInfos == old(outdatedInfos)
    {
      exitCode := code;
    }

    /** line(): writes one empty line. */
    method Line()
      modifies this
      ensures written == old(written) + [""]
      ensures exitCode == old(exitCode) && outdatedInfos == old(outdatedInfos)
    {
      written := written + [""];
    }

    /** paint($lines): writes the lines, in order. */
    method Paint(lines: seq<string>)
      modifies this
      ensures written == old(written) + lines
      ensures exitCode == old(exitCode) && outdatedInfos == old(outdatedInfos)
    {
      written := written + lines;
    }

    /** outdatedInfo($outdated): renders one record. */
    method OutdatedInfo(d: Package)
      modifies this
      ensures outdatedInfos == old(outdatedInfos) + [d]
      ensures exitCode == old(exitCode) && written == old(written)
    {
      outdatedInfos := outdatedInfos + [d];
    }
  }
}
