/** The review finding, as far as patching, posting and grounding look at it. */
module Findings {
  import opened Text

  datatype Confidence = High | Medium | Low

  datatype Finding = Finding(
    file: string,
    line: nat,
    endLine: nat,
    badCode: string,
    fix: string,
    fixIsDeletion: bool,
    confidence: Confidence)
  {
    /** An empty fix is "nothing to suggest" unless it is marked as a deletion. */
    predicate HasFix() {
      !Blank(fix) || fixIsDeletion
    }

    /** First line of the range the fix replaces, numbered from 1. */
    function Start(): nat {
      line
    }

    /** Last line of that range; an `endLine` before `line` means a single line. */
    function End(): (end: nat)
      ensures Start() <= end
    {
      if endLine >= line then endLine else line
    }
  }
}
