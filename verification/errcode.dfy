/** The generic error reporter: an error code carries a fixed message; reporting
    it builds one line of text, classifies the message into a global abort code
    and then either returns, exits or aborts according to the requested action.
    Printing, `exit` and `abort` are not executed here: a report is a value that
    records what was printed, the abort code left behind and how the call ended. */
module ErrCode {
  import opened Wrappers

  // Actions a caller may request.
  const DBG: int := -1
  const TESSLOG: int := 0
  const EXIT: int := 1
  const ABORT: int := 2

  // Abort codes, chosen from the message text.
  const NO_ABORT_CODE: int := 0
  const LIST_ABORT: int := 1
  const MEMORY_ABORT: int := 2
  const FILE_ABORT: int := 3

  // Locations of code at the time of an error; none may exceed 31.
  const LOC_UNUSED0: int := 0
  const LOC_UNUSED1: int := 1
  const LOC_UNUSED2: int := 2
  const LOC_INIT: int := 3
  const LOC_EDGE_PROG: int := 4
  const LOC_TEXT_ORD_ROWS: int := 5
  const LOC_TEXT_ORD_WORDS: int := 6
  const LOC_PASS1: int := 7
  const LOC_PASS2: int := 8
  const LOC_FUZZY_SPACE: int := 14
  const LOC_MM_ADAPT: int := 21
  const LOC_DOC_BLK_REJ: int := 22
  const LOC_WRITE_RESULTS: int := 23
  const LOC_ADAPTIVE: int := 24

  const LOCATION_CODES: seq<int> := [LOC_UNUSED0, LOC_UNUSED1, LOC_UNUSED2, LOC_INIT,
    LOC_EDGE_PROG, LOC_TEXT_ORD_ROWS, LOC_TEXT_ORD_WORDS, LOC_PASS1, LOC_PASS2,
    LOC_FUZZY_SPACE, LOC_MM_ADAPT, LOC_DOC_BLK_REJ, LOC_WRITE_RESULTS, LOC_ADAPTIVE]

  /** Message of the error reported when an unknown action is requested. */
  const BAD_ERR_ACTION_MESSAGE: string := "Illegal error action"

  /** Message of the error raised by a failed host assertion. */
  const ASSERT_FAILED_MESSAGE: string := "Assert failed"

  /** The four actions are distinct values. */
  lemma ActionsDistinct()
    ensures |{DBG, TESSLOG, EXIT, ABORT}| == 4
  {
  }

  /** The abort codes are 0..3 and distinct. */
  lemma AbortCodesDistinct()
    ensures [NO_ABORT_CODE, LIST_ABORT, MEMORY_ABORT, FILE_ABORT] == [0, 1, 2, 3]
  {
  }

  /** Every location code fits in five bits. */
  lemma LocationCodesFit()
    ensures forall k :: 0 <= k < |LOCATION_CODES| ==> 0 <= LOCATION_CODES[k] <= 31
  {
  }

  // ---------------------------------------------------------------------------
  // Substring search (the model of `strstr(...) != NULL`)

  predicate OccursAt(s: string, sub: string, k: nat) {
    k + |sub| <= |s| && s[k..k + |sub|] == sub
  }

  /** Reference meaning: `sub` occurs somewhere in `s`. */
  ghost predicate Mentions(s: string, sub: string) {
    exists k: nat :: OccursAt(s, sub, k)
  }

  /** First position at or after `from` where `sub` occurs, if any. */
  function Find(s: string, sub: string, from: nat): (r: Option<nat>)
    decreases |s| - from
    ensures r.Some? ==> from <= r.value && OccursAt(s, sub, r.value)
    ensures r.None? ==> forall k: nat :: from <= k ==> !OccursAt(s, sub, k)
  {
    if from + |sub| > |s| then None
    else if s[from..from + |sub|] == sub then Some(from)
    else Find(s, sub, from + 1)
  }

  /** `strstr(s, sub) != NULL`. */
  predicate Contains(s: string, sub: string) {
    Find(s, sub, 0).Some?
  }

  lemma ContainsMeansMentions(s: string, sub: string)
    ensures Contains(s, sub) <==> Mentions(s, sub)
  {
    if Mentions(s, sub) {
      var k: nat :| OccursAt(s, sub, k);
    }
  }

  // ---------------------------------------------------------------------------
  // Message assembly and classification

  /** The text printed for one report:
      an optional `caller:` prefix, `Error:` and the message, an optional
      `:detail` part, and a newline. */
  function ErrorText(caller: Option<string>, message: string, detail: Option<string>): (text: string)
  {
    (if caller.Some? then caller.value + ":" else "")
    + "Error:" + message
    + (if detail.Some? then ":" + detail.value else "")
    + "\n"
  }

  /** The layout of the printed text, read back from its two ends. */
  lemma ErrorTextLayout(caller: Option<string>, message: string, detail: Option<string>)
    ensures var text := ErrorText(caller, message, detail);
      var head := (if caller.Some? then caller.value + ":" else "") + "Error:" + message;
      var tail := (if detail.Some? then ":" + detail.value else "") + "\n";
      && |text| == |head| + |tail|
      && text[..|head|] == head
      && text[|head|..] == tail
      && text[|text| - 1] == '\n'
  {
  }

  /** With the caller and detail fixed, the message can be read back from the text. */
  lemma ErrorTextDeterminesMessage(caller: Option<string>, m1: string, m2: string, detail: Option<string>)
    requires ErrorText(caller, m1, detail) == ErrorText(caller, m2, detail)
    ensures m1 == m2
  {
    var pre := (if caller.Some? then caller.value + ":" else "") + "Error:";
    var post := (if detail.Some? then ":" + detail.value else "") + "\n";
    var t1 := ErrorText(caller, m1, detail);
    assert t1 == pre + m1 + post;
    assert ErrorText(caller, m2, detail) == pre + m2 + post;
    assert |m1| == |m2|;
    assert m1 == t1[|pre|..|pre| + |m1|];
    assert m2 == t1[|pre|..|pre| + |m2|];
  }

  function FileMentioned(message: string): bool {
    Contains(message, "File") || Contains(message, "file")
  }

  function ListMentioned(message: string): bool {
    Contains(message, "List") || Contains(message, "list")
  }

  function MemoryMentioned(message: string): bool {
    Contains(message, "Memory") || Contains(message, "memory")
  }

  /** The abort code a report leaves behind: files take priority over lists,
      lists over memory. */
  function AbortCodeFor(message: string): (code: int)
    ensures code in {NO_ABORT_CODE, LIST_ABORT, MEMORY_ABORT, FILE_ABORT}
    ensures code == FILE_ABORT <==> Mentions(message, "File") || Mentions(message, "file")
    ensures code == LIST_ABORT <==>
      && !(Mentions(message, "File") || Mentions(message, "file"))
      && (Mentions(message, "List") || Mentions(message, "list"))
    ensures code == MEMORY_ABORT <==>
      && !(Mentions(message, "File") || Mentions(message, "file"))
      && !(Mentions(message, "List") || Mentions(message, "list"))
      && (Mentions(message, "Memory") || Mentions(message, "memory"))
    ensures code == NO_ABORT_CODE <==>
      && !(Mentions(message, "File") || Mentions(message, "file"))
      && !(Mentions(message, "List") || Mentions(message, "list"))
      && !(Mentions(message, "Memory") || Mentions(message, "memory"))
  {
    ContainsMeansMentions(message, "File");
    ContainsMeansMentions(message, "file");
    ContainsMeansMentions(message, "List");
    ContainsMeansMentions(message, "list");
    ContainsMeansMentions(message, "Memory");
    ContainsMeansMentions(message, "memory");
    if FileMentioned(message) then FILE_ABORT
    else if ListMentioned(message) then LIST_ABORT
    else if MemoryMentioned(message) then MEMORY_ABORT
    else NO_ABORT_CODE
  }

  /** Each of the four abort codes is the classification of some message. */
  lemma EveryAbortCodeIsReachable()
    ensures AbortCodeFor("file") == FILE_ABORT
    ensures AbortCodeFor("list") == LIST_ABORT
    ensures AbortCodeFor("memory") == MEMORY_ABORT
    ensures AbortCodeFor("") == NO_ABORT_CODE
  {
    assert OccursAt("file", "file", 0);
    assert OccursAt("list", "list", 0);
    assert OccursAt("memory", "memory", 0);
    assert !Mentions("", "File") && !Mentions("", "file") by {
      forall k: nat ensures !OccursAt("", "File", k) && !OccursAt("", "file", k) { }
    }
    assert !Mentions("", "List") && !Mentions("", "list") by {
      forall k: nat ensures !OccursAt("", "List", k) && !OccursAt("", "list", k) { }
    }
    assert !Mentions("", "Memory") && !Mentions("", "memory") by {
      forall k: nat ensures !OccursAt("", "Memory", k) && !OccursAt("", "memory", k) { }
    }
    assert !Mentions("list", "File") && !Mentions("list", "file") by {
      forall k: nat ensures !OccursAt("list", "File", k) && !OccursAt("list", "file", k) {
        if k + 4 <= 4 { assert k == 0; }
      }
    }
    assert !Mentions("memory", "File") && !Mentions("memory", "file") by {
      forall k: nat ensures !OccursAt("memory", "File", k) && !OccursAt("memory", "file", k) {
        if k + 4 <= 6 { assert "memory"[k] != 'F' && "memory"[k] != 'f'; }
      }
    }
    assert !Mentions("memory", "List") && !Mentions("memory", "list") by {
      forall k: nat ensures !OccursAt("memory", "List", k) && !OccursAt("memory", "list", k) {
        if k + 4 <= 6 { assert "memory"[k] != 'L' && "memory"[k] != 'l'; }
      }
    }
  }

  /** A message without the letters `F`, `L`, `M`, `m`, in which no `f` or `l`
      is followed by `i`, is classified as carrying no abort code. */
  lemma NoKeywordLetters(message: string)
    requires forall i :: 0 <= i < |message| ==> message[i] !in {'F', 'L', 'M', 'm'}
    requires forall i :: 0 <= i < |message| - 1 && message[i] in {'f', 'l'} ==> message[i + 1] != 'i'
    ensures AbortCodeFor(message) == NO_ABORT_CODE
  {
    forall k: nat ensures !OccursAt(message, "File", k) && !OccursAt(message, "file", k)
      && !OccursAt(message, "Memory", k) && !OccursAt(message, "memory", k)
      && !OccursAt(message, "List", k) && !OccursAt(message, "list", k)
    {
      if k + 4 <= |message| {
        assert message[k..k + 4][0] == message[k];
        assert message[k..k + 4][1] == message[k + 1];
      }
      if k + 6 <= |message| {
        assert message[k..k + 6][0] == message[k];
      }
    }
  }

  // ---------------------------------------------------------------------------
  // Reporting

  lemma IllegalActionText()
    ensures ErrorText(Some("error"), BAD_ERR_ACTION_MESSAGE, None) == "error:Error:Illegal error action\n"
  {
  }

  /** How a report ends: it returns to the caller, exits the process or aborts it. */
  datatype Disposition = Returned | Exited | Aborted

  /** What one call of the reporter leaves behind. */
  datatype Report = Report(printed: seq<string>, abortCode: int, disposition: Disposition)

  predicate KnownAction(action: int) {
    action == DBG || action == TESSLOG || action == EXIT || action == ABORT
  }

  /** `ERRCODE::error`: print the text, set the abort code from the message, then
      act.  An unknown action is itself reported as an illegal action, with ABORT. */
  function Error(caller: Option<string>, action: int, message: string, detail: Option<string>): (r: Report)
    decreases if KnownAction(action) then 0 else 1
    ensures |r.printed| >= 1 && r.printed[0] == ErrorText(caller, message, detail)
    ensures r.disposition == Returned <==> action == DBG || action == TESSLOG
    ensures action == EXIT ==> r.disposition == Exited
    ensures action == ABORT || !KnownAction(action) ==> r.disposition == Aborted
    ensures KnownAction(action) ==> |r.printed| == 1 && r.abortCode == AbortCodeFor(message)
    ensures !KnownAction(action) ==>
      && r.printed == [ErrorText(caller, message, detail), "error:Error:Illegal error action\n"]
      && r.abortCode == AbortCodeFor(BAD_ERR_ACTION_MESSAGE)
  {
    var text := ErrorText(caller, message, detail);
    var code := AbortCodeFor(message);
    if action == DBG || action == TESSLOG then Report([text], code, Returned)
    else if action == EXIT then Report([text], code, Exited)
    else if action == ABORT then Report([text], code, Aborted)
    else
      var again := Error(Some("error"), ABORT, BAD_ERR_ACTION_MESSAGE, None);
      IllegalActionText();
      Report([text] + again.printed, again.abortCode, again.disposition)
  }

  /** The report of an illegal action leaves no abort code behind, whatever the
      first message was: the second report overwrites it. */
  lemma IllegalActionClearsAbortCode(caller: Option<string>, action: int, message: string, detail: Option<string>)
    requires !KnownAction(action)
    ensures Error(caller, action, message, detail).abortCode == NO_ABORT_CODE
  {
    NoKeywordLetters(BAD_ERR_ACTION_MESSAGE);
  }

  /** The abort code is set even when the report only logs: for every action the
      abort code of a known action is the classification of the message. */
  lemma ReportOnlyStillClassifies(caller: Option<string>, message: string, detail: Option<string>)
    ensures Error(caller, TESSLOG, message, detail).abortCode == AbortCodeFor(message)
    ensures Error(caller, DBG, message, detail).abortCode == AbortCodeFor(message)
    ensures Error(caller, TESSLOG, message, detail).disposition == Returned
  {
  }

  // ---------------------------------------------------------------------------
  // ASSERT_HOST

  function DigitChar(d: nat): char
    requires d < 10
  {
    "0123456789"[d]
  }

  /** Decimal rendering of a line number, as `%d` prints it. */
  function NatToString(n: nat): (s: string)
    ensures |s| >= 1
    ensures forall i :: 0 <= i < |s| ==> '0' <= s[i] <= '9'
  {
    if n < 10 then [DigitChar(n)] else NatToString(n / 10) + [DigitChar(n % 10)]
  }

  /** The text of a failed host assertion. */
  lemma AssertTextLayout(expression: string, file: string, lineText: string)
    ensures ErrorText(Some(expression), ASSERT_FAILED_MESSAGE, Some("in file " + file + ", line " + lineText))
      == expression + ":Error:Assert failed:in file " + file + ", line " + lineText + "\n"
  {
  }

  /** `ASSERT_HOST(x)`: nothing happens when `x` holds; otherwise the failed
      expression is reported as the caller, with action TESSLOG. */
  function AssertHost(x: bool, expression: string, file: string, line: nat): (r: Option<Report>)
    ensures r.None? <==> x
    ensures r.Some? ==> r.value.disposition == Returned
    ensures r.Some? ==>
      r.value.printed == [expression + ":Error:Assert failed:in file " + file + ", line " + NatToString(line) + "\n"]
  {
    if x then None
    else
      var detail := "in file " + file + ", line " + NatToString(line);
      AssertTextLayout(expression, file, NatToString(line));
      Some(Error(Some(expression), TESSLOG, ASSERT_FAILED_MESSAGE, Some(detail)))
  }

  /** A failed host assertion never stops execution and leaves no abort code. */
  lemma FailedAssertionContinues(expression: string, file: string, line: nat)
    ensures AssertHost(false, expression, file, line).Some?
    ensures AssertHost(false, expression, file, line).value.disposition == Returned
    ensures AssertHost(false, expression, file, line).value.abortCode == NO_ABORT_CODE
  {
    NoKeywordLetters(ASSERT_FAILED_MESSAGE);
  }
}
