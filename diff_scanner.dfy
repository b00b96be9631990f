/**
 * The line-by-line state machine of `Patches.parse`, as functions: the
 * classification of one chomped line by the first pattern it matches, the
 * change one line makes to the scanner's state, and the whole scan as a fold
 * of that change over the lines. `GitDiffParser.Parse` is the loop proved to
 * compute it.
 */
module DiffScanner {
  import opened Wrappers
  import opened RubyText
  import opened PatchRecord

  /** The first characters a hunk line may start with: space, '@', '+', '-', '\'. */
  const BodyMarks: seq<char> := " @+-\\"

  /** Which of the `case` patterns a chomped line matches first. */
  datatype LineKind =
    | SectionStart            // /^diff/
    | OrigFile(path: string)  // %r{^--- a/(?<file_name>.*)}
    | OrigFileAbsent          // %r{^--- /dev/null}
    | NewFile(path: string)   // %r{^\+\+\+ b/(?<file_name>.*)}
    | NewFileAbsent           // %r{^\+\+\+ /dev/null}
    | BodyLine                // /^(?<body>[\ @\+\-\\].*)/
    | Ignored                 // no pattern

  /**
   * The patterns tried in the source's order. The `/dev/null` patterns are
   * prefix tests, like the others. A header is told apart from a body line
   * by its order only: every `---`/`+++` header also starts with a body mark.
   */
  function Classify(line: string): (k: LineKind)
    ensures k.SectionStart? <==> StartsWith(line, "diff")
    ensures k.OrigFile? ==> line == "--- a/" + k.path
    ensures k.OrigFileAbsent? ==> StartsWith(line, "--- /dev/null") && !StartsWith(line, "--- a/")
    ensures k.NewFile? ==> line == "+++ b/" + k.path
    ensures k.NewFileAbsent? ==> StartsWith(line, "+++ /dev/null") && !StartsWith(line, "+++ b/")
    ensures k.BodyLine? ==> line != [] && line[0] in BodyMarks
    ensures k.Ignored? ==> line == [] || line[0] !in BodyMarks
  {
    if StartsWith(line, "diff") then SectionStart
    else if StartsWith(line, "--- a/") then
      assert line == line[..6] + line[6..];
      OrigFile(line[6..])
    else if StartsWith(line, "--- /dev/null") then OrigFileAbsent
    else if StartsWith(line, "+++ b/") then
      assert line == line[..6] + line[6..];
      NewFile(line[6..])
    else if StartsWith(line, "+++ /dev/null") then NewFileAbsent
    else if line != [] && line[0] in BodyMarks then BodyLine
    else Ignored
  }

  /** The five locals `parse` carries from line to line, and the patches emitted so far. */
  datatype ScanState = ScanState(
    body: bool,
    fileName: Option<string>,
    origFileName: Option<string>,
    buffer: seq<string>,
    diffType: DiffType,
    parsed: seq<Patch>)

  /**
   * The converse of `Classify`'s contract: each header shape is classified
   * as that header, with the text after the prefix as its path, whatever
   * follows the prefix. None of them is ever a body line.
   */
  lemma ClassifyHeaders(rest: string)
    ensures Classify("diff" + rest) == SectionStart
    ensures Classify("--- a/" + rest) == OrigFile(rest)
    ensures Classify("--- /dev/null" + rest) == OrigFileAbsent
    ensures Classify("+++ b/" + rest) == NewFile(rest)
    ensures Classify("+++ /dev/null" + rest) == NewFileAbsent
  {
    assert ("diff" + rest)[..4] == "diff";
    var o, n := "--- a/" + rest, "+++ b/" + rest;
    assert o[..6] == "--- a/" && o[0] != "diff"[0];
    assert n[..6] == "+++ b/" && n[0] != "diff"[0] && n[0] != "--- a/"[0] && n[0] != "--- /dev/null"[0];
    var od, nd := "--- /dev/null" + rest, "+++ /dev/null" + rest;
    assert od[..13] == "--- /dev/null" && od[0] != "diff"[0] && od[4] != "--- a/"[4];
    assert nd[..13] == "+++ /dev/null" && nd[0] != "diff"[0] && nd[0] != "--- a/"[0];
    assert nd[0] != "--- /dev/null"[0] && nd[4] != "+++ b/"[4];
  }

  /** The state before the first line: not in a body, both names '', `:change`. */
  const Start := ScanState(false, Some(""), Some(""), [], Change, [])

  /**
   * Emit a patch from the buffer and the current names and change kind,
   * then clear the buffer and reset the names and the kind. The in-body
   * flag is left alone.
   */
  function Flush(st: ScanState): (r: ScanState)
    ensures |r.parsed| == |st.parsed| + 1 && r.parsed[..|st.parsed|] == st.parsed
    ensures r.parsed[|st.parsed|] == Patch(st.buffer, st.fileName, st.origFileName, st.diffType)
    ensures r == Start.(body := st.body, parsed := r.parsed)
  {
    st.(parsed := st.parsed + [Patch(st.buffer, st.fileName, st.origFileName, st.diffType)],
        buffer := [], fileName := Some(""), origFileName := Some(""), diffType := Change)
  }

  /**
   * What a line of kind `kind` does to the state; `isLast` says it is the
   * input's last line. A `diff` line leaves the body and a `+++` line
   * enters it. At most one patch is emitted, only by a `diff` line or by
   * the tail flush, and it takes the whole buffer; otherwise the buffer
   * grows by the line exactly when it is a body line met in a body.
   */
  function Apply(st: ScanState, kind: LineKind, line: string, isLast: bool): (r: ScanState)
    ensures r.body == if kind.SectionStart? then false else if kind.NewFile? || kind.NewFileAbsent? then true else st.body
    ensures st.parsed <= r.parsed && |r.parsed| <= |st.parsed| + 1
    ensures |r.parsed| == |st.parsed| ==>
              r.buffer == st.buffer + (if kind.BodyLine? && st.body then [line] else [])
    ensures |r.parsed| > |st.parsed| ==>
              && (kind.SectionStart? || (kind.BodyLine? && st.body && isLast))
              && r.buffer == []
              && r.parsed[|st.parsed|].lines == st.buffer + (if kind.BodyLine? && st.body then [line] else [])
              && r.parsed[|st.parsed|].lines != []
  {
    match kind
    case SectionStart =>
      (if st.buffer != [] then Flush(st) else st).(body := false)
    case OrigFile(p) =>
      st.(origFileName := Some(p))
    case OrigFileAbsent =>
      st.(origFileName := None)
    case NewFile(p) =>
      st.(fileName := Some(p), body := true, diffType := if st.origFileName.None? then Add else Change)
    case NewFileAbsent =>
      st.(fileName := st.origFileName, body := true, diffType := Delete)
    case BodyLine =>
      var s := if st.body then st.(buffer := st.buffer + [line]) else st;
      if s.buffer != [] && s.body && isLast then Flush(s) else s
    case Ignored =>
      st
  }

  /** What one chomped line does to the state. */
  function Step(st: ScanState, line: string, isLast: bool): ScanState {
    Apply(st, Classify(line), line, isLast)
  }

  /**
   * The scan of `ls` from state `st`. When `atEnd` holds, the last of `ls`
   * is the last line of the whole input (the only line the tail flush can
   * fire on).
   */
  function Run(st: ScanState, ls: seq<string>, atEnd: bool): (r: ScanState)
    decreases |ls|
  {
    if ls == [] then st
    else Run(Step(st, ls[0], atEnd && |ls| == 1), ls[1..], atEnd)
  }

  /** The patches `parse` returns for already chomped lines. */
  function ParseLines(ls: seq<string>): seq<Patch> {
    Run(Start, ls, true).parsed
  }

  /** The patches `parse` returns for the text `contents`. */
  function ParseText(contents: string): (r: seq<Patch>)
    ensures contents == "" ==> r == []
  {
    ParseLines(ChompAll(Lines(contents)))
  }

  /**
   * Scanning `a + b` is scanning `a` and then `b`; a line of `a` is the
   * input's last only when `b` is empty.
   */
  lemma {:induction false} RunAppend(st: ScanState, a: seq<string>, b: seq<string>, atEnd: bool)
    ensures Run(st, a + b, atEnd) == Run(Run(st, a, atEnd && b == []), b, atEnd)
    decreases |a|
  {
    if a == [] {
      assert a + b == b;
    } else {
      assert (a + b)[1..] == a[1..] + b;
      RunAppend(Step(st, a[0], atEnd && |a| == 1 && b == []), a[1..], b, atEnd);
    }
  }

  /** Scanning one more line is one more step. */
  lemma RunSnoc(st: ScanState, ls: seq<string>, line: string, atEnd: bool)
    ensures Run(st, ls + [line], atEnd) == Step(Run(st, ls, false), line, atEnd)
  {
    RunAppend(st, ls, [line], atEnd);
  }

  /** Scanning a non-empty `ls` is scanning all but its last line, then stepping over that line. */
  lemma RunLast(st: ScanState, ls: seq<string>, atEnd: bool)
    requires ls != []
    ensures Run(st, ls, atEnd) == Step(Run(st, ls[..|ls| - 1], false), ls[|ls| - 1], atEnd)
  {
    assert ls == ls[..|ls| - 1] + [ls[|ls| - 1]];
    RunSnoc(st, ls[..|ls| - 1], ls[|ls| - 1], atEnd);
  }

  /** Scanning the first `n + 1` of `ls` is scanning the first `n` and then stepping over `ls[n]`. */
  lemma RunPrefixStep(ls: seq<string>, n: nat)
    requires n < |ls|
    ensures Run(Start, ls[..n + 1], n + 1 == |ls|) == Step(Run(Start, ls[..n], false), ls[n], n + 1 == |ls|)
  {
    assert ls[..n + 1] == ls[..n] + [ls[n]];
    RunSnoc(Start, ls[..n], ls[n], n + 1 == |ls|);
  }

  /**
   * Only a body line met in a body depends on being the input's last line,
   * and even then being last can only add a patch; a line no pattern
   * matches changes nothing at all.
   */
  lemma StepLastOnlyForBodyLine(st: ScanState, line: string)
    ensures !Classify(line).BodyLine? || !st.body ==> Step(st, line, true) == Step(st, line, false)
    ensures Step(st, line, false).parsed <= Step(st, line, true).parsed
    ensures Classify(line).Ignored? ==> Step(st, line, true) == st
  {
  }
}
