/**
 * One file's patch as the scanner builds it: the buffered hunk lines, the
 * file path after the change, the path before it and the kind of change.
 * The record's own class (its storage of the text and the derivation of its
 * secure hash) is not part of this model; see `GitDiffParser.Patches` for
 * how the secure hash is supplied.
 */
module PatchRecord {
  import opened Wrappers
  import opened RubyText

  /** `:add`, `:change` or `:delete`. */
  datatype DiffType = Add | Change | Delete

  /**
   * `Patch.new(patch.join("\n") + "\n", file: ..., orig_file: ..., diff_type: ...)`.
   * `file` and `origFile` are `None` where the Ruby value is `nil`.
   */
  datatype Patch = Patch(
    lines: seq<string>,
    file: Option<string>,
    origFile: Option<string>,
    diffType: DiffType)
  {
    /**
     * The raw text handed to `Patch.new`: the buffered lines joined by
     * "\n", plus a final "\n". It is never empty and always ends in '\n';
     * for a non-empty buffer every line is followed by exactly one '\n',
     * and for an empty one it is "\n" alone.
     */
    function Body(): (r: string)
      ensures r != [] && r[|r| - 1] == '\n'
      ensures lines != [] ==> r == Terminated(lines)
      ensures lines == [] ==> r == "\n"
    {
      var r := Join(lines) + "\n";
      assert lines != [] ==> r == Terminated(lines) by {
        if lines != [] { JoinThenNewline(lines); }
      }
      r
    }
  }

  /**
   * Re-cutting the raw text of a patch whose lines hold no '\n' gives back
   * exactly its lines, in order, each with its terminator: no line is lost,
   * split or duplicated by the join.
   */
  lemma BodyLinesRoundTrip(p: Patch)
    requires p.lines != []
    requires forall k :: 0 <= k < |p.lines| ==> '\n' !in p.lines[k]
    ensures Lines(p.Body()) == seq(|p.lines|, k requires 0 <= k < |p.lines| => p.lines[k] + "\n")
  {
    LinesOfTerminated(p.lines);
  }
}
