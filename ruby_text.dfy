/**
 * The few Ruby string operations the diff scanner relies on, on strings as
 * sequences of characters: `String#lines`, `String#chomp`, `Array#join("\n")`
 * and the anchored prefix test that each of the scanner's patterns amounts to.
 */
module RubyText {

  /** `s` begins with `prefix`: what `/^prefix/` tests on a line holding no '\n'. */
  predicate StartsWith(s: string, prefix: string) {
    |prefix| <= |s| && s[..|prefix|] == prefix
  }

  /** The last character of `s` is a carriage return. */
  predicate EndsWithCR(s: string) {
    |s| > 0 && s[|s| - 1] == '\r'
  }

  /** The position of the first '\n' in `s`, or `|s|` when there is none. */
  function NewlineIndex(s: string): (i: nat)
    ensures i <= |s|
    ensures i < |s| ==> s[i] == '\n'
    ensures '\n' !in s[..i]
  {
    if s == [] || s[0] == '\n' then 0
    else
      var j := NewlineIndex(s[1..]);
      assert s[..1 + j] == [s[0]] + s[1..][..j];
      1 + j
  }

  /** The strings of `ls` written one after the other. */
  function Concat(ls: seq<string>): string {
    if ls == [] then [] else ls[0] + Concat(ls[1..])
  }

  /**
   * Ruby's `String#lines`: `s` cut just after every '\n'; a last piece
   * without '\n' is kept when `s` does not end in one. The empty string
   * has no lines.
   */
  function Lines(s: string): (r: seq<string>)
    ensures Concat(r) == s
    ensures forall k :: 0 <= k < |r| ==> r[k] != [] && '\n' !in r[k][..|r[k]| - 1]
    ensures forall k :: 0 <= k < |r| - 1 ==> r[k][|r[k]| - 1] == '\n'
    decreases |s|
  {
    if s == [] then []
    else
      var i := NewlineIndex(s);
      if i == |s| then
        assert Concat([s]) == s + Concat([]);
        [s]
      else
        var rest := Lines(s[i + 1..]);
        assert ([s[..i + 1]] + rest)[1..] == rest;
        assert s[..i + 1][..i] == s[..i];
        assert s == s[..i + 1] + s[i + 1..];
        [s[..i + 1]] + rest
  }

  /**
   * Ruby's `String#chomp` with the default separator: one trailing "\r\n",
   * "\n" or "\r" is removed, "\r\n" taking precedence.
   */
  function Chomp(line: string): (r: string)
    ensures StartsWith(line, r)
    ensures || line == r + "\r\n"
            || (line == r + "\n" && !EndsWithCR(r))
            || line == r + "\r"
            || (line == r && (line == [] || line[|line| - 1] !in "\r\n"))
  {
    if |line| >= 2 && line[|line| - 2..] == "\r\n" then
      assert line == line[..|line| - 2] + "\r\n";
      line[..|line| - 2]
    else if |line| >= 1 && (line[|line| - 1] == '\n' || line[|line| - 1] == '\r') then
      assert line == line[..|line| - 1] + [line[|line| - 1]];
      line[..|line| - 1]
    else
      line
  }

  /** Every line chomped: the `line.chomp` the scanner applies to each line. */
  function ChompAll(ls: seq<string>): (r: seq<string>)
    ensures |r| == |ls|
    ensures forall k :: 0 <= k < |ls| ==> r[k] == Chomp(ls[k]) && StartsWith(ls[k], r[k]) && |ls[k]| <= |r[k]| + 2
  {
    seq(|ls|, k requires 0 <= k < |ls| => Chomp(ls[k]))
  }

  /** Ruby's `Array#join("\n")`: the strings with one '\n' between neighbours. */
  function Join(ls: seq<string>): string {
    if ls == [] then []
    else if |ls| == 1 then ls[0]
    else ls[0] + "\n" + Join(ls[1..])
  }

  /** Every string of `ls` followed by its own '\n'. */
  function Terminated(ls: seq<string>): string {
    if ls == [] then [] else ls[0] + "\n" + Terminated(ls[1..])
  }

  /** `ls.join("\n") + "\n"` of a non-empty list ends every line with '\n'. */
  lemma {:induction false} JoinThenNewline(ls: seq<string>)
    requires ls != []
    ensures Join(ls) + "\n" == Terminated(ls)
  {
    if |ls| > 1 {
      JoinThenNewline(ls[1..]);
    }
  }

  /** The first line of a text that starts with a '\n'-free line and its '\n' is that line. */
  lemma LinesAfterLine(l: string, t: string)
    requires '\n' !in l
    ensures Lines(l + "\n" + t) == [l + "\n"] + Lines(t)
  {
    var s := l + "\n" + t;
    var i := NewlineIndex(s);
    assert s[..|l|] == l && s[|l|] == '\n';
    assert i == |l|;
    assert s[..i + 1] == l + "\n";
    assert s[i + 1..] == t;
  }

  /**
   * Cutting text made of '\n'-free lines, each terminated by '\n', gives
   * back those lines with their terminators.
   */
  lemma {:induction false} LinesOfTerminated(ls: seq<string>)
    requires forall k :: 0 <= k < |ls| ==> '\n' !in ls[k]
    ensures Lines(Terminated(ls)) == seq(|ls|, k requires 0 <= k < |ls| => ls[k] + "\n")
  {
    if ls != [] {
      var t := Terminated(ls[1..]);
      assert Terminated(ls) == ls[0] + "\n" + t;
      LinesAfterLine(ls[0], t);
      LinesOfTerminated(ls[1..]);
    }
  }

  /** Chomping a line that was terminated by '\n' gives the line back. */
  lemma ChompTerminatedLine(l: string)
    requires '\n' !in l && !EndsWithCR(l)
    ensures Chomp(l + "\n") == l
  {
    var r := Chomp(l + "\n");
    assert (l + "\n")[..|l|] == l;
  }

  /** Chomping a line whose only '\n' can be its last character leaves no '\n'. */
  lemma ChompNoNewline(l: string)
    requires l != [] && '\n' !in l[..|l| - 1]
    ensures '\n' !in Chomp(l)
  {
    var r := Chomp(l);
    if |r| < |l| {
      assert r == l[..|l| - 1][..|r|];
    } else {
      assert r == l;
      assert l == l[..|l| - 1] + [l[|l| - 1]];
    }
  }

  /**
   * The lines Ruby's `String#lines` and `chomp` make of a text never hold
   * '\n'.
   */
  lemma ChompedLinesHaveNoNewline(s: string)
    ensures forall k :: 0 <= k < |ChompAll(Lines(s))| ==> '\n' !in ChompAll(Lines(s))[k]
  {
    var ls := Lines(s);
    forall k | 0 <= k < |ls|
      ensures '\n' !in Chomp(ls[k])
    {
      ChompNoNewline(ls[k]);
    }
  }

  /**
   * Chomping the lines of a text made of '\n'-free lines without a trailing
   * '\r', each terminated by '\n', gives back exactly those lines.
   */
  lemma ChompedLinesOfTerminated(ls: seq<string>)
    requires forall k :: 0 <= k < |ls| ==> '\n' !in ls[k] && !EndsWithCR(ls[k])
    ensures ChompAll(Lines(Terminated(ls))) == ls
  {
    LinesOfTerminated(ls);
    forall k | 0 <= k < |ls|
      ensures ChompAll(Lines(Terminated(ls)))[k] == ls[k]
    {
      ChompTerminatedLine(ls[k]);
    }
  }
}
