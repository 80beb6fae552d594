/**
 What the manager reads out of the scheduler's and the programs' text:
 the job id in the `sbatch` reply, the job ids listed by `squeue`, and the
 line count of a coordinate block.
 */
module SlurmOutput {
  import opened Wrappers
  import opened Text

  // ---------------------------------------------------------------------------
  // re.search("job\s*(\d+)\n", stdout).group(1)
  // ---------------------------------------------------------------------------

  /** The end of the run of whitespace that starts at i. */
  function SkipSpaces(s: string, i: nat): (j: nat)
    requires i <= |s|
    ensures i <= j <= |s|
    ensures forall k :: i <= k < j ==> IsSpace(s[k])
    ensures j < |s| ==> !IsSpace(s[j])
    decreases |s| - i
  {
    if i == |s| || !IsSpace(s[i]) then i else SkipSpaces(s, i + 1)
  }

  /** The end of the run of digits that starts at i. */
  function SkipDigits(s: string, i: nat): (j: nat)
    requires i <= |s|
    ensures i <= j <= |s|
    ensures forall k :: i <= k < j ==> IsDigit(s[k])
    ensures j < |s| ==> !IsDigit(s[j])
    decreases |s| - i
  {
    if i == |s| || !IsDigit(s[i]) then i else SkipDigits(s, i + 1)
  }

  /**
   The digit group of a match of `job\s*(\d+)\n` that begins at i, if one
   does. No digit is whitespace and a newline is no digit, so a match uses
   the whole whitespace run and the whole digit run after "job".
   */
  function MatchJobIdAt(s: string, i: nat): (m: Option<string>)
    requires i <= |s|
    ensures m.Some? ==> IsDigitString(m.value)
  {
    if i + 3 <= |s| && s[i..i + 3] == "job" then
      var d := SkipSpaces(s, i + 3);
      var e := SkipDigits(s, d);
      if d < e < |s| && s[e] == '\n' then Some(s[d..e]) else None
    else None
  }

  /**
   The pattern `job\s*(\d+)\n` matches at i with its group on [d, e): "job"
   at i, whitespace from i + 3 up to d, at least one digit from d up to e,
   and a newline at e. This is the pattern's own reading, with no greedy
   choice made.
   */
  predicate JobIdPatternAt(s: string, i: nat, d: nat, e: nat)
  {
    && i + 3 <= d < e < |s|
    && s[i..i + 3] == "job"
    && (forall k :: i + 3 <= k < d ==> IsSpace(s[k]))
    && (forall k :: d <= k < e ==> IsDigit(s[k]))
    && s[e] == '\n'
  }

  /** A whitespace run delimited at d is skipped up to d. */
  lemma {:induction false} SkipSpacesTo(s: string, i: nat, d: nat)
    requires i <= d <= |s|
    requires forall k :: i <= k < d ==> IsSpace(s[k])
    requires d < |s| ==> !IsSpace(s[d])
    ensures SkipSpaces(s, i) == d
    decreases d - i
  {
    if i < d {
      SkipSpacesTo(s, i + 1, d);
    }
  }

  /** A digit run delimited at e is skipped up to e. */
  lemma {:induction false} SkipDigitsTo(s: string, d: nat, e: nat)
    requires d <= e <= |s|
    requires forall k :: d <= k < e ==> IsDigit(s[k])
    requires e < |s| ==> !IsDigit(s[e])
    ensures SkipDigits(s, d) == e
    decreases e - d
  {
    if d < e {
      SkipDigitsTo(s, d + 1, e);
    }
  }

  /**
   Wherever the pattern matches at i, the matcher finds that match and its
   group. So the group is the same however the pattern's match is taken.
   */
  lemma MatchJobIdAtComplete(s: string, i: nat, d: nat, e: nat)
    requires JobIdPatternAt(s, i, d, e)
    ensures MatchJobIdAt(s, i) == Some(s[d..e])
  {
    SkipSpacesTo(s, i + 3, d);
    SkipDigitsTo(s, d, e);
  }

  /** The matcher finds a group only where the pattern matches with that group. */
  lemma MatchJobIdAtSound(s: string, i: nat)
    requires i <= |s| && MatchJobIdAt(s, i).Some?
    ensures exists d: nat, e: nat :: JobIdPatternAt(s, i, d, e) && MatchJobIdAt(s, i) == Some(s[d..e])
  {
    var d := SkipSpaces(s, i + 3);
    var e := SkipDigits(s, d);
    assert JobIdPatternAt(s, i, d, e);
  }

  /** No match begins at any position from i up to (not including) p. */
  predicate NoMatchBetween(s: string, i: nat, p: nat)
    requires i <= p <= |s| + 1
  {
    forall q :: i <= q < p ==> MatchJobIdAt(s, q).None?
  }

  /** `re.search` from position i: the leftmost match at or after i. */
  function SearchJobId(s: string, i: nat): (r: Option<string>)
    requires i <= |s|
    ensures r.Some? ==> exists p :: i <= p <= |s| && r == MatchJobIdAt(s, p) && NoMatchBetween(s, i, p)
    ensures r.None? ==> NoMatchBetween(s, i, |s| + 1)
    decreases |s| - i
  {
    var m := MatchJobIdAt(s, i);
    if m.Some? || i == |s| then
      assert NoMatchBetween(s, i, i);
      m
    else
      var r := SearchJobId(s, i + 1);
      assert forall p :: i + 1 <= p <= |s| && NoMatchBetween(s, i + 1, p) ==> NoMatchBetween(s, i, p);
      r
  }

  /**
   The job id in the reply of `sbatch`: the digits of the leftmost match of
   `job\s*(\d+)\n`; None where the source's `re.search` finds no match.
   */
  function ParseJobId(stdout: string): (r: Option<string>)
    ensures r.Some? ==> IsDigitString(r.value)
  {
    SearchJobId(stdout, 0)
  }

  /** The id read is that of the leftmost match; there is none only when no position matches. */
  lemma ParseJobIdLeftmost(stdout: string)
    ensures var r := ParseJobId(stdout);
      && (r.Some? ==> exists p :: 0 <= p <= |stdout| && r == MatchJobIdAt(stdout, p)
                                  && forall q :: 0 <= q < p ==> MatchJobIdAt(stdout, q).None?)
      && (r.None? <==> forall p :: 0 <= p <= |stdout| ==> MatchJobIdAt(stdout, p).None?)
  {
  }

  /**
   The id read is the group of the leftmost match of the pattern itself;
   there is none exactly when the pattern matches nowhere.
   */
  lemma ParseJobIdPattern(stdout: string)
    ensures ParseJobId(stdout).None? <==> forall p: nat, d: nat, e: nat :: !JobIdPatternAt(stdout, p, d, e)
    ensures ParseJobId(stdout).Some? ==>
              exists p: nat, d: nat, e: nat :: && JobIdPatternAt(stdout, p, d, e)
                                             && ParseJobId(stdout) == Some(stdout[d..e])
                                             && forall q: nat, d': nat, e': nat :: q < p ==> !JobIdPatternAt(stdout, q, d', e')
  {
    var r := ParseJobId(stdout);
    ParseJobIdLeftmost(stdout);
    forall p: nat, d: nat, e: nat | JobIdPatternAt(stdout, p, d, e) ensures MatchJobIdAt(stdout, p).Some? {
      MatchJobIdAtComplete(stdout, p, d, e);
    }
    if r.Some? {
      var p :| 0 <= p <= |stdout| && r == MatchJobIdAt(stdout, p)
               && forall q :: 0 <= q < p ==> MatchJobIdAt(stdout, q).None?;
      MatchJobIdAtSound(stdout, p);
      var d: nat, e: nat :| JobIdPatternAt(stdout, p, d, e) && MatchJobIdAt(stdout, p) == Some(stdout[d..e]);
      assert JobIdPatternAt(stdout, p, d, e);
    }
  }

  /** Positions where no "job" can begin do not stop the search. */
  lemma {:induction false} SearchSkips(s: string, i: nat, j: nat)
    requires i <= j <= |s|
    requires forall p :: i <= p < j ==> s[p] != 'j'
    ensures SearchJobId(s, i) == SearchJobId(s, j)
    decreases j - i
  {
    if i < j {
      assert MatchJobIdAt(s, i).None? by {
        if i + 3 <= |s| {
          assert s[i..i + 3][0] == s[i];
        }
      }
      SearchSkips(s, i + 1, j);
    }
  }

  /** "job " followed by digits and a newline is a match that yields those digits. */
  lemma MatchJobIdOf(s: string, p: nat, digits: string)
    requires IsDigitString(digits)
    requires p + 5 + |digits| <= |s|
    requires s[p..p + 5 + |digits|] == "job " + digits + "\n"
    ensures MatchJobIdAt(s, p) == Some(digits)
  {
    var t := "job " + digits + "\n";
    var e := p + 4 + |digits|;
    forall k | 0 <= k < |t| ensures s[p + k] == t[k] {
      assert s[p..p + 5 + |digits|][k] == s[p + k];
    }
    assert s[p..p + 3] == "job" by {
      assert s[p] == 'j' && s[p + 1] == 'o' && s[p + 2] == 'b';
    }
    assert s[p + 3] == ' ' && s[e] == '\n';
    assert forall k :: p + 4 <= k < e ==> s[k] == t[k - p] == digits[k - p - 4];
    assert s[p + 4..e] == digits;
    assert JobIdPatternAt(s, p, p + 4, e);
    MatchJobIdAtComplete(s, p, p + 4, e);
  }

  /** A match at p with no 'j' before it is what the search finds. */
  lemma SearchFindsAt(s: string, p: nat, digits: string)
    requires p <= |s|
    requires forall q :: 0 <= q < p ==> s[q] != 'j'
    requires MatchJobIdAt(s, p) == Some(digits)
    ensures ParseJobId(s) == Some(digits)
  {
    SearchSkips(s, 0, p);
  }

  /**
   When nothing before "job" contains a 'j', the id read from
   prefix + "job " + digits + "\n" is those digits.
   */
  lemma ParseJobIdAfter(prefix: string, digits: string)
    requires 'j' !in prefix
    requires IsDigitString(digits)
    ensures ParseJobId(prefix + "job " + digits + "\n") == Some(digits)
  {
    var s := prefix + "job " + digits + "\n";
    var p := |prefix|;
    assert |s| == p + 5 + |digits|;
    assert s[p..p + 5 + |digits|] == "job " + digits + "\n";
    MatchJobIdOf(s, p, digits);
    assert forall q :: 0 <= q < p ==> s[q] == prefix[q];
    SearchFindsAt(s, p, digits);
  }

  /** The reply of `sbatch` for job n is read back as the decimal digits of n. */
  lemma SbatchReplyRoundTrip(n: nat)
    ensures ParseJobId("Submitted batch job " + NatToString(n) + "\n") == Some(NatToString(n))
  {
    var prefix := "Submitted batch ";
    assert 'j' !in prefix;
    ParseJobIdAfter(prefix, NatToString(n));
    assert prefix + "job " == "Submitted batch job ";
  }

  // ---------------------------------------------------------------------------
  // squeue -u user -o %A,%T
  // ---------------------------------------------------------------------------

  /**
   The job ids listed by `squeue -o %A,%T`: the first comma field of every
   line after the header line.
   */
  function UserRunningIds(stdout: string): (ids: seq<string>)
    ensures var lines := SplitLines(stdout);
      && |ids| == (if lines == [] then 0 else |lines| - 1)
      && forall k :: 0 <= k < |ids| ==>
           && ids[k] <= lines[k + 1] && ',' !in ids[k]
           && (|ids[k]| == |lines[k + 1]| || lines[k + 1][|ids[k]|] == ',')
  {
    var lines := SplitLines(stdout);
    var rows := if lines == [] then [] else lines[1..];
    seq(|rows|, k requires 0 <= k < |rows| => FirstField(rows[k]))
  }

  /** Under a header line, the rows "id,state" list exactly the ids. */
  lemma {:induction false} UserRunningIdsOfTable(header: string, ids: seq<string>, states: seq<string>)
    requires |ids| == |states| && NoLineBreak(header)
    requires forall k :: 0 <= k < |ids| ==> NoLineBreak(ids[k]) && ',' !in ids[k] && NoLineBreak(states[k])
    ensures UserRunningIds(Terminated([header] + seq(|ids|, k requires 0 <= k < |ids| => ids[k] + "," + states[k])))
            == ids
  {
    var rows := seq(|ids|, k requires 0 <= k < |ids| => ids[k] + "," + states[k]);
    forall k | 0 <= k < |rows| ensures NoLineBreak(rows[k]) {
      var r := rows[k];
      forall c | 0 <= c < |r| ensures !IsLineBreak(r[c]) {
        if c < |ids[k]| {
          assert r[c] == ids[k][c];
        } else if c > |ids[k]| {
          assert r[c] == states[k][c - |ids[k]| - 1];
        }
      }
    }
    var lines := [header] + rows;
    SplitTerminated(lines);
    forall k | 0 <= k < |ids| ensures FirstField(rows[k]) == ids[k] {
      var f := FirstField(rows[k]);
      assert rows[k][|ids[k]|] == ',';
      assert f == rows[k][..|f|];
      assert rows[k][..|ids[k]|] == ids[k];
    }
    assert lines[1..] == rows;
  }

  // ---------------------------------------------------------------------------
  // The coordinate block of a resubmitted input file
  // ---------------------------------------------------------------------------

  /**
   The coordinate block written into a resubmitted input file: each row
   (atom label, then x, y and z as text) joined by spaces, the rows joined
   by newlines, and a blank line after them.
   */
  function CoordsBlock(rows: seq<seq<string>>): (b: string)
    ensures |b| >= 2 && b[|b| - 2..] == "\n\n"
  {
    Join("\n", seq(|rows|, k requires 0 <= k < |rows| => Join(" ", rows[k]))) + "\n\n"
  }

  /** The line-count check made before a coordinate block is replaced. */
  predicate SameLineCount(oldBlock: string, newBlock: string)
  {
    |SplitLines(oldBlock)| == |SplitLines(newBlock)|
  }

  /**
   The line-count check passes for a new block of atom rows exactly when the
   old block has one line per atom and the closing blank line.
   */
  lemma SameLineCountOfRows(oldBlock: string, rows: seq<seq<string>>)
    requires |rows| > 0
    requires forall k, c :: 0 <= k < |rows| && 0 <= c < |rows[k]| ==> NoLineBreak(rows[k][c])
    ensures SameLineCount(oldBlock, CoordsBlock(rows)) <==> |SplitLines(oldBlock)| == |rows| + 1
  {
    CoordsBlockLines(rows);
  }

  /**
   A coordinate block has one line per row and the closing blank line; with
   no rows at all it still has two lines.
   */
  lemma CoordsBlockLines(rows: seq<seq<string>>)
    requires forall k, c :: 0 <= k < |rows| && 0 <= c < |rows[k]| ==> NoLineBreak(rows[k][c])
    ensures |SplitLines(CoordsBlock(rows))| == if |rows| == 0 then 2 else |rows| + 1
  {
    var lines := seq(|rows|, k requires 0 <= k < |rows| => Join(" ", rows[k]));
    if |rows| == 0 {
      assert CoordsBlock(rows) == Terminated(["", ""]);
      SplitTerminated(["", ""]);
    } else {
      forall k | 0 <= k < |lines| ensures NoLineBreak(lines[k]) {
        JoinSpacesNoLineBreak(rows[k]);
      }
      JoinNewlines(lines);
      TerminatedAppend(lines, "");
      assert CoordsBlock(rows) == Terminated(lines + [""]);
      SplitTerminated(lines + [""]);
    }
  }
}
