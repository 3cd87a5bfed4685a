/**
 * playdiff.py, the command-line player: the same row loop as diffrunner.py
 * without the look-ahead and without quit, on a list `current` that its
 * functions change in place, with the whole list written to the output
 * file after every step. Indents change one space per step. The output
 * file is modelled by what it holds and by the number of rewrites.
 */
module PlayDiff {
  import opened Text
  import opened Wrappers
  import opened LineOps
  import opened Delta
  import opened Events
  import opened ClassicReplay

  /** An indent by the positive part of x and a dedent by that of -x take |x| steps in all. */
  lemma {:induction false} PositiveParts(x: int)
    ensures Max(x, 0) + Max(-x, 0) == Abs(x)
  {
  }

  /**
   * The state of `play`: the buffer `current` and, as ghosts, what the
   * output file holds and how many times `rewrite_output_file` has
   * rewritten it.
   */
  class Player {
    var current: seq<string>
    ghost var output: seq<string>
    ghost var writes: nat

    constructor ()
      ensures current == [] && output == [] && writes == 0
    {
      current := [];
      output := [];
      writes := 0;
    }

    /** The output file shows the buffer. */
    ghost predicate Synced()
      reads this
    {
      output == current
    }

    /** `rewrite_output_file(output_file, current)`. */
    method RewriteOutput()
      modifies this`output, this`writes
      ensures output == current && writes == old(writes) + 1
    {
      output := current;
      writes := writes + 1;
    }

    /**
     * `insert_line`: a bare newline goes in at `line`, then the line is
     * retyped once per character of `diffline`, with a write after each.
     * The bare newline alone is never written, so an empty `diffline`
     * leaves the output file behind the buffer.
     */
    method InsertLine(line: nat, diffline: string)
      requires line <= |current|
      modifies this`current, this`output, this`writes
      ensures current == old(current)[..line] + [TypedLine(diffline)] + old(current)[line..]
      ensures writes == old(writes) + (|diffline|)
      ensures |diffline| > 0 ==> Synced()
    {
      ghost var before := current;
      current := current[..line] + ["\n"] + current[line..];
      for n := 0 to |diffline|
        invariant current == before[..line] + [if n == 0 then "\n" else diffline[..n - 1] + "\n"] + before[line..]
        invariant writes == old(writes) + (n)
        invariant n > 0 ==> Synced()
      {
        ReplaceInserted(before, line, current[line], diffline[..n] + "\n");
        current := current[line := diffline[..n] + "\n"];
        RewriteOutput();
      }
    }

    /** `_indent_line`: prepends `nindents` spaces to the line, one per write. */
    method IndentBy(line: nat, nindents: int)
      requires line < |current|
      modifies this`current, this`output, this`writes
      ensures current == old(current)[line := Spaces(Max(nindents, 0)) + old(current)[line]]
      ensures writes == old(writes) + (Max(nindents, 0))
      ensures old(Synced()) ==> Synced()
    {
      ghost var before := current;
      assert Spaces(0) + before[line] == before[line];
      for n := 0 to Max(nindents, 0)
        invariant current == before[line := Spaces(n) + before[line]]
        invariant writes == old(writes) + (n)
        invariant old(Synced()) || n > 0 ==> Synced()
      {
        SpacesAppend(1, n, before[line]);
        assert Spaces(1) == " ";
        current := current[line := " " + current[line]];
        RewriteOutput();
      }
    }

    /** `_dedent_line`: removes `ndedents` leading characters from the line, one per write. */
    method DedentBy(line: nat, ndedents: int)
      requires line < |current|
      modifies this`current, this`output, this`writes
      ensures current == old(current)[line := Drop(old(current)[line], Max(ndedents, 0))]
      ensures writes == old(writes) + (Max(ndedents, 0))
      ensures old(Synced()) ==> Synced()
    {
      ghost var before := current;
      assert Drop(before[line], 0) == before[line];
      for n := 0 to Max(ndedents, 0)
        invariant current == before[line := Drop(before[line], n)]
        invariant writes == old(writes) + (n)
        invariant old(Synced()) || n > 0 ==> Synced()
      {
        DropDrop(before[line], n, 1);
        current := current[line := Drop(current[line], 1)];
        RewriteOutput();
      }
    }

    /** `indent_line`: brings the indent of a line to that of `diffline`, one space per write. */
    method IndentLine(line: nat, diffline: string)
      requires line < |current|
      modifies this`current, this`output, this`writes
      ensures current == old(current)[line := IndentFix(old(current)[line], diffline)]
      ensures writes == old(writes) + (Abs(FirstWhitespace(diffline) - FirstWhitespace(old(current)[line])))
      ensures old(Synced()) ==> Synced()
    {
      var currentLine := current[line];
      var cstart: int := FirstWhitespace(currentLine);
      var dstart: int := FirstWhitespace(diffline);
      ghost var indented := Spaces(Max(dstart - cstart, 0)) + currentLine;
      ghost var c0 := current;
      IndentBy(line, dstart - cstart);
      DedentBy(line, cstart - dstart);
      UpdateTwice(c0, line, indented, Drop(indented, Max(cstart - dstart, 0)));
      PositiveParts(dstart - cstart);
      IndentFixSteps(currentLine, diffline);
      assert current == c0[line := IndentFix(currentLine, diffline)];
    }

    /**
     * `edit_line`: keeps the common prefix and suffix of the line and
     * `diffline` and retypes the middle, one character per write. `ok` is
     * false when it raises because `starti` or `endi` is never bound, which
     * happens exactly when one of the lines is empty.
     */
    method EditLine(line: nat, diffline: string) returns (ok: bool)
      requires line < |current|
      modifies this`current, this`output, this`writes
      ensures ok <==> |old(current)[line]| > 0 && |diffline| > 0
      ensures ok ==> current == old(current)[line := EditResult(old(current)[line], diffline).value]
      ensures ok ==> writes == old(writes) + (EditSteps(old(current)[line], diffline))
      ensures !ok ==> current == old(current) && output == old(output) && writes == old(writes)
      ensures old(Synced()) ==> Synced()
    {
      var currentLine := current[line];
      var starti := ScanStart(currentLine, diffline);
      var endi := ScanEnd(currentLine, diffline);
      if starti.None? || endi.None? {
        return false;
      }
      ghost var c0, w0, o0 := current, writes, output;
      var s, e := starti.value, endi.value;
      var toTypeLen := |diffline| - (s + e);
      var n := 0;
      while n < toTypeLen + 1
        invariant 0 <= n <= Max(0, toTypeLen + 1)
        invariant current == if n == 0 then c0 else c0[line := EditStep(currentLine, diffline, n - 1)]
        invariant writes == w0 + n
        invariant output == if n == 0 then o0 else current
      {
        EditStepAt(currentLine, diffline, s, e, n);
        current := current[line := currentLine[..s] + diffline[s..s + n] + Tail(currentLine, e)];
        RewriteOutput();
        n := n + 1;
      }
      EditLast(currentLine, diffline, n);
      assert c0[line := currentLine] == c0;
      ok := true;
    }

    /** The pair branch: `indent_line`, then `edit_line`; `ok` is false when the edit raised. */
    method ReplacePair(line: nat, diffline: string) returns (ok: bool)
      requires line < |current|
      modifies this`current, this`output, this`writes
      ensures ok <==> TypedPairResult(old(current)[line], diffline).Some?
      ensures ok ==> current == old(current)[line := TypedPairResult(old(current)[line], diffline).value]
      ensures !ok ==> current == old(current)[line := IndentFix(old(current)[line], diffline)]
      ensures writes >= old(writes)
      ensures old(Synced()) ==> Synced()
      ensures AgreeBefore(old(current), current, line)
    {
      ghost var fixed := IndentFix(old(current)[line], diffline);
      IndentLine(line, diffline);
      ok := EditLine(line, diffline);
      if ok {
        UpdateTwice(old(current), line, fixed, EditResult(fixed, diffline).value);
      }
      AgreeBeforeUpdate(old(current), line, current[line], line);
    }

    /** The delete branch: `del current[line]`, then a write. */
    method DeleteLine(line: nat)
      requires line < |current|
      modifies this`current, this`output, this`writes
      ensures current == old(current)[..line] + old(current)[line + 1..]
      ensures output == current && writes == old(writes) + 1
      ensures AgreeBefore(old(current), current, line)
    {
      AgreeBeforeDelete(current, line, line);
      current := current[..line] + current[line + 1..];
      RewriteOutput();
    }

    /**
     * One pass of the row loop of `play`: a kept row is stepped over, a
     * removed row followed by an added one is a pair, a removed row alone
     * is deleted, an added row is typed at `cl`. `ok` is false when
     * `edit_line` raised, which an exact delta never makes it do.
     */
    method ReplayRow(delta: seq<Row>, cl: nat, dl: nat, ghost exact: bool, ghost target: seq<string>)
      returns (cl': nat, dl': nat, ok: bool)
      requires InStep(current, delta, delta, cl, dl, exact, target)
      requires cl + 1 < |current|
      modifies this`current, this`output, this`writes
      ensures dl < |delta| && |current| > 0
      ensures ok ==> dl < dl' && InStep(current, delta, delta, cl', dl', exact, target)
      ensures ok ==> cl <= cl' <= cl + 1
      ensures !ok ==> !exact
      ensures delta[dl].Equal? ==> ok && current == old(current) && output == old(output) && writes == old(writes)
      ensures writes >= old(writes)
      ensures old(Synced()) && (delta[dl].Ins? ==> |delta[dl].text| > 0) ==> Synced()
      ensures AgreeBefore(old(current), current, cl)
    {
      StepRowExists(current, delta, delta, cl, dl, exact, target);
      var row := delta[dl];
      if row.Equal? {
        StepKept(current, delta, delta, cl, dl, exact, target);
        return cl + 1, dl + 1, true;
      }
      if row.Del? {
        cl', dl', ok := ReplayRemoved(delta, cl, dl, exact, target);
        return;
      }
      ghost var before := current;
      InsertLine(cl, row.text);
      StepInsert(before, current, delta, delta, cl, dl, exact, target);
      AgreeBeforeInsert(before, cl, TypedLine(row.text), cl);
      return cl + 1, dl + 1, true;
    }

    /** A removed row: with an added row after it, a pair; alone, a deletion. */
    method ReplayRemoved(delta: seq<Row>, cl: nat, dl: nat, ghost exact: bool, ghost target: seq<string>)
      returns (cl': nat, dl': nat, ok: bool)
      requires InStep(current, delta, delta, cl, dl, exact, target)
      requires cl + 1 < |current| && dl < |delta| && delta[dl].Del?
      modifies this`current, this`output, this`writes
      ensures |current| > 0
      ensures ok ==> dl < dl' && InStep(current, delta, delta, cl', dl', exact, target)
      ensures ok ==> cl <= cl' <= cl + 1
      ensures !ok ==> !exact
      ensures writes >= old(writes)
      ensures old(Synced()) ==> Synced()
      ensures AgreeBefore(old(current), current, cl)
    {
      ghost var before := current;
      if dl < |delta| - 1 && delta[dl + 1].Ins? {
        StepPairHead(current, delta, delta, cl, dl, exact, target);
        ok := ReplacePair(cl, delta[dl + 1].text);
        if !ok {
          return cl, dl, false;
        }
        StepPair(before, current, delta, delta, cl, dl, exact, target, current[cl]);
        return cl + 1, dl + 2, true;
      }
      StepDelete(before, before[..cl] + before[cl + 1..], delta, delta, cl, dl, exact, target);
      DeleteLine(cl);
      return cl, dl + 1, true;
    }

    /**
     * The replay of one delta in `play`: `while cl < len(current) - 1`.
     * The loop stops with the cursor on the buffer's last line, so in an
     * exact delta every line but the last is the target's and the rows left
     * over are never replayed; a buffer of one line is never touched.
     */
    method Transition(delta0: seq<Row>, ghost target: seq<string>) returns (outcome: Outcome)
      requires WellFormed(delta0, current, target)
      modifies this`current, this`output, this`writes
      ensures outcome == Finished || outcome == Failed(UnboundEditIndex)
      ensures |old(current)| > 0 ==> |current| > 0
      ensures TypedReproduces(delta0) ==> outcome == Finished
      ensures TypedReproduces(delta0) && |current| > 0 ==> current[..|current| - 1] <= target
      ensures AllKept(delta0) || |old(current)| <= 1 ==>
                outcome == Finished && current == old(current) && output == old(output) && writes == old(writes)
      ensures writes >= old(writes)
      ensures old(Synced()) && NonEmptyLines(target) ==> Synced()
    {
      ghost var exact := TypedReproduces(delta0);
      ghost var synced := old(Synced()) && NonEmptyLines(target);
      if synced {
        InsertsFromTarget(delta0);
      }
      var cl: nat, dl: nat := 0, 0;
      outcome := Finished;
      StepStart(current, delta0, target);
      while cl < |current| - 1
        invariant InStep(current, delta0, delta0, cl, dl, exact, target)
        invariant |old(current)| > 0 ==> |current| > 0
        invariant AllKept(delta0) || |old(current)| <= 1 ==> current == old(current) && output == old(output) && writes == old(writes)
        invariant writes >= old(writes)
        invariant synced ==> Synced()
        decreases |delta0| - dl
      {
        var ok;
        cl, dl, ok := ReplayRow(delta0, cl, dl, exact, target);
        if !ok {
          return Failed(UnboundEditIndex);
        }
      }
      StepStop(current, delta0, delta0, cl, dl, exact, target);
    }

    /**
     * `play`: writes the first file to the output, then replays the delta
     * from the buffer to each following file. An exception ends the run.
     * The output file always catches up with the buffer, as long as no
     * input line is empty (what `readlines` guarantees).
     */
    method Play(compare: (seq<string>, seq<string>) -> seq<string>, files: seq<File>) returns (outcome: Outcome)
      requires |files| > 0
      requires Differ(compare)
      modifies this`current, this`output, this`writes
      ensures outcome == Finished || outcome == Failed(UnboundEditIndex)
      ensures writes > old(writes)
      ensures (forall i :: 0 <= i < |files| ==> NonEmptyLines(files[i].lines)) ==> Synced()
      ensures |files[0].lines| <= 1 ==> outcome == Finished && current == files[0].lines
      ensures |files| == 1 ==>
                outcome == Finished && current == files[0].lines && output == files[0].lines && writes == old(writes) + 1
    {
      current := files[0].lines;
      RewriteOutput();
      outcome := Finished;
      var i := 1;
      while i < |files|
        invariant 1 <= i <= |files|
        invariant writes > old(writes)
        invariant (forall j :: 0 <= j < |files| ==> NonEmptyLines(files[j].lines)) ==> Synced()
        invariant |files[0].lines| <= 1 ==> current == files[0].lines
        invariant i == 1 ==> current == files[0].lines && output == files[0].lines && writes == old(writes) + 1
        invariant outcome == Finished
      {
        var target := files[i].lines;
        DifferParsed(compare, current, target);
        var delta := Parsed(compare(current, target));
        outcome := Transition(delta, target);
        if outcome.Failed? {
          return;
        }
        i := i + 1;
      }
    }
  }
}
