/**
 * The replay engine of diffrunner.py, the Qt runner that came before
 * diffcast/diffrunner.py. It types every added line character by
 * character, fixes a changed line's indent in groups of four spaces and
 * then retypes its middle, and runs its row loop only while the buffer
 * cursor is above the buffer's last line. Sleeps are left out; the other
 * thread that may call `quit` is the `Cancel` oracle.
 */
module QtRunner {
  import opened Text
  import opened Wrappers
  import opened LineOps
  import opened Delta
  import opened Events
  import opened ClassicReplay

  class DiffRunner {
    const files: seq<File>
    var current: seq<string>
    var quitRequested: bool
    /** The number of quit checks passed so far; the `Cancel` oracle counts them. */
    var checks: nat
    ghost var events: seq<Event>

    constructor (files: seq<File>)
      ensures this.files == files
      ensures current == [] && !quitRequested && checks == 0 && events == []
    {
      this.files := files;
      current := [];
      quitRequested := false;
      checks := 0;
      events := [];
    }

    /**
     * `insert_line`: a bare newline goes in at `line`, then the line is
     * retyped once per character of `diffline`, each time as a prefix of
     * it followed by a newline; the last character is never typed.
     */
    method InsertLine(line: nat, diffline: string)
      requires line <= |current|
      modifies this`current, this`events
      ensures current == old(current)[..line] + [TypedLine(diffline)] + old(current)[line..]
      ensures Emitted(events, old(events), |diffline|, line)
    {
      ghost var e0 := events;
      ghost var before := current;
      current := current[..line] + ["\n"] + current[line..];
      for n := 0 to |diffline|
        invariant current == before[..line] + [if n == 0 then "\n" else diffline[..n - 1] + "\n"] + before[line..]
        invariant Emitted(events, e0, n, line)
      {
        ReplaceInserted(before, line, current[line], diffline[..n] + "\n");
        current := current[line := diffline[..n] + "\n"];
        EmittedStep(events, e0, n, line, Updated(line, n, current));
        events := events + [Updated(line, n, current)];
      }
    }

    /** `_indent_line`: prepends `nindents` spaces to the line, four at a time. */
    method IndentBy(line: nat, nindents: int)
      requires line < |current|
      modifies this`current, this`events
      ensures current == old(current)[line := Spaces(Max(nindents, 0)) + old(current)[line]]
      ensures Emitted(events, old(events), (Max(nindents, 0) + 3) / 4, line)
    {
      ghost var e0 := events;
      ghost var before := current;
      var chunks := Chunkify(Range(0, nindents), 4);
      ghost var done := 0;
      assert Spaces(0) + before[line] == before[line];
      for k := 0 to |chunks|
        invariant done == |Concat(chunks[..k])|
        invariant current == before[line := Spaces(done) + before[line]]
        invariant Emitted(events, e0, k, line)
      {
        var n := |chunks[k]|;
        SpacesAppend(n, done, before[line]);
        UpdateTwice(before, line, Spaces(done) + before[line], Spaces(n) + (Spaces(done) + before[line]));
        current := current[line := Spaces(n) + current[line]];
        EmittedStep(events, e0, k, line, Updated(line, n, current));
        events := events + [Updated(line, n, current)];
        ConcatUpTo(chunks, k);
        done := done + n;
      }
      assert chunks[..|chunks|] == chunks;
      ChunkCount4(Range(0, nindents));
    }

    /** `_dedent_line`: removes `ndedents` leading characters from the line, four at a time. */
    method DedentBy(line: nat, ndedents: int)
      requires line < |current|
      modifies this`current, this`events
      ensures current == old(current)[line := Drop(old(current)[line], Max(ndedents, 0))]
      ensures Emitted(events, old(events), (Max(ndedents, 0) + 3) / 4, line)
    {
      ghost var e0 := events;
      ghost var before := current;
      var chunks := Chunkify(Range(0, ndedents), 4);
      ghost var done := 0;
      assert Drop(before[line], 0) == before[line];
      for k := 0 to |chunks|
        invariant done == |Concat(chunks[..k])|
        invariant current == before[line := Drop(before[line], done)]
        invariant Emitted(events, e0, k, line)
      {
        var n := |chunks[k]|;
        DropDrop(before[line], done, n);
        UpdateTwice(before, line, Drop(before[line], done), Drop(Drop(before[line], done), n));
        current := current[line := Drop(current[line], n)];
        EmittedStep(events, e0, k, line, Updated(line, 0, current));
        events := events + [Updated(line, 0, current)];
        ConcatUpTo(chunks, k);
        done := done + n;
      }
      assert chunks[..|chunks|] == chunks;
      ChunkCount4(Range(0, ndedents));
    }

    /** `indent_line`: brings the indent of a line to that of `diffline`. */
    method IndentLine(line: nat, diffline: string)
      requires line < |current|
      modifies this`current, this`events
      ensures current == old(current)[line := IndentFix(old(current)[line], diffline)]
      ensures Emitted(events, old(events),
                      (Abs(FirstWhitespace(diffline) - FirstWhitespace(old(current)[line])) + 3) / 4, line)
    {
      var currentLine := current[line];
      var cstart: int := FirstWhitespace(currentLine);
      var dstart: int := FirstWhitespace(diffline);
      ghost var c0 := current;
      ghost var indented := Spaces(Max(dstart - cstart, 0)) + currentLine;
      ghost var e0 := events;
      IndentBy(line, dstart - cstart);
      ghost var e1 := events;
      DedentBy(line, cstart - dstart);
      UpdateTwice(c0, line, indented, Drop(indented, Max(cstart - dstart, 0)));
      EmittedChain(e0, e1, events, (Max(dstart - cstart, 0) + 3) / 4, (Max(cstart - dstart, 0) + 3) / 4, line);
      ChunkSteps(dstart - cstart);
      IndentFixSteps(currentLine, diffline);
    }

    /**
     * `edit_line`: keeps the common prefix and suffix of the line and
     * `diffline` and retypes the middle, one character per step. `ok` is
     * false when it raises because `starti` or `endi` is never bound, which
     * happens exactly when one of the lines is empty.
     */
    method EditLine(line: nat, diffline: string) returns (ok: bool)
      requires line < |current|
      modifies this`current, this`events
      ensures ok <==> |old(current)[line]| > 0 && |diffline| > 0
      ensures ok ==> current == old(current)[line := EditResult(old(current)[line], diffline).value]
      ensures ok ==> Emitted(events, old(events), EditSteps(old(current)[line], diffline), line)
      ensures !ok ==> current == old(current) && events == old(events)
    {
      var currentLine := current[line];
      var starti := ScanStart(currentLine, diffline);
      var endi := ScanEnd(currentLine, diffline);
      if starti.None? || endi.None? {
        return false;
      }
      TypeMiddle(line, currentLine, diffline, starti.value, endi.value);
      ok := true;
    }

    /**
     * The typing loop of `edit_line` once `starti` and `endi` are bound:
     * `to_type_len + 1` rewrites of the line, each followed by an update.
     */
    method TypeMiddle(line: nat, currentLine: string, diffline: string, s: nat, e: nat)
      requires line < |current| && current[line] == currentLine
      requires |currentLine| > 0 && |diffline| > 0
      requires s == StartIndex(currentLine, diffline) && e == EndIndex(currentLine, diffline)
      modifies this`current, this`events
      ensures current == old(current)[line := EditResult(currentLine, diffline).value]
      ensures Emitted(events, old(events), EditSteps(currentLine, diffline), line)
    {
      ghost var c0, e0 := current, events;
      var toTypeLen := |diffline| - (s + e);
      var n := 0;
      ghost var typed := currentLine;
      assert c0[line := currentLine] == c0;
      while n < toTypeLen + 1
        invariant n == 0 || n <= toTypeLen + 1
        invariant n == 0 ==> typed == currentLine
        invariant n > 0 ==> typed == EditStep(currentLine, diffline, n - 1)
        invariant current == c0[line := typed]
        invariant Emitted(events, e0, n, line)
      {
        EditStepAt(currentLine, diffline, s, e, n);
        var next := currentLine[..s] + diffline[s..s + n] + Tail(currentLine, e);
        UpdateTwice(c0, line, typed, next);
        current := current[line := next];
        typed := next;
        EmittedStep(events, e0, n, line, Updated(line, s + n, current));
        events := events + [Updated(line, s + n, current)];
        n := n + 1;
      }
      EditLast(currentLine, diffline, n);
    }

    /** `quit`: asks the run to stop at its next check. */
    method Quit()
      modifies this`quitRequested
      ensures quitRequested
    {
      quitRequested := true;
    }

    /**
     * A check of `_quit_requested`. The oracle says whether the other
     * thread calls `quit` just before this check; a request, once made,
     * stays.
     */
    method PollQuit(cancel: Cancel) returns (q: bool)
      modifies this`quitRequested, this`checks
      ensures checks == old(checks) + 1
      ensures quitRequested == (old(quitRequested) || cancel == AtCheck(old(checks)))
      ensures q == quitRequested
    {
      if cancel == AtCheck(checks) {
        Quit();
      }
      checks := checks + 1;
      q := quitRequested;
    }

    /**
     * The look-ahead from an added line: scans the added rows after `dl`
     * for a blank one, types the first one found at `cl` ahead of time and
     * puts a marker on its row. The scan has no bound of its own; while the
     * loop runs, a row that is not an addition always comes before the end
     * of the delta, so it never reads past it. `tdl` is where it stopped.
     */
    method Lookahead(delta: seq<Row>, cl: nat, dl: nat, ghost settled: seq<Row>, ghost exact: bool, ghost target: seq<string>)
      returns (delta': seq<Row>, ghost settled': seq<Row>, tdl: nat, found: bool)
      requires InStep(current, delta, settled, cl, dl, exact, target)
      requires cl < |current| && dl < |delta| && delta[dl].Ins?
      modifies this`current, this`events
      ensures dl < tdl < |delta|
      ensures forall k :: dl < k < tdl ==> delta[k].Ins? && !IsBlank(delta[k].text)
      ensures found ==>
                delta[tdl].Ins? && IsBlank(delta[tdl].text) && delta' == delta[tdl := Marker] &&
                current == old(current)[..cl] + [TypedLine(delta[tdl].text)] + old(current)[cl..] &&
                Emitted(events, old(events), |delta[tdl].text|, cl)
      ensures !found ==> !delta[tdl].Ins? && delta' == delta && current == old(current) && events == old(events)
      ensures InStep(current, delta', settled', cl, dl, exact, target)
    {
      tdl := dl;
      while true
        invariant dl <= tdl < |delta|
        invariant forall k :: dl <= k <= tdl ==> delta[k].Ins?
        invariant forall k :: dl < k <= tdl ==> !IsBlank(delta[k].text)
        invariant current == old(current) && events == old(events)
        decreases |delta| - tdl
      {
        StepRoom(current, delta, settled, cl, dl, exact, target, tdl);
        tdl := tdl + 1;
        if !delta[tdl].Ins? {
          return delta, settled, tdl, false;
        }
        if IsBlank(delta[tdl].text) {
          InsertLine(cl, delta[tdl].text);
          StepPromote(old(current), current, delta, settled, cl, dl, exact, target, tdl);
          return delta[tdl := Marker], settled[tdl := Equal(TypedLine(delta[tdl].text))], tdl, true;
        }
      }
    }

    /** The pair branch: `indent_line`, then `edit_line`; `ok` is false when the edit raised. */
    method ReplacePair(line: nat, diffline: string) returns (ok: bool)
      requires line < |current|
      modifies this`current, this`events
      ensures ok <==> TypedPairResult(old(current)[line], diffline).Some?
      ensures ok ==> current == old(current)[line := TypedPairResult(old(current)[line], diffline).value]
      ensures !ok ==> current == old(current)[line := IndentFix(old(current)[line], diffline)]
      ensures OnlyUpdates(events, old(events))
    {
      ghost var e0 := events;
      IndentLine(line, diffline);
      ghost var e1 := events;
      ok := EditLine(line, diffline);
      EmittedOnlyUpdates(e1, e0, (Abs(FirstWhitespace(diffline) - FirstWhitespace(old(current)[line])) + 3) / 4, line);
      if ok {
        EmittedOnlyUpdates(events, e1, EditSteps(IndentFix(old(current)[line], diffline), diffline), line);
        OnlyUpdatesChain(e0, e1, events);
      }
    }

    /** The delete branch: `del self.current[line]`, then one update. */
    method DeleteLine(line: nat)
      requires line < |current|
      modifies this`current, this`events
      ensures current == old(current)[..line] + old(current)[line + 1..]
      ensures events == old(events) + [Updated(line, 0, current)]
    {
      current := current[..line] + current[line + 1..];
      events := events + [Updated(line, 0, current)];
    }

    /**
     * One pass of the row loop after the quit check. A kept row or a marker
     * is stepped over, a removed row goes to `ReplayRemoved` and an added
     * row to `ReplayAdded`. `ok` is false when `edit_line` raised, which an
     * exact delta never makes it do.
     */
    method ReplayRow(delta: seq<Row>, cl: nat, dl: nat, ghost settled: seq<Row>, ghost exact: bool, ghost target: seq<string>)
      returns (delta': seq<Row>, ghost settled': seq<Row>, cl': nat, dl': nat, ok: bool)
      requires InStep(current, delta, settled, cl, dl, exact, target)
      requires cl + 1 < |current|
      modifies this`current, this`events
      ensures dl < |delta| && |delta'| == |delta| && |current| > 0
      ensures ok ==> dl < dl' && InStep(current, delta', settled', cl', dl', exact, target)
      ensures ok ==> cl <= cl' <= cl + 1
      ensures !ok ==> !exact
      ensures delta[dl].Equal? || delta[dl].Marker? ==>
                ok && delta' == delta && current == old(current) && events == old(events)
      ensures OnlyUpdates(events, old(events))
      ensures AgreeBefore(old(current), current, cl)
    {
      StepRowExists(current, delta, settled, cl, dl, exact, target);
      var row := delta[dl];
      if row.Equal? || row.Marker? {
        StepKept(current, delta, settled, cl, dl, exact, target);
        return delta, settled, cl + 1, dl + 1, true;
      }
      if row.Del? {
        cl', dl', ok := ReplayRemoved(delta, cl, dl, settled, exact, target);
        return delta, settled, cl', dl', ok;
      }
      delta', settled' := ReplayAdded(delta, cl, dl, settled, exact, target);
      return delta', settled', cl + 1, dl + 1, true;
    }

    /** A removed row: with an added row after it, a pair; alone, a deletion. */
    method ReplayRemoved(delta: seq<Row>, cl: nat, dl: nat, ghost settled: seq<Row>, ghost exact: bool, ghost target: seq<string>)
      returns (cl': nat, dl': nat, ok: bool)
      requires InStep(current, delta, settled, cl, dl, exact, target)
      requires cl + 1 < |current| && dl < |delta| && delta[dl].Del?
      modifies this`current, this`events
      ensures |current| > 0
      ensures ok ==> dl < dl' && InStep(current, delta, settled, cl', dl', exact, target)
      ensures ok ==> cl <= cl' <= cl + 1
      ensures !ok ==> !exact
      ensures OnlyUpdates(events, old(events))
      ensures AgreeBefore(old(current), current, cl)
    {
      ghost var before := current;
      if dl < |delta| - 1 && delta[dl + 1].Ins? {
        StepPairHead(current, delta, settled, cl, dl, exact, target);
        ok := ReplacePair(cl, delta[dl + 1].text);
        AgreeBeforeUpdate(before, cl, current[cl], cl);
        if !ok {
          return cl, dl, false;
        }
        StepPair(before, current, delta, settled, cl, dl, exact, target, current[cl]);
        return cl + 1, dl + 2, true;
      }
      StepDelete(before, before[..cl] + before[cl + 1..], delta, settled, cl, dl, exact, target);
      DeleteLine(cl);
      AgreeBeforeDelete(before, cl, cl);
      return cl, dl + 1, true;
    }

    /** An added row: the look-ahead when it has text, then the row typed at `cl`. */
    method ReplayAdded(delta: seq<Row>, cl: nat, dl: nat, ghost settled: seq<Row>, ghost exact: bool, ghost target: seq<string>)
      returns (delta': seq<Row>, ghost settled': seq<Row>)
      requires InStep(current, delta, settled, cl, dl, exact, target)
      requires cl < |current| && dl < |delta| && delta[dl].Ins?
      modifies this`current, this`events
      ensures |delta'| == |delta| && |current| > |old(current)|
      ensures InStep(current, delta', settled', cl + 1, dl + 1, exact, target)
      ensures OnlyUpdates(events, old(events))
      ensures AgreeBefore(old(current), current, cl)
    {
      var row := delta[dl];
      delta', settled' := delta, settled;
      if !IsBlank(row.text) {
        var t, found;
        delta', settled', t, found := Lookahead(delta, cl, dl, settled, exact, target);
        if found {
          AgreeBeforeInsert(old(current), cl, TypedLine(delta[t].text), cl);
        }
      }
      ghost var typed := current;
      ghost var e0 := events;
      InsertLine(cl, row.text);
      AgreeBeforeInsert(typed, cl, TypedLine(row.text), cl);
      AgreeBeforeChain(old(current), typed, current, cl);
      EmittedOnlyUpdates(events, e0, |row.text|, cl);
      StepInsert(typed, current, delta', settled', cl, dl, exact, target);
    }

    /**
     * The loop invariant of `Transition`: the buffer is in step with the
     * delta, the log grew by updates only, an all-kept delta has changed
     * nothing, and a quit requested before the loop stops it at once.
     * `q0`, `cur0` and `ev0` are the quit flag, the buffer and the log when
     * the loop started.
     */
    ghost predicate Replaying(delta0: seq<Row>, target: seq<string>, cancel: Cancel,
                              q0: bool, cur0: seq<string>, ev0: seq<Event>,
                              delta: seq<Row>, settled: seq<Row>, cl: nat, dl: nat, exact: bool)
      reads this
    {
      exact == TypedReproduces(delta0) && |delta| == |delta0| &&
      InStep(current, delta, settled, cl, dl, exact, target) &&
      OnlyUpdates(events, ev0) &&
      (|cur0| > 0 ==> |current| > 0) &&
      (AllKept(delta0) ==> delta == delta0 && current == cur0 && events == ev0) &&
      (q0 ==> quitRequested && cl == 0 && dl == 0 && current == cur0 && events == ev0) &&
      (cancel == Never && !q0 ==> !quitRequested)
    }

    /**
     * One pass of the loop of `Transition`: the quit check, then the row.
     * `stop` is the outcome when the pass ends the loop.
     */
    method Iteration(delta0: seq<Row>, ghost target: seq<string>, cancel: Cancel,
                     ghost q0: bool, ghost cur0: seq<string>, ghost ev0: seq<Event>,
                     delta: seq<Row>, ghost settled: seq<Row>, cl: nat, dl: nat, ghost exact: bool)
      returns (stop: Option<Outcome>, delta': seq<Row>, ghost settled': seq<Row>, cl': nat, dl': nat)
      requires Replaying(delta0, target, cancel, q0, cur0, ev0, delta, settled, cl, dl, exact)
      requires cl < |current| - 1
      modifies this`current, this`events, this`quitRequested, this`checks
      ensures stop.None? ==> dl < dl'
      ensures stop.None? || stop == Some(Cancelled) ==>
                Replaying(delta0, target, cancel, q0, cur0, ev0, delta', settled', cl', dl', exact)
      ensures stop == Some(Cancelled) ==>
                current == old(current) && events == old(events) && delta' == delta && cl' == cl && dl' == dl
      ensures stop == Some(Cancelled) || stop == Some(Failed(UnboundEditIndex)) || stop.None?
      ensures stop == Some(Cancelled) ==> quitRequested
      ensures stop == Some(Failed(UnboundEditIndex)) ==> !exact
      ensures q0 ==> quitRequested && stop == Some(Cancelled) && current == cur0 && events == ev0
      ensures cancel == Never && !q0 ==> !quitRequested
      ensures stop.Some? && AllKept(delta0) ==> stop == Some(Cancelled) && current == cur0 && events == ev0
      ensures OnlyUpdates(events, ev0)
      ensures |cur0| > 0 ==> |current| > 0
    {
      stop, delta', settled', cl', dl' := None, delta, settled, cl, dl;
      var q := PollQuit(cancel);
      if q {
        return Some(Cancelled), delta', settled', cl', dl';
      }
      var ok;
      ghost var e0 := events;
      delta', settled', cl', dl', ok := ReplayRow(delta, cl, dl, settled, exact, target);
      OnlyUpdatesChain(ev0, e0, events);
      if !ok {
        stop := Some(Failed(UnboundEditIndex));
      }
    }

    /**
     * The replay of one delta, the body of the loop over files in `run`:
     * `while cl < len(self.current) - 1`, with a quit check on every pass.
     * The loop stops with the cursor on the buffer's last line, so in an
     * exact delta every line but the last is the target's, and the rows
     * left over are never replayed; a buffer of one line is never touched.
     */
    method Transition(delta0: seq<Row>, ghost target: seq<string>, cancel: Cancel)
      returns (outcome: Outcome, ghost deltaOut: seq<Row>, ghost settledOut: seq<Row>, ghost clOut: nat, ghost dlOut: nat)
      requires WellFormed(delta0, current, target)
      modifies this`current, this`events, this`quitRequested, this`checks
      ensures outcome.Failed? ==> outcome.fault == UnboundEditIndex
      ensures outcome == Cancelled ==> quitRequested
      ensures old(quitRequested) ==> quitRequested
      ensures cancel == Never && !old(quitRequested) ==> !quitRequested && outcome != Cancelled
      ensures |old(current)| > 0 ==> |current| > 0
      ensures TypedReproduces(delta0) ==> !outcome.Failed?
      ensures TypedReproduces(delta0) && outcome == Finished && |current| > 0 ==> current[..|current| - 1] <= target
      ensures AllKept(delta0) || |old(current)| <= 1 ==>
                !outcome.Failed? && current == old(current) && events == old(events)
      ensures old(quitRequested) && |old(current)| > 1 ==>
                outcome == Cancelled && current == old(current) && events == old(events)
      ensures OnlyUpdates(events, old(events))
      // A cancel, like the end of the loop, stops the replay between two
      // rows, with the buffer in step with the rows from `dlOut` on.
      ensures !outcome.Failed? ==>
                |deltaOut| == |delta0| && InStep(current, deltaOut, settledOut, clOut, dlOut, TypedReproduces(delta0), target)
    {
      var delta := delta0;
      ghost var settled := delta0;
      ghost var exact := TypedReproduces(delta0);
      var cl: nat, dl: nat := 0, 0;
      outcome := Finished;
      StepStart(current, delta0, target);
      while cl < |current| - 1
        invariant Replaying(delta0, target, cancel, old(quitRequested), old(current), old(events),
                            delta, settled, cl, dl, exact)
        invariant outcome == Finished
        invariant |old(current)| <= 1 ==> current == old(current) && events == old(events)
        decreases |delta0| - dl
      {
        var stop;
        stop, delta, settled, cl, dl :=
          Iteration(delta0, target, cancel, old(quitRequested), old(current), old(events),
                    delta, settled, cl, dl, exact);
        if stop.Some? {
          outcome := stop.value;
          break;
        }
      }
      deltaOut, settledOut, clOut, dlOut := delta, settled, cl, dl;
      if outcome == Finished {
        StepStop(current, delta, settled, cl, dl, exact, target);
      }
    }

    /**
     * `run`: shows the first file, then replays the delta from the buffer to
     * each following file, and signals completion at the end. A quit ends
     * the file being replayed (its `file_complete` is still sent) and the
     * loop over files; an exception ends the run with no further signal.
     */
    method Run(compare: (seq<string>, seq<string>) -> seq<string>, cancel: Cancel) returns (outcome: Outcome)
      requires |files| > 0
      requires Differ(compare)
      modifies this`current, this`events, this`quitRequested, this`checks
      ensures outcome == Failed(EmptyInitialFile) <==> |files[0].lines| == 0
      ensures outcome.Failed? ==> outcome.fault == EmptyInitialFile || outcome.fault == UnboundEditIndex
      ensures |events| >= |old(events)| + 2 && events[..|old(events)| + 2] == old(events) + Opening(files[0])
      ensures |files[0].lines| > 0 ==>
                |events| >= |old(events)| + 3 && events[|old(events)| + 2] == InitialUpdate(files[0].lines)
      ensures !outcome.Failed? ==>
                events[|events| - 1] == Completed && NoCompletion(events[..|events| - 1], old(events))
      ensures outcome.Failed? ==> NoCompletion(events, old(events))
      ensures cancel == Never && !old(quitRequested) ==> outcome != Cancelled
      ensures old(quitRequested) && |files| > 1 && |files[0].lines| > 0 ==>
                outcome == Cancelled && current == files[0].lines
      ensures |files[0].lines| > 0 ==> |current| > 0
      ensures |files[0].lines| == 1 ==> !outcome.Failed? && current == files[0].lines
    {
      current := files[0].lines;
      events := events + Opening(files[0]);
      if |current| == 0 {
        assert events[..|old(events)| + 2] == events == old(events) + [FileChanged(files[0].name), FileComplete(files[0].name, files[0].lines)];
        return Failed(EmptyInitialFile);
      }
      events := events + [InitialUpdate(current)];
      outcome := ReplayFiles(compare, cancel);
      if outcome.Failed? {
        ShownLog(old(events), files[0], InitialUpdate(files[0].lines), events);
        return;
      }
      CompletedLog(old(events), files[0], InitialUpdate(files[0].lines), events);
      events := events + [Completed];
    }

    /** The loop over the files after the first, each behind a quit check. */
    method ReplayFiles(compare: (seq<string>, seq<string>) -> seq<string>, cancel: Cancel) returns (outcome: Outcome)
      requires |files| > 0 && Differ(compare)
      modifies this`current, this`events, this`quitRequested, this`checks
      ensures outcome.Failed? ==> outcome.fault == UnboundEditIndex
      ensures NoCompletion(events, old(events))
      ensures cancel == Never && !old(quitRequested) ==> outcome != Cancelled
      ensures old(quitRequested) && |files| > 1 ==> outcome == Cancelled && current == old(current)
      ensures |old(current)| > 0 ==> |current| > 0
      ensures |old(current)| <= 1 ==> !outcome.Failed? && current == old(current)
    {
      outcome := Finished;
      var i := 1;
      while i < |files|
        invariant 1 <= i <= |files|
        invariant outcome == Finished || outcome == Cancelled
        invariant NoCompletion(events, old(events))
        invariant cancel == Never && !old(quitRequested) ==> !quitRequested && outcome == Finished
        invariant old(quitRequested) ==> quitRequested && i == 1 && current == old(current)
        invariant outcome == Cancelled ==> quitRequested
        invariant |old(current)| > 0 ==> |current| > 0
        invariant |old(current)| <= 1 ==> current == old(current)
      {
        var q := PollQuit(cancel);
        if q {
          outcome := Cancelled;
          break;
        }
        var o := ReplayFile(compare, cancel, i);
        if o.Failed? {
          return o;
        }
        if o == Cancelled {
          outcome := Cancelled;
        }
        i := i + 1;
      }
    }

    /**
     * One pass of the loop over the files of `run`: `file_changed`, the
     * replay of the delta from the buffer to the file, `file_complete`.
     */
    method ReplayFile(compare: (seq<string>, seq<string>) -> seq<string>, cancel: Cancel, i: nat)
      returns (outcome: Outcome)
      requires Differ(compare) && i < |files|
      modifies this`current, this`events, this`quitRequested, this`checks
      ensures outcome.Failed? ==> outcome.fault == UnboundEditIndex
      ensures NoCompletion(events, old(events))
      ensures !outcome.Failed? ==> |events| > 0 && events[|events| - 1] == FileComplete(files[i].name, current)
      ensures cancel == Never && !old(quitRequested) ==> !quitRequested && outcome != Cancelled
      ensures outcome == Cancelled ==> quitRequested
      ensures |old(current)| > 0 ==> |current| > 0
      ensures |old(current)| <= 1 ==> !outcome.Failed? && current == old(current)
      ensures TypedReproduces(Parsed(compare(old(current), files[i].lines))) ==>
                !outcome.Failed? &&
                (outcome == Finished && |current| > 0 ==> current[..|current| - 1] <= files[i].lines)
    {
      NoCompletionAppend(events, events, FileChanged(files[i].name));
      events := events + [FileChanged(files[i].name)];
      ghost var e0 := events;
      var target := files[i].lines;
      DifferParsed(compare, current, target);
      var delta := Parsed(compare(current, target));
      ghost var deltaOut, settledOut, clOut, dlOut;
      outcome, deltaOut, settledOut, clOut, dlOut := Transition(delta, target, cancel);
      UpdatesNoCompletion(events, e0);
      NoCompletionChain(old(events), e0, events);
      if outcome.Failed? {
        return;
      }
      NoCompletionAppend(events, old(events), FileComplete(files[i].name, current));
      events := events + [FileComplete(files[i].name, current)];
    }
  }
}
