/**
 * The observable side of a playback: the signals the engines emit, the
 * exceptions a run can end with, and the cancellation oracle that stands for
 * the other thread calling `quit`.
 */
module Events {

  /** An input file as read by `open(...).readlines()`. */
  datatype File = File(name: string, lines: seq<string>)

  /**
   * `signals.updated(row, col, text)`, `file_changed(name)`,
   * `file_complete(name, text)` and `completed()`; the text is a snapshot of
   * the buffer at the moment of emission.
   */
  datatype Event =
    | Updated(line: int, column: int, snapshot: seq<string>)
    | FileChanged(name: string)
    | FileComplete(name: string, snapshot: seq<string>)
    | Completed

  /** The Python exceptions that a run on well-formed input can raise. */
  datatype Fault =
    | EmptyInitialFile   // `self.current[last_line]` with `last_line == -1`
    | UnboundTdl         // `tdl` read before any look-ahead assigned it
    | UnboundEditIndex   // `starti`/`endi` never bound: `edit_line` on an empty line

  datatype Outcome = Finished | Cancelled | Failed(fault: Fault)

  /**
   * When the other thread calls `quit`: never, or just before the check
   * point with the given number (check points are numbered from 0 in the
   * order the run reaches them).
   */
  datatype Cancel = Never | AtCheck(check: nat)

  /** `log` is `before` followed by `count` updates, all about `line`. */
  ghost predicate Emitted(log: seq<Event>, before: seq<Event>, count: nat, line: int)
  {
    |log| == |before| + count && before <= log &&
    forall i :: |before| <= i < |log| ==> log[i].Updated? && log[i].line == line
  }

  /** `log` is `before` followed by updates only. */
  ghost predicate OnlyUpdates(log: seq<Event>, before: seq<Event>)
  {
    before <= log && forall i :: |before| <= i < |log| ==> log[i].Updated?
  }

  /** No event that `log` adds to `before` is `completed()`. */
  ghost predicate NoCompletion(log: seq<Event>, before: seq<Event>)
  {
    before <= log && forall i :: |before| <= i < |log| ==> !log[i].Completed?
  }

  lemma {:induction false} NoCompletionChain(a: seq<Event>, b: seq<Event>, c: seq<Event>)
    requires NoCompletion(b, a) && NoCompletion(c, b)
    ensures NoCompletion(c, a)
  {
  }

  lemma {:induction false} UpdatesNoCompletion(log: seq<Event>, before: seq<Event>)
    requires OnlyUpdates(log, before)
    ensures NoCompletion(log, before)
  {
  }

  lemma {:induction false} NoCompletionAppend(log: seq<Event>, before: seq<Event>, e: Event)
    requires NoCompletion(log, before) && !e.Completed?
    ensures NoCompletion(log + [e], before)
  {
    assert forall i :: |before| <= i < |log| ==> (log + [e])[i] == log[i];
  }

  lemma {:induction false} OnlyUpdatesChain(a: seq<Event>, b: seq<Event>, c: seq<Event>)
    requires OnlyUpdates(b, a) && OnlyUpdates(c, b)
    ensures OnlyUpdates(c, a)
  {
  }

  lemma {:induction false} EmittedOnlyUpdates(log: seq<Event>, before: seq<Event>, count: nat, line: int)
    requires Emitted(log, before, count, line)
    ensures OnlyUpdates(log, before)
  {
  }

  lemma {:induction false} EmittedStep(log: seq<Event>, before: seq<Event>, count: nat, line: int, e: Event)
    requires Emitted(log, before, count, line) && e.Updated? && e.line == line
    ensures Emitted(log + [e], before, count + 1, line)
  {
  }

  lemma {:induction false} EmittedChain(a: seq<Event>, b: seq<Event>, c: seq<Event>, m: nat, n: nat, line: int)
    requires Emitted(b, a, m, line) && Emitted(c, b, n, line)
    ensures Emitted(c, a, m + n, line)
  {
  }

  /** A prefix of a prefix is a prefix, and slicing the longest gives it back. */
  lemma {:induction false} PrefixKept(a: seq<Event>, b: seq<Event>, c: seq<Event>)
    requires a <= b && b <= c
    ensures a <= c && c[..|a|] == a
  {
  }

  /** An event of a prefix sits at the same place in the whole log. */
  lemma {:induction false} PrefixAt(b: seq<Event>, c: seq<Event>, k: nat)
    requires b <= c && k < |b|
    ensures c[k] == b[k]
  {
  }

  /** `file_changed` and `file_complete` for the first file, before anything is replayed. */
  function Opening(f: File): seq<Event>
  {
    [FileChanged(f.name), FileComplete(f.name, f.lines)]
  }

  /**
   * A log that goes on from `before`, the opening signals of `f` and the
   * update `init` without a completion begins with those three events and
   * adds no completion to `before`.
   */
  lemma {:induction false} ShownLog(before: seq<Event>, f: File, init: Event, log: seq<Event>)
    requires init.Updated?
    requires NoCompletion(log, before + Opening(f) + [init])
    ensures |log| >= |before| + 3 && log[..|before| + 2] == before + Opening(f) && log[|before| + 2] == init
    ensures NoCompletion(log, before)
  {
    var shown := before + Opening(f) + [init];
    assert shown[..|before| + 2] == before + Opening(f);
    assert log[..|shown|] == shown;
    assert log[..|before| + 2] == shown[..|before| + 2];
    assert NoCompletion(shown, before) by {
      forall i | |before| <= i < |shown| ensures !shown[i].Completed? {
        assert shown[i] in Opening(f) + [init];
      }
    }
    NoCompletionChain(before, shown, log);
  }

  /** The same log closed by `completed()`: the completion is its last event and its only new one. */
  lemma {:induction false} CompletedLog(before: seq<Event>, f: File, init: Event, replayed: seq<Event>)
    requires init.Updated?
    requires NoCompletion(replayed, before + Opening(f) + [init])
    ensures var log := replayed + [Completed];
              |log| >= |before| + 3 && log[..|before| + 2] == before + Opening(f) && log[|before| + 2] == init &&
              log[|log| - 1] == Completed && NoCompletion(log[..|log| - 1], before)
  {
    ShownLog(before, f, init, replayed);
    var log := replayed + [Completed];
    assert log[..|replayed|] == replayed;
    assert log[..|before| + 2] == replayed[..|before| + 2];
  }

  /** The update that shows the first file: `(last_line, last_char)` of its last line. */
  function InitialUpdate(lines: seq<string>): Event
    requires |lines| > 0
  {
    Updated(|lines| - 1, |lines[|lines| - 1]| - 1, lines)
  }
}
