/**
 * The replay engine of diffcast/diffrunner.py. A `DiffRunner` holds the text
 * being shown (`current`), replays the line delta from each file to the next
 * on it, and reports every intermediate text as an `Updated` event. Sleeps
 * between steps are left out; the other thread that may call `quit` is the
 * `Cancel` oracle consulted at each quit check.
 */
module DiffcastRunner {
  import opened Text
  import opened Wrappers
  import opened LineOps
  import opened Delta
  import opened Events

  // ---------------------------------------------------------------- when a replay is exact

  /**
   * A remove/add pair this engine reproduces: the line is already the
   * target (the pair is skipped) or the indent fix and the edit spell it.
   */
  predicate PairReproduced(s: string, d: string)
  {
    s == d || EditResult(IndentFix(s, d), d) == Some(d)
  }

  /**
   * What the pair branch leaves in the buffer line `c` for the added line
   * `d`: the line itself when it already reads as `d` (the skip), otherwise
   * the edit of its re-indented form; None when `edit_line` raises.
   */
  function PairResult(c: string, d: string): (r: Option<string>)
    ensures r == Some(d) <==> PairReproduced(c, d)
    ensures r.None? <==> c != d && (|IndentFix(c, d)| == 0 || |d| == 0)
  {
    if d == c then Some(c) else EditResult(IndentFix(c, d), d)
  }

  /**
   * In a reproduced pair, whether the buffer line `c` is the removed line or
   * its re-indented form, the pair branch leaves exactly the added line.
   */
  lemma {:induction false} PairEdit(s: string, d: string, c: string)
    requires c == s || c == IndentFix(s, d)
    requires PairReproduced(s, d)
    ensures PairResult(c, d) == Some(d)
  {
    IndentFixIdempotent(s, d);
    IndentFixSame(d);
  }

  /**
   * Every added line that is typed on its own is revealed exactly, and
   * every remove/add pair is reproduced. An added line right after a
   * removed one is the second half of a pair.
   */
  predicate Reproduces(rows: seq<Row>)
  {
    forall k :: 0 <= k < |rows| ==> ReproducedAt(rows, k)
  }

  predicate ReproducedAt(rows: seq<Row>, k: nat)
    requires k < |rows|
  {
    (rows[k].Ins? && (k == 0 || !rows[k - 1].Del?) ==> RevealedLine(rows[k].text) == rows[k].text) &&
    (rows[k].Del? && k + 1 < |rows| && rows[k + 1].Ins? ==> PairReproduced(rows[k].text, rows[k + 1].text))
  }

  /** Settling an added line that follows another added line keeps the delta exact. */
  lemma {:induction false} ReproducesSettle(rows: seq<Row>, t: nat, line: string)
    requires Reproduces(rows)
    requires 0 < t < |rows| && rows[t].Ins? && rows[t - 1].Ins?
    ensures Reproduces(rows[t := Equal(line)])
  {
    var s := rows[t := Equal(line)];
    forall k | 0 <= k < |s| ensures ReproducedAt(s, k) {
      if k != t {
        assert ReproducedAt(rows, k);
        assert s[k] == rows[k];
        if k > 0 && k - 1 != t { assert s[k - 1] == rows[k - 1]; }
        if k + 1 < |s| && k + 1 != t { assert s[k + 1] == rows[k + 1]; }
      }
    }
  }

  /** The index of the first row that changes something. */
  function FirstChange(rows: seq<Row>): (k: nat)
    ensures k <= |rows|
    ensures forall i :: 0 <= i < k ==> rows[i].Equal?
    ensures k < |rows| ==> !rows[k].Equal?
  {
    if |rows| == 0 || !rows[0].Equal? then 0 else 1 + FirstChange(rows[1..])
  }

  /** A changing row no later than the first change is the first change. */
  lemma {:induction false} FirstChangeAt(rows: seq<Row>, k: nat)
    requires k < |rows| && k <= FirstChange(rows) && !rows[k].Equal?
    ensures k == FirstChange(rows)
  {
  }

  /** A kept row before the first change moves the scan past it. */
  lemma {:induction false} FirstChangeKept(rows: seq<Row>, k: nat)
    requires NoMarkers(rows) && k < |rows| && k <= FirstChange(rows)
    requires rows[k].Equal? || rows[k].Marker?
    ensures k + 1 <= FirstChange(rows)
  {
    assert !rows[k].Marker?;
  }

  /**
   * The first change is a removal or a blank added line, so the block check
   * is reached before any look-ahead has assigned `tdl`.
   */
  predicate ReadsUnboundTdl(rows: seq<Row>)
  {
    var k := FirstChange(rows);
    k < |rows| && (rows[k].Del? || (rows[k].Ins? && IsBlank(rows[k].text)))
  }

  // ---------------------------------------------------------------- look-aheads

  /**
   * The look-ahead after a non-blank added line: walk the added lines that
   * follow it until a blank one (found) or a row that adds nothing.
   */
  method FindTrailingBlank(delta: seq<Row>, dl: nat) returns (tdl: nat, found: bool)
    requires dl < |delta|
    ensures dl <= tdl < |delta|
    ensures forall k :: dl < k < tdl ==> delta[k].Ins? && !IsBlank(delta[k].text)
    ensures found <==> dl < tdl && delta[tdl].Ins? && IsBlank(delta[tdl].text)
    ensures !found ==> tdl == |delta| - 1 || !delta[tdl].Ins?
  {
    tdl := dl;
    found := false;
    while tdl < |delta| - 1
      invariant dl <= tdl < |delta|
      invariant forall k :: dl < k <= tdl ==> delta[k].Ins? && !IsBlank(delta[k].text)
    {
      tdl := tdl + 1;
      if !delta[tdl].Ins? {
        break;
      }
      if IsBlank(delta[tdl].text) {
        found := true;
        break;
      }
    }
  }

  /**
   * The block look-ahead from a remove/add pair at `dl` whose indent change
   * is `dent`: count the pairs that follow with the same change. The run it
   * finds is uniform and cannot be extended by another such pair.
   */
  method ScanBlock(delta: seq<Row>, dl: nat, dent: int) returns (nDents: nat, tdl: nat)
    requires PairAt(delta, dl, dent)
    ensures nDents >= 1 && dl + 2 * nDents <= |delta|
    ensures UniformPairs(delta[dl..dl + 2 * nDents], dent)
    ensures !PairAt(delta, dl + 2 * nDents, dent)
    ensures tdl == dl + 2 * nDents || tdl == dl + 2 * (nDents - 1)
  {
    nDents := 1;
    tdl := dl;
    UniformPairsExtend([], dent, delta[dl], delta[dl + 1]);
    assert [] + [delta[dl], delta[dl + 1]] == delta[dl..dl + 2];
    while tdl < |delta| - 3
      invariant tdl == dl + 2 * (nDents - 1) && nDents >= 1
      invariant tdl + 1 < |delta|
      invariant UniformPairs(delta[dl..tdl + 2], dent)
    {
      tdl := tdl + 2;
      if !(delta[tdl].Del? && delta[tdl + 1].Ins?) {
        break;
      }
      var tdent := FirstWhitespace(delta[tdl + 1].text) - FirstWhitespace(delta[tdl].text);
      if tdent != dent {
        break;
      }
      UniformPairsExtend(delta[dl..tdl], dent, delta[tdl], delta[tdl + 1]);
      assert delta[dl..tdl] + [delta[tdl], delta[tdl + 1]] == delta[dl..tdl + 2];
      nDents := nDents + 1;
    }
  }

  // ---------------------------------------------------------------- replay bookkeeping

  /**
   * What the buffer holds from line `cl` on, while the replay stands at row
   * `dl`: the lines the rest of the delta consumes, those of the block
   * window `[dl, winEnd)` already shifted by `winDent`.
   */
  predicate Remaining(current: seq<string>, cl: nat, settled: seq<Row>, dl: nat, winEnd: nat, winDent: int)
  {
    cl <= |current| && dl <= winEnd <= |settled| &&
    current[cl..] == ShiftAll(Source(settled[dl..winEnd]), winDent) + Source(settled[winEnd..])
  }

  lemma {:induction false} WindowShape(settled: seq<Row>, dl: nat, winEnd: nat, winDent: int)
    requires dl <= winEnd <= |settled| && UniformPairs(settled[dl..winEnd], winDent)
    ensures dl < winEnd ==> PairAt(settled, dl, winDent) && dl + 2 <= winEnd
  {
    if dl < winEnd {
      var w := settled[dl..winEnd];
      UniformPairsSource(w, winDent);
      assert w[0] == settled[dl] && w[1] == settled[dl + 1];
    }
  }

  lemma {:induction false} EmptyWindow(current: seq<string>, cl: nat, settled: seq<Row>, dl: nat, winDent: int)
    requires dl <= |settled|
    ensures Remaining(current, cl, settled, dl, dl, winDent) <==> cl <= |current| && current[cl..] == Source(settled[dl..])
  {
    assert settled[dl..dl] == [];
  }

  /** A kept row: the buffer line at `cl` is its line. */
  lemma {:induction false} KeptStep(current: seq<string>, cl: nat, settled: seq<Row>, dl: nat, winDent: int)
    requires dl < |settled| && settled[dl].Equal?
    requires Remaining(current, cl, settled, dl, dl, winDent)
    ensures cl < |current| && current[cl] == settled[dl].text
    ensures Remaining(current, cl + 1, settled, dl + 1, dl + 1, winDent)
  {
    EmptyWindow(current, cl, settled, dl, winDent);
    EmptyWindow(current, cl + 1, settled, dl + 1, winDent);
    SourceFrom(settled, dl);
    SplitSuffix(current, cl, [settled[dl].text], Source(settled[dl + 1..]));
    assert current[cl] == current[cl..cl + 1][0];
  }

  /** An added line typed at `cl` is not consumed by the rest of the delta. */
  lemma {:induction false} InsertStep(current: seq<string>, cl: nat, settled: seq<Row>, dl: nat, winDent: int, line: string)
    requires dl < |settled| && settled[dl].Ins?
    requires Remaining(current, cl, settled, dl, dl, winDent)
    ensures Remaining(current[..cl] + [line] + current[cl..], cl + 1, settled, dl + 1, dl + 1, winDent)
  {
    var c := current[..cl] + [line] + current[cl..];
    EmptyWindow(current, cl, settled, dl, winDent);
    EmptyWindow(c, cl + 1, settled, dl + 1, winDent);
    SourceFrom(settled, dl);
    assert c[cl + 1..] == current[cl..];
  }

  /** A removed line is the buffer line at `cl`. */
  lemma {:induction false} DeleteStep(current: seq<string>, cl: nat, settled: seq<Row>, dl: nat, winDent: int)
    requires dl < |settled| && settled[dl].Del?
    requires Remaining(current, cl, settled, dl, dl, winDent)
    ensures cl < |current| && current[cl] == settled[dl].text
    ensures Remaining(current[..cl] + current[cl + 1..], cl, settled, dl + 1, dl + 1, winDent)
  {
    var c := current[..cl] + current[cl + 1..];
    EmptyWindow(current, cl, settled, dl, winDent);
    EmptyWindow(c, cl, settled, dl + 1, winDent);
    SourceFrom(settled, dl);
    SplitSuffix(current, cl, [settled[dl].text], Source(settled[dl + 1..]));
    assert current[cl] == current[cl..cl + 1][0];
    AfterPrefix(current[..cl], current[cl + 1..]);
  }

  /**
   * A remove/add pair: the buffer line at `cl` is the removed line, or, in
   * a block window, the removed line with its indent already fixed.
   */
  lemma {:induction false} PairHead(current: seq<string>, cl: nat, settled: seq<Row>, dl: nat, winEnd: nat, winDent: int)
    requires dl + 1 < |settled| && settled[dl].Del? && settled[dl + 1].Ins?
    requires Remaining(current, cl, settled, dl, winEnd, winDent) && UniformPairs(settled[dl..winEnd], winDent)
    ensures cl < |current|
    ensures current[cl] == if dl < winEnd then IndentFix(settled[dl].text, settled[dl + 1].text)
                           else settled[dl].text
  {
    if dl < winEnd {
      WindowPairSplit(current, cl, settled, dl, winEnd, winDent);
      var tail := ShiftAll(Source(settled[dl + 2..winEnd]), winDent) + Source(settled[winEnd..]);
      SuffixHead(current, cl, Shift(settled[dl].text, winDent), tail);
      IndentFixIsShift(settled[dl].text, settled[dl + 1].text);
    } else {
      EmptyWindow(current, cl, settled, dl, winDent);
      SourceFrom(settled, dl);
      SuffixHead(current, cl, settled[dl].text, Source(settled[dl + 1..]));
    }
  }

  /** After a pair, whatever the line at `cl` became, the rest of the buffer is still in step. */
  lemma {:induction false} PairStep(current: seq<string>, cl: nat, settled: seq<Row>, dl: nat, winEnd: nat, winDent: int, v: string)
    requires dl + 1 < |settled| && settled[dl].Del? && settled[dl + 1].Ins?
    requires Remaining(current, cl, settled, dl, winEnd, winDent) && UniformPairs(settled[dl..winEnd], winDent)
    requires cl < |current|
    ensures Remaining(current[cl := v], cl + 1, settled, dl + 2, Max(winEnd, dl + 2), winDent)
    ensures UniformPairs(settled[dl + 2..Max(winEnd, dl + 2)], winDent)
  {
    if dl < winEnd {
      PairStepInWindow(current, cl, settled, dl, winEnd, winDent, v);
    } else {
      PairStepOutside(current, cl, settled, dl, winDent, v);
    }
  }

  lemma {:induction false} PairStepInWindow(current: seq<string>, cl: nat, settled: seq<Row>, dl: nat, winEnd: nat, winDent: int, v: string)
    requires dl < winEnd
    requires Remaining(current, cl, settled, dl, winEnd, winDent) && UniformPairs(settled[dl..winEnd], winDent)
    requires cl < |current|
    ensures dl + 2 <= winEnd
    ensures Remaining(current[cl := v], cl + 1, settled, dl + 2, winEnd, winDent)
    ensures UniformPairs(settled[dl + 2..winEnd], winDent)
  {
    WindowPairSplit(current, cl, settled, dl, winEnd, winDent);
    var tail := ShiftAll(Source(settled[dl + 2..winEnd]), winDent) + Source(settled[winEnd..]);
    SuffixHead(current, cl, Shift(settled[dl].text, winDent), tail);
    SuffixAfterUpdate(current, cl, v);
  }

  /** The first pair of a block window: its line, shifted, heads the rest of the buffer. */
  lemma {:induction false} WindowPairSplit(current: seq<string>, cl: nat, settled: seq<Row>, dl: nat, winEnd: nat, winDent: int)
    requires dl < winEnd
    requires Remaining(current, cl, settled, dl, winEnd, winDent) && UniformPairs(settled[dl..winEnd], winDent)
    ensures dl + 2 <= winEnd && PairAt(settled, dl, winDent)
    ensures UniformPairs(settled[dl + 2..winEnd], winDent)
    ensures current[cl..] == [Shift(settled[dl].text, winDent)]
                             + (ShiftAll(Source(settled[dl + 2..winEnd]), winDent) + Source(settled[winEnd..]))
  {
    var w := settled[dl..winEnd];
    UniformPairsHead(w, winDent);
    assert w[0] == settled[dl] && w[1] == settled[dl + 1];
    assert w[2..] == settled[dl + 2..winEnd];
    Regroup(current[cl..], ShiftAll(Source(w), winDent), Shift(w[0].text, winDent),
            ShiftAll(Source(w[2..]), winDent), Source(settled[winEnd..]));
  }

  lemma {:induction false} Regroup(x: seq<string>, a: seq<string>, h: string, b: seq<string>, r: seq<string>)
    requires x == a + r && a == [h] + b
    ensures x == [h] + (b + r)
  {
  }

  lemma {:induction false} PairStepOutside(current: seq<string>, cl: nat, settled: seq<Row>, dl: nat, winDent: int, v: string)
    requires dl + 1 < |settled| && settled[dl].Del? && settled[dl + 1].Ins?
    requires Remaining(current, cl, settled, dl, dl, winDent)
    requires cl < |current|
    ensures Remaining(current[cl := v], cl + 1, settled, dl + 2, dl + 2, winDent)
  {
    var c := current[cl := v];
    EmptyWindow(current, cl, settled, dl, winDent);
    EmptyWindow(c, cl + 1, settled, dl + 2, winDent);
    SourceFrom(settled, dl);
    SourceFrom(settled, dl + 1);
    assert current[cl + 1..] == current[cl..][1..];
    assert c[cl + 1..] == current[cl + 1..];
  }

  /** Opening a block window of n pairs at `cl` by shifting the n lines they consume. */
  lemma {:induction false} BlockStep(current: seq<string>, cl: nat, settled: seq<Row>, dl: nat, winDent: int, n: nat, dent: int)
    requires dl + 2 * n <= |settled| && UniformPairs(settled[dl..dl + 2 * n], dent)
    requires Remaining(current, cl, settled, dl, dl, winDent)
    ensures cl + n <= |current|
    ensures Remaining(current[..cl] + ShiftAll(current[cl..cl + n], dent) + current[cl + n..],
                      cl, settled, dl, dl + 2 * n, dent)
  {
    EmptyWindow(current, cl, settled, dl, winDent);
    BlockSource(settled, dl, n, dent);
    var a, b := Source(settled[dl..dl + 2 * n]), Source(settled[dl + 2 * n..]);
    SplitSuffix(current, cl, a, b);
    var shifted := ShiftedFrom(current, cl, n, a, b, dent);
    assert shifted[cl..] == ShiftAll(a, dent) + b;
  }

  /** A window of n uniform pairs consumes n lines, ahead of what the rest consumes. */
  lemma {:induction false} BlockSource(settled: seq<Row>, dl: nat, n: nat, dent: int)
    requires dl + 2 * n <= |settled| && UniformPairs(settled[dl..dl + 2 * n], dent)
    ensures Source(settled[dl..]) == Source(settled[dl..dl + 2 * n]) + Source(settled[dl + 2 * n..])
    ensures |Source(settled[dl..dl + 2 * n])| == n
  {
    var w := settled[dl..dl + 2 * n];
    var rest := settled[dl + 2 * n..];
    UniformPairsCount(w, dent);
    assert settled[dl..] == w + rest;
    SourceAppend(w, rest);
  }

  /** Shifting the lines `a` that start at `cl` leaves them shifted ahead of `b`. */
  lemma {:induction false} ShiftedFrom(current: seq<string>, cl: nat, n: nat, a: seq<string>, b: seq<string>, dent: int)
    returns (shifted: seq<string>)
    requires cl + n <= |current| && current[cl..cl + n] == a && current[cl + n..] == b
    ensures shifted == current[..cl] + ShiftAll(current[cl..cl + n], dent) + current[cl + n..]
    ensures cl <= |shifted| && shifted[cl..] == ShiftAll(a, dent) + b
  {
    shifted := current[..cl] + ShiftAll(a, dent) + b;
    ShiftedSuffix(current[..cl], ShiftAll(a, dent), b);
  }

  /** Shifting lines at or after `i` keeps the first `i`. */
  lemma {:induction false} AgreeBeforeShift(a: seq<string>, i: nat, n: nat, dent: int)
    requires i + n <= |a|
    ensures AgreeBefore(a, a[..i] + ShiftAll(a[i..i + n], dent) + a[i + n..], i)
  {
    var rest := ShiftAll(a[i..i + n], dent) + a[i + n..];
    assert a[..i] + ShiftAll(a[i..i + n], dent) + a[i + n..] == a[..i] + rest;
    AgreeBeforeSplice(a, i, rest, i);
  }

  lemma {:induction false} SplitSuffix(current: seq<string>, cl: nat, a: seq<string>, b: seq<string>)
    requires cl <= |current| && current[cl..] == a + b
    ensures cl + |a| <= |current|
    ensures current[cl..cl + |a|] == a && current[cl + |a|..] == b
  {
    assert current[cl..cl + |a|] == current[cl..][..|a|];
    assert current[cl + |a|..] == current[cl..][|a|..];
  }

  lemma {:induction false} ShiftedSuffix(p: seq<string>, a: seq<string>, b: seq<string>)
    ensures (p + a + b)[|p|..] == a + b
  {
  }

  /** At the end of the delta nothing of the buffer is left to consume. */
  lemma {:induction false} FinishStep(current: seq<string>, cl: nat, settled: seq<Row>, winDent: int)
    requires Remaining(current, cl, settled, |settled|, |settled|, winDent)
    ensures current == current[..cl]
  {
    EmptyWindow(current, cl, settled, |settled|, winDent);
    assert settled[|settled|..] == [];
  }

  /** A buffer that differs from `a` at most at `line`, where it holds `v`. */
  lemma {:induction false} OneLineChanged(a: seq<string>, b: seq<string>, line: nat, v: string)
    requires |b| == |a| && line < |a|
    requires forall i :: 0 <= i < |b| && !(line <= i < line + 1) ==> b[i] == a[i]
    requires forall i :: line <= i < line + 1 ==> b[i] == v
    ensures b == a[line := v]
  {
  }


  /**
   * The replay invariant of one file. `settled` is the delta with each
   * marker replaced by the kept line it stands for; `[dl, winEnd)` is the
   * block window already shifted by `winDent`. When `exact` holds, the
   * buffer up to `cl` is the target up to row `dl`.
   */
  predicate Tracking(current: seq<string>, delta: seq<Row>, settled: seq<Row>, cl: nat, dl: nat,
                     winEnd: nat, winDent: int, tdl: Option<nat>, blockIndented: int,
                     exact: bool, target: seq<string>)
  {
    Corresponds(delta, settled) && NoMarkers(settled) &&
    dl <= winEnd <= |delta| &&
    UniformPairs(settled[dl..winEnd], winDent) &&
    Remaining(current, cl, settled, dl, winEnd, winDent) &&
    (dl < winEnd ==> tdl == Some(blockIndented)) &&
    (0 < dl < |settled| && settled[dl - 1].Del? ==> !settled[dl].Ins?) &&
    (exact ==> Reproduces(settled) && Target(settled) == target && current[..cl] == Target(settled[..dl]))
  }

  lemma {:induction false} TrackStart(current: seq<string>, delta: seq<Row>, tdl: Option<nat>, target: seq<string>)
    requires WellFormed(delta, current, target)
    ensures Tracking(current, delta, delta, 0, 0, 0, 0, tdl, 0, Reproduces(delta), target)
  {
    EmptyWindow(current, 0, delta, 0, 0);
    assert delta[0..] == delta;
    assert delta[..0] == [];
  }

  /** Rows that head a block window are removals followed by additions. */
  lemma {:induction false} TrackWindow(current: seq<string>, delta: seq<Row>, settled: seq<Row>, cl: nat, dl: nat,
                    winEnd: nat, winDent: int, tdl: Option<nat>, bi: int, exact: bool, target: seq<string>)
    requires Tracking(current, delta, settled, cl, dl, winEnd, winDent, tdl, bi, exact, target)
    ensures dl < winEnd ==> PairAt(settled, dl, winDent) && delta[dl] == settled[dl] && delta[dl + 1] == settled[dl + 1]
  {
    WindowShape(settled, dl, winEnd, winDent);
  }

  lemma {:induction false} TrackKept(current: seq<string>, delta: seq<Row>, settled: seq<Row>, cl: nat, dl: nat,
                  winEnd: nat, winDent: int, tdl: Option<nat>, bi: int, exact: bool, target: seq<string>)
    requires Tracking(current, delta, settled, cl, dl, winEnd, winDent, tdl, bi, exact, target)
    requires dl < |delta| && (delta[dl].Equal? || delta[dl].Marker?)
    ensures Tracking(current, delta, settled, cl + 1, dl + 1, dl + 1, winDent, tdl, bi, exact, target)
  {
    WindowShape(settled, dl, winEnd, winDent);
    KeptStep(current, cl, settled, dl, winDent);
    assert settled[dl + 1..dl + 1] == [];
    if exact {
      TargetUpTo(settled, dl);
      assert current[..cl + 1] == current[..cl] + [current[cl]];
    }
  }

  /** The look-ahead typed the blank line at `t` early and marked its row. */
  lemma {:induction false} TrackPromote(before: seq<string>, current: seq<string>, delta: seq<Row>, settled: seq<Row>, cl: nat, dl: nat,
                     winEnd: nat, winDent: int, tdl: Option<nat>, bi: int, exact: bool, target: seq<string>, t: nat)
    requires Tracking(before, delta, settled, cl, dl, winEnd, winDent, tdl, bi, exact, target)
    requires dl < t < |delta| && delta[dl].Ins? && delta[t].Ins? && IsBlank(delta[t].text)
    requires forall k :: dl < k < t ==> delta[k].Ins?
    requires current == before[..cl] + [RevealedLine(delta[t].text)] + before[cl..]
    ensures Tracking(current, delta[t := Marker], settled[t := Equal(RevealedLine(delta[t].text))],
                     cl, dl, winEnd, winDent, Some(t), bi, exact, target)
  {
    WindowShape(settled, dl, winEnd, winDent);
    var line := RevealedLine(delta[t].text);
    var s := settled[t := Equal(line)];
    assert settled[dl] == delta[dl] && settled[t] == delta[t];
    forall i | dl <= i <= t ensures settled[i].Ins? {
      assert delta[i].Ins?;
    }
    PromoteCorresponds(delta, settled, t, line);
    PromoteRemaining(before, current, settled, cl, dl, t, line, winDent);
    assert s[dl..dl] == [] && s[dl] == settled[dl];
    if exact {
      assert ReproducedAt(settled, t);
      PromoteExact(before, current, settled, cl, dl, t, target);
    }
  }

  lemma {:induction false} PromoteCorresponds(delta: seq<Row>, settled: seq<Row>, t: nat, line: string)
    requires Corresponds(delta, settled) && NoMarkers(settled)
    requires t < |delta| && settled[t] == delta[t]
    ensures Corresponds(delta[t := Marker], settled[t := Equal(line)]) && NoMarkers(settled[t := Equal(line)])
  {
  }

  /** The buffer from `cl` on, after a line was inserted at `cl`. */
  lemma {:induction false} InsertedSuffix(before: seq<string>, cl: nat, line: string)
    requires cl <= |before|
    ensures (before[..cl] + [line] + before[cl..])[cl..] == [line] + before[cl..]
  {
  }

  lemma {:induction false} PromoteRemaining(before: seq<string>, current: seq<string>, settled: seq<Row>, cl: nat, dl: nat, t: nat,
                         line: string, winDent: int)
    requires Remaining(before, cl, settled, dl, dl, winDent)
    requires dl <= t < |settled| && forall i :: dl <= i <= t ==> settled[i].Ins?
    requires current == before[..cl] + [line] + before[cl..]
    ensures Remaining(current, cl, settled[t := Equal(line)], dl, dl, winDent)
  {
    var s := settled[t := Equal(line)];
    SettleInsert(settled, dl, t, line);
    EmptyWindow(before, cl, settled, dl, winDent);
    InsertedSuffix(before, cl, line);
    EmptyWindow(current, cl, s, dl, winDent);
  }

  lemma {:induction false} PromoteExact(before: seq<string>, current: seq<string>, settled: seq<Row>, cl: nat, dl: nat, t: nat,
                     target: seq<string>)
    requires dl < t < |settled| && settled[t].Ins? && settled[t - 1].Ins? && cl <= |before|
    requires Reproduces(settled) && Target(settled) == target && before[..cl] == Target(settled[..dl])
    requires ReproducedAt(settled, t)
    requires current == before[..cl] + [RevealedLine(settled[t].text)] + before[cl..]
    ensures var s := settled[t := Equal(RevealedLine(settled[t].text))];
            Reproduces(s) && Target(s) == target && current[..cl] == Target(s[..dl])
  {
    var line := RevealedLine(settled[t].text);
    assert line == settled[t].text;
    ReproducesSettle(settled, t, line);
    SettleInsertTarget(settled, t);
    assert current[..cl] == before[..cl];
    assert settled[t := Equal(line)][..dl] == settled[..dl];
  }

  /** The look-ahead moved `tdl` without changing anything else. */
  lemma {:induction false} TrackLookahead(current: seq<string>, delta: seq<Row>, settled: seq<Row>, cl: nat, dl: nat,
                       winEnd: nat, winDent: int, tdl: Option<nat>, bi: int, exact: bool, target: seq<string>, t: nat)
    requires Tracking(current, delta, settled, cl, dl, winEnd, winDent, tdl, bi, exact, target)
    requires dl < |delta| && delta[dl].Ins?
    ensures winEnd == dl
    ensures Tracking(current, delta, settled, cl, dl, winEnd, winDent, Some(t), bi, exact, target)
  {
    WindowShape(settled, dl, winEnd, winDent);
  }

  /** The block look-ahead found a single pair: only `tdl` and `blockIndented` move. */
  lemma {:induction false} TrackNoBlock(current: seq<string>, delta: seq<Row>, settled: seq<Row>, cl: nat, dl: nat,
                     winEnd: nat, winDent: int, tdl: Option<nat>, bi: int, exact: bool, target: seq<string>, t: nat)
    requires Tracking(current, delta, settled, cl, dl, winEnd, winDent, tdl, bi, exact, target)
    requires tdl.Some? && tdl.value > bi
    ensures winEnd == dl
    ensures Tracking(current, delta, settled, cl, dl, winEnd, winDent, Some(t), t, exact, target)
  {
  }

  /** The block look-ahead shifted the n lines of a uniform run of pairs. */
  lemma {:induction false} TrackBlock(before: seq<string>, current: seq<string>, delta: seq<Row>, settled: seq<Row>, cl: nat, dl: nat,
                   winEnd: nat, winDent: int, tdl: Option<nat>, bi: int, exact: bool, target: seq<string>,
                   n: nat, dent: int, bi': nat, winEnd': nat)
    requires Tracking(before, delta, settled, cl, dl, winEnd, winDent, tdl, bi, exact, target)
    requires tdl.Some? && tdl.value > bi
    requires dl + 2 * n <= |delta| && UniformPairs(delta[dl..dl + 2 * n], dent)
    requires cl + n <= |before|
    requires current == before[..cl] + ShiftAll(before[cl..cl + n], dent) + before[cl + n..]
    requires winEnd' == dl + 2 * n
    ensures Tracking(current, delta, settled, cl, dl, winEnd', dent, Some(bi'), bi', exact, target)
  {
    CorrespondsPairs(delta, settled, dl, n, dent);
    assert winEnd == dl;
    BlockStep(before, cl, settled, dl, winDent, n, dent);
    assert current[..cl] == before[..cl];
  }

  /** A uniform run of n pairs from the current row consumes n buffer lines. */
  lemma {:induction false} TrackBlockRoom(current: seq<string>, delta: seq<Row>, settled: seq<Row>, cl: nat, dl: nat,
                       winEnd: nat, winDent: int, tdl: Option<nat>, bi: int, exact: bool, target: seq<string>,
                       n: nat, dent: int)
    requires Tracking(current, delta, settled, cl, dl, winEnd, winDent, tdl, bi, exact, target)
    requires tdl.Some? && tdl.value > bi
    requires dl + 2 * n <= |delta| && UniformPairs(delta[dl..dl + 2 * n], dent)
    ensures cl + n <= |current|
  {
    CorrespondsPairs(delta, settled, dl, n, dent);
    assert winEnd == dl;
    BlockStep(current, cl, settled, dl, winDent, n, dent);
  }

  /** What the buffer line of a pair is, and what exactness promises about it. */
  lemma {:induction false} TrackPairHead(current: seq<string>, delta: seq<Row>, settled: seq<Row>, cl: nat, dl: nat,
                      winEnd: nat, winDent: int, tdl: Option<nat>, bi: int, exact: bool, target: seq<string>)
    requires Tracking(current, delta, settled, cl, dl, winEnd, winDent, tdl, bi, exact, target)
    requires dl + 1 < |delta| && delta[dl].Del? && delta[dl + 1].Ins?
    ensures cl < |current|
    ensures current[cl] == if dl < winEnd then IndentFix(delta[dl].text, delta[dl + 1].text) else delta[dl].text
    ensures exact ==> PairReproduced(delta[dl].text, delta[dl + 1].text)
  {
    assert settled[dl] == delta[dl] && settled[dl + 1] == delta[dl + 1];
    PairHead(current, cl, settled, dl, winEnd, winDent);
    if exact {
      assert ReproducedAt(settled, dl);
    }
  }

  /** After a pair the buffer line holds `v`, which is the added line when the replay is exact. */
  lemma {:induction false} TrackPair(before: seq<string>, current: seq<string>, delta: seq<Row>, settled: seq<Row>, cl: nat, dl: nat,
                  winEnd: nat, winDent: int, tdl: Option<nat>, bi: int, exact: bool, target: seq<string>, v: string)
    requires Tracking(before, delta, settled, cl, dl, winEnd, winDent, tdl, bi, exact, target)
    requires dl + 1 < |delta| && delta[dl].Del? && delta[dl + 1].Ins?
    requires cl < |before| && current == before[cl := v]
    requires exact ==> v == delta[dl + 1].text
    ensures Tracking(current, delta, settled, cl + 1, dl + 2, Max(winEnd, dl + 2), winDent, tdl, bi, exact, target)
  {
    assert settled[dl] == delta[dl] && settled[dl + 1] == delta[dl + 1];
    PairStep(before, cl, settled, dl, winEnd, winDent, v);
    WindowShape(settled, dl, winEnd, winDent);
    if exact {
      PairTarget(before, current, settled, cl, dl, v);
    }
  }

  lemma {:induction false} TrackDelete(before: seq<string>, current: seq<string>, delta: seq<Row>, settled: seq<Row>, cl: nat, dl: nat,
                    winEnd: nat, winDent: int, tdl: Option<nat>, bi: int, exact: bool, target: seq<string>)
    requires Tracking(before, delta, settled, cl, dl, winEnd, winDent, tdl, bi, exact, target)
    requires dl < |delta| && delta[dl].Del? && !(dl < |delta| - 1 && delta[dl + 1].Ins?)
    ensures cl < |before|
    ensures current == before[..cl] + before[cl + 1..] ==>
            Tracking(current, delta, settled, cl, dl + 1, dl + 1, winDent, tdl, bi, exact, target)
  {
    WindowShape(settled, dl, winEnd, winDent);
    assert dl + 1 < |delta| ==> delta[dl + 1] == settled[dl + 1] || delta[dl + 1].Marker?;
    assert settled[dl] == delta[dl];
    DeleteStep(before, cl, settled, dl, winDent);
    assert settled[dl + 1..dl + 1] == [];
    if exact && current == before[..cl] + before[cl + 1..] {
      TargetUpTo(settled, dl);
      assert current[..cl] == before[..cl];
    }
  }

  lemma {:induction false} TrackInsert(before: seq<string>, current: seq<string>, delta: seq<Row>, settled: seq<Row>, cl: nat, dl: nat,
                    winEnd: nat, winDent: int, tdl: Option<nat>, bi: int, exact: bool, target: seq<string>)
    requires Tracking(before, delta, settled, cl, dl, winEnd, winDent, tdl, bi, exact, target)
    requires dl < |delta| && delta[dl].Ins?
    requires current == before[..cl] + [RevealedLine(delta[dl].text)] + before[cl..]
    ensures Tracking(current, delta, settled, cl + 1, dl + 1, dl + 1, winDent, tdl, bi, exact, target)
  {
    WindowShape(settled, dl, winEnd, winDent);
    assert settled[dl] == delta[dl];
    InsertStep(before, cl, settled, dl, winDent, RevealedLine(delta[dl].text));
    assert settled[dl + 1..dl + 1] == [];
    if exact {
      assert ReproducedAt(settled, dl);
      TargetUpTo(settled, dl);
      assert current[..cl + 1] == before[..cl] + [RevealedLine(delta[dl].text)];
    }
  }

  lemma {:induction false} TrackFinish(current: seq<string>, delta: seq<Row>, settled: seq<Row>, cl: nat,
                    winEnd: nat, winDent: int, tdl: Option<nat>, bi: int, exact: bool, target: seq<string>)
    requires Tracking(current, delta, settled, cl, |delta|, winEnd, winDent, tdl, bi, exact, target)
    ensures exact ==> current == target
  {
    FinishStep(current, cl, settled, winDent);
    TargetWhole(settled);
  }

  // ---------------------------------------------------------------- the runner

  class DiffRunner {
    const files: seq<File>
    var current: seq<string>
    var quitRequested: bool
    /** The number of quit checks passed so far; the `Cancel` oracle counts them. */
    var checks: nat
    ghost var events: seq<Event>

    constructor (files: seq<File>)
      ensures this.files == files
      ensures current == [] && !quitRequested && checks == 0 && events == []
    {
      this.files := files;
      current := [];
      quitRequested := false;
      checks := 0;
      events := [];
    }

    /**
     * Types an added line at `line`: first a bare newline, then the indent
     * in groups of four, then the text one character at a time.
     */
    method InsertLine(line: nat, diffline: string)
      requires line <= |current|
      modifies this`current, this`events
      ensures current == old(current)[..line] + [RevealedLine(diffline)] + old(current)[line..]
      ensures Emitted(events, old(events), RevealedSteps(diffline), line)
    {
      ghost var e0 := events;
      ghost var before := current;
      current := current[..line] + ["\n"] + current[line..];
      var ws := FirstWhitespace(diffline);
      var tabs := ws / 4;
      for n := 0 to tabs
        invariant current == before[..line] + [if n == 0 then "\n" else diffline[..4 * (n - 1)] + "\n"] + before[line..]
        invariant Emitted(events, e0, n, line)
      {
        ReplaceInserted(before, line, current[line], diffline[..n * 4] + "\n");
        current := current[line := diffline[..n * 4] + "\n"];
        EmittedStep(events, e0, n, line, Updated(line, n, current));
        events := events + [Updated(line, n, current)];
      }
      var start := tabs * 4;
      for n := start to |diffline|
        invariant current == before[..line]
                             + [if n > start then diffline[..n - 1] + "\n"
                                else if tabs > 0 then diffline[..4 * (tabs - 1)] + "\n"
                                else "\n"]
                             + before[line..]
        invariant Emitted(events, e0, tabs + (n - start), line)
      {
        ReplaceInserted(before, line, current[line], diffline[..n] + "\n");
        current := current[line := diffline[..n] + "\n"];
        EmittedStep(events, e0, tabs + (n - start), line, Updated(line, n, current));
        events := events + [Updated(line, n, current)];
      }
    }

    /** `_indent_line`: prepends `nindents` spaces to `nlines` lines, four at a time. */
    method IndentLines(line: nat, nlines: nat, nindents: int)
      requires line + nlines <= |current|
      modifies this`current, this`events
      ensures |current| == |old(current)|
      ensures forall i :: 0 <= i < |current| && !(line <= i < line + nlines) ==> current[i] == old(current)[i]
      ensures forall i :: line <= i < line + nlines ==> current[i] == Spaces(Max(nindents, 0)) + old(current)[i]
      ensures Emitted(events, old(events), (Max(nindents, 0) + 3) / 4, line)
    {
      ghost var e0 := events;
      ghost var before := current;
      var chunks := Chunkify(Range(0, nindents), 4);
      ghost var done := 0;
      for k := 0 to |chunks|
        invariant |current| == |before|
        invariant done == |Concat(chunks[..k])|
        invariant forall i :: 0 <= i < |current| && !(line <= i < line + nlines) ==> current[i] == before[i]
        invariant forall i :: line <= i < line + nlines ==> current[i] == Spaces(done) + before[i]
        invariant Emitted(events, e0, k, line)
      {
        var n := |chunks[k]|;
        PadLines(line, nlines, n);
        forall i | line <= i < line + nlines ensures current[i] == Spaces(done + n) + before[i] {
          SpacesAppend(n, done, before[i]);
        }
        EmittedStep(events, e0, k, line, Updated(line, n, current));
        events := events + [Updated(line, n, current)];
        ConcatUpTo(chunks, k);
        done := done + n;
      }
      assert chunks[..|chunks|] == chunks;
      ChunkCount4(Range(0, nindents));
    }

    /** `_dedent_line`: removes `ndedents` leading characters from `nlines` lines, four at a time. */
    method DedentLines(line: nat, nlines: nat, ndedents: int)
      requires line + nlines <= |current|
      modifies this`current, this`events
      ensures |current| == |old(current)|
      ensures forall i :: 0 <= i < |current| && !(line <= i < line + nlines) ==> current[i] == old(current)[i]
      ensures forall i :: line <= i < line + nlines ==> current[i] == Drop(old(current)[i], Max(ndedents, 0))
      ensures Emitted(events, old(events), (Max(ndedents, 0) + 3) / 4, line)
    {
      ghost var e0 := events;
      ghost var before := current;
      var chunks := Chunkify(Range(0, ndedents), 4);
      ghost var done := 0;
      for k := 0 to |chunks|
        invariant |current| == |before|
        invariant done == |Concat(chunks[..k])|
        invariant forall i :: 0 <= i < |current| && !(line <= i < line + nlines) ==> current[i] == before[i]
        invariant forall i :: line <= i < line + nlines ==> current[i] == Drop(before[i], done)
        invariant Emitted(events, e0, k, line)
      {
        var n := |chunks[k]|;
        DropFromLines(line, nlines, n);
        forall i | line <= i < line + nlines ensures current[i] == Drop(before[i], done + n) {
          DropDrop(before[i], done, n);
        }
        EmittedStep(events, e0, k, line, Updated(line, 0, current));
        events := events + [Updated(line, 0, current)];
        ConcatUpTo(chunks, k);
        done := done + n;
      }
      assert chunks[..|chunks|] == chunks;
      ChunkCount4(Range(0, ndedents));
    }

    /** The inner loop of `_indent_line`: one chunk of spaces put before each line. */
    method PadLines(line: nat, nlines: nat, n: nat)
      requires line + nlines <= |current|
      modifies this`current
      ensures |current| == |old(current)|
      ensures forall i :: 0 <= i < |current| && !(line <= i < line + nlines) ==> current[i] == old(current)[i]
      ensures forall i :: line <= i < line + nlines ==> current[i] == Spaces(n) + old(current)[i]
    {
      for ln := 0 to nlines
        invariant |current| == |old(current)|
        invariant forall i :: 0 <= i < |current| && !(line <= i < line + ln) ==> current[i] == old(current)[i]
        invariant forall i :: line <= i < line + ln ==> current[i] == Spaces(n) + old(current)[i]
      {
        current := current[line + ln := Spaces(n) + current[line + ln]];
      }
    }

    /** The inner loop of `_dedent_line`: one chunk removed from each line. */
    method DropFromLines(line: nat, nlines: nat, n: nat)
      requires line + nlines <= |current|
      modifies this`current
      ensures |current| == |old(current)|
      ensures forall i :: 0 <= i < |current| && !(line <= i < line + nlines) ==> current[i] == old(current)[i]
      ensures forall i :: line <= i < line + nlines ==> current[i] == Drop(old(current)[i], n)
    {
      for ln := 0 to nlines
        invariant |current| == |old(current)|
        invariant forall i :: 0 <= i < |current| && !(line <= i < line + ln) ==> current[i] == old(current)[i]
        invariant forall i :: line <= i < line + ln ==> current[i] == Drop(old(current)[i], n)
      {
        current := current[line + ln := Drop(current[line + ln], n)];
      }
    }

    /** `indent_line`: brings the indent of a line to that of `diffline`. */
    method IndentLine(line: nat, diffline: string)
      requires line < |current|
      modifies this`current, this`events
      ensures current == old(current)[line := IndentFix(old(current)[line], diffline)]
      ensures Emitted(events, old(events),
                      (Abs(FirstWhitespace(diffline) - FirstWhitespace(old(current)[line])) + 3) / 4, line)
    {
      var currentLine := current[line];
      var cstart: int := FirstWhitespace(currentLine);
      var dstart: int := FirstWhitespace(diffline);
      ghost var c0 := current;
      ghost var indented := Spaces(Max(dstart - cstart, 0)) + currentLine;
      ghost var e0 := events;
      IndentOne(line, dstart - cstart);
      ghost var e1 := events;
      DedentOne(line, cstart - dstart);
      UpdateTwice(c0, line, indented, Drop(indented, Max(cstart - dstart, 0)));
      EmittedChain(e0, e1, events, (Max(dstart - cstart, 0) + 3) / 4, (Max(cstart - dstart, 0) + 3) / 4, line);
      ChunkSteps(dstart - cstart);
      IndentFixSteps(currentLine, diffline);
    }

    /** `_indent_line` on the one line that `indent_line` passes it. */
    method IndentOne(line: nat, nindents: int)
      requires line < |current|
      modifies this`current, this`events
      ensures current == old(current)[line := Spaces(Max(nindents, 0)) + old(current)[line]]
      ensures Emitted(events, old(events), (Max(nindents, 0) + 3) / 4, line)
    {
      ghost var c0 := current;
      IndentLines(line, 1, nindents);
      OneLineChanged(c0, current, line, Spaces(Max(nindents, 0)) + c0[line]);
    }

    /** `_dedent_line` on the one line that `indent_line` passes it. */
    method DedentOne(line: nat, ndedents: int)
      requires line < |current|
      modifies this`current, this`events
      ensures current == old(current)[line := Drop(old(current)[line], Max(ndedents, 0))]
      ensures Emitted(events, old(events), (Max(ndedents, 0) + 3) / 4, line)
    {
      ghost var c0 := current;
      DedentLines(line, 1, ndedents);
      OneLineChanged(c0, current, line, Drop(c0[line], Max(ndedents, 0)));
    }

    /** `block_indent`: shifts `nLines` lines by `dent`, dedenting when it is negative. */
    method BlockIndent(line: nat, nLines: nat, dent: int)
      requires line + nLines <= |current|
      modifies this`current, this`events
      ensures current == old(current)[..line] + ShiftAll(old(current)[line..line + nLines], dent)
                         + old(current)[line + nLines..]
      ensures Emitted(events, old(events), (Abs(dent) + 3) / 4, line)
    {
      ghost var before := current;
      if dent < 0 {
        DedentLines(line, nLines, Abs(dent));
      } else {
        IndentLines(line, nLines, dent);
      }
      var want := before[..line] + ShiftAll(before[line..line + nLines], dent) + before[line + nLines..];
      assert |current| == |want|;
      forall i | 0 <= i < |current| ensures current[i] == want[i] {
        if line <= i < line + nLines {
          ShiftAllAt(before[line..line + nLines], dent, i - line);
          assert want[i] == Shift(before[i], dent);
        } else if i >= line + nLines {
          assert want[i] == before[i];
        }
      }
    }

    /**
     * `edit_line`: keeps the common prefix and suffix of the line and
     * `diffline` and retypes the middle, one character per step. `ok` is
     * false when it raises because `starti` or `endi` is never bound, which
     * happens exactly when one of the lines is empty.
     */
    method EditLine(line: nat, diffline: string) returns (ok: bool)
      requires line < |current|
      modifies this`current, this`events
      ensures ok <==> |old(current)[line]| > 0 && |diffline| > 0
      ensures ok ==> current == old(current)[line := EditResult(old(current)[line], diffline).value]
      ensures ok ==> Emitted(events, old(events), EditSteps(old(current)[line], diffline), line)
      ensures !ok ==> current == old(current) && events == old(events)
    {
      var currentLine := current[line];
      var starti := ScanStart(currentLine, diffline);
      var endi := ScanEnd(currentLine, diffline);
      if starti.None? || endi.None? {
        return false;
      }
      TypeMiddle(line, currentLine, diffline, starti.value, endi.value);
      ok := true;
    }

    /**
     * The typing loop of `edit_line` once `starti` and `endi` are bound:
     * `to_type_len + 1` rewrites of the line, each followed by an update.
     */
    method TypeMiddle(line: nat, currentLine: string, diffline: string, s: nat, e: nat)
      requires line < |current| && current[line] == currentLine
      requires |currentLine| > 0 && |diffline| > 0
      requires s == StartIndex(currentLine, diffline) && e == EndIndex(currentLine, diffline)
      modifies this`current, this`events
      ensures current == old(current)[line := EditResult(currentLine, diffline).value]
      ensures Emitted(events, old(events), EditSteps(currentLine, diffline), line)
    {
      ghost var c0, e0 := current, events;
      var toTypeLen := |diffline| - (s + e);
      var n := 0;
      ghost var typed := currentLine;
      assert c0[line := currentLine] == c0;
      while n < toTypeLen + 1
        invariant n == 0 || n <= toTypeLen + 1
        invariant n == 0 ==> typed == currentLine
        invariant n > 0 ==> typed == EditStep(currentLine, diffline, n - 1)
        invariant current == c0[line := typed]
        invariant Emitted(events, e0, n, line)
      {
        EditStepAt(currentLine, diffline, s, e, n);
        var next := currentLine[..s] + diffline[s..s + n] + Tail(currentLine, e);
        UpdateTwice(c0, line, typed, next);
        current := current[line := next];
        typed := next;
        EmittedStep(events, e0, n, line, Updated(line, s + n, current));
        events := events + [Updated(line, s + n, current)];
        n := n + 1;
      }
      EditLast(currentLine, diffline, n);
    }

    /** `quit`: asks the run to stop at its next check. */
    method Quit()
      modifies this`quitRequested
      ensures quitRequested
    {
      quitRequested := true;
    }

    /**
     * A check of `_quit_requested`. The oracle says whether the other
     * thread calls `quit` just before this check; a request, once made,
     * stays.
     */
    method PollQuit(cancel: Cancel) returns (q: bool)
      modifies this`quitRequested, this`checks
      ensures checks == old(checks) + 1
      ensures quitRequested == (old(quitRequested) || cancel == AtCheck(old(checks)))
      ensures q == quitRequested
    {
      if cancel == AtCheck(checks) {
        Quit();
      }
      checks := checks + 1;
      q := quitRequested;
    }

    /**
     * The look-ahead for a blank line after a run of added lines: types it
     * at `cl` ahead of time and overwrites its row with a marker. `t` is
     * where the scan stopped, the new value of `tdl`; `found` says whether
     * it stopped on a blank added line.
     */
    method BlankLookahead(delta: seq<Row>, cl: nat, dl: nat, tdl: Option<nat>, bi: int, ghost settled: seq<Row>, ghost winEnd: nat, ghost winDent: int, ghost exact: bool, ghost target: seq<string>)
      returns (delta': seq<Row>, ghost settled': seq<Row>, t: nat, found: bool)
      requires Tracking(current, delta, settled, cl, dl, winEnd, winDent, tdl, bi, exact, target)
      requires dl < |delta| && delta[dl].Ins? && !IsBlank(delta[dl].text)
      modifies this`current, this`events
      ensures dl <= t < |delta|
      ensures forall k :: dl < k < t ==> delta[k].Ins? && !IsBlank(delta[k].text)
      ensures found <==> dl < t && delta[t].Ins? && IsBlank(delta[t].text)
      ensures !found ==> t == |delta| - 1 || !delta[t].Ins?
      ensures found ==>
                delta' == delta[t := Marker] && cl <= |old(current)| &&
                current == old(current)[..cl] + [RevealedLine(delta[t].text)] + old(current)[cl..] &&
                Emitted(events, old(events), RevealedSteps(delta[t].text), cl)
      ensures !found ==> delta' == delta && current == old(current) && events == old(events)
      ensures |delta'| == |delta| && delta'[dl] == delta[dl]
      ensures Tracking(current, delta', settled', cl, dl, winEnd, winDent, Some(t), bi, exact, target)
      ensures OnlyUpdates(events, old(events))
      ensures AgreeBefore(old(current), current, cl)
    {
      t, found := FindTrailingBlank(delta, dl);
      TrackLookahead(current, delta, settled, cl, dl, winEnd, winDent, tdl, bi, exact, target, t);
      delta', settled' := delta, settled;
      if found {
        ghost var before := current;
        InsertLine(cl, delta[t].text);
        TrackPromote(before, current, delta, settled, cl, dl, winEnd, winDent, tdl, bi, exact, target, t);
        AgreeBeforeInsert(before, cl, RevealedLine(delta[t].text), cl);
        settled' := settled[t := Equal(RevealedLine(delta[t].text))];
        delta' := delta[t := Marker];
      }
    }

    /**
     * The look-ahead for a block of pairs that all change the indent by the
     * same amount: shifts the buffer lines of the block when there are two
     * or more. `nDents` is the number of pairs in the block; `bi'` is the
     * new `block_indented`, which is also the new `tdl`.
     */
    method BlockLookahead(delta: seq<Row>, cl: nat, dl: nat, tdl: Option<nat>, bi: int, ghost settled: seq<Row>, ghost winEnd: nat, ghost winDent: int, ghost exact: bool, ghost target: seq<string>)
      returns (bi': nat, nDents: nat, ghost winEnd': nat, ghost winDent': int)
      requires Tracking(current, delta, settled, cl, dl, winEnd, winDent, tdl, bi, exact, target)
      requires tdl.Some? && tdl.value > bi
      requires dl + 1 < |delta| && delta[dl].Del? && delta[dl + 1].Ins?
      modifies this`current, this`events
      ensures nDents >= 1 && dl + 2 * nDents <= |delta|
      ensures UniformPairs(delta[dl..dl + 2 * nDents], Dent(delta[dl].text, delta[dl + 1].text))
      ensures !PairAt(delta, dl + 2 * nDents, Dent(delta[dl].text, delta[dl + 1].text))
      ensures bi' == dl + 2 * nDents || bi' == dl + 2 * (nDents - 1)
      ensures nDents > 1 ==>
                cl + nDents <= |old(current)| &&
                current == old(current)[..cl] + ShiftAll(old(current)[cl..cl + nDents], Dent(delta[dl].text, delta[dl + 1].text))
                           + old(current)[cl + nDents..] &&
                Emitted(events, old(events), (Abs(Dent(delta[dl].text, delta[dl + 1].text)) + 3) / 4, cl)
      ensures nDents == 1 ==> current == old(current) && events == old(events)
      ensures Tracking(current, delta, settled, cl, dl, winEnd', winDent', Some(bi'), bi', exact, target)
      ensures OnlyUpdates(events, old(events))
      ensures AgreeBefore(old(current), current, cl)
    {
      var dent := Dent(delta[dl].text, delta[dl + 1].text);
      nDents, bi' := ScanBlock(delta, dl, dent);
      if nDents > 1 {
        winEnd', winDent' := ShiftBlock(delta, cl, dl, tdl, bi, settled, winEnd, winDent, exact, target, nDents, dent, bi');
      } else {
        TrackNoBlock(current, delta, settled, cl, dl, winEnd, winDent, tdl, bi, exact, target, bi');
        winEnd', winDent' := winEnd, winDent;
      }
    }

    /** The block branch of the look-ahead: `block_indent` over the `n` buffer lines of the block. */
    method ShiftBlock(delta: seq<Row>, cl: nat, dl: nat, tdl: Option<nat>, bi: int, ghost settled: seq<Row>, ghost winEnd: nat, ghost winDent: int, ghost exact: bool, ghost target: seq<string>,
                      n: nat, dent: int, ghost bi': nat)
      returns (ghost winEnd': nat, ghost winDent': int)
      requires Tracking(current, delta, settled, cl, dl, winEnd, winDent, tdl, bi, exact, target)
      requires tdl.Some? && tdl.value > bi
      requires dl + 2 * n <= |delta| && UniformPairs(delta[dl..dl + 2 * n], dent)
      modifies this`current, this`events
      ensures cl + n <= |old(current)|
      ensures current == old(current)[..cl] + ShiftAll(old(current)[cl..cl + n], dent) + old(current)[cl + n..]
      ensures Emitted(events, old(events), (Abs(dent) + 3) / 4, cl)
      ensures winEnd' == dl + 2 * n && winDent' == dent
      ensures Tracking(current, delta, settled, cl, dl, winEnd', winDent', Some(bi'), bi', exact, target)
      ensures AgreeBefore(old(current), current, cl)
    {
      winEnd', winDent' := dl + 2 * n, dent;
      ghost var before := current;
      TrackBlockRoom(current, delta, settled, cl, dl, winEnd, winDent, tdl, bi, exact, target, n, dent);
      BlockIndent(cl, n, dent);
      TrackBlock(before, current, delta, settled, cl, dl, winEnd, winDent, tdl, bi, exact, target, n, dent, bi', winEnd');
      AgreeBeforeShift(before, cl, n, dent);
    }

    /**
     * A removal followed by an addition, on buffer line `line`: skipped when
     * the line already reads as `diffline`, otherwise re-indented and then
     * edited. `ok` is false when `edit_line` raises.
     */
    method ReplacePair(line: nat, diffline: string) returns (ok: bool)
      requires line < |current|
      modifies this`current, this`events
      ensures ok <==> PairResult(old(current)[line], diffline).Some?
      ensures ok ==> current == old(current)[line := PairResult(old(current)[line], diffline).value]
      ensures !ok ==> current == old(current)[line := IndentFix(old(current)[line], diffline)]
      ensures diffline == old(current)[line] ==> ok && current == old(current) && events == old(events)
      ensures OnlyUpdates(events, old(events))
    {
      if diffline == current[line] {
        return true;
      }
      ghost var e0 := events;
      IndentLine(line, diffline);
      ghost var e1 := events;
      ok := EditLine(line, diffline);
      EmittedOnlyUpdates(e1, e0, (Abs(FirstWhitespace(diffline) - FirstWhitespace(old(current)[line])) + 3) / 4, line);
      if ok {
        EmittedOnlyUpdates(events, e1, EditSteps(IndentFix(old(current)[line], diffline), diffline), line);
        OnlyUpdatesChain(e0, e1, events);
      }
    }

    /** The delete branch: `del self.current[line]`, then one update. */
    method DeleteLine(line: nat)
      requires line < |current|
      modifies this`current, this`events
      ensures current == old(current)[..line] + old(current)[line + 1..]
      ensures events == old(events) + [Updated(line, 0, current)]
      ensures AgreeBefore(old(current), current, line)
    {
      AgreeBeforeDelete(current, line, line);
      current := current[..line] + current[line + 1..];
      events := events + [Updated(line, 0, current)];
    }

    /** A removal/addition pair, once the block look-ahead is done. */
    method ReplayPair(delta: seq<Row>, cl: nat, dl: nat, tdl: Option<nat>, bi: int, ghost settled: seq<Row>, ghost winEnd: nat, ghost winDent: int, ghost exact: bool, ghost target: seq<string>)
      returns (ok: bool)
      requires Tracking(current, delta, settled, cl, dl, winEnd, winDent, tdl, bi, exact, target)
      requires dl + 1 < |delta| && delta[dl].Del? && delta[dl + 1].Ins?
      modifies this`current, this`events
      ensures ok ==> Tracking(current, delta, settled, cl + 1, dl + 2, Max(winEnd, dl + 2), winDent, tdl, bi, exact, target)
      ensures exact ==> ok
      ensures OnlyUpdates(events, old(events))
      ensures AgreeBefore(old(current), current, cl)
    {
      var d := delta[dl + 1].text;
      TrackPairHead(current, delta, settled, cl, dl, winEnd, winDent, tdl, bi, exact, target);
      if exact {
        PairEdit(delta[dl].text, d, current[cl]);
      }
      ghost var before := current;
      ok := ReplacePair(cl, d);
      AgreeBeforeUpdate(before, cl, current[cl], cl);
      if ok {
        TrackPair(before, current, delta, settled, cl, dl, winEnd, winDent, tdl, bi, exact, target, PairResult(before[cl], d).value);
      }
    }

    /**
     * One added row: the blank-line look-ahead when the row is not blank,
     * then the `tdl > block_indented` test, which raises (`unbound`) when
     * no look-ahead ever assigned `tdl`; otherwise the line is typed.
     * The caller's `cl`, `dl` advance by one.
     */
    method ReplayAdded(delta: seq<Row>, cl: nat, dl: nat, tdl: Option<nat>, bi: int, ghost settled: seq<Row>, ghost winEnd: nat, ghost winDent: int, ghost exact: bool, ghost target: seq<string>)
      returns (delta': seq<Row>, ghost settled': seq<Row>, tdl': Option<nat>, unbound: bool)
      requires Tracking(current, delta, settled, cl, dl, winEnd, winDent, tdl, bi, exact, target)
      requires dl < |delta| && delta[dl].Ins?
      modifies this`current, this`events
      ensures |delta'| == |delta|
      ensures unbound <==> tdl.None? && IsBlank(delta[dl].text)
      ensures unbound ==> current == old(current) && events == old(events)
      ensures !unbound ==>
                tdl'.Some? && Tracking(current, delta', settled', cl + 1, dl + 1, dl + 1, winDent, tdl', bi, exact, target)
      ensures OnlyUpdates(events, old(events))
      ensures AgreeBefore(old(current), current, cl)
    {
      var row := delta[dl];
      delta', settled', tdl' := delta, settled, tdl;
      if !IsBlank(row.text) {
        var t, found;
        delta', settled', t, found := BlankLookahead(delta, cl, dl, tdl, bi, settled, winEnd, winDent, exact, target);
        tdl' := Some(t);
      }
      if tdl'.None? {
        return delta', settled', tdl', true;
      }
      ghost var before := current;
      ghost var e0 := events;
      InsertLine(cl, row.text);
      TrackInsert(before, current, delta', settled', cl, dl, winEnd, winDent, tdl', bi, exact, target);
      AgreeBeforeInsert(before, cl, RevealedLine(row.text), cl);
      AgreeBeforeChain(old(current), before, current, cl);
      unbound := false;
    }

    /**
     * One removed row: the `tdl > block_indented` test (raising when `tdl`
     * was never assigned), the block look-ahead for a removal/addition
     * pair, then the pair is replaced or the line removed. `dl'` is the
     * next row; `fault` says which exception the row raised, if any.
     */
    method ReplayRemoved(delta: seq<Row>, cl: nat, dl: nat, tdl: Option<nat>, bi: int, ghost settled: seq<Row>, ghost winEnd: nat, ghost winDent: int, ghost exact: bool, ghost target: seq<string>)
      returns (cl': nat, dl': nat, tdl': Option<nat>, bi': int, ghost winEnd': nat, ghost winDent': int,
               fault: Option<Fault>)
      requires Tracking(current, delta, settled, cl, dl, winEnd, winDent, tdl, bi, exact, target)
      requires dl < |delta| && delta[dl].Del?
      modifies this`current, this`events
      ensures fault == Some(UnboundTdl) <==> tdl.None?
      ensures fault.Some? ==> fault.value == UnboundTdl || (fault.value == UnboundEditIndex && !exact)
      ensures tdl.None? ==> current == old(current) && events == old(events)
      ensures fault.None? ==>
                dl < dl' && tdl'.Some? && Tracking(current, delta, settled, cl', dl', winEnd', winDent', tdl', bi', exact, target)
      ensures fault.None? ==> cl <= cl' <= cl + 1
      ensures OnlyUpdates(events, old(events))
      ensures AgreeBefore(old(current), current, cl)
    {
      cl', dl', tdl', bi', winEnd', winDent' := cl, dl, tdl, bi, winEnd, winDent;
      if tdl.None? {
        return cl', dl', tdl', bi', winEnd', winDent', Some(UnboundTdl);
      }
      var pair := dl < |delta| - 1 && delta[dl + 1].Ins?;
      if pair {
        var ok;
        tdl', bi', winEnd', winDent', ok := ReplayRemovedPair(delta, cl, dl, tdl, bi, settled, winEnd, winDent, exact, target);
        if !ok {
          return cl', dl', tdl', bi', winEnd', winDent', Some(UnboundEditIndex);
        }
        cl', dl' := cl + 1, dl + 2;
        return cl', dl', tdl', bi', winEnd', winDent', None;
      }
      dl', winEnd' := ReplayDeleted(delta, cl, dl, tdl, bi, settled, winEnd, winDent, exact, target);
      fault := None;
    }

    /** A removed row with no added row after it: its buffer line is deleted. */
    method ReplayDeleted(delta: seq<Row>, cl: nat, dl: nat, tdl: Option<nat>, bi: int, ghost settled: seq<Row>, ghost winEnd: nat, ghost winDent: int, ghost exact: bool, ghost target: seq<string>)
      returns (dl': nat, ghost winEnd': nat)
      requires Tracking(current, delta, settled, cl, dl, winEnd, winDent, tdl, bi, exact, target)
      requires dl < |delta| && delta[dl].Del? && !(dl < |delta| - 1 && delta[dl + 1].Ins?)
      modifies this`current, this`events
      ensures cl < |old(current)| && current == old(current)[..cl] + old(current)[cl + 1..]
      ensures events == old(events) + [Updated(cl, 0, current)]
      ensures dl' == dl + 1 && winEnd' == dl + 1
      ensures Tracking(current, delta, settled, cl, dl', winEnd', winDent, tdl, bi, exact, target)
      ensures AgreeBefore(old(current), current, cl)
    {
      dl', winEnd' := dl + 1, dl + 1;
      TrackDelete(current, current[..cl] + current[cl + 1..], delta, settled, cl, dl, winEnd, winDent, tdl, bi, exact, target);
      DeleteLine(cl);
    }

    /** A removed row followed by an added row: the block look-ahead when due, then the pair. */
    method ReplayRemovedPair(delta: seq<Row>, cl: nat, dl: nat, tdl: Option<nat>, bi: int, ghost settled: seq<Row>, ghost winEnd: nat, ghost winDent: int, ghost exact: bool, ghost target: seq<string>)
      returns (tdl': Option<nat>, bi': int, ghost winEnd': nat, ghost winDent': int, ok: bool)
      requires Tracking(current, delta, settled, cl, dl, winEnd, winDent, tdl, bi, exact, target)
      requires tdl.Some? && dl + 1 < |delta| && delta[dl].Del? && delta[dl + 1].Ins?
      modifies this`current, this`events
      ensures tdl'.Some?
      ensures exact ==> ok
      ensures ok ==> Tracking(current, delta, settled, cl + 1, dl + 2, winEnd', winDent', tdl', bi', exact, target)
      ensures OnlyUpdates(events, old(events))
      ensures AgreeBefore(old(current), current, cl)
    {
      tdl', bi', winEnd', winDent' := tdl, bi, winEnd, winDent;
      ghost var e0 := events;
      if tdl.value > bi {
        var t, nDents;
        t, nDents, winEnd', winDent' := BlockLookahead(delta, cl, dl, tdl, bi, settled, winEnd, winDent, exact, target);
        bi', tdl' := t, Some(t);
      }
      ghost var e1 := events;
      ghost var c1 := current;
      ok := ReplayPair(delta, cl, dl, tdl', bi', settled, winEnd', winDent', exact, target);
      OnlyUpdatesChain(e0, e1, events);
      AgreeBeforeChain(old(current), c1, current, cl);
      winEnd' := Max(winEnd', dl + 2);
    }

    /**
     * What holds between two rows of the loop of `run`: the replay tracks
     * the delta, the log grew by updates only, and until the first changed
     * row (`untouched`) nothing has been touched. `q0`, `cur0` and `ev0` are
     * the quit flag, the buffer and the log when the loop started.
     */
    ghost predicate Replaying(delta0: seq<Row>, target: seq<string>, tdlIn: Option<nat>, cancel: Cancel,
                              q0: bool, cur0: seq<string>, ev0: seq<Event>,
                              delta: seq<Row>, settled: seq<Row>, cl: nat, dl: nat, tdl: Option<nat>, bi: int,
                              winEnd: nat, winDent: int, exact: bool, untouched: bool)
      reads this
    {
      |delta| == |delta0| && NoMarkers(delta0) && exact == Reproduces(delta0) &&
      Tracking(current, delta, settled, cl, dl, winEnd, winDent, tdl, bi, exact, target) &&
      OnlyUpdates(events, ev0) &&
      (untouched ==>
         dl <= FirstChange(delta0) && delta == delta0 && tdl == tdlIn && current == cur0 && events == ev0) &&
      (q0 ==> quitRequested && untouched && dl == 0) &&
      (cancel == Never && !q0 ==> !quitRequested) &&
      (tdl.None? ==> untouched) &&
      (tdlIn.None? && ReadsUnboundTdl(delta0) && cancel == Never && !q0 ==> untouched) &&
      (AllKept(delta0) ==> untouched)
    }

    /** What holds as the loop of `run` starts on a file. */
    lemma {:induction false} ReplayingStart(delta0: seq<Row>, target: seq<string>, tdlIn: Option<nat>, cancel: Cancel)
      requires WellFormed(delta0, current, target)
      ensures Replaying(delta0, target, tdlIn, cancel, quitRequested, current, events,
                        delta0, delta0, 0, 0, tdlIn, 0, 0, 0, Reproduces(delta0), true)
    {
      TrackStart(current, delta0, tdlIn, target);
    }

    /** What holds when the loop of `run` has gone through every row of a file. */
    lemma {:induction false} ReplayingDone(delta0: seq<Row>, target: seq<string>, tdlIn: Option<nat>, cancel: Cancel,
                                           q0: bool, cur0: seq<string>, ev0: seq<Event>,
                                           delta: seq<Row>, settled: seq<Row>, cl: nat, dl: nat, tdl: Option<nat>, bi: int,
                                           winEnd: nat, winDent: int, exact: bool, untouched: bool)
      requires dl >= |delta|
      requires Replaying(delta0, target, tdlIn, cancel, q0, cur0, ev0, delta, settled, cl, dl, tdl, bi, winEnd, winDent, exact, untouched)
      ensures exact ==> current == target
      ensures q0 ==> quitRequested && |delta0| == 0 && current == cur0 && events == ev0
      ensures cancel == Never && !q0 ==> !quitRequested
      ensures !(tdlIn.None? && ReadsUnboundTdl(delta0) && cancel == Never && !q0)
      ensures AllKept(delta0) ==> current == cur0 && events == ev0 && tdl == tdlIn
      ensures OnlyUpdates(events, ev0)
    {
      TrackFinish(current, delta, settled, cl, winEnd, winDent, tdl, bi, exact, target);
    }

    /**
     * One pass of the loop of `run`: the quit check, then the row. `stop` is
     * the outcome when the pass ends the loop, by a quit or an exception.
     */
    method Iteration(delta0: seq<Row>, ghost target: seq<string>, tdlIn: Option<nat>, cancel: Cancel,
                     ghost q0: bool, ghost cur0: seq<string>, ghost ev0: seq<Event>,
                     delta: seq<Row>, ghost settled: seq<Row>, cl: nat, dl: nat, tdl: Option<nat>, bi: int,
                     ghost winEnd: nat, ghost winDent: int, ghost exact: bool, ghost untouched: bool)
      returns (stop: Option<Outcome>, delta': seq<Row>, ghost settled': seq<Row>, cl': nat, dl': nat,
               tdl': Option<nat>, bi': int, ghost winEnd': nat, ghost winDent': int, ghost untouched': bool)
      requires dl < |delta|
      requires Replaying(delta0, target, tdlIn, cancel, q0, cur0, ev0, delta, settled, cl, dl, tdl, bi, winEnd, winDent, exact, untouched)
      modifies this`current, this`events, this`quitRequested, this`checks
      ensures stop.None? ==> dl < dl'
      ensures stop.None? || stop == Some(Cancelled) ==>
                Replaying(delta0, target, tdlIn, cancel, q0, cur0, ev0, delta', settled', cl', dl', tdl', bi', winEnd', winDent', exact, untouched')
      ensures stop.Some? ==> stop.value.Cancelled? || stop.value.Failed?
      ensures stop.Some? && stop.value.Failed? ==>
                stop.value.fault == UnboundTdl || (stop.value.fault == UnboundEditIndex && !exact)
      ensures stop == Some(Cancelled) ==> quitRequested
      ensures q0 ==> quitRequested
      ensures cancel == Never && !q0 ==> !quitRequested && stop != Some(Cancelled)
      ensures stop == Some(Failed(UnboundTdl)) ==> tdlIn.None? && ReadsUnboundTdl(delta0)
      ensures stop.Some? && tdlIn.None? && ReadsUnboundTdl(delta0) && cancel == Never && !q0 ==>
                stop == Some(Failed(UnboundTdl))
      ensures stop.Some? && AllKept(delta0) ==>
                !stop.value.Failed? && current == cur0 && events == ev0 && tdl' == tdlIn
      ensures q0 ==> stop == Some(Cancelled) && current == cur0 && events == ev0
      ensures stop == Some(Cancelled) ==>
                current == old(current) && events == old(events) &&
                delta' == delta && cl' == cl && dl' == dl && tdl' == tdl && bi' == bi
      ensures OnlyUpdates(events, ev0)
    {
      stop, delta', settled', cl', dl', tdl', bi', winEnd', winDent', untouched' :=
        None, delta, settled, cl, dl, tdl, bi, winEnd, winDent, untouched;
      var q := PollQuit(cancel);
      if q {
        return Some(Cancelled), delta', settled', cl', dl', tdl', bi', winEnd', winDent', untouched';
      }
      var fault;
      fault, delta', settled', cl', dl', tdl', bi', winEnd', winDent', untouched' :=
        NextRow(delta0, target, tdlIn, cancel, q0, cur0, ev0, delta, settled, cl, dl, tdl, bi, winEnd, winDent, exact, untouched);
      if fault.Some? {
        stop := Some(Failed(fault.value));
      }
    }

    /**
     * The row part of a pass of the loop of `run`, once the quit check has
     * let it through. `fault` is the exception the row raised.
     */
    method NextRow(delta0: seq<Row>, ghost target: seq<string>, tdlIn: Option<nat>, cancel: Cancel,
                   ghost q0: bool, ghost cur0: seq<string>, ghost ev0: seq<Event>,
                   delta: seq<Row>, ghost settled: seq<Row>, cl: nat, dl: nat, tdl: Option<nat>, bi: int,
                   ghost winEnd: nat, ghost winDent: int, ghost exact: bool, ghost untouched: bool)
      returns (fault: Option<Fault>, delta': seq<Row>, ghost settled': seq<Row>, cl': nat, dl': nat,
               tdl': Option<nat>, bi': int, ghost winEnd': nat, ghost winDent': int, ghost untouched': bool)
      requires dl < |delta| && !q0
      requires Replaying(delta0, target, tdlIn, cancel, q0, cur0, ev0, delta, settled, cl, dl, tdl, bi, winEnd, winDent, exact, untouched)
      modifies this`current, this`events
      ensures fault.None? ==>
                dl < dl' &&
                Replaying(delta0, target, tdlIn, cancel, q0, cur0, ev0, delta', settled', cl', dl', tdl', bi', winEnd', winDent', exact, untouched')
      ensures fault.Some? ==> fault.value == UnboundTdl || (fault.value == UnboundEditIndex && !exact)
      ensures fault == Some(UnboundTdl) ==> tdlIn.None? && ReadsUnboundTdl(delta0)
      ensures fault.Some? && tdlIn.None? && ReadsUnboundTdl(delta0) && cancel == Never ==> fault == Some(UnboundTdl)
      ensures AllKept(delta0) ==> fault.None?
      ensures OnlyUpdates(events, ev0)
    {
      var kept := delta[dl].Equal? || delta[dl].Marker?;
      if untouched && kept {
        FirstChangeKept(delta0, dl);
      } else if untouched {
        FirstChangeAt(delta0, dl);
      }
      ghost var e0 := events;
      delta', settled', cl', dl', tdl', bi', winEnd', winDent', fault :=
        ReplayRow(delta, cl, dl, tdl, bi, settled, winEnd, winDent, exact, target);
      OnlyUpdatesChain(ev0, e0, events);
      untouched' := untouched && kept;
    }

    /**
     * One iteration of the row loop after the quit check: a kept row (or a
     * marker) is stepped over, an added row goes to `ReplayAdded`, a removed
     * row to `ReplayRemoved`. `fault` is the exception the row raised.
     */
    method ReplayRow(delta: seq<Row>, cl: nat, dl: nat, tdl: Option<nat>, bi: int, ghost settled: seq<Row>, ghost winEnd: nat, ghost winDent: int, ghost exact: bool, ghost target: seq<string>)
      returns (delta': seq<Row>, ghost settled': seq<Row>, cl': nat, dl': nat, tdl': Option<nat>, bi': int,
               ghost winEnd': nat, ghost winDent': int, fault: Option<Fault>)
      requires Tracking(current, delta, settled, cl, dl, winEnd, winDent, tdl, bi, exact, target)
      requires dl < |delta|
      modifies this`current, this`events
      ensures |delta'| == |delta|
      ensures fault.Some? ==> fault.value == UnboundTdl || (fault.value == UnboundEditIndex && !exact)
      ensures fault == Some(UnboundTdl) <==>
                tdl.None? && (delta[dl].Del? || (delta[dl].Ins? && IsBlank(delta[dl].text)))
      ensures fault.None? ==>
                dl < dl' && Tracking(current, delta', settled', cl', dl', winEnd', winDent', tdl', bi', exact, target)
      ensures fault.None? ==> cl <= cl' <= cl + 1
      ensures delta[dl].Equal? || delta[dl].Marker? ==>
                fault.None? && dl' == dl + 1 && delta' == delta && tdl' == tdl &&
                current == old(current) && events == old(events)
      ensures delta[dl].Del? || delta[dl].Ins? ==> fault.Some? || tdl'.Some?
      ensures OnlyUpdates(events, old(events))
      ensures AgreeBefore(old(current), current, cl)
    {
      var row := delta[dl];
      delta', settled', cl', dl', tdl', bi', winEnd', winDent', fault := delta, settled, cl, dl, tdl, bi, winEnd, winDent, None;
      if row.Equal? || row.Marker? {
        TrackKept(current, delta, settled, cl, dl, winEnd, winDent, tdl, bi, exact, target);
        cl', dl', winEnd' := cl + 1, dl + 1, dl + 1;
      } else if row.Ins? {
        var unbound;
        delta', settled', tdl', unbound := ReplayAdded(delta, cl, dl, tdl, bi, settled, winEnd, winDent, exact, target);
        if unbound {
          fault := Some(UnboundTdl);
        } else {
          cl', dl', winEnd' := cl + 1, dl + 1, dl + 1;
        }
      } else {
        cl', dl', tdl', bi', winEnd', winDent', fault :=
          ReplayRemoved(delta, cl, dl, tdl, bi, settled, winEnd, winDent, exact, target);
      }
    }

    /**
     * One file of `run`: replays `delta0`, the delta from the buffer to
     * `target`, row by row. `tdlIn` is the look-ahead index left by the
     * previous file (a local of `run` that survives from file to file).
     */
    method Transition(delta0: seq<Row>, ghost target: seq<string>, tdlIn: Option<nat>, cancel: Cancel)
      returns (outcome: Outcome, tdlOut: Option<nat>, ghost deltaOut: seq<Row>, ghost settledOut: seq<Row>,
               ghost clOut: nat, ghost dlOut: nat, ghost winEndOut: nat, ghost winDentOut: int, ghost biOut: int)
      requires WellFormed(delta0, current, target)
      modifies this`current, this`events, this`quitRequested, this`checks
      ensures outcome.Failed? ==> outcome.fault == UnboundTdl || outcome.fault == UnboundEditIndex
      ensures outcome == Cancelled ==> quitRequested
      ensures old(quitRequested) ==> quitRequested
      ensures cancel == Never && !old(quitRequested) ==> !quitRequested && outcome != Cancelled
      ensures Reproduces(delta0) && outcome == Finished ==> current == target
      ensures Reproduces(delta0) ==> outcome != Failed(UnboundEditIndex)
      ensures outcome == Failed(UnboundTdl) ==> tdlIn.None? && ReadsUnboundTdl(delta0)
      ensures tdlIn.None? && ReadsUnboundTdl(delta0) && cancel == Never && !old(quitRequested)
              ==> outcome == Failed(UnboundTdl)
      ensures AllKept(delta0) ==> !outcome.Failed? && current == old(current) && events == old(events) && tdlOut == tdlIn
      ensures old(quitRequested) && |delta0| > 0 ==> outcome == Cancelled && current == old(current) && events == old(events)
      ensures OnlyUpdates(events, old(events))
      // A cancel, like the end of the delta, stops the replay between two
      // rows, with the buffer in step with the rows from `dlOut` on. It is
      // compared with `true` so that it is checked as one fact, not conjunct
      // by conjunct.
      ensures !outcome.Failed? ==>
                |deltaOut| == |delta0| &&
                Tracking(current, deltaOut, settledOut, clOut, dlOut, winEndOut, winDentOut, tdlOut, biOut,
                         Reproduces(delta0), target) == true
    {
      var delta := delta0;
      ghost var settled := delta0;
      ghost var winEnd: nat, winDent: int := 0, 0;
      ghost var exact := Reproduces(delta0);
      var cl: nat, dl: nat := 0, 0;
      var blockIndented := 0;
      var tdl := tdlIn;
      ghost var untouched := true;
      ghost var q0, c0, e0 := quitRequested, current, events;
      outcome := Finished;
      ReplayingStart(delta0, target, tdlIn, cancel);
      // The invariant is compared with `true` so that it is checked as one
      // fact, the postcondition of `Iteration`, rather than conjunct by conjunct.
      while dl < |delta|
        invariant Replaying(delta0, target, tdlIn, cancel, q0, c0, e0,
                            delta, settled, cl, dl, tdl, blockIndented, winEnd, winDent, exact, untouched) == true
        decreases |delta| - dl
      {
        var stop;
        stop, delta, settled, cl, dl, tdl, blockIndented, winEnd, winDent, untouched :=
          Iteration(delta0, target, tdlIn, cancel, q0, c0, e0,
                    delta, settled, cl, dl, tdl, blockIndented, winEnd, winDent, exact, untouched);
        if stop.Some? {
          outcome := stop.value;
          break;
        }
      }
      tdlOut := tdl;
      deltaOut, settledOut, clOut, dlOut, winEndOut, winDentOut, biOut :=
        delta, settled, cl, dl, winEnd, winDent, blockIndented;
      if outcome == Finished {
        ReplayingDone(delta0, target, tdlIn, cancel, q0, c0, e0,
                      delta, settled, cl, dl, tdl, blockIndented, winEnd, winDent, exact, untouched);
      }
    }

    /**
     * `run`: shows the first file, then replays the delta from the buffer to
     * each following file, and signals completion at the end. An exception
     * ends the run where it is raised, with no further signal.
     */
    method Run(compare: (seq<string>, seq<string>) -> seq<string>, cancel: Cancel) returns (outcome: Outcome)
      requires |files| > 0
      requires Differ(compare)
      modifies this`current, this`events, this`quitRequested, this`checks
      ensures outcome == Failed(EmptyInitialFile) <==> |files[0].lines| == 0
      ensures outcome.Failed? ==>
                outcome.fault == EmptyInitialFile || outcome.fault == UnboundTdl || outcome.fault == UnboundEditIndex
      ensures |events| >= |old(events)| + 2 && events[..|old(events)| + 2] == old(events) + Opening(files[0])
      ensures |files[0].lines| > 0 ==>
                |events| >= |old(events)| + 3 && events[|old(events)| + 2] == InitialUpdate(files[0].lines)
      ensures !outcome.Failed? ==>
                events[|events| - 1] == Completed && NoCompletion(events[..|events| - 1], old(events))
      ensures outcome.Failed? ==> NoCompletion(events, old(events))
      ensures cancel == Never && !old(quitRequested) ==> outcome != Cancelled
      ensures old(quitRequested) && |files| > 1 && |files[0].lines| > 0 ==>
                outcome == Cancelled && current == files[0].lines
      ensures Chained(compare, files) ==> outcome != Failed(UnboundEditIndex)
      ensures Chained(compare, files) && outcome == Finished ==> current == files[|files| - 1].lines
    {
      var shown := ShowFirst();
      if !shown {
        assert events[..|old(events)| + 2] == events;
        return Failed(EmptyInitialFile);
      }
      outcome := ReplayFiles(compare, cancel);
      if outcome.Failed? {
        ShownLog(old(events), files[0], InitialUpdate(files[0].lines), events);
        return;
      }
      CompletedLog(old(events), files[0], InitialUpdate(files[0].lines), events);
      events := events + [Completed];
    }

    /**
     * The start of `run`: reads the first file into the buffer and signals
     * it; an empty file stops the run at its initial update (`shown` false).
     */
    method ShowFirst() returns (shown: bool)
      requires |files| > 0
      modifies this`current, this`events
      ensures current == files[0].lines
      ensures shown <==> |files[0].lines| > 0
      ensures events == old(events) + Opening(files[0]) + if shown then [InitialUpdate(files[0].lines)] else []
    {
      current := files[0].lines;
      events := events + Opening(files[0]);
      shown := |current| > 0;
      if shown {
        events := events + [InitialUpdate(current)];
      }
    }

    /** The loop over the files after the first, with the `tdl` it carries from one file to the next. */
    method ReplayFiles(compare: (seq<string>, seq<string>) -> seq<string>, cancel: Cancel) returns (outcome: Outcome)
      requires |files| > 0 && Differ(compare)
      modifies this`current, this`events, this`quitRequested, this`checks
      ensures outcome.Failed? ==> outcome.fault == UnboundTdl || outcome.fault == UnboundEditIndex
      ensures NoCompletion(events, old(events))
      ensures cancel == Never && !old(quitRequested) ==> outcome != Cancelled
      ensures old(quitRequested) && |files| > 1 ==> outcome == Cancelled && current == old(current)
      ensures Chained(compare, files) && old(current) == files[0].lines ==>
                outcome != Failed(UnboundEditIndex) &&
                (outcome == Finished ==> current == files[|files| - 1].lines)
    {
      var tdl: Option<nat> := None;
      outcome := Finished;
      ghost var chained := Chained(compare, files) && current == files[0].lines;
      var i := 1;
      while i < |files|
        invariant 1 <= i <= |files|
        invariant outcome == Finished || outcome == Cancelled
        invariant NoCompletion(events, old(events))
        invariant cancel == Never && !old(quitRequested) ==> !quitRequested && outcome == Finished
        invariant old(quitRequested) ==> quitRequested && i == 1 && current == old(current)
        invariant chained && outcome == Finished ==> current == files[i - 1].lines
        invariant outcome == Cancelled ==> quitRequested
      {
        var stop, o;
        stop, o, tdl := NextFile(compare, cancel, i, tdl, chained && outcome == Finished);
        if o.Failed? {
          return o;
        }
        if o == Cancelled {
          outcome := Cancelled;
        }
        if stop {
          break;
        }
        i := i + 1;
      }
    }

    /**
     * One pass of the loop over files: the quit check, which ends the loop
     * (`stop`), then the file. `chained` says the buffer is the previous
     * file and every delta between consecutive files is exact.
     */
    method NextFile(compare: (seq<string>, seq<string>) -> seq<string>, cancel: Cancel, i: nat, tdl: Option<nat>,
                    ghost chained: bool)
      returns (stop: bool, outcome: Outcome, tdl': Option<nat>)
      requires Differ(compare) && 0 < i < |files|
      requires chained ==> Chained(compare, files) && current == files[i - 1].lines
      modifies this`current, this`events, this`quitRequested, this`checks
      ensures outcome.Failed? ==> outcome.fault == UnboundTdl || outcome.fault == UnboundEditIndex
      ensures NoCompletion(events, old(events))
      ensures stop ==> outcome == Cancelled && current == old(current)
      ensures cancel == Never && !old(quitRequested) ==> !quitRequested && !stop && outcome != Cancelled
      ensures old(quitRequested) ==> stop
      ensures outcome == Cancelled ==> quitRequested
      ensures chained ==> outcome != Failed(UnboundEditIndex) && (outcome == Finished ==> current == files[i].lines)
    {
      var q := PollQuit(cancel);
      if q {
        return true, Cancelled, tdl;
      }
      if chained {
        assert Reproduces(DeltaTo(compare, files, i));
      }
      stop := false;
      outcome, tdl' := ReplayFile(compare, cancel, i, tdl);
    }

    /**
     * One pass of the loop over the files of `run`: `file_changed`, the
     * replay of the delta from the buffer to the file, `file_complete`.
     */
    method ReplayFile(compare: (seq<string>, seq<string>) -> seq<string>, cancel: Cancel, i: nat, tdl: Option<nat>)
      returns (outcome: Outcome, tdl': Option<nat>)
      requires Differ(compare) && i < |files|
      modifies this`current, this`events, this`quitRequested, this`checks
      ensures outcome.Failed? ==> outcome.fault == UnboundTdl || outcome.fault == UnboundEditIndex
      ensures NoCompletion(events, old(events))
      ensures !outcome.Failed? ==> |events| > 0 && events[|events| - 1] == FileComplete(files[i].name, current)
      ensures cancel == Never && !old(quitRequested) ==> !quitRequested && outcome != Cancelled
      ensures outcome == Cancelled ==> quitRequested
      ensures Reproduces(Parsed(compare(old(current), files[i].lines))) ==>
                outcome != Failed(UnboundEditIndex) && (outcome == Finished ==> current == files[i].lines)
    {
      NoCompletionAppend(events, events, FileChanged(files[i].name));
      events := events + [FileChanged(files[i].name)];
      ghost var e0 := events;
      var target := files[i].lines;
      DifferParsed(compare, current, target);
      var delta := Parsed(compare(current, target));
      ghost var deltaOut, settledOut, clOut, dlOut, winEndOut, winDentOut, biOut;
      outcome, tdl', deltaOut, settledOut, clOut, dlOut, winEndOut, winDentOut, biOut := Transition(delta, target, tdl, cancel);
      UpdatesNoCompletion(events, e0);
      NoCompletionChain(old(events), e0, events);
      if outcome.Failed? {
        return;
      }
      NoCompletionAppend(events, old(events), FileComplete(files[i].name, current));
      events := events + [FileComplete(files[i].name, current)];
    }
  }

  /** The delta that replays file `i - 1` into file `i`. */
  ghost function DeltaTo(compare: (seq<string>, seq<string>) -> seq<string>, files: seq<File>, i: nat): seq<Row>
    requires Differ(compare) && 0 < i < |files|
  {
    Parsed(compare(files[i - 1].lines, files[i].lines))
  }

  /** Every delta between consecutive files is one this engine reproduces exactly. */
  ghost predicate Chained(compare: (seq<string>, seq<string>) -> seq<string>, files: seq<File>)
  {
    Differ(compare) &&
    forall i: nat :: 0 < i < |files| ==> Reproduces(DeltaTo(compare, files, i))
  }
}
