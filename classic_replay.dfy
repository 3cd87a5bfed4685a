/**
 * The row loop of the two older engines, diffrunner.py and playdiff.py.
 * Both type an added line character by character, replace a remove/add
 * pair by an indent fix followed by an edit (with no skip for a line that
 * already reads right), and loop `while cl < len(current) - 1`: the loop
 * ends when the buffer cursor reaches the last line, whatever rows are left.
 * This module states what the buffer is at every turn of that loop and
 * proves it step by step; the engines' methods call these lemmas.
 */
module ClassicReplay {
  import opened Text
  import opened Wrappers
  import opened LineOps
  import opened Delta

  // ---------------------------------------------------------------- when a replay is exact

  /**
   * What the pair branch leaves in the buffer line `c` for the added line
   * `d`: `edit_line` after `indent_line`; None when `edit_line` raises.
   */
  function TypedPairResult(c: string, d: string): (r: Option<string>)
    ensures r.None? <==> |IndentFix(c, d)| == 0 || |d| == 0
    ensures c == d && |c| >= 2 ==> r == Some(c)
    ensures c == d && |c| == 1 ==> r == Some(c + c)
  {
    IndentFixSame(c);
    EditSameLine(c);
    EditResult(IndentFix(c, d), d)
  }

  /**
   * Every added line typed on its own comes out as written, and every
   * remove/add pair is reproduced.
   */
  predicate TypedReproduces(rows: seq<Row>)
  {
    forall k :: 0 <= k < |rows| ==> TypedReproducedAt(rows, k)
  }

  predicate TypedReproducedAt(rows: seq<Row>, k: nat)
    requires k < |rows|
  {
    (rows[k].Ins? && (k == 0 || !rows[k - 1].Del?) ==> TypedLine(rows[k].text) == rows[k].text) &&
    (rows[k].Del? && k + 1 < |rows| && rows[k + 1].Ins? ==>
       TypedPairResult(rows[k].text, rows[k + 1].text) == Some(rows[k + 1].text))
  }

  /** A delta of newline-terminated lines with no remove/add pairs is reproduced. */
  lemma {:induction false} TypedReproducesWithoutPairs(rows: seq<Row>)
    requires forall k :: 0 <= k < |rows| && rows[k].Ins? ==> |rows[k].text| > 0 && rows[k].text[|rows[k].text| - 1] == '\n'
    requires forall k :: 0 <= k < |rows| - 1 && rows[k].Del? ==> !rows[k + 1].Ins?
    ensures TypedReproduces(rows)
  {
    forall k | 0 <= k < |rows| ensures TypedReproducedAt(rows, k) {
      if rows[k].Ins? {
        assert TypedLine(rows[k].text) == rows[k].text;
      }
    }
  }

  /** Settling an added line that follows another added line keeps the delta exact. */
  lemma {:induction false} TypedReproducesSettle(rows: seq<Row>, t: nat, line: string)
    requires TypedReproduces(rows)
    requires 0 < t < |rows| && rows[t].Ins? && rows[t - 1].Ins?
    ensures TypedReproduces(rows[t := Equal(line)])
  {
    var s := rows[t := Equal(line)];
    forall k | 0 <= k < |s| ensures TypedReproducedAt(s, k) {
      if k != t {
        assert TypedReproducedAt(rows, k);
        assert s[k] == rows[k];
        if k > 0 && k - 1 != t { assert s[k - 1] == rows[k - 1]; }
        if k + 1 < |s| && k + 1 != t { assert s[k + 1] == rows[k + 1]; }
      }
    }
  }

  // ---------------------------------------------------------------- the loop invariant

  /**
   * The buffer is in step with the delta at rows `dl` and buffer line `cl`.
   * `settled` is the delta with each marker replaced by the kept line it
   * stands for (the line typed ahead); from `cl` on, the buffer is what the
   * settled rows from `dl` on read, and a removed row never leaves an
   * added row behind it unpaired. When the delta is exact, the buffer up
   * to `cl` is the new text of the rows before `dl`.
   */
  predicate InStep(current: seq<string>, delta: seq<Row>, settled: seq<Row>, cl: nat, dl: nat,
                   exact: bool, target: seq<string>)
  {
    Corresponds(delta, settled) && NoMarkers(settled) && dl <= |delta| &&
    cl <= |current| && current[cl..] == Source(settled[dl..]) &&
    (0 < dl < |settled| && settled[dl - 1].Del? ==> !settled[dl].Ins?) &&
    (exact ==> TypedReproduces(settled) && Target(settled) == target && current[..cl] == Target(settled[..dl]))
  }

  lemma {:induction false} StepStart(current: seq<string>, delta: seq<Row>, target: seq<string>)
    requires WellFormed(delta, current, target)
    ensures InStep(current, delta, delta, 0, 0, TypedReproduces(delta), target)
  {
    assert delta[0..] == delta;
    assert delta[..0] == [];
  }

  /** While the loop runs (`cl` on a line of the buffer) there is a row to read: `delta[dl]` is in range. */
  lemma {:induction false} StepRowExists(current: seq<string>, delta: seq<Row>, settled: seq<Row>, cl: nat, dl: nat,
                      exact: bool, target: seq<string>)
    requires InStep(current, delta, settled, cl, dl, exact, target)
    requires cl < |current|
    ensures dl < |delta|
  {
  }

  /** A kept row, or a marker, is stepped over: the buffer line at `cl` is its line. */
  lemma {:induction false} StepKept(current: seq<string>, delta: seq<Row>, settled: seq<Row>, cl: nat, dl: nat,
                 exact: bool, target: seq<string>)
    requires InStep(current, delta, settled, cl, dl, exact, target)
    requires dl < |delta| && (delta[dl].Equal? || delta[dl].Marker?)
    ensures InStep(current, delta, settled, cl + 1, dl + 1, exact, target)
  {
    assert settled[dl].Equal?;
    SourceFrom(settled, dl);
    SuffixHead(current, cl, settled[dl].text, Source(settled[dl + 1..]));
    if exact {
      TargetUpTo(settled, dl);
      assert current[..cl + 1] == current[..cl] + [current[cl]];
    }
  }

  /**
   * A remove/add pair: the buffer line at `cl` is the removed line, and in
   * an exact delta the pair branch turns it into the added line.
   */
  lemma {:induction false} StepPairHead(current: seq<string>, delta: seq<Row>, settled: seq<Row>, cl: nat, dl: nat,
                     exact: bool, target: seq<string>)
    requires InStep(current, delta, settled, cl, dl, exact, target)
    requires dl + 1 < |delta| && delta[dl].Del? && delta[dl + 1].Ins?
    ensures cl < |current| && current[cl] == delta[dl].text
    ensures exact ==> TypedPairResult(current[cl], delta[dl + 1].text) == Some(delta[dl + 1].text)
  {
    assert settled[dl] == delta[dl] && settled[dl + 1] == delta[dl + 1];
    SourceFrom(settled, dl);
    SuffixHead(current, cl, settled[dl].text, Source(settled[dl + 1..]));
    if exact {
      assert TypedReproducedAt(settled, dl);
    }
  }

  /** After a pair, whatever the line at `cl` became, the rest of the buffer is still in step. */
  lemma {:induction false} StepPair(before: seq<string>, current: seq<string>, delta: seq<Row>, settled: seq<Row>, cl: nat, dl: nat,
                 exact: bool, target: seq<string>, v: string)
    requires InStep(before, delta, settled, cl, dl, exact, target)
    requires dl + 1 < |delta| && delta[dl].Del? && delta[dl + 1].Ins?
    requires cl < |before| && current == before[cl := v]
    requires exact ==> v == delta[dl + 1].text
    ensures InStep(current, delta, settled, cl + 1, dl + 2, exact, target)
  {
    assert settled[dl] == delta[dl] && settled[dl + 1] == delta[dl + 1];
    SourceFrom(settled, dl);
    SourceFrom(settled, dl + 1);
    SuffixHead(before, cl, settled[dl].text, Source(settled[dl + 2..]));
    SuffixAfterUpdate(before, cl, v);
    if exact {
      PairTarget(before, current, settled, cl, dl, v);
    }
  }

  /** A removed row that is not half of a pair: the buffer line at `cl` is its line, and it goes. */
  lemma {:induction false} StepDelete(before: seq<string>, current: seq<string>, delta: seq<Row>, settled: seq<Row>, cl: nat, dl: nat,
                   exact: bool, target: seq<string>)
    requires InStep(before, delta, settled, cl, dl, exact, target)
    requires dl < |delta| && delta[dl].Del? && !(dl < |delta| - 1 && delta[dl + 1].Ins?)
    ensures cl < |before|
    ensures current == before[..cl] + before[cl + 1..] ==> InStep(current, delta, settled, cl, dl + 1, exact, target)
  {
    assert dl + 1 < |delta| ==> delta[dl + 1] == settled[dl + 1] || delta[dl + 1].Marker?;
    assert settled[dl] == delta[dl];
    SourceFrom(settled, dl);
    SuffixHead(before, cl, settled[dl].text, Source(settled[dl + 1..]));
    if current == before[..cl] + before[cl + 1..] {
      assert current[cl..] == before[cl + 1..];
      if exact {
        TargetUpTo(settled, dl);
        assert current[..cl] == before[..cl];
      }
    }
  }

  /** An added line typed at `cl` is not consumed by the rest of the delta. */
  lemma {:induction false} StepInsert(before: seq<string>, current: seq<string>, delta: seq<Row>, settled: seq<Row>, cl: nat, dl: nat,
                   exact: bool, target: seq<string>)
    requires InStep(before, delta, settled, cl, dl, exact, target)
    requires dl < |delta| && delta[dl].Ins?
    requires current == before[..cl] + [TypedLine(delta[dl].text)] + before[cl..]
    ensures InStep(current, delta, settled, cl + 1, dl + 1, exact, target)
  {
    assert settled[dl] == delta[dl];
    SourceFrom(settled, dl);
    assert current[cl + 1..] == before[cl..];
    if exact {
      assert TypedReproducedAt(settled, dl);
      TargetUpTo(settled, dl);
      assert current[..cl + 1] == before[..cl] + [TypedLine(delta[dl].text)];
    }
  }

  /**
   * The look-ahead of diffrunner.py typed the blank added line at `t` at
   * `cl`, ahead of the added lines before it, and put a marker on its row:
   * the settled delta now keeps that line.
   */
  lemma {:induction false} StepPromote(before: seq<string>, current: seq<string>, delta: seq<Row>, settled: seq<Row>, cl: nat, dl: nat,
                    exact: bool, target: seq<string>, t: nat)
    requires InStep(before, delta, settled, cl, dl, exact, target)
    requires dl < t < |delta| && delta[dl].Ins? && delta[t].Ins? && IsBlank(delta[t].text)
    requires forall k :: dl < k < t ==> delta[k].Ins?
    requires current == before[..cl] + [TypedLine(delta[t].text)] + before[cl..]
    ensures InStep(current, delta[t := Marker], settled[t := Equal(TypedLine(delta[t].text))], cl, dl, exact, target)
  {
    var line := TypedLine(delta[t].text);
    var s := settled[t := Equal(line)];
    assert settled[dl] == delta[dl] && settled[t] == delta[t];
    forall i | dl <= i <= t ensures settled[i].Ins? {
      assert delta[i].Ins?;
    }
    SettleInsert(settled, dl, t, line);
    assert current[cl..] == [line] + before[cl..];
    assert s[dl] == settled[dl];
    if exact {
      PromoteExact(before, current, settled, cl, dl, t, target);
    }
  }

  lemma {:induction false} PromoteExact(before: seq<string>, current: seq<string>, settled: seq<Row>, cl: nat, dl: nat, t: nat,
                     target: seq<string>)
    requires dl < t < |settled| && settled[t].Ins? && settled[t - 1].Ins? && cl <= |before|
    requires TypedReproduces(settled) && Target(settled) == target && before[..cl] == Target(settled[..dl])
    requires current == before[..cl] + [TypedLine(settled[t].text)] + before[cl..]
    ensures var s := settled[t := Equal(TypedLine(settled[t].text))];
            TypedReproduces(s) && Target(s) == target && current[..cl] == Target(s[..dl])
  {
    var line := TypedLine(settled[t].text);
    assert TypedReproducedAt(settled, t);
    assert line == settled[t].text;
    TypedReproducesSettle(settled, t, line);
    SettleInsertTarget(settled, t);
    assert current[..cl] == before[..cl];
    assert settled[t := Equal(line)][..dl] == settled[..dl];
  }

  /**
   * The look-ahead of diffrunner.py never reads past the delta: while the
   * loop runs, a run of added rows from `dl` is followed by another row.
   */
  lemma {:induction false} StepRoom(current: seq<string>, delta: seq<Row>, settled: seq<Row>, cl: nat, dl: nat,
                 exact: bool, target: seq<string>, tdl: nat)
    requires InStep(current, delta, settled, cl, dl, exact, target)
    requires cl < |current| && dl <= tdl < |delta|
    requires forall k :: dl <= k <= tdl ==> delta[k].Ins?
    ensures tdl + 1 < |delta|
  {
    if tdl + 1 == |delta| {
      forall k | 0 <= k < |settled[dl..]| ensures settled[dl..][k].Ins? {
        assert settled[dl + k] == delta[dl + k];
      }
      SourceOfInserts(settled[dl..]);
    }
  }

  /**
   * Where the loop stops (`cl >= len(current) - 1`) the buffer is the new
   * text of the rows replayed so far followed by at most one old line: in
   * an exact delta, all but the last line of the buffer is a prefix of the
   * target. The rows left over, which may change that last line or add
   * lines after it, are never replayed.
   */
  lemma {:induction false} StepStop(current: seq<string>, delta: seq<Row>, settled: seq<Row>, cl: nat, dl: nat,
                 exact: bool, target: seq<string>)
    requires InStep(current, delta, settled, cl, dl, exact, target)
    requires |current| <= cl + 1
    ensures exact ==> |current| == 0 || current[..|current| - 1] <= target
  {
    if exact && |current| > 0 {
      assert settled == settled[..dl] + settled[dl..];
      TargetAppend(settled[..dl], settled[dl..]);
      assert current[..|current| - 1] <= current[..cl];
    }
  }

  /** A delta whose rows are all replayed leaves exactly the target. */
  lemma {:induction false} StepFinish(current: seq<string>, delta: seq<Row>, settled: seq<Row>, cl: nat,
                   exact: bool, target: seq<string>)
    requires InStep(current, delta, settled, cl, |delta|, exact, target)
    ensures exact ==> current == target
  {
    assert settled[|delta|..] == [];
    TargetWhole(settled);
  }
}
