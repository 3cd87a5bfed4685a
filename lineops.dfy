/**
 * What the line-level primitives of the replay engines leave behind, as
 * functions of the line before and the line wanted: the indent correction
 * of `indent_line`, the per-line shift of `block_indent`, the line that
 * `insert_line` ends with, and the common-prefix/common-suffix rewrite of
 * `edit_line`. The loops that produce these values step by step are methods
 * of the engine classes; their postconditions are stated with these
 * functions.
 */
module LineOps {
  import opened Text
  import opened Wrappers

  function Min(a: int, b: int): int
  {
    if a <= b then a else b
  }

  function Max(a: int, b: int): int
  {
    if a >= b then a else b
  }

  function Abs(a: int): nat
  {
    if a < 0 then -a else a
  }

  // ---------------------------------------------------------------- indent

  /**
   * The line `indent_line` leaves: the indent of `c` is grown with spaces or
   * cut back so that it is as long as the indent of `d`; the text after the
   * indent is that of `c`.
   */
  function IndentFix(c: string, d: string): (r: string)
    ensures |r| + FirstWhitespace(c) == |c| + FirstWhitespace(d)
    ensures FirstWhitespace(c) == FirstWhitespace(d) ==> r == c
  {
    var cstart, dstart := FirstWhitespace(c), FirstWhitespace(d);
    if dstart > cstart then Spaces(dstart - cstart) + c else Drop(c, cstart - dstart)
  }

  /** The corrected line has the indent of `d` and the text of `c`. */
  lemma {:induction false} IndentFixSpec(c: string, d: string)
    ensures FirstWhitespace(IndentFix(c, d)) == FirstWhitespace(d)
    ensures LStrip(IndentFix(c, d)) == LStrip(c)
  {
    var cstart, dstart := FirstWhitespace(c), FirstWhitespace(d);
    if dstart > cstart {
      IndentBySpaces(dstart - cstart, c);
    } else {
      DedentWithinIndent(c, cstart - dstart);
    }
  }

  /** Correcting an indent that is already right changes nothing. */
  lemma {:induction false} IndentFixIdempotent(c: string, d: string)
    ensures IndentFix(IndentFix(c, d), d) == IndentFix(c, d)
  {
    IndentFixSpec(c, d);
    var r := IndentFix(c, d);
    assert Drop(r, 0) == r;
  }

  /** A line whose indent is already right is left alone. */
  lemma {:induction false} IndentFixSame(d: string)
    ensures IndentFix(d, d) == d
  {
    assert Drop(d, 0) == d;
  }

  /** What `block_indent` does to one line: dedent for a negative `dent`, indent otherwise. */
  function Shift(s: string, dent: int): string
  {
    if dent < 0 then Drop(s, -dent) else Spaces(dent) + s
  }

  /**
   * Shifting a line by the indent difference of its pair is the same as
   * correcting its indent: a block indent anticipates `indent_line`.
   */
  lemma {:induction false} IndentFixIsShift(c: string, d: string)
    ensures IndentFix(c, d) == Shift(c, FirstWhitespace(d) - FirstWhitespace(c))
  {
    ShiftCases(c, FirstWhitespace(d) - FirstWhitespace(c));
  }

  /** A shift by nothing leaves the line alone, whichever branch takes it. */
  lemma {:induction false} ShiftCases(s: string, x: int)
    ensures Shift(s, x) == if x > 0 then Spaces(x) + s else Drop(s, -x)
  {
    if x == 0 {
      assert Spaces(0) + s == s;
    }
  }

  /**
   * `indent_line` as it runs: indent by the positive part of the change,
   * then dedent by the positive part of its opposite.
   */
  lemma {:induction false} IndentFixSteps(c: string, d: string)
    ensures IndentFix(c, d)
            == Drop(Spaces(Max(FirstWhitespace(d) - FirstWhitespace(c), 0)) + c,
                    Max(FirstWhitespace(c) - FirstWhitespace(d), 0))
  {
    IndentFixIsShift(c, d);
    ShiftSteps(c, FirstWhitespace(d), FirstWhitespace(c));
  }

  /** A shift by a - b is an indent by the positive part of a - b followed by a dedent by that of b - a. */
  lemma {:induction false} ShiftSteps(s: string, a: int, b: int)
    ensures Shift(s, a - b) == Drop(Spaces(Max(a - b, 0)) + s, Max(b - a, 0))
  {
    if a >= b {
      var t := Spaces(a - b) + s;
      assert Drop(t, 0) == t;
    } else {
      assert Spaces(0) + s == s;
    }
  }

  /** The updates of an indent step and a dedent step add up to those of the whole change. */
  lemma {:induction false} ChunkSteps(x: int)
    ensures (Max(x, 0) + 3) / 4 + (Max(-x, 0) + 3) / 4 == (Abs(x) + 3) / 4
  {
    if x >= 0 {
      assert Max(-x, 0) == 0;
    } else {
      assert Max(x, 0) == 0;
    }
  }

  // ---------------------------------------------------------------- insert

  /**
   * The line that the 4-space-group `insert_line` of diffcast/diffrunner.py
   * ends with. The last value it writes is `d[:n] + '\n'` for the last n it
   * reveals, so the final character of `d` is always replaced by a newline;
   * a line made only of indent groups (`"   \n"`) ends one group short.
   */
  function RevealedLine(d: string): (r: string)
    ensures |r| > 0 && r[|r| - 1] == '\n'
    ensures r == d <==> |d| > 4 * (FirstWhitespace(d) / 4) && d[|d| - 1] == '\n'
  {
    var tabs := FirstWhitespace(d) / 4;
    if |d| > 4 * tabs then d[..|d| - 1] + "\n"
    else if tabs > 0 then d[..4 * (tabs - 1)] + "\n"
    else "\n"
  }

  /** The number of updates that `insert_line` of diffcast/diffrunner.py emits. */
  function RevealedSteps(d: string): (r: nat)
    ensures r <= |d|
    ensures FirstWhitespace(d) < 4 ==> r == |d|
  {
    var tabs := FirstWhitespace(d) / 4;
    tabs + (|d| - 4 * tabs)
  }

  /** A newline-terminated line with some text in it is reproduced exactly. */
  lemma {:induction false} RevealedTextLine(d: string)
    requires !IsBlank(d) && |d| > 0 && d[|d| - 1] == '\n'
    ensures RevealedLine(d) == d
  {
  }

  /** Three spaces and a newline form one indent group and are revealed as a bare newline. */
  lemma {:induction false} RevealedGroupOnly()
    ensures RevealedLine("   \n") == "\n"
  {
    FirstWhitespaceUnique("   \n", 4);
  }

  /**
   * The line that the character-by-character `insert_line` of diffrunner.py
   * and playdiff.py ends with: `d[:-1] + '\n'`, or a bare newline for an
   * empty `d`.
   */
  function TypedLine(d: string): (r: string)
    ensures |r| > 0 && r[|r| - 1] == '\n'
    ensures r == d <==> |d| > 0 && d[|d| - 1] == '\n'
  {
    if |d| == 0 then "\n" else d[..|d| - 1] + "\n"
  }

  // ---------------------------------------------------------------- edit

  /** The length of the longest common prefix. */
  function CommonPrefix(c: string, d: string): (r: nat)
    ensures r <= |c| && r <= |d|
    ensures forall i :: 0 <= i < r ==> c[i] == d[i]
    ensures r < |c| && r < |d| ==> c[r] != d[r]
  {
    if |c| == 0 || |d| == 0 || c[0] != d[0] then 0
    else 1 + CommonPrefix(c[1..], d[1..])
  }

  /** The length of the longest common suffix. */
  function CommonSuffix(c: string, d: string): (r: nat)
    ensures r <= |c| && r <= |d|
    ensures forall i :: |c| - r <= i < |c| ==> c[i] == d[i + (|d| - |c|)]
    ensures r < |c| && r < |d| ==> c[|c| - 1 - r] != d[|d| - 1 - r]
  {
    if |c| == 0 || |d| == 0 || c[|c| - 1] != d[|d| - 1] then 0
    else 1 + CommonSuffix(c[..|c| - 1], d[..|d| - 1])
  }

  /**
   * The `starti` of `edit_line`: the first index at which the two lines
   * differ, or the last index of the shorter line when one is a prefix of
   * the other.
   */
  function StartIndex(c: string, d: string): (r: nat)
    requires |c| > 0 && |d| > 0
    ensures r < |c| && r < |d|
    ensures forall i :: 0 <= i < r ==> c[i] == d[i]
    ensures c[r] != d[r] || r == Min(|c|, |d|) - 1
  {
    var p := CommonPrefix(c, d);
    if p < Min(|c|, |d|) then p else Min(|c|, |d|) - 1
  }

  /** The `endi` of `edit_line`: the same scan from the ends of the lines. */
  function EndIndex(c: string, d: string): (r: nat)
    requires |c| > 0 && |d| > 0
    ensures r < |c| && r < |d|
    ensures forall i :: |c| - r <= i < |c| ==> c[i] == d[i + (|d| - |c|)]
    ensures c[|c| - 1 - r] != d[|d| - 1 - r] || r == Min(|c|, |d|) - 1
  {
    var q := CommonSuffix(c, d);
    if q < Min(|c|, |d|) then q else Min(|c|, |d|) - 1
  }

  /**
   * The scan `for n, (a, b) in enumerate(zip(c, d)): starti = n; if a != b: break`.
   * None stands for `starti` never being bound, which happens when either
   * line is empty.
   */
  method ScanStart(c: string, d: string) returns (starti: Option<nat>)
    ensures starti == if |c| == 0 || |d| == 0 then None else Some(StartIndex(c, d))
  {
    starti := None;
    var m := Min(|c|, |d|);
    var n := 0;
    while n < m
      invariant 0 <= n <= m
      invariant forall i :: 0 <= i < n ==> c[i] == d[i]
      invariant starti == if n == 0 then None else Some(n - 1)
    {
      starti := Some(n);
      if c[n] != d[n] {
        break;
      }
      n := n + 1;
    }
  }

  /** The same scan over `c[::-1]` and `d[::-1]`, binding `endi`. */
  method ScanEnd(c: string, d: string) returns (endi: Option<nat>)
    ensures endi == if |c| == 0 || |d| == 0 then None else Some(EndIndex(c, d))
  {
    endi := None;
    var m := Min(|c|, |d|);
    var n := 0;
    while n < m
      invariant 0 <= n <= m
      invariant forall i :: |c| - n <= i < |c| ==> c[i] == d[i + (|d| - |c|)]
      invariant endi == if n == 0 then None else Some(n - 1)
    {
      endi := Some(n);
      if c[|c| - 1 - n] != d[|d| - 1 - n] {
        break;
      }
      n := n + 1;
    }
  }

  /** The number of characters `edit_line` retypes: `to_type_len`. */
  function ToTypeLen(c: string, d: string): int
    requires |c| > 0 && |d| > 0
  {
    |d| - (StartIndex(c, d) + EndIndex(c, d))
  }

  /** The n-th value `edit_line` writes: `c[:starti] + d[starti:starti+n] + c[-endi:]`. */
  function EditStep(c: string, d: string, n: nat): string
    requires |c| > 0 && |d| > 0
    requires n <= ToTypeLen(c, d)
  {
    var starti, endi := StartIndex(c, d), EndIndex(c, d);
    c[..starti] + d[starti..starti + n] + Tail(c, endi)
  }

  /** The n-th step spelled out with the scanned indices. */
  lemma {:induction false} EditStepAt(c: string, d: string, s: nat, e: nat, n: nat)
    requires |c| > 0 && |d| > 0
    requires s == StartIndex(c, d) && e == EndIndex(c, d) && n <= |d| - (s + e)
    ensures s + n <= |d| && EditStep(c, d, n) == c[..s] + d[s..s + n] + Tail(c, e)
  {
    assert s + n <= |d|;
  }

  /**
   * The line `edit_line` leaves: None when it raises because a line is
   * empty, the line unchanged when no step is taken, and otherwise its
   * last step.
   */
  function EditResult(c: string, d: string): (r: Option<string>)
    ensures r.None? <==> |c| == 0 || |d| == 0
  {
    if |c| == 0 || |d| == 0 then None
    else if ToTypeLen(c, d) < 0 then Some(c)
    else Some(EditStep(c, d, ToTypeLen(c, d)))
  }

  /**
   * Whatever `edit_line` leaves keeps the head of `c` before `starti` and
   * the tail `c[-endi:]`: only the middle is retyped.
   */
  lemma {:induction false} EditKeepsEnds(c: string, d: string)
    requires |c| > 0 && |d| > 0
    ensures KeepsEnds(c, EditResult(c, d).value, StartIndex(c, d), Tail(c, EndIndex(c, d)))
  {
    if ToTypeLen(c, d) >= 0 {
      EditStepEnds(c, d, ToTypeLen(c, d));
    }
  }

  /** `r` begins with the first `s` characters of `c` and ends with `t`. */
  predicate KeepsEnds(c: string, r: string, s: nat, t: string)
  {
    s <= |c| && s <= |r| && r[..s] == c[..s] && |t| <= |r| && r[|r| - |t|..] == t
  }

  /** Every step of `edit_line` keeps the matched head of `c` and its matched tail. */
  lemma {:induction false} EditStepEnds(c: string, d: string, n: nat)
    requires |c| > 0 && |d| > 0 && n <= ToTypeLen(c, d)
    ensures KeepsEnds(c, EditStep(c, d, n), StartIndex(c, d), Tail(c, EndIndex(c, d)))
  {
    var s, t := StartIndex(c, d), Tail(c, EndIndex(c, d));
    var head, mid := c[..s], d[s..s + n];
    assert EditStep(c, d, n) == head + mid + t;
    assert (head + mid + t)[..s] == head;
    assert (head + mid + t)[|head + mid + t| - |t|..] == t;
  }

  /**
   * A line retyped onto itself: two or more characters are left as they
   * are, a single character is written twice (the scans both stop at its
   * only index, so it is kept as head and as tail).
   */
  lemma {:induction false} EditSameLine(c: string)
    ensures |c| >= 2 ==> EditResult(c, c) == Some(c)
    ensures |c| == 1 ==> EditResult(c, c) == Some(c + c)
  {
    if |c| == 0 { return; }
    var s, e := StartIndex(c, c), EndIndex(c, c);
    assert s == |c| - 1 && e == |c| - 1;
    if |c| == 2 {
      assert ToTypeLen(c, c) == 0 && Tail(c, 1) == c[1..];
      assert EditStep(c, c, 0) == c[..1] + c[1..1] + Tail(c, 1) == c;
      assert EditResult(c, c) == Some(EditStep(c, c, 0));
    } else if |c| > 2 {
      assert ToTypeLen(c, c) < 0;
    } else {
      assert ToTypeLen(c, c) == 1 && c[0..1] == c && Tail(c, 0) == c;
      assert EditStep(c, c, 1) == c[..0] + c[0..1] + Tail(c, 0) == c + c;
      assert EditResult(c, c) == Some(EditStep(c, c, 1));
    }
  }

  /** The number of updates `edit_line` emits: one per step, `max(0, to_type_len + 1)`. */
  function EditSteps(c: string, d: string): (r: nat)
    requires |c| > 0 && |d| > 0
    ensures r <= |d| + 1
    ensures r == 0 <==> EditResult(c, d) == Some(c) && ToTypeLen(c, d) < 0
  {
    Max(0, ToTypeLen(c, d) + 1)
  }

  /** What `edit_line` leaves once its loop has taken all n of its steps. */
  lemma {:induction false} EditLast(c: string, d: string, n: nat)
    requires |c| > 0 && |d| > 0 && n == Max(0, ToTypeLen(c, d) + 1)
    ensures EditSteps(c, d) == n
    ensures EditResult(c, d) == Some(if n == 0 then c else EditStep(c, d, n - 1))
  {
    var t := ToTypeLen(c, d);
    if t < 0 {
      assert n == 0 && EditResult(c, d) == Some(c);
    } else {
      assert n == t + 1 && EditResult(c, d) == Some(EditStep(c, d, t));
    }
  }

  /** The three outcomes of `edit_line` on two non-empty lines. */
  lemma {:induction false} EditResultCases(c: string, d: string)
    requires |c| > 0 && |d| > 0
    ensures EndIndex(c, d) == 0 ==> EditResult(c, d) == Some(d + c)
    ensures EndIndex(c, d) >= 1 && StartIndex(c, d) + EndIndex(c, d) <= |d|
            ==> EditResult(c, d) == Some(d)
    ensures StartIndex(c, d) + EndIndex(c, d) > |d| ==> EditResult(c, d) == Some(c)
  {
    var s, e := StartIndex(c, d), EndIndex(c, d);
    if e == 0 {
      EditAppendsOld(c, d);
    } else if s + e <= |d| {
      EditReachesTarget(c, d);
    }
  }

  /** When the suffix scan stops at once (`endi == 0`), `c[-0:]` appends the whole old line. */
  lemma {:induction false} EditAppendsOld(c: string, d: string)
    requires |c| > 0 && |d| > 0 && EndIndex(c, d) == 0
    ensures EditResult(c, d) == Some(d + c)
  {
    var s := StartIndex(c, d);
    PrefixMatches(c, d, s);
    var e := EndIndex(c, d);
    assert d[|d| - e..] == [];
    assert Tail(c, e) == c == d[|d| - e..] + c;
    Splice(c, d, s, e, c);
  }

  /** With `endi >= 1` and no overlap in the target, the last step spells the target. */
  lemma {:induction false} EditReachesTarget(c: string, d: string)
    requires |c| > 0 && |d| > 0
    requires EndIndex(c, d) >= 1 && StartIndex(c, d) + EndIndex(c, d) <= |d|
    ensures EditResult(c, d) == Some(d)
  {
    var s, e := StartIndex(c, d), EndIndex(c, d);
    PrefixMatches(c, d, s);
    TailMatches(c, d, e);
    assert d[|d| - e..] + [] == d[|d| - e..];
    Splice(c, d, s, e, []);
    assert d + [] == d;
  }

  /** A common prefix of length s: the two lines agree on their first s characters. */
  lemma {:induction false} PrefixMatches(c: string, d: string, s: nat)
    requires s <= |c| && s <= |d|
    requires forall i :: 0 <= i < s ==> c[i] == d[i]
    ensures c[..s] == d[..s]
  {
  }

  /** A common suffix of length e, taken from the old line, is the target's last e characters. */
  lemma {:induction false} TailMatches(c: string, d: string, e: nat)
    requires 0 < e < |c| && e < |d|
    requires forall i :: |c| - e <= i < |c| ==> c[i] == d[i + (|d| - |c|)]
    ensures Tail(c, e) == d[|d| - e..]
  {
    var suf := Tail(c, e);
    assert suf == c[|c| - e..];
    forall i | 0 <= i < e ensures suf[i] == d[|d| - e + i] {
      assert suf[i] == c[|c| - e + i];
    }
  }

  /**
   * The kept prefix, the retyped middle and the kept suffix: when the prefix
   * is the target's and the suffix is the target's tail followed by `rest`,
   * the step spells the target followed by `rest`.
   */
  lemma {:induction false} Splice(c: string, d: string, s: nat, e: nat, rest: string)
    requires |c| > 0 && |d| > 0
    requires s == StartIndex(c, d) && e == EndIndex(c, d) && s + e <= |d|
    requires c[..s] == d[..s]
    requires Tail(c, e) == d[|d| - e..] + rest
    ensures EditResult(c, d) == Some(d + rest)
  {
    EditResultAt(c, d, s, e);
    SpliceParts(c, d, s, e, rest);
  }

  /** The last step of `edit_line` in terms of the scanned indices. */
  lemma {:induction false} EditResultAt(c: string, d: string, s: nat, e: nat)
    requires |c| > 0 && |d| > 0
    requires s == StartIndex(c, d) && e == EndIndex(c, d) && s + e <= |d|
    ensures EditResult(c, d) == Some(c[..s] + d[s..|d| - e] + Tail(c, e))
  {
    var n := ToTypeLen(c, d);
    EditStepAt(c, d, s, e, n);
  }

  /** Cutting the target in three and putting it back together again. */
  lemma {:induction false} SpliceParts(c: string, d: string, s: nat, e: nat, rest: string)
    requires s + e <= |d| && s <= |c|
    requires c[..s] == d[..s]
    requires Tail(c, e) == d[|d| - e..] + rest
    ensures c[..s] + d[s..|d| - e] + Tail(c, e) == d + rest
  {
    assert d[..s] + d[s..|d| - e] + d[|d| - e..] == d;
  }

  /**
   * `edit_line` reproduces its target exactly when the suffix scan stopped
   * before the end character and the two scans do not overlap in the
   * target, or when the line was already the target and nothing is
   * rewritten.
   */
  lemma {:induction false} EditExactIff(c: string, d: string)
    ensures EditResult(c, d) == Some(d) <==>
            |c| > 0 && |d| > 0 &&
            ((EndIndex(c, d) >= 1 && StartIndex(c, d) + EndIndex(c, d) <= |d|)
             || (StartIndex(c, d) + EndIndex(c, d) > |d| && c == d))
  {
    if |c| > 0 && |d| > 0 {
      EditResultCases(c, d);
      if EndIndex(c, d) == 0 {
        assert |d + c| > |d|;
      }
    }
  }

  /**
   * An ordinary edit is exact: both lines end in the same character, have
   * at least two characters, and their common prefix and common suffix do
   * not overlap.
   */
  lemma {:induction false} EditExactWithoutOverlap(c: string, d: string)
    requires |c| >= 2 && |d| >= 2 && c[|c| - 1] == d[|d| - 1]
    requires CommonPrefix(c, d) + CommonSuffix(c, d) <= Min(|c|, |d|)
    ensures EditResult(c, d) == Some(d)
  {
    EditResultCases(c, d);
  }

  /** Deleting one of a run of equal characters leaves the line as it was. */
  lemma {:induction false} EditOverlapExample()
    ensures EditResult("aaa\n", "aa\n") == Some("aaa\n")
  {
    assert StartIndex("aaa\n", "aa\n") == 2;
    assert EndIndex("aaa\n", "aa\n") == 2;
    EditResultCases("aaa\n", "aa\n");
  }

  /** Rewriting a bare newline into itself doubles it, because `c[-0:]` is all of `c`. */
  lemma {:induction false} EditNewlineExample()
    ensures EditResult("\n", "\n") == Some("\n\n")
  {
    var c := "\n";
    assert StartIndex(c, c) == 0;
    assert EndIndex(c, c) == 0;
    assert ToTypeLen(c, c) == 1;
    assert Tail(c, 0) == c;
    assert EditStep(c, c, 1) == [] + c[0..1] + c;
    assert c[0..1] == c;
    assert EditResult(c, c) == Some(EditStep(c, c, 1));
    assert c + c == "\n\n";
    EditResultCases("\n", "\n");
  }

  /** `pass` becomes `return 1`: only the middle between the indent and the newline is retyped. */
  lemma {:induction false} EditPassExample()
    ensures StartIndex("    pass\n", "    return 1\n") == 4
    ensures EndIndex("    pass\n", "    return 1\n") == 1
    ensures EditResult("    pass\n", "    return 1\n") == Some("    return 1\n")
    ensures EditSteps("    pass\n", "    return 1\n") == 9
  {
    var c, d := "    pass\n", "    return 1\n";
    assert c[4] != d[4];
    assert c[|c| - 2] != d[|d| - 2];
    EditResultCases(c, d);
  }
}
