/**
 * The line delta the engines replay. `difflib.Differ().compare(a, b)` yields
 * rows of the form "  x" (line kept), "- x" (line of `a` removed), "+ x"
 * (line of `b` added) and "? ..." (an intraline hint, stripped before the
 * replay). A parsed row is a `Row`; `Marker` is the `(' ', None, '')` tuple an
 * engine writes over a row it has already applied.
 */
module Delta {
  import opened Text
  import opened LineOps

  const NoChange: char := ' '
  const Insertion: char := '+'
  const Deletion: char := '-'
  const Comment: char := '?'

  datatype Row = Equal(text: string) | Ins(text: string) | Del(text: string) | Marker

  // ---------------------------------------------------------------- raw rows

  /** A row as `Differ` writes it: a code, a space, the line. */
  predicate RawRow(dc: string)
  {
    |dc| >= 2 && dc[1] == ' ' && dc[0] in {NoChange, Insertion, Deletion, Comment}
  }

  function FormatRow(code: char, line: string): string
  {
    [code, ' '] + line
  }

  /** `parse_delta(dc) == (dc[0], dc[2:])`. */
  function ParseDelta(dc: string): (r: (char, string))
    requires |dc| > 0
    ensures |dc| >= 2 ==> dc == [r.0, dc[1]] + r.1
    ensures |dc| < 2 ==> r == (dc[0], "")
  {
    (dc[0], if |dc| >= 2 then dc[2..] else "")
  }

  /** Parsing a formatted row gives back its code and line. */
  lemma {:induction false} ParseFormat(code: char, line: string)
    ensures ParseDelta(FormatRow(code, line)) == (code, line)
  {
    assert FormatRow(code, line)[2..] == line;
  }

  /** Formatting a parsed row gives back the row. */
  lemma {:induction false} FormatParse(dc: string)
    requires RawRow(dc)
    ensures FormatRow(ParseDelta(dc).0, ParseDelta(dc).1) == dc
  {
    assert dc == [dc[0], dc[1]] + dc[2..];
  }

  /** `[d for d in delta if d[0] != DIFF_COMMENT]`. */
  function StripHints(raw: seq<string>): (r: seq<string>)
    requires forall i :: 0 <= i < |raw| ==> |raw[i]| > 0
    ensures |r| <= |raw|
    ensures forall i :: 0 <= i < |r| ==> |r[i]| > 0 && r[i][0] != Comment
    ensures (forall i :: 0 <= i < |raw| ==> RawRow(raw[i])) ==>
            forall i :: 0 <= i < |r| ==> RawRow(r[i])
  {
    if |raw| == 0 then []
    else if raw[0][0] == Comment then StripHints(raw[1..])
    else [raw[0]] + StripHints(raw[1..])
  }

  /** A delta without hints is left as it is. */
  lemma {:induction false} StripHintsWithoutHints(raw: seq<string>)
    requires forall i :: 0 <= i < |raw| ==> |raw[i]| > 0 && raw[i][0] != Comment
    ensures StripHints(raw) == raw
  {
    if |raw| > 0 {
      StripHintsWithoutHints(raw[1..]);
    }
  }

  /** Stripping twice is stripping once. */
  lemma {:induction false} StripHintsIdempotent(raw: seq<string>)
    requires forall i :: 0 <= i < |raw| ==> |raw[i]| > 0
    ensures StripHints(StripHints(raw)) == StripHints(raw)
  {
    StripHintsWithoutHints(StripHints(raw));
  }

  /** Stripping works row by row, so it distributes over concatenation. */
  lemma {:induction false} StripHintsAppend(a: seq<string>, b: seq<string>)
    requires forall i :: 0 <= i < |a| ==> |a[i]| > 0
    requires forall i :: 0 <= i < |b| ==> |b[i]| > 0
    ensures StripHints(a + b) == StripHints(a) + StripHints(b)
  {
    if |a| == 0 {
      assert a + b == b;
    } else {
      assert (a + b)[0] == a[0];
      assert (a + b)[1..] == a[1..] + b;
      StripHintsAppend(a[1..], b);
    }
  }

  /** The first character of a row, as the replay loops dispatch on it. */
  function DecodeRow(dc: string): Row
    requires RawRow(dc) && dc[0] != Comment
  {
    var (code, line) := ParseDelta(dc);
    if code == NoChange then Equal(line)
    else if code == Insertion then Ins(line)
    else Del(line)
  }

  function Decode(raw: seq<string>): (r: seq<Row>)
    requires forall i :: 0 <= i < |raw| ==> RawRow(raw[i]) && raw[i][0] != Comment
    ensures |r| == |raw|
    ensures forall i :: 0 <= i < |r| ==> r[i] == DecodeRow(raw[i])
  {
    seq(|raw|, i requires 0 <= i < |raw| => DecodeRow(raw[i]))
  }

  function EncodeRow(row: Row): string
    requires !row.Marker?
  {
    match row
    case Equal(line) => FormatRow(NoChange, line)
    case Ins(line) => FormatRow(Insertion, line)
    case Del(line) => FormatRow(Deletion, line)
  }

  predicate NoMarkers(rows: seq<Row>)
  {
    forall i :: 0 <= i < |rows| ==> !rows[i].Marker?
  }

  function Encode(rows: seq<Row>): (r: seq<string>)
    requires NoMarkers(rows)
    ensures |r| == |rows|
    ensures forall i :: 0 <= i < |r| ==> r[i] == EncodeRow(rows[i])
  {
    seq(|rows|, i requires 0 <= i < |rows| => EncodeRow(rows[i]))
  }

  /** Decoding an encoded delta gives back the rows. */
  lemma {:induction false} DecodeEncode(rows: seq<Row>)
    requires NoMarkers(rows)
    ensures forall i :: 0 <= i < |rows| ==> RawRow(Encode(rows)[i]) && Encode(rows)[i][0] != Comment
    ensures Decode(Encode(rows)) == rows
  {
    forall i | 0 <= i < |rows|
      ensures RawRow(Encode(rows)[i]) && Encode(rows)[i][0] != Comment
      ensures DecodeRow(Encode(rows)[i]) == rows[i]
    {
      var code := if rows[i].Equal? then NoChange else if rows[i].Ins? then Insertion else Deletion;
      assert Encode(rows)[i] == FormatRow(code, rows[i].text);
      ParseFormat(code, rows[i].text);
    }
  }

  /** Encoding a decoded delta gives back the raw rows. */
  lemma {:induction false} EncodeDecode(raw: seq<string>)
    requires forall i :: 0 <= i < |raw| ==> RawRow(raw[i]) && raw[i][0] != Comment
    ensures NoMarkers(Decode(raw))
    ensures Encode(Decode(raw)) == raw
  {
    forall i | 0 <= i < |raw|
      ensures EncodeRow(Decode(raw)[i]) == raw[i]
    {
      FormatParse(raw[i]);
    }
  }

  // ---------------------------------------------------------------- what rows mean

  /** The line a row consumes from the old text. */
  function SourceRow(row: Row): seq<string>
  {
    if row.Equal? || row.Del? then [row.text] else []
  }

  /** The line a row contributes to the new text. */
  function TargetRow(row: Row): seq<string>
  {
    if row.Equal? || row.Ins? then [row.text] else []
  }

  /** The old text a delta is read from: its kept and removed lines. */
  function Source(rows: seq<Row>): seq<string>
  {
    if |rows| == 0 then [] else SourceRow(rows[0]) + Source(rows[1..])
  }

  /** The new text a delta describes: its kept and added lines. */
  function Target(rows: seq<Row>): seq<string>
  {
    if |rows| == 0 then [] else TargetRow(rows[0]) + Target(rows[1..])
  }

  lemma {:induction false} SourceAppend(a: seq<Row>, b: seq<Row>)
    ensures Source(a + b) == Source(a) + Source(b)
  {
    if |a| == 0 {
      assert a + b == b;
    } else {
      assert (a + b)[0] == a[0];
      assert (a + b)[1..] == a[1..] + b;
      SourceAppend(a[1..], b);
      AppendAssoc(SourceRow(a[0]), Source(a[1..]), Source(b));
    }
  }

  lemma {:induction false} TargetAppend(a: seq<Row>, b: seq<Row>)
    ensures Target(a + b) == Target(a) + Target(b)
  {
    if |a| == 0 {
      assert a + b == b;
    } else {
      assert (a + b)[0] == a[0];
      assert (a + b)[1..] == a[1..] + b;
      TargetAppend(a[1..], b);
      AppendAssoc(TargetRow(a[0]), Target(a[1..]), Target(b));
    }
  }

  /** Unfolding `Source` at an index. */
  lemma {:induction false} SourceFrom(rows: seq<Row>, k: nat)
    requires k < |rows|
    ensures Source(rows[k..]) == SourceRow(rows[k]) + Source(rows[k + 1..])
  {
    assert rows[k..][1..] == rows[k + 1..];
  }

  /** Extending a prefix by one row extends its target by that row's line. */
  lemma {:induction false} TargetUpTo(rows: seq<Row>, k: nat)
    requires k < |rows|
    ensures Target(rows[..k + 1]) == Target(rows[..k]) + TargetRow(rows[k])
  {
    assert rows[..k + 1] == rows[..k] + [rows[k]];
    TargetAppend(rows[..k], [rows[k]]);
  }

  /** A pair edited into its added line extends the reproduced prefix by that line. */
  lemma {:induction false} PairTarget(before: seq<string>, current: seq<string>, settled: seq<Row>, cl: nat, dl: nat, v: string)
    requires dl + 1 < |settled| && settled[dl].Del? && settled[dl + 1].Ins? && v == settled[dl + 1].text
    requires cl < |before| && current == before[cl := v] && before[..cl] == Target(settled[..dl])
    ensures current[..cl + 1] == Target(settled[..dl + 2])
  {
    TargetUpTo(settled, dl);
    TargetUpTo(settled, dl + 1);
    assert current[..cl + 1] == before[..cl] + [v];
  }

  lemma {:induction false} TargetWhole(rows: seq<Row>)
    ensures Target(rows[..|rows|]) == Target(rows)
  {
    assert rows[..|rows|] == rows;
  }

  /** Rows that add lines consume none. */
  lemma {:induction false} SourceOfInserts(rows: seq<Row>)
    requires forall i :: 0 <= i < |rows| ==> rows[i].Ins?
    ensures Source(rows) == []
  {
    if |rows| > 0 {
      SourceOfInserts(rows[1..]);
    }
  }

  /** Rows that only keep lines consume what they produce. */
  lemma {:induction false} SourceOfKept(rows: seq<Row>)
    requires forall i :: 0 <= i < |rows| ==> rows[i].Equal?
    ensures Source(rows) == Target(rows)
  {
    if |rows| > 0 {
      SourceOfKept(rows[1..]);
    }
  }

  /** Replacing an added line at index k by a kept copy of it: the delta then consumes that line too. */
  lemma {:induction false} SettleInsert(rows: seq<Row>, from: nat, k: nat, line: string)
    requires from <= k < |rows|
    requires forall i :: from <= i <= k ==> rows[i].Ins?
    ensures Source(rows[k := Equal(line)][from..]) == [line] + Source(rows[from..])
    ensures rows[..from] == rows[k := Equal(line)][..from]
  {
    var a, b := rows[from..k], rows[k + 1..];
    UpdateSplit(rows, from, k, Equal(line));
    SourceOfInserts(a);
    SourceSplice(a, rows[k], b);
    SourceSplice(a, Equal(line), b);
  }

  /** The old lines a delta reads split around any one row. */
  lemma {:induction false} SourceSplice(a: seq<Row>, r: Row, b: seq<Row>)
    ensures Source(a + [r] + b) == Source(a) + SourceRow(r) + Source(b)
  {
    SourceAppend(a + [r], b);
    SourceAppend(a, [r]);
    assert Source([r]) == SourceRow(r) + Source([]);
  }

  /** Keeping a copy of an added line in its place leaves the new text unchanged. */
  lemma {:induction false} SettleInsertTarget(rows: seq<Row>, k: nat)
    requires k < |rows| && rows[k].Ins?
    ensures Target(rows[k := Equal(rows[k].text)]) == Target(rows)
  {
    var s := rows[k := Equal(rows[k].text)];
    assert rows == rows[..k] + [rows[k]] + rows[k + 1..];
    assert s == rows[..k] + [Equal(rows[k].text)] + rows[k + 1..];
    TargetAppend(rows[..k] + [rows[k]], rows[k + 1..]);
    TargetAppend(rows[..k], [rows[k]]);
    TargetAppend(rows[..k] + [Equal(rows[k].text)], rows[k + 1..]);
    TargetAppend(rows[..k], [Equal(rows[k].text)]);
  }

  /** A suffix that starts with `h` puts `h` at its first index. */
  lemma {:induction false} SuffixHead(a: seq<string>, i: nat, h: string, t: seq<string>)
    requires i <= |a| && a[i..] == [h] + t
    ensures i < |a| && a[i] == h && a[i + 1..] == t
  {
    assert a[i..][0] == h;
    assert a[i + 1..] == a[i..][1..];
  }

  /** Overwriting index i leaves the suffix after it alone. */
  lemma {:induction false} SuffixAfterUpdate(a: seq<string>, i: nat, v: string)
    requires i < |a|
    ensures a[i := v][i + 1..] == a[i + 1..]
  {
  }

  /** Overwriting a line that was inserted at `line`. */
  lemma {:induction false} ReplaceInserted(before: seq<string>, line: nat, a: string, b: string)
    requires line <= |before|
    ensures (before[..line] + [a] + before[line..])[line := b] == before[..line] + [b] + before[line..]
  {
  }

  /**
   * No line is empty: what `readlines` returns, where every line holds at
   * least its newline and only the last one may lack it.
   */
  predicate NonEmptyLines(lines: seq<string>)
  {
    forall j :: 0 <= j < |lines| ==> |lines[j]| > 0
  }

  /** The added rows of a delta are lines of its new text, so none is empty when no target line is. */
  lemma {:induction false} InsertsFromTarget(rows: seq<Row>)
    requires NonEmptyLines(Target(rows))
    ensures forall k :: 0 <= k < |rows| && rows[k].Ins? ==> |rows[k].text| > 0
  {
    if |rows| > 0 {
      var h := TargetRow(rows[0]);
      assert Target(rows) == h + Target(rows[1..]);
      forall j | 0 <= j < |Target(rows[1..])| ensures |Target(rows[1..])[j]| > 0 {
        assert Target(rows[1..])[j] == Target(rows)[j + |h|];
      }
      InsertsFromTarget(rows[1..]);
      forall k | 0 < k < |rows| && rows[k].Ins? ensures |rows[k].text| > 0 {
        assert rows[k] == rows[1..][k - 1];
      }
      if rows[0].Ins? {
        assert Target(rows)[0] == rows[0].text;
      }
    }
  }

  /** Every row of the live delta is the settled row, or a marker over a settled kept line. */
  predicate Corresponds(delta: seq<Row>, settled: seq<Row>)
  {
    |delta| == |settled| &&
    forall k {:trigger delta[k], settled[k]} :: 0 <= k < |delta| ==> delta[k] == settled[k] || (delta[k].Marker? && settled[k].Equal?)
  }

  /** Over rows that hold no marker, a delta and what it settles into agree. */
  lemma {:induction false} CorrespondsWindow(delta: seq<Row>, settled: seq<Row>, from: nat, to: nat)
    requires Corresponds(delta, settled) && from <= to <= |delta|
    requires forall i :: from <= i < to ==> !delta[i].Marker?
    ensures delta[from..to] == settled[from..to]
  {
    forall k | 0 <= k < to - from ensures delta[from..to][k] == settled[from..to][k] {
      assert delta[from + k] == settled[from + k];
    }
  }

  /** A window of uniform pairs in a delta is the same window in what it settles into. */
  lemma {:induction false} CorrespondsPairs(delta: seq<Row>, settled: seq<Row>, from: nat, n: nat, dent: int)
    requires Corresponds(delta, settled) && from + 2 * n <= |delta|
    requires UniformPairs(delta[from..from + 2 * n], dent)
    ensures settled[from..from + 2 * n] == delta[from..from + 2 * n]
    ensures UniformPairs(settled[from..from + 2 * n], dent)
  {
    var w := delta[from..from + 2 * n];
    UniformPairsSource(w, dent);
    forall i | from <= i < from + 2 * n ensures !delta[i].Marker? {
      assert delta[i] == w[i - from];
    }
    CorrespondsWindow(delta, settled, from, from + 2 * n);
  }

  /** What a well-formed delta from `a` to `b` is: it reads `a` and spells `b`. */
  predicate WellFormed(rows: seq<Row>, a: seq<string>, b: seq<string>)
  {
    NoMarkers(rows) && Source(rows) == a && Target(rows) == b
  }

  /**
   * What the replay assumes of `Differ.compare`: every row is well formed,
   * and once the hints are stripped the rows read `a` and spell `b`.
   */
  predicate DifferOutput(raw: seq<string>, a: seq<string>, b: seq<string>)
  {
    (forall i :: 0 <= i < |raw| ==> RawRow(raw[i])) &&
    WellFormed(Decode(StripHints(raw)), a, b)
  }

  /** The replayable delta of a `Differ` output. */
  function Parsed(raw: seq<string>): seq<Row>
    requires forall i :: 0 <= i < |raw| ==> RawRow(raw[i])
  {
    assert forall i :: 0 <= i < |raw| ==> |raw[i]| > 0 by {
      forall i | 0 <= i < |raw| ensures |raw[i]| > 0 {
        assert RawRow(raw[i]);
      }
    }
    Decode(StripHints(raw))
  }

  /** An unchanged text: every row keeps its line. */
  predicate AllKept(rows: seq<Row>)
  {
    forall i :: 0 <= i < |rows| ==> rows[i].Equal?
  }

  // ---------------------------------------------------------------- block windows

  /** The indent change from a removed line to the line replacing it. */
  function Dent(s: string, d: string): int
  {
    FirstWhitespace(d) - FirstWhitespace(s)
  }

  /** Rows at k, k+1 replace one line by another with the indent change `dent`. */
  predicate PairAt(rows: seq<Row>, k: int, dent: int)
  {
    0 <= k && k + 1 < |rows| && rows[k].Del? && rows[k + 1].Ins? &&
    Dent(rows[k].text, rows[k + 1].text) == dent
  }

  /** A run of remove/add pairs that all change the indent by `dent`. */
  predicate UniformPairs(w: seq<Row>, dent: int)
    decreases |w|
  {
    |w| == 0 || (PairAt(w, 0, dent) && UniformPairs(w[2..], dent))
  }

  /** `block_indent` applied to a list of lines. */
  function ShiftAll(lines: seq<string>, dent: int): (r: seq<string>)
    ensures |r| == |lines|
  {
    if |lines| == 0 then [] else [Shift(lines[0], dent)] + ShiftAll(lines[1..], dent)
  }

  /** Line i of a shifted list is line i, shifted. */
  lemma {:induction false} ShiftAllAt(lines: seq<string>, dent: int, i: nat)
    requires i < |lines|
    ensures ShiftAll(lines, dent)[i] == Shift(lines[i], dent)
  {
    if i > 0 {
      ShiftAllAt(lines[1..], dent, i - 1);
    }
  }

  /** One more matching pair extends a uniform run. */
  lemma {:induction false} UniformPairsExtend(w: seq<Row>, dent: int, a: Row, b: Row)
    requires UniformPairs(w, dent)
    requires a.Del? && b.Ins? && Dent(a.text, b.text) == dent
    ensures UniformPairs(w + [a, b], dent)
    decreases |w|
  {
    if |w| == 0 {
      assert (w + [a, b])[2..] == [];
    } else {
      assert (w + [a, b])[2..] == w[2..] + [a, b];
      UniformPairsExtend(w[2..], dent, a, b);
    }
  }

  /** A uniform run has even length, consumes one line per pair and holds no marker. */
  lemma {:induction false} UniformPairsSource(w: seq<Row>, dent: int)
    requires UniformPairs(w, dent)
    ensures |w| % 2 == 0 && |Source(w)| * 2 == |w|
    ensures forall i :: 0 <= i < |w| ==> w[i].Del? || w[i].Ins?
    decreases |w|
  {
    if |w| > 0 {
      UniformPairsSource(w[2..], dent);
      assert w == [w[0], w[1]] + w[2..];
      SourceAppend([w[0], w[1]], w[2..]);
      forall i | 0 <= i < |w| ensures w[i].Del? || w[i].Ins? {
        if i >= 2 { assert w[i] == w[2..][i - 2]; }
      }
    }
  }

  /** A uniform run of 2n rows consumes n lines. */
  lemma {:induction false} UniformPairsCount(w: seq<Row>, dent: int)
    requires UniformPairs(w, dent)
    ensures |Source(w)| * 2 == |w|
    decreases |w|
  {
    if |w| > 0 {
      UniformPairsCount(w[2..], dent);
      SourcePair(w);
    }
  }

  /**
   * Taking the first pair off a shifted uniform run: its line, shifted, is
   * the first line, and the rest is the shifted rest of the run.
   */
  lemma {:induction false} UniformPairsHead(w: seq<Row>, dent: int)
    requires UniformPairs(w, dent) && |w| > 0
    ensures PairAt(w, 0, dent) && UniformPairs(w[2..], dent)
    ensures ShiftAll(Source(w), dent) == [Shift(w[0].text, dent)] + ShiftAll(Source(w[2..]), dent)
  {
    SourcePair(w);
    ShiftAllCons(w[0].text, Source(w[2..]), dent);
  }

  /** A removal followed by an addition consumes just the removed line. */
  lemma {:induction false} SourcePair(w: seq<Row>)
    requires |w| >= 2 && w[0].Del? && w[1].Ins?
    ensures Source(w) == [w[0].text] + Source(w[2..])
  {
    var t := w[1..];
    assert Source(w) == SourceRow(w[0]) + Source(t);
    assert t[1..] == w[2..];
    assert Source(t) == SourceRow(t[0]) + Source(t[1..]);
  }

  lemma {:induction false} ShiftAllCons(h: string, t: seq<string>, dent: int)
    ensures ShiftAll([h] + t, dent) == [Shift(h, dent)] + ShiftAll(t, dent)
  {
    assert ([h] + t)[1..] == t;
  }

  /** The replayable delta `Differ` gives for `a` and `b` is well formed. */
  lemma {:induction false} DifferParsed(compare: (seq<string>, seq<string>) -> seq<string>, a: seq<string>, b: seq<string>)
    requires Differ(compare)
    ensures forall i :: 0 <= i < |compare(a, b)| ==> RawRow(compare(a, b)[i])
    ensures WellFormed(Parsed(compare(a, b)), a, b)
  {
    assert DifferOutput(compare(a, b), a, b);
  }

  /** `Differ.compare` as the replay assumes it: well-formed rows that read its first and spell its second argument. */
  ghost predicate Differ(compare: (seq<string>, seq<string>) -> seq<string>)
  {
    forall a, b :: DifferOutput(compare(a, b), a, b)
  }
}
