/**
 * String helpers shared by the three replay engines: Python's notion of
 * whitespace, `first_whitespace` (the length of a line's indent), the
 * slicing forms the engines rely on, and `chunkify`.
 */
module Text {

  /** Python's `str.isspace` for a single character. */
  predicate IsSpace(c: char)
  {
    var k := c as int;
    (9 <= k <= 13) || (28 <= k <= 32) || k == 0x85 || k == 0xA0 || k == 0x1680
    || (0x2000 <= k <= 0x200A) || k == 0x2028 || k == 0x2029 || k == 0x202F
    || k == 0x205F || k == 0x3000
  }

  /**
   * `first_whitespace(s) == len(s) - len(s.lstrip())`: the length of the
   * leading run of whitespace. A newline counts as whitespace, so "\n" has
   * an indent of 1.
   */
  function FirstWhitespace(s: string): (r: nat)
    ensures r <= |s|
  {
    if |s| == 0 || !IsSpace(s[0]) then 0 else 1 + FirstWhitespace(s[1..])
  }

  /** The indent is all whitespace and is not followed by whitespace. */
  lemma {:induction false} FirstWhitespaceSpec(s: string)
    ensures forall i :: 0 <= i < FirstWhitespace(s) ==> IsSpace(s[i])
    ensures FirstWhitespace(s) < |s| ==> !IsSpace(s[FirstWhitespace(s)])
  {
    if |s| > 0 && IsSpace(s[0]) {
      FirstWhitespaceSpec(s[1..]);
      forall i | 0 < i < FirstWhitespace(s) ensures IsSpace(s[i]) {
        assert s[i] == s[1..][i - 1];
      }
    }
  }

  /** `s.lstrip()`. */
  function LStrip(s: string): (r: string)
    ensures s == s[..FirstWhitespace(s)] + r
    ensures |r| > 0 ==> !IsSpace(r[0])
  {
    FirstWhitespaceSpec(s);
    s[FirstWhitespace(s)..]
  }

  /** `not s.strip()`: the line holds nothing but whitespace. */
  predicate IsBlank(s: string)
  {
    FirstWhitespace(s) == |s|
  }

  /**
   * A line is blank exactly when its `lstrip` part is empty, that is when
   * it is whitespace throughout.
   */
  lemma {:induction false} IsBlankSpec(s: string)
    ensures IsBlank(s) <==> |LStrip(s)| == 0
    ensures IsBlank(s) <==> forall i :: 0 <= i < |s| ==> IsSpace(s[i])
  {
    FirstWhitespaceSpec(s);
  }

  /** `' ' * n`. */
  function Spaces(n: nat): (r: string)
    ensures |r| == n
  {
    seq(n, _ => ' ')
  }

  /** Python's `s[n:]` for n >= 0: empty once n reaches the length. */
  function Drop(s: string, n: nat): (r: string)
    ensures |r| == if n <= |s| then |s| - n else 0
  {
    if n >= |s| then [] else s[n..]
  }

  /** Python's `s[-k:]` for k >= 0: `s[-0:]` is the whole of `s`. */
  function Tail(s: string, k: nat): string
  {
    if k == 0 || k >= |s| then s else s[|s| - k..]
  }

  /** The leading-whitespace count pins down FirstWhitespace. */
  lemma {:induction false} FirstWhitespaceUnique(s: string, k: nat)
    requires k <= |s|
    requires forall i :: 0 <= i < k ==> IsSpace(s[i])
    requires k < |s| ==> !IsSpace(s[k])
    ensures FirstWhitespace(s) == k
  {
    if k > 0 {
      forall i | 0 <= i < k - 1 ensures IsSpace(s[1..][i]) {
        assert s[1..][i] == s[i + 1];
      }
      FirstWhitespaceUnique(s[1..], k - 1);
    }
  }

  /** Prepending n spaces raises the indent by n and keeps the stripped text. */
  lemma {:induction false} IndentBySpaces(n: nat, s: string)
    ensures FirstWhitespace(Spaces(n) + s) == n + FirstWhitespace(s)
    ensures LStrip(Spaces(n) + s) == LStrip(s)
  {
    var t := Spaces(n) + s;
    var k := n + FirstWhitespace(s);
    FirstWhitespaceSpec(s);
    forall i | 0 <= i < k ensures IsSpace(t[i]) {
      if i >= n { assert t[i] == s[i - n]; }
    }
    if k < |t| { assert t[k] == s[FirstWhitespace(s)]; }
    FirstWhitespaceUnique(t, k);
    assert t[k..] == s[FirstWhitespace(s)..];
  }

  /** Removing part of the indent lowers it by that much and keeps the stripped text. */
  lemma {:induction false} DedentWithinIndent(s: string, j: nat)
    requires j <= FirstWhitespace(s)
    ensures FirstWhitespace(Drop(s, j)) == FirstWhitespace(s) - j
    ensures LStrip(Drop(s, j)) == LStrip(s)
  {
    var t := Drop(s, j);
    var k := FirstWhitespace(s) - j;
    FirstWhitespaceSpec(s);
    if j == |s| {
      assert t == [];
    } else {
      assert t == s[j..];
      forall i | 0 <= i < k ensures IsSpace(t[i]) {
        assert t[i] == s[j + i];
      }
      if k < |t| { assert t[k] == s[FirstWhitespace(s)]; }
      FirstWhitespaceUnique(t, k);
      assert t[k..] == s[FirstWhitespace(s)..];
    }
  }

  /** `Spaces(a) + (Spaces(b) + s) == Spaces(a + b) + s`. */
  lemma {:induction false} SpacesAppend(a: nat, b: nat, s: string)
    ensures Spaces(a) + (Spaces(b) + s) == Spaces(a + b) + s
  {
    assert Spaces(a) + Spaces(b) == Spaces(a + b);
  }

  /** Dropping a characters and then b characters drops a + b. */
  lemma {:induction false} DropDrop(s: string, a: nat, b: nat)
    ensures Drop(Drop(s, a), b) == Drop(s, a + b)
  {
  }

  /** `list(range(lo, hi))`. */
  function Range(lo: int, hi: int): (r: seq<int>)
    ensures |r| == if lo <= hi then hi - lo else 0
    ensures forall i :: 0 <= i < |r| ==> r[i] == lo + i
  {
    if hi <= lo then [] else seq(hi - lo, i => lo + i)
  }

  /** The concatenation of a list of lists. */
  function Concat<T>(chunks: seq<seq<T>>): seq<T>
  {
    if |chunks| == 0 then [] else chunks[0] + Concat(chunks[1..])
  }

  /**
   * `chunkify(lst, n)`: consecutive chunks of `lst` of length n, the last one
   * possibly shorter, that together spell `lst`; an empty list gives no
   * chunks. (Python's `range(0, len(lst), 0)` raises, hence n > 0.)
   */
  function Chunkify<T>(lst: seq<T>, n: nat): (r: seq<seq<T>>)
    requires n > 0
    ensures Concat(r) == lst
    ensures forall i :: 0 <= i < |r| ==> 0 < |r[i]| <= n
    ensures forall i :: 0 <= i < |r| - 1 ==> |r[i]| == n
    decreases |lst|
  {
    if |lst| == 0 then []
    else if |lst| <= n then [lst]
    else [lst[..n]] + Chunkify(lst[n..], n)
  }

  /** Overwriting one element twice keeps only the second write. */
  lemma {:induction false} UpdateTwice<T>(s: seq<T>, i: nat, a: T, b: T)
    requires i < |s|
    ensures s[i := a][i := b] == s[i := b]
  {
  }

  /** Concatenation regroups freely. */
  lemma {:induction false} AppendAssoc<T>(x: seq<T>, y: seq<T>, z: seq<T>)
    ensures x + (y + z) == (x + y) + z
  {
  }

  /** What follows a prefix in a concatenation is the rest. */
  lemma {:induction false} AfterPrefix<T>(p: seq<T>, b: seq<T>)
    ensures (p + b)[|p|..] == b
  {
  }

  /** Around index k, a sequence and its update at k differ only in that element. */
  lemma {:induction false} UpdateSplit<T>(s: seq<T>, from: nat, k: nat, x: T)
    requires from <= k < |s|
    ensures s[from..] == s[from..k] + [s[k]] + s[k + 1..]
    ensures s[k := x][from..] == s[from..k] + [x] + s[k + 1..]
    ensures s[k := x][..from] == s[..from]
  {
  }

  /** `a` and `b` both have at least `n` elements, and their first `n` agree. */
  predicate AgreeBefore<T(==)>(a: seq<T>, b: seq<T>, n: nat)
  {
    n <= |a| && n <= |b| && a[..n] == b[..n]
  }

  /** Replacing everything from index `i` on keeps the first `n <= i` elements. */
  lemma {:induction false} AgreeBeforeSplice<T>(a: seq<T>, i: nat, rest: seq<T>, n: nat)
    requires n <= i <= |a|
    ensures AgreeBefore(a, a[..i] + rest, n)
  {
    assert (a[..i] + rest)[..n] == a[..i][..n];
  }

  /** Overwriting an element at or after `n` keeps the first `n`. */
  lemma {:induction false} AgreeBeforeUpdate<T>(a: seq<T>, i: nat, x: T, n: nat)
    requires n <= i < |a|
    ensures AgreeBefore(a, a[i := x], n)
  {
    assert a[i := x] == a[..i] + ([x] + a[i + 1..]);
    AgreeBeforeSplice(a, i, [x] + a[i + 1..], n);
  }

  /** Inserting at or after `n` keeps the first `n`. */
  lemma {:induction false} AgreeBeforeInsert<T>(a: seq<T>, i: nat, x: T, n: nat)
    requires n <= i <= |a|
    ensures AgreeBefore(a, a[..i] + [x] + a[i..], n)
  {
    assert a[..i] + [x] + a[i..] == a[..i] + ([x] + a[i..]);
    AgreeBeforeSplice(a, i, [x] + a[i..], n);
  }

  /** Deleting at or after `n` keeps the first `n`. */
  lemma {:induction false} AgreeBeforeDelete<T>(a: seq<T>, i: nat, n: nat)
    requires n <= i < |a|
    ensures AgreeBefore(a, a[..i] + a[i + 1..], n)
  {
    AgreeBeforeSplice(a, i, a[i + 1..], n);
  }

  /** Agreement is transitive. */
  lemma {:induction false} AgreeBeforeChain<T>(a: seq<T>, b: seq<T>, c: seq<T>, n: nat)
    requires AgreeBefore(a, b, n) && AgreeBefore(b, c, n)
    ensures AgreeBefore(a, c, n)
  {
  }

  /** Chunks of 4 (the only size the engines use): ceil(len / 4) of them. */
  lemma {:induction false} ChunkCount4<T>(lst: seq<T>)
    ensures |Chunkify(lst, 4)| == (|lst| + 3) / 4
    decreases |lst|
  {
    if |lst| > 4 {
      ChunkCount4(lst[4..]);
    }
  }

  /** Concatenation distributes over appending lists of lists. */
  lemma {:induction false} ConcatAppend<T>(a: seq<seq<T>>, b: seq<seq<T>>)
    ensures Concat(a + b) == Concat(a) + Concat(b)
  {
    if |a| == 0 {
      assert a + b == b;
    } else {
      assert (a + b)[0] == a[0];
      assert (a + b)[1..] == a[1..] + b;
      ConcatAppend(a[1..], b);
    }
  }

  /** The first k + 1 chunks spell the first k chunks followed by chunk k. */
  lemma {:induction false} ConcatUpTo<T>(chunks: seq<seq<T>>, k: nat)
    requires k < |chunks|
    ensures Concat(chunks[..k + 1]) == Concat(chunks[..k]) + chunks[k]
  {
    assert chunks[..k + 1] == chunks[..k] + [chunks[k]];
    ConcatAppend(chunks[..k], [chunks[k]]);
    assert Concat([chunks[k]]) == chunks[k] + Concat([]);
  }
}
