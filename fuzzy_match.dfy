/** Pairwise character-set matcher of the fuzzy item-name comparison tool.

    Two columns of cells are compared pair by pair, in nested order; a pair is
    reported when both cells hold text and the two texts have at least
    `length` distinct characters in common.  `Matches` is the specification of
    the result, `FuzzyMatchItems` the nested loop that builds it.
 */
module FuzzyMatch {

  /** A cell of a loaded column: text, or any value that is not text
      (a number, a missing value). */
  datatype Cell = Str(s: string) | Other

  /** One reported pair: both row positions, both original texts, the number
      of shared characters and the shared characters themselves. */
  datatype MatchRecord = MatchRecord(
    df1Index: nat,
    df2Index: nat,
    df1Value: string,
    df2Value: string,
    sharedCount: nat,
    sharedChars: string)

  // ---------------------------------------------------------------------
  // Character sets
  // ---------------------------------------------------------------------

  /** The set of the elements of a sequence (Python's `set(s)` on a string). */
  function Elements<T>(s: seq<T>): set<T> {
    set x | x in s
  }

  /** No element occurs twice. */
  ghost predicate Distinct<T>(s: seq<T>) {
    forall k, l :: 0 <= k < l < |s| ==> s[k] != s[l]
  }

  /** A sequence without repeats has as many distinct elements as it is long. */
  lemma {:induction false} DistinctCard<T>(s: seq<T>)
    requires Distinct(s)
    ensures |Elements(s)| == |s|
  {
    if s != [] {
      var t := s[..|s| - 1];
      assert Distinct(t);
      DistinctCard(t);
      assert s == t + [s[|s| - 1]];
      assert Elements(s) == Elements(t) + {s[|s| - 1]};
      assert s[|s| - 1] !in Elements(t);
    }
  }

  /** A sequence has no more distinct elements than it is long. */
  lemma {:induction false} ElementsBound<T>(s: seq<T>)
    ensures |Elements(s)| <= |s|
  {
    if s != [] {
      var t := s[..|s| - 1];
      ElementsBound(t);
      assert s == t + [s[|s| - 1]];
      assert Elements(s) == Elements(t) + {s[|s| - 1]};
    }
  }

  /** The characters two texts have in common (`set(val1) & set(val2)`). */
  function Common(a: string, b: string): set<char> {
    Elements(a) * Elements(b)
  }

  /** The shared characters joined into one text: each common character
      once, in the order of its first occurrence in `a`. */
  function SharedChars(a: string, b: string): string {
    if a == [] then []
    else
      var r0 := SharedChars(a[..|a| - 1], b);
      var c := a[|a| - 1];
      if c in b && c !in r0 then r0 + [c] else r0
  }

  /** The joined text holds exactly the common characters. */
  lemma {:induction false} SharedCharsElements(a: string, b: string)
    ensures Elements(SharedChars(a, b)) == Common(a, b)
  {
    if a != [] {
      var a0, c := a[..|a| - 1], a[|a| - 1];
      var r0 := SharedChars(a0, b);
      SharedCharsElements(a0, b);
      assert a == a0 + [c];
      assert Elements(a) == Elements(a0) + {c};
      if c in b && c !in r0 {
        assert Elements(r0 + [c]) == Elements(r0) + {c};
      }
    }
  }

  /** The joined text repeats no character. */
  lemma {:induction false} SharedCharsDistinct(a: string, b: string)
    ensures Distinct(SharedChars(a, b))
  {
    if a != [] {
      var a0, c := a[..|a| - 1], a[|a| - 1];
      var r0 := SharedChars(a0, b);
      SharedCharsDistinct(a0, b);
      if c in b && c !in r0 {
        var r := r0 + [c];
        forall k, l | 0 <= k < l < |r|
          ensures r[k] != r[l]
        {
          if l == |r0| {
            assert r[k] == r0[k];
          }
        }
      }
    }
  }

  /** The joined text repeats no character, holds exactly the common
      characters, and so is exactly as long as the shared set is large. */
  lemma SharedCharsSpec(a: string, b: string)
    ensures Distinct(SharedChars(a, b))
    ensures Elements(SharedChars(a, b)) == Common(a, b)
    ensures |SharedChars(a, b)| == |Common(a, b)|
  {
    SharedCharsDistinct(a, b);
    SharedCharsElements(a, b);
    DistinctCard(SharedChars(a, b));
  }

  /** A subset is no larger than its superset. */
  lemma {:induction false} SubsetCard<T>(x: set<T>, y: set<T>)
    requires x <= y
    ensures |x| <= |y|
    decreases x
  {
    if x != {} {
      var e :| e in x;
      SubsetCard(x - {e}, y - {e});
    }
  }

  /** A text shares no more distinct characters with another than it has
      characters, so a text shorter than the threshold never matches. */
  lemma CommonBound(a: string, b: string)
    ensures |Common(a, b)| <= |a| && |Common(a, b)| <= |b|
  {
    ElementsBound(a);
    ElementsBound(b);
    SubsetCard(Common(a, b), Elements(a));
    SubsetCard(Common(a, b), Elements(b));
  }

  // ---------------------------------------------------------------------
  // Specification of the result
  // ---------------------------------------------------------------------

  /** The match rule: both cells are text and share at least `length`
      distinct characters. */
  predicate Qualifies(c1: Cell, c2: Cell, length: int) {
    c1.Str? && c2.Str? && |Common(c1.s, c2.s)| >= length
  }

  /** The record for pair (i, j), if the pair qualifies.  The shared set
      is represented by its repeat-free listing, whose length is the size of
      the set (SharedCharsSpec). */
  function PairMatch(col1: seq<Cell>, col2: seq<Cell>, length: int, i: nat, j: nat): seq<MatchRecord>
    requires i < |col1| && j < |col2|
  {
    if col1[i].Str? && col2[j].Str? then
      var a, b := col1[i].s, col2[j].s;
      var common := SharedChars(a, b);
      if |common| >= length then [MatchRecord(i, j, a, b, |common|, common)] else []
    else []
  }

  /** At most one record, and it is about pair (i, j). */
  lemma PairMatchShape(col1: seq<Cell>, col2: seq<Cell>, length: int, i: nat, j: nat)
    requires i < |col1| && j < |col2|
    ensures |PairMatch(col1, col2, length, i, j)| <= 1
    ensures forall r :: r in PairMatch(col1, col2, length, i, j) ==> r.df1Index == i && r.df2Index == j
  {
  }

  /** The pair yields a record exactly when the match rule accepts it, and
      the record carries both positions, both texts and the shared set. */
  lemma PairMatchSpec(col1: seq<Cell>, col2: seq<Cell>, length: int, i: nat, j: nat)
    requires i < |col1| && j < |col2|
    ensures var p := PairMatch(col1, col2, length, i, j);
      && (p != [] <==> Qualifies(col1[i], col2[j], length))
      && |p| <= 1
      && (p != [] ==> p[0].df1Index == i && p[0].df2Index == j && Reports(p[0], col1, col2, length))
  {
    if col1[i].Str? && col2[j].Str? {
      SharedCharsSpec(col1[i].s, col2[j].s);
    }
  }

  /** Records of row i of the first column against the first n cells of
      the second. */
  function RowMatches(col1: seq<Cell>, col2: seq<Cell>, length: int, i: nat, n: nat): seq<MatchRecord>
    requires i < |col1| && n <= |col2|
  {
    if n == 0 then []
    else RowMatches(col1, col2, length, i, n - 1) + PairMatch(col1, col2, length, i, n - 1)
  }

  /** Records of the first m rows of the first column against the whole
      second column. */
  function MatchesUpTo(col1: seq<Cell>, col2: seq<Cell>, length: int, m: nat): seq<MatchRecord>
    requires m <= |col1|
  {
    if m == 0 then []
    else MatchesUpTo(col1, col2, length, m - 1) + RowMatches(col1, col2, length, m - 1, |col2|)
  }

  /** The whole result: the full cross product in nested order. */
  function Matches(col1: seq<Cell>, col2: seq<Cell>, length: int): seq<MatchRecord> {
    MatchesUpTo(col1, col2, length, |col1|)
  }

  /** Record r describes a qualifying pair of the two columns faithfully:
      indices in bounds, the original texts at those indices, a count equal
      to the size of the shared set and at least the threshold, and a
      repeat-free text of exactly the shared characters. */
  ghost predicate Reports(r: MatchRecord, col1: seq<Cell>, col2: seq<Cell>, length: int) {
    && r.df1Index < |col1|
    && r.df2Index < |col2|
    && col1[r.df1Index] == Str(r.df1Value)
    && col2[r.df2Index] == Str(r.df2Value)
    && r.sharedCount == |Common(r.df1Value, r.df2Value)|
    && r.sharedCount >= length
    && Distinct(r.sharedChars)
    && Elements(r.sharedChars) == Common(r.df1Value, r.df2Value)
    && |r.sharedChars| == r.sharedCount
  }

  /** Nested iteration order: by first index, then by second index. */
  predicate Before(r: MatchRecord, q: MatchRecord) {
    r.df1Index < q.df1Index || (r.df1Index == q.df1Index && r.df2Index < q.df2Index)
  }

  ghost predicate Ordered(res: seq<MatchRecord>) {
    forall k, l :: 0 <= k < l < |res| ==> Before(res[k], res[l])
  }

  /** Every record of r0 comes before every record of r1. */
  ghost predicate AllBefore(r0: seq<MatchRecord>, r1: seq<MatchRecord>) {
    forall k, l :: 0 <= k < |r0| && 0 <= l < |r1| ==> Before(r0[k], r1[l])
  }

  /** Some record of res is about pair (i, j). */
  ghost predicate Reported(res: seq<MatchRecord>, i: nat, j: nat) {
    exists k :: 0 <= k < |res| && res[k].df1Index == i && res[k].df2Index == j
  }

  /** The pairs the match rule accepts, as an independent reference. */
  ghost function QualifyingPairs(col1: seq<Cell>, col2: seq<Cell>, length: int): set<(nat, nat)> {
    set i: nat, j: nat | i < |col1| && j < |col2| && Qualifies(col1[i], col2[j], length) :: (i, j)
  }

  lemma ReportedAppend(r0: seq<MatchRecord>, r1: seq<MatchRecord>, i: nat, j: nat)
    requires Reported(r0, i, j) || Reported(r1, i, j)
    ensures Reported(r0 + r1, i, j)
  {
    if Reported(r0, i, j) {
      var k :| 0 <= k < |r0| && r0[k].df1Index == i && r0[k].df2Index == j;
      assert (r0 + r1)[k] == r0[k];
    } else {
      var k :| 0 <= k < |r1| && r1[k].df1Index == i && r1[k].df2Index == j;
      assert (r0 + r1)[|r0| + k] == r1[k];
    }
  }

  /** Two ordered runs, the first wholly before the second, concatenate to an
      ordered run.  Dafny proves this from the definitions alone; the lemma
      exists so that the ordering proofs below can cite it in one step. */
  lemma OrderedAppend(r0: seq<MatchRecord>, r1: seq<MatchRecord>)
    requires Ordered(r0) && Ordered(r1)
    requires AllBefore(r0, r1)
    ensures Ordered(r0 + r1)
  {
  }

  // ---------------------------------------------------------------------
  // Properties of one row
  // ---------------------------------------------------------------------

  lemma {:induction false} RowSound(col1: seq<Cell>, col2: seq<Cell>, length: int, i: nat, n: nat)
    requires i < |col1| && n <= |col2|
    ensures forall k :: 0 <= k < |RowMatches(col1, col2, length, i, n)| ==>
      var r := RowMatches(col1, col2, length, i, n)[k];
      r.df1Index == i && r.df2Index < n && Reports(r, col1, col2, length)
  {
    if n > 0 {
      RowSound(col1, col2, length, i, n - 1);
      PairMatchSpec(col1, col2, length, i, n - 1);
    }
  }

  // The index half of RowSound, kept apart because the ordering proofs run
  // out of resource when they also carry the full Reports facts.
  lemma {:induction false} RowIndices(col1: seq<Cell>, col2: seq<Cell>, length: int, i: nat, n: nat)
    requires i < |col1| && n <= |col2|
    ensures forall k :: 0 <= k < |RowMatches(col1, col2, length, i, n)| ==>
      RowMatches(col1, col2, length, i, n)[k].df1Index == i &&
      RowMatches(col1, col2, length, i, n)[k].df2Index < n
  {
    if n > 0 {
      RowIndices(col1, col2, length, i, n - 1);
      PairMatchShape(col1, col2, length, i, n - 1);
    }
  }

  lemma {:induction false} RowOrdered(col1: seq<Cell>, col2: seq<Cell>, length: int, i: nat, n: nat)
    requires i < |col1| && n <= |col2|
    ensures Ordered(RowMatches(col1, col2, length, i, n))
  {
    if n > 0 {
      var r0 := RowMatches(col1, col2, length, i, n - 1);
      var p := PairMatch(col1, col2, length, i, n - 1);
      assert Ordered(r0) by {
        RowOrdered(col1, col2, length, i, n - 1);
      }
      PairMatchShape(col1, col2, length, i, n - 1);
      assert AllBefore(r0, p) by {
        RowIndices(col1, col2, length, i, n - 1);
      }
      OrderedAppend(r0, p);
    }
  }

  lemma {:induction false} RowComplete(col1: seq<Cell>, col2: seq<Cell>, length: int, i: nat, n: nat, j: nat)
    requires i < |col1| && j < n <= |col2|
    requires Qualifies(col1[i], col2[j], length)
    ensures Reported(RowMatches(col1, col2, length, i, n), i, j)
  {
    var r0 := RowMatches(col1, col2, length, i, n - 1);
    var p := PairMatch(col1, col2, length, i, n - 1);
    if j == n - 1 {
      PairMatchSpec(col1, col2, length, i, j);
      assert Reported(p, i, j);
    } else {
      RowComplete(col1, col2, length, i, n - 1, j);
    }
    ReportedAppend(r0, p, i, j);
  }

  // ---------------------------------------------------------------------
  // Properties of the whole result
  // ---------------------------------------------------------------------

  lemma {:induction false} UpToSound(col1: seq<Cell>, col2: seq<Cell>, length: int, m: nat)
    requires m <= |col1|
    ensures forall k :: 0 <= k < |MatchesUpTo(col1, col2, length, m)| ==>
      var r := MatchesUpTo(col1, col2, length, m)[k];
      r.df1Index < m && Reports(r, col1, col2, length)
  {
    if m > 0 {
      UpToSound(col1, col2, length, m - 1);
      RowSound(col1, col2, length, m - 1, |col2|);
    }
  }

  // The index half of UpToSound, kept apart for the same reason as RowIndices.
  lemma {:induction false} UpToIndices(col1: seq<Cell>, col2: seq<Cell>, length: int, m: nat)
    requires m <= |col1|
    ensures forall k :: 0 <= k < |MatchesUpTo(col1, col2, length, m)| ==>
      MatchesUpTo(col1, col2, length, m)[k].df1Index < m
  {
    if m > 0 {
      UpToIndices(col1, col2, length, m - 1);
      RowIndices(col1, col2, length, m - 1, |col2|);
    }
  }

  lemma {:induction false} UpToOrdered(col1: seq<Cell>, col2: seq<Cell>, length: int, m: nat)
    requires m <= |col1|
    ensures Ordered(MatchesUpTo(col1, col2, length, m))
  {
    if m > 0 {
      var r0 := MatchesUpTo(col1, col2, length, m - 1);
      var row := RowMatches(col1, col2, length, m - 1, |col2|);
      assert Ordered(r0) by {
        UpToOrdered(col1, col2, length, m - 1);
      }
      assert Ordered(row) by {
        RowOrdered(col1, col2, length, m - 1, |col2|);
      }
      assert AllBefore(r0, row) by {
        UpToIndices(col1, col2, length, m - 1);
        RowIndices(col1, col2, length, m - 1, |col2|);
      }
      OrderedAppend(r0, row);
    }
  }

  lemma {:induction false} UpToComplete(col1: seq<Cell>, col2: seq<Cell>, length: int, m: nat, i: nat, j: nat)
    requires i < m <= |col1| && j < |col2|
    requires Qualifies(col1[i], col2[j], length)
    ensures Reported(MatchesUpTo(col1, col2, length, m), i, j)
  {
    var r0 := MatchesUpTo(col1, col2, length, m - 1);
    var row := RowMatches(col1, col2, length, m - 1, |col2|);
    if i == m - 1 {
      RowComplete(col1, col2, length, i, |col2|, j);
    } else {
      UpToComplete(col1, col2, length, m - 1, i, j);
    }
    ReportedAppend(r0, row, i, j);
  }

  /** Every record describes a qualifying pair faithfully. */
  lemma MatchesSound(col1: seq<Cell>, col2: seq<Cell>, length: int)
    ensures forall k :: 0 <= k < |Matches(col1, col2, length)| ==>
      Reports(Matches(col1, col2, length)[k], col1, col2, length)
  {
    UpToSound(col1, col2, length, |col1|);
  }

  /** Records come in nested iteration order, so no pair is reported twice. */
  lemma MatchesOrdered(col1: seq<Cell>, col2: seq<Cell>, length: int)
    ensures Ordered(Matches(col1, col2, length))
  {
    UpToOrdered(col1, col2, length, |col1|);
  }

  /** A pair is reported exactly when both indices are in bounds, both cells
      are text and they share at least `length` distinct characters. */
  lemma MatchesMembership(col1: seq<Cell>, col2: seq<Cell>, length: int, i: nat, j: nat)
    ensures Reported(Matches(col1, col2, length), i, j) <==>
      i < |col1| && j < |col2| && Qualifies(col1[i], col2[j], length)
  {
    var res := Matches(col1, col2, length);
    if Reported(res, i, j) {
      MatchesSound(col1, col2, length);
      var k :| 0 <= k < |res| && res[k].df1Index == i && res[k].df2Index == j;
      assert Reports(res[k], col1, col2, length);
    }
    if i < |col1| && j < |col2| && Qualifies(col1[i], col2[j], length) {
      UpToComplete(col1, col2, length, |col1|, i, j);
    }
  }

  /** A cell that is not text (a number, a missing value) is never part of
      a reported pair. */
  lemma NonTextNeverMatches(col1: seq<Cell>, col2: seq<Cell>, length: int, k: nat)
    requires k < |Matches(col1, col2, length)|
    ensures Matches(col1, col2, length)[k].df1Index < |col1|
         && col1[Matches(col1, col2, length)[k].df1Index].Str?
    ensures Matches(col1, col2, length)[k].df2Index < |col2|
         && col2[Matches(col1, col2, length)[k].df2Index].Str?
  {
    MatchesSound(col1, col2, length);
  }

  /** The number of records equals the number of qualifying pairs. */
  lemma MatchesCount(col1: seq<Cell>, col2: seq<Cell>, length: int)
    ensures |Matches(col1, col2, length)| == |QualifyingPairs(col1, col2, length)|
  {
    var res := Matches(col1, col2, length);
    var pairs := seq(|res|, k requires 0 <= k < |res| => (res[k].df1Index, res[k].df2Index));
    var qp := QualifyingPairs(col1, col2, length);
    assert Distinct(pairs) by {
      MatchesOrdered(col1, col2, length);
      forall k, l | 0 <= k < l < |pairs|
        ensures pairs[k] != pairs[l]
      {
        assert Before(res[k], res[l]);
      }
    }
    assert Elements(pairs) <= qp by {
      MatchesSound(col1, col2, length);
      forall p | p in Elements(pairs)
        ensures p in qp
      {
        var k :| 0 <= k < |pairs| && pairs[k] == p;
        assert Reports(res[k], col1, col2, length);
      }
    }
    assert qp <= Elements(pairs) by {
      forall p | p in qp
        ensures p in Elements(pairs)
      {
        var (i, j) := p;
        MatchesMembership(col1, col2, length, i, j);
        var k :| 0 <= k < |res| && res[k].df1Index == i && res[k].df2Index == j;
        assert pairs[k] == p;
      }
    }
    DistinctCard(pairs);
    assert Elements(pairs) == qp;
  }

  lemma {:induction false} UpToEmptyRight(col1: seq<Cell>, col2: seq<Cell>, length: int, m: nat)
    requires m <= |col1| && col2 == []
    ensures MatchesUpTo(col1, col2, length, m) == []
  {
    if m > 0 {
      UpToEmptyRight(col1, col2, length, m - 1);
    }
  }

  /** If either column is empty, nothing is reported. */
  lemma MatchesEmpty(col1: seq<Cell>, col2: seq<Cell>, length: int)
    requires col1 == [] || col2 == []
    ensures Matches(col1, col2, length) == []
  {
    if col2 == [] {
      UpToEmptyRight(col1, col2, length, |col1|);
    }
  }

  /** Swapping the columns swaps the indices of the reported pairs: the
      match rule does not depend on which column a text comes from, and the
      swapped record has the same count and the same set of shared characters. */
  lemma MatchesSwap(col1: seq<Cell>, col2: seq<Cell>, length: int, i: nat, j: nat)
    ensures Reported(Matches(col1, col2, length), i, j) <==> Reported(Matches(col2, col1, length), j, i)
    ensures forall k, l ::
      && 0 <= k < |Matches(col1, col2, length)| && 0 <= l < |Matches(col2, col1, length)|
      && Matches(col1, col2, length)[k].df1Index == i && Matches(col1, col2, length)[k].df2Index == j
      && Matches(col2, col1, length)[l].df1Index == j && Matches(col2, col1, length)[l].df2Index == i
      ==> (&& Matches(col1, col2, length)[k].sharedCount == Matches(col2, col1, length)[l].sharedCount
           && Elements(Matches(col1, col2, length)[k].sharedChars)
              == Elements(Matches(col2, col1, length)[l].sharedChars))
  {
    MatchesMembership(col1, col2, length, i, j);
    MatchesMembership(col2, col1, length, j, i);
    MatchesSound(col1, col2, length);
    MatchesSound(col2, col1, length);
    if i < |col1| && j < |col2| && col1[i].Str? && col2[j].Str? {
      assert Common(col1[i].s, col2[j].s) == Common(col2[j].s, col1[i].s);
    }
  }

  /** A reported text is at least `length` characters long: a text shorter
      than the threshold is never reported, whatever it is compared with. */
  lemma MatchedValuesLongEnough(col1: seq<Cell>, col2: seq<Cell>, length: int, k: nat)
    requires k < |Matches(col1, col2, length)|
    ensures |Matches(col1, col2, length)[k].df1Value| >= length
    ensures |Matches(col1, col2, length)[k].df2Value| >= length
  {
    var r := Matches(col1, col2, length)[k];
    MatchesSound(col1, col2, length);
    CommonBound(r.df1Value, r.df2Value);
  }

  /** The shared characters of the two drink names below, in first-occurrence order. */
  lemma AppleJuiceShared()
    ensures SharedChars("蘋果汁", "蘋果汽水") == "蘋果"
  {
    var a, b := "蘋果汁", "蘋果汽水";
    assert SharedChars("蘋", b) == "蘋" by {
      assert b[0] == '蘋';
      assert "蘋"[..0] == [] && "蘋"[0] == '蘋';
      assert SharedChars([], b) == [];
    }
    assert SharedChars("蘋果", b) == "蘋果" by {
      assert b[1] == '果';
      assert "蘋果"[..1] == "蘋" && "蘋果"[1] == '果';
      assert '果' !in "蘋";
    }
    assert SharedChars(a, b) == "蘋果" by {
      assert a[..2] == "蘋果" && a[2] == '汁';
      assert '汁' !in b;
    }
  }

  /** Two drink names sharing the two characters 蘋 and 果 give exactly one
      record at threshold 2. */
  lemma AppleJuiceExample()
    ensures Matches([Str("蘋果汁")], [Str("蘋果汽水")], 2)
         == [MatchRecord(0, 0, "蘋果汁", "蘋果汽水", 2, "蘋果")]
  {
    var a, b := "蘋果汁", "蘋果汽水";
    var col1, col2 := [Str(a)], [Str(b)];
    AppleJuiceShared();
    assert Matches(col1, col2, 2) == PairMatch(col1, col2, 2, 0, 0) by {
      assert MatchesUpTo(col1, col2, 2, 1) == [] + RowMatches(col1, col2, 2, 0, 1);
      assert RowMatches(col1, col2, 2, 0, 1) == [] + PairMatch(col1, col2, 2, 0, 0);
    }
  }

  // ---------------------------------------------------------------------
  // The matcher
  // ---------------------------------------------------------------------

  /** Walk the cross product, outer index over the first column and inner
      index over the second, appending a record for every qualifying pair. */
  method FuzzyMatchItems(col1: seq<Cell>, col2: seq<Cell>, length: int := 4) returns (matched: seq<MatchRecord>)
    ensures matched == Matches(col1, col2, length)
    ensures forall k :: 0 <= k < |matched| ==> Reports(matched[k], col1, col2, length)
    ensures Ordered(matched)
    ensures |matched| == |QualifyingPairs(col1, col2, length)|
  {
    matched := [];
    var i := 0;
    while i < |col1|
      invariant i <= |col1|
      invariant matched == MatchesUpTo(col1, col2, length, i)
    {
      ghost var done := matched;
      var j := 0;
      while j < |col2|
        invariant j <= |col2|
        invariant matched == done + RowMatches(col1, col2, length, i, j)
      {
        ghost var row := RowMatches(col1, col2, length, i, j);
        assert RowMatches(col1, col2, length, i, j + 1) == row + PairMatch(col1, col2, length, i, j);
        var val1, val2 := col1[i], col2[j];
        if val1.Str? && val2.Str? {
          var common := SharedChars(val1.s, val2.s);
          if |common| >= length {
            var rec := MatchRecord(i, j, val1.s, val2.s, |common|, common);
            assert PairMatch(col1, col2, length, i, j) == [rec];
            assert matched + [rec] == done + (row + [rec]);
            matched := matched + [rec];
          } else {
            assert PairMatch(col1, col2, length, i, j) == [];
            assert row + [] == row;
          }
        } else {
          assert PairMatch(col1, col2, length, i, j) == [];
          assert row + [] == row;
        }
        j := j + 1;
      }
      assert MatchesUpTo(col1, col2, length, i + 1) == done + RowMatches(col1, col2, length, i, |col2|);
      i := i + 1;
    }
    assert matched == Matches(col1, col2, length);
    assert forall k :: 0 <= k < |matched| ==> Reports(matched[k], col1, col2, length) by {
      MatchesSound(col1, col2, length);
    }
    assert Ordered(matched) by {
      MatchesOrdered(col1, col2, length);
    }
    assert |matched| == |QualifyingPairs(col1, col2, length)| by {
      MatchesCount(col1, col2, length);
    }
  }
}
