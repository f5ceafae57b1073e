/**
  The trend score of `process_gene_changes` (m2_degree_change_graphing.py):
  every row of the change matrix gets `F_Value`, the sum of its `Change_*`
  columns divided by 15; the rows of one tissue are kept, ranked by that
  score from high to low, and turned into a gene -> score series.
  Scores are exact rationals instead of floats.
 */
module TrendScore {
  import opened Seqs
  import opened Aggregation
  import opened ChangeMatrix

  /** Line 15 divides by 15, whatever the number of change columns. */
  const DIVISOR: real := 15.0

  const CHANGE_PREFIX: string := "Change_"

  /** A change-matrix row with its `F_Value` column added. */
  datatype Scored = Scored(tissue: string, gene: string, changes: Changes, fValue: real)

  /**
    What one call computes: the all-tissues copy (line 18), the ranked rows of
    the requested tissue (line 28) and the Gene -> F_Value series (line 31).
   */
  datatype Report = Report(allTissues: seq<Scored>, ranked: seq<Scored>, series: seq<(string, real)>)

  /**
    The transition headings of the change matrix, in column order. They are
    pairwise distinct (they differ in the first digit of the earlier age), so
    line 89 writes each transition into a column of its own.
   */
  function TransitionNames(): (r: seq<string>)
    ensures |r| == TRANSITIONS
    ensures forall i :: 0 <= i < TRANSITIONS ==> r[i] == TransitionName(i)
    ensures NoDup(r)
  {
    var r := seq(TRANSITIONS, i requires 0 <= i < TRANSITIONS => TransitionName(i));
    assert forall i :: 0 <= i < TRANSITIONS ==> r[i][|CHANGE_PREFIX|] == AGES[i][0];
    assert AGES[0][0] == '2' && AGES[1][0] == '3' && AGES[2][0] == '4' && AGES[3][0] == '5' && AGES[4][0] == '6';
    r
  }

  /** The columns of the change-matrix file as it is read back. */
  function Header(): seq<string> {
    ["Tissue", "Gene"] + TransitionNames()
  }

  predicate StartsWith(s: string, prefix: string) {
    |prefix| <= |s| && s[..|prefix|] == prefix
  }

  /** Line 14: the columns whose name starts with `Change_`, in their order. */
  function ChangeColumns(columns: seq<string>): (r: seq<string>)
    ensures forall c :: c in r <==> c in columns && StartsWith(c, CHANGE_PREFIX)
  {
    if |columns| == 0 then []
    else
      var front := columns[..|columns| - 1];
      var c := columns[|columns| - 1];
      assert columns == front + [c];
      ChangeColumns(front) + (if StartsWith(c, CHANGE_PREFIX) then [c] else [])
  }

  lemma TransitionNamesPrefixed()
    ensures forall i :: 0 <= i < TRANSITIONS ==> StartsWith(TransitionNames()[i], CHANGE_PREFIX)
  {
    var names := TransitionNames();
    forall i | 0 <= i < TRANSITIONS
      ensures StartsWith(names[i], CHANGE_PREFIX)
    {
      assert names[i] == CHANGE_PREFIX + (AGES[i] + "_to_" + AGES[i + 1]);
    }
  }

  /** The columns summed on line 15 are exactly the five transitions. */
  lemma ChangeColumnsOfHeader()
    ensures ChangeColumns(Header()) == TransitionNames()
  {
    var names := TransitionNames();
    TransitionNamesPrefixed();
    TransitionsAllKept(names);
    var front := ["Tissue", "Gene"];
    assert ChangeColumns(front) == [] by {
      assert !StartsWith("Tissue", CHANGE_PREFIX) && !StartsWith("Gene", CHANGE_PREFIX);
      assert front[..1] == ["Tissue"] && ["Tissue"][..0] == [];
    }
    ChangeColumnsAppend(front, names);
  }

  lemma {:induction false} ChangeColumnsAppend(a: seq<string>, b: seq<string>)
    ensures ChangeColumns(a + b) == ChangeColumns(a) + ChangeColumns(b)
    decreases |b|
  {
    if |b| == 0 {
      assert a + b == a;
    } else {
      var front := b[..|b| - 1];
      assert (a + b)[..|a + b| - 1] == a + front;
      assert (a + b)[|a + b| - 1] == b[|b| - 1];
      ChangeColumnsAppend(a, front);
    }
  }

  lemma {:induction false} TransitionsAllKept(names: seq<string>)
    requires forall i :: 0 <= i < |names| ==> StartsWith(names[i], CHANGE_PREFIX)
    ensures ChangeColumns(names) == names
    decreases |names|
  {
    if |names| > 0 {
      var front := names[..|names| - 1];
      TransitionsAllKept(front);
      assert names == front + [names[|names| - 1]];
    }
  }

  /** Line 15 for one row: the summed changes over 15, so the sign of the sum. */
  function FValue(changes: seq<int>): (r: real)
    ensures r * DIVISOR == Sum(changes) as real
    ensures r > 0.0 <==> Sum(changes) > 0
    ensures r < 0.0 <==> Sum(changes) < 0
  {
    Sum(changes) as real / DIVISOR
  }

  predicate Ternary(s: seq<int>) {
    forall k :: 0 <= k < |s| ==> -1 <= s[k] <= 1
  }

  function IsUp(x: int): bool { x == 1 }

  function IsDown(x: int): bool { x == -1 }

  /** A sum of -1/0/1 values is the number of ones minus the number of minus ones. */
  lemma {:induction false} SumTernary(s: seq<int>)
    requires Ternary(s)
    ensures Sum(s) == Count(s, IsUp) - Count(s, IsDown)
    ensures Count(s, IsUp) + Count(s, IsDown) <= |s|
  {
    if |s| > 0 {
      SumTernary(s[..|s| - 1]);
    }
  }

  /**
    The score of a row of signs counts the transitions where the in-degree
    grew against those where it fell: it is positive exactly when there are
    more rises than falls, and it lies within [-1/3, 1/3] for five columns.
   */
  lemma {:induction false} FValueOfTernary(changes: seq<int>)
    requires Ternary(changes)
    ensures FValue(changes) == (Count(changes, IsUp) - Count(changes, IsDown)) as real / DIVISOR
    ensures FValue(changes) > 0.0 <==> Count(changes, IsUp) > Count(changes, IsDown)
    ensures FValue(changes) == 0.0 <==> Count(changes, IsUp) == Count(changes, IsDown)
    ensures -(|changes| as real) / DIVISOR <= FValue(changes) <= |changes| as real / DIVISOR
    ensures |changes| == TRANSITIONS ==> -1.0 / 3.0 <= FValue(changes) <= 1.0 / 3.0
  {
    SumTernary(changes);
  }

  /**
    Five rises score 1/3, not 1: the divisor is 15 while a row has five
    transitions. A rise and a fall cancel out.
   */
  lemma ScoreExamples()
    ensures FValue([1, 1, 1, 1, 1]) == 1.0 / 3.0
    ensures FValue([1, -1, 0, 0, 0]) == 0.0
  {
    var ups := [1, 1, 1, 1, 1];
    assert ups[..1] == [1] && ups[..1][..0] == [];
    assert ups[..2][..1] == ups[..1] && ups[..3][..2] == ups[..2] && ups[..4][..3] == ups[..3];
    assert Sum(ups[..1]) == 1 && Sum(ups[..2]) == 2 && Sum(ups[..3]) == 3 && Sum(ups[..4]) == 4 && Sum(ups) == 5;
    var mixed := [1, -1, 0, 0, 0];
    assert mixed[..1] == [1] && mixed[..1][..0] == [];
    assert mixed[..2][..1] == mixed[..1] && mixed[..3][..2] == mixed[..2] && mixed[..4][..3] == mixed[..3];
    assert Sum(mixed[..1]) == 1 && Sum(mixed[..2]) == 0 && Sum(mixed[..3]) == 0 && Sum(mixed[..4]) == 0 && Sum(mixed) == 0;
  }

  /** A row without any change scores 0. */
  lemma {:induction false} FValueOfNoChange(changes: seq<int>)
    requires forall k :: 0 <= k < |changes| ==> changes[k] == 0
    ensures FValue(changes) == 0.0
  {
    SumOfZeros(changes);
  }

  lemma {:induction false} SumOfZeros(s: seq<int>)
    requires forall k :: 0 <= k < |s| ==> s[k] == 0
    ensures Sum(s) == 0
  {
    if |s| > 0 {
      SumOfZeros(s[..|s| - 1]);
    }
  }

  function Score(row: ChangeRow): Scored {
    Scored(row.tissue, row.gene, row.changes, FValue(row.changes))
  }

  /** Lines 14-15: `F_Value` is added to every row, whatever its tissue. */
  function ScoreRows(rows: seq<ChangeRow>): (r: seq<Scored>)
    ensures |r| == |rows|
    ensures forall k :: 0 <= k < |rows| ==>
      r[k].tissue == rows[k].tissue && r[k].gene == rows[k].gene && r[k].changes == rows[k].changes
      && r[k].fValue == FValue(rows[k].changes)
  {
    if |rows| == 0 then []
    else ScoreRows(rows[..|rows| - 1]) + [Score(rows[|rows| - 1])]
  }

  /** Line 21: the rows of one tissue, each as often as it occurs. */
  function FilterTissue(rows: seq<Scored>, tissue: string): (r: seq<Scored>)
    ensures forall x :: multiset(r)[x] == if x.tissue == tissue then multiset(rows)[x] else 0
  {
    if |rows| == 0 then []
    else
      var front := rows[..|rows| - 1];
      var x := rows[|rows| - 1];
      assert rows == front + [x];
      FilterTissue(front, tissue) + (if x.tissue == tissue then [x] else [])
  }

  /** Scores never increase along the sequence. */
  predicate Descending(s: seq<Scored>) {
    forall i, j :: 0 <= i < j < |s| ==> s[i].fValue >= s[j].fValue
  }

  /** Every row of a multiset made of `x` and the rows after the head scores at most the head. */
  lemma HeadBoundsTail(x: Scored, s: seq<Scored>, tail: seq<Scored>)
    requires Descending(s) && |s| > 0 && x.fValue < s[0].fValue
    requires multiset(tail) == multiset(s[1..]) + multiset{x}
    ensures forall k :: 0 <= k < |tail| ==> s[0].fValue >= tail[k].fValue
  {
    forall k | 0 <= k < |tail|
      ensures s[0].fValue >= tail[k].fValue
    {
      assert tail[k] in multiset(tail);
      if tail[k] != x {
        assert tail[k] in multiset(s[1..]);
        var m :| 0 <= m < |s[1..]| && s[1..][m] == tail[k];
        assert s[m + 1] == tail[k];
      }
    }
  }

  /** Places `x` before the first row it does not score below. */
  function InsertDescending(x: Scored, s: seq<Scored>): (r: seq<Scored>)
    requires Descending(s)
    ensures Descending(r)
    ensures multiset(r) == multiset(s) + multiset{x}
  {
    if |s| == 0 then [x]
    else if x.fValue >= s[0].fValue then [x] + s
    else
      var tail := InsertDescending(x, s[1..]);
      assert s == [s[0]] + s[1..];
      HeadBoundsTail(x, s, tail);
      [s[0]] + tail
  }

  /**
    Line 28: `sort_values(by='F_Value', ascending=False)`. The rows are
    reordered, none added or lost, and scores come out from high to low.
   */
  function SortDescending(s: seq<Scored>): (r: seq<Scored>)
    ensures Descending(r)
    ensures multiset(r) == multiset(s)
  {
    if |s| == 0 then []
    else
      assert s == s[..|s| - 1] + [s[|s| - 1]];
      InsertDescending(s[|s| - 1], SortDescending(s[..|s| - 1]))
  }

  /** Dropping one row from a ranking leaves a ranking. */
  lemma RemoveKeepsDescending(b: seq<Scored>, j: nat)
    requires Descending(b) && j < |b|
    ensures Descending(b[..j] + b[j + 1..])
  {
    var rest := b[..j] + b[j + 1..];
    forall p, q | 0 <= p < q < |rest|
      ensures rest[p].fValue >= rest[q].fValue
    {
      var p' := if p < j then p else p + 1;
      var q' := if q < j then q else q + 1;
      assert rest[p] == b[p'] && rest[q] == b[q'];
    }
  }

  /** Two rankings of the same rows start with the same (top) score. */
  lemma TopScoresEqual(a: seq<Scored>, b: seq<Scored>)
    requires Descending(a) && Descending(b)
    requires multiset(a) == multiset(b) && |a| > 0 && |b| > 0
    ensures a[0].fValue == b[0].fValue
  {
    assert a[0] in multiset(b);
    var j :| 0 <= j < |b| && b[j] == a[0];
    assert b[0] in multiset(a);
    var m :| 0 <= m < |a| && a[m] == b[0];
  }

  /**
    Removing the row at `j` of a ranking that starts with that row's score
    shifts the scores of the rows before it up by one place without changing them.
   */
  lemma ScoresAfterRemoval(b: seq<Scored>, j: nat, i: nat)
    requires Descending(b) && j < |b| && b[j].fValue == b[0].fValue
    requires 0 < i < |b|
    ensures (b[..j] + b[j + 1..])[i - 1].fValue == b[i].fValue
  {
    var rest := b[..j] + b[j + 1..];
    if i <= j {
      assert rest[i - 1] == b[i - 1];
      assert b[0].fValue >= b[i - 1].fValue >= b[i].fValue >= b[j].fValue;
    } else {
      assert rest[i - 1] == b[i];
    }
  }

  /** The head of `a` sits somewhere in its permutation `b`; the remaining rows match up. */
  lemma MatchHead(a: seq<Scored>, b: seq<Scored>) returns (j: nat)
    requires multiset(a) == multiset(b) && |a| > 0
    ensures j < |b| && b[j] == a[0]
    ensures multiset(a[1..]) == multiset(b[..j] + b[j + 1..])
  {
    assert a[0] in multiset(b);
    j :| 0 <= j < |b| && b[j] == a[0];
    RemoveAtMultiset(b, j);
    assert a == [a[0]] + a[1..];
  }

  /**
    However ties are broken, two rankings of the same rows show the same
    scores position by position, so the plotted curve is determined.
   */
  lemma {:induction false} RankingScoresDetermined(a: seq<Scored>, b: seq<Scored>)
    requires Descending(a) && Descending(b)
    requires multiset(a) == multiset(b)
    ensures |a| == |b|
    ensures forall i :: 0 <= i < |a| ==> a[i].fValue == b[i].fValue
    decreases |a|
  {
    assert |a| == |multiset(a)| == |multiset(b)| == |b|;
    if |a| > 0 {
      TopScoresEqual(a, b);
      var j := MatchHead(a, b);
      var rest := b[..j] + b[j + 1..];
      RemoveKeepsDescending(b, j);
      RankingScoresDetermined(a[1..], rest);
      forall i | 0 < i < |a|
        ensures a[i].fValue == b[i].fValue
      {
        assert a[1..][i - 1] == a[i];
        ScoresAfterRemoval(b, j, i);
      }
    }
  }

  /**
    Line 31: the ranked rows as (gene, score) pairs, in rank order. The plotted
    values of a ranking never rise from left to right.
   */
  function Series(ranked: seq<Scored>): (r: seq<(string, real)>)
    ensures |r| == |ranked|
    ensures forall i :: 0 <= i < |ranked| ==> r[i] == (ranked[i].gene, ranked[i].fValue)
    ensures Descending(ranked) ==> forall i, j :: 0 <= i < j < |r| ==> r[i].1 >= r[j].1
  {
    seq(|ranked|, i requires 0 <= i < |ranked| => (ranked[i].gene, ranked[i].fValue))
  }

  /** `process_gene_changes` once the change matrix has been read. */
  function ProcessGeneChanges(rows: seq<ChangeRow>, tissue: string): (r: Report)
    ensures |r.allTissues| == |rows|
    ensures forall k :: 0 <= k < |rows| ==>
      r.allTissues[k].tissue == rows[k].tissue && r.allTissues[k].gene == rows[k].gene
      && r.allTissues[k].changes == rows[k].changes && r.allTissues[k].fValue == FValue(rows[k].changes)
    ensures Descending(r.ranked)
    ensures forall x :: multiset(r.ranked)[x] == if x.tissue == tissue then multiset(r.allTissues)[x] else 0
    ensures |r.series| == |r.ranked|
    ensures forall i :: 0 <= i < |r.ranked| ==> r.series[i] == (r.ranked[i].gene, r.ranked[i].fValue)
  {
    var all := ScoreRows(rows);
    var ranked := SortDescending(FilterTissue(all, tissue));
    Report(all, ranked, Series(ranked))
  }

  /** A ranked row of the requested tissue comes from a row of the input with its own score. */
  lemma RankedFromRows(rows: seq<ChangeRow>, tissue: string, i: nat)
    requires i < |ProcessGeneChanges(rows, tissue).ranked|
    ensures var x := ProcessGeneChanges(rows, tissue).ranked[i];
      exists k :: 0 <= k < |rows| && rows[k].tissue == tissue && rows[k].gene == x.gene
                  && x.fValue == FValue(rows[k].changes)
  {
    var r := ProcessGeneChanges(rows, tissue);
    var x := r.ranked[i];
    assert x in multiset(r.ranked);
    assert multiset(r.ranked)[x] == if x.tissue == tissue then multiset(r.allTissues)[x] else 0;
    assert x.tissue == tissue && x in multiset(r.allTissues);
    var k :| 0 <= k < |r.allTissues| && r.allTissues[k] == x;
    assert rows[k].tissue == tissue && rows[k].gene == x.gene && x.fValue == FValue(rows[k].changes);
  }

  /** Every input row of the requested tissue appears in the series with its own score. */
  lemma RowInSeries(rows: seq<ChangeRow>, tissue: string, k: nat)
    requires k < |rows| && rows[k].tissue == tissue
    ensures (rows[k].gene, FValue(rows[k].changes)) in ProcessGeneChanges(rows, tissue).series
  {
    var r := ProcessGeneChanges(rows, tissue);
    var x := r.allTissues[k];
    assert x in multiset(r.allTissues);
    assert multiset(r.ranked)[x] == if x.tissue == tissue then multiset(r.allTissues)[x] else 0;
    assert x in multiset(r.ranked);
    var i :| 0 <= i < |r.ranked| && r.ranked[i] == x;
    assert r.series[i] == (rows[k].gene, FValue(rows[k].changes));
  }

  /**
    The series holds a gene with a score exactly when some row of the
    requested tissue has that gene and that row's changes give that score.
   */
  lemma SeriesExact(rows: seq<ChangeRow>, tissue: string, gene: string, f: real)
    ensures (gene, f) in ProcessGeneChanges(rows, tissue).series
      <==> exists k :: 0 <= k < |rows| && rows[k].tissue == tissue && rows[k].gene == gene
                       && f == FValue(rows[k].changes)
  {
    var series := ProcessGeneChanges(rows, tissue).series;
    if (gene, f) in series {
      var i :| 0 <= i < |series| && series[i] == (gene, f);
      RankedFromRows(rows, tissue, i);
    }
    if exists k :: 0 <= k < |rows| && rows[k].tissue == tissue && rows[k].gene == gene
                   && f == FValue(rows[k].changes) {
      var k :| 0 <= k < |rows| && rows[k].tissue == tissue && rows[k].gene == gene
               && f == FValue(rows[k].changes);
      RowInSeries(rows, tissue, k);
    }
  }

  /** Every score of a change matrix built from a corpus lies within [-1/3, 1/3]. */
  lemma CorpusScoresBounded(units: seq<Unit>, tissues: seq<string>, tissue: string, k: nat)
    requires k < |ChangesOf(units, tissues)|
    ensures var x := ProcessGeneChanges(ChangesOf(units, tissues), tissue).allTissues[k];
      -1.0 / 3.0 <= x.fValue <= 1.0 / 3.0
  {
    var row := ChangesOf(units, tissues)[k];
    forall i | 0 <= i < TRANSITIONS
      ensures -1 <= row.changes[i] <= 1
    {
      ChangeIsSignOfCounts(units, tissues, k, i);
    }
    FValueOfTernary(row.changes);
  }
}
