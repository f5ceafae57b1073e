/**
  A worked corpus: tissue "brain" with the edge A -> B under age group 20
  and the edges A -> B and C -> B under age group 30.
 */
module Scenario {
  import opened Seqs
  import opened StringOrder
  import opened Aggregation
  import opened DegreeMatrix
  import opened ChangeMatrix

  function BrainCorpus(): seq<Unit> {
    [Unit(0, "brain", [Edge("A", "B")]), Unit(1, "brain", [Edge("A", "B"), Edge("C", "B")])]
  }

  function BrainRecordList(): seq<Record> {
    [Record(0, "brain", Edge("A", "B")), Record(1, "brain", Edge("A", "B")), Record(1, "brain", Edge("C", "B"))]
  }

  /** The corpus's record stream, in processing order. */
  lemma BrainRecords()
    ensures Records(BrainCorpus()) == BrainRecordList()
  {
    var units := BrainCorpus();
    assert units[..1] == [units[0]];
    assert units[..1][..0] == [];
  }

  /** Counting over the record stream, age group by age group. */
  lemma BrainCounts(a: Age)
    ensures InDegree(BrainRecordList(), a, "brain", "B") == if a == 0 then 1 else if a == 1 then 2 else 0
    ensures InDegree(BrainRecordList(), a, "brain", "C") == 0
    ensures EdgesRead(BrainRecordList(), a, "brain") > 0 <==> a <= 1
  {
    var rs := BrainRecordList();
    var r1, r2 := rs[..1], rs[..2];
    assert r2[..1] == r1 && r1[..0] == [] && rs[..2] == r2;
    assert "C" != "B";
    var p, q, e := TargetsIn(a, "brain", "B"), TargetsIn(a, "brain", "C"), ReadFrom(a, "brain");
    assert Count(r1, p) == (if a == 0 then 1 else 0) && Count(r1, q) == 0 && Count(r1, e) == (if a == 0 then 1 else 0);
    assert Count(r2, p) == (if a <= 1 then 1 else 0) && Count(r2, q) == 0;
    assert Count(r2, e) == (if a <= 1 then 1 else 0);
  }

  /** The genes the records name. */
  lemma BrainMentions(g: string)
    ensures Mentions(BrainRecordList(), g) <==> g == "A" || g == "B" || g == "C"
  {
    var rs := BrainRecordList();
    assert rs[0].edge.source == "A" && rs[0].edge.target == "B" && rs[2].edge.source == "C";
  }

  /** The vocabulary is {A, B, C}. */
  lemma BrainGenes(units: seq<Unit>, g: string)
    requires Records(units) == BrainRecordList()
    ensures g in ProcessFolders(units).genes <==> g == "A" || g == "B" || g == "C"
  {
    VocabularyClosure(units, g);
    BrainMentions(g);
  }

  /** The matrix columns are A, B, C in that order. */
  lemma BrainColumns(units: seq<Unit>)
    requires Records(units) == BrainRecordList()
    ensures MatrixOf(units).genes == ["A", "B", "C"]
  {
    var columns := MatrixOf(units).genes;
    forall g ensures g in columns <==> g in ["A", "B", "C"] {
      BrainGenes(units, g);
    }
    assert StrictlySorted(["A", "B", "C"]);
    SortedUnique(columns, ["A", "B", "C"]);
  }

  /** The degree matrix has rows for (20, brain) and (30, brain) and for no other age group. */
  lemma BrainRows(units: seq<Unit>, a: Age)
    requires Records(units) == BrainRecordList()
    ensures HasRow(MatrixOf(units), a, "brain") <==> a <= 1
  {
    RowIffEdges(units, a, "brain");
    BrainCounts(a);
  }

  /** B's in-degree is 1 under age group 20, 2 under 30 and 0 later; C is never a target. */
  lemma BrainDegrees(units: seq<Unit>, a: Age)
    requires Records(units) == BrainRecordList()
    ensures Degree(ProcessFolders(units).table, a, "brain", "B") == if a == 0 then 1 else if a == 1 then 2 else 0
    ensures Degree(ProcessFolders(units).table, a, "brain", "C") == 0
  {
    BrainCounts(a);
    DegreeIsMultiplicity(units, a, "brain", "B");
    DegreeIsMultiplicity(units, a, "brain", "C");
  }

  /** The in-degrees the scenario expects, per gene and age group. */
  function Expected(gene: string, a: Age): nat {
    if gene == "B" && a == 0 then 1 else if gene == "B" && a == 1 then 2 else 0
  }

  /**
    B's first two transitions are +1 (1 -> 2) and -1 (2 -> 0), the rest 0;
    all of C's transitions are 0.
   */
  lemma BrainChanges(units: seq<Unit>, i: nat)
    requires Records(units) == BrainRecordList() && i < TRANSITIONS
    ensures Change(ProcessFolders(units).table, "brain", "B", i) == if i == 0 then 1 else if i == 1 then -1 else 0
    ensures Change(ProcessFolders(units).table, "brain", "C", i) == 0
  {
    BrainTransition(units, i);
    ExpectedChanges(ProcessFolders(units).table, i);
  }

  /** The table holds the expected degrees of B and C at both ends of transition `i`. */
  predicate HoldsExpected(t: DegreeTable, i: nat)
    requires i < TRANSITIONS
  {
    Degree(t, i, "brain", "B") == Expected("B", i) && Degree(t, i + 1, "brain", "B") == Expected("B", i + 1) &&
    Degree(t, i, "brain", "C") == Expected("C", i) && Degree(t, i + 1, "brain", "C") == Expected("C", i + 1)
  }

  lemma BrainTransition(units: seq<Unit>, i: nat)
    requires Records(units) == BrainRecordList() && i < TRANSITIONS
    ensures HoldsExpected(ProcessFolders(units).table, i)
  {
    BrainDegrees(units, i);
    BrainDegrees(units, i + 1);
  }

  /** The transitions of any table holding the expected degrees. */
  lemma ExpectedChanges(t: DegreeTable, i: nat)
    requires i < TRANSITIONS && HoldsExpected(t, i)
    ensures Change(t, "brain", "B", i) == if i == 0 then 1 else if i == 1 then -1 else 0
    ensures Change(t, "brain", "C", i) == 0
  {
    ChangeIsSign(t, "brain", "B", i);
    ChangeIsSign(t, "brain", "C", i);
    assert "C" != "B";
  }

  /**
    A corpus without a single edge has an empty vocabulary, a degree matrix
    with no columns and no rows (a file without rows creates no key), and an
    empty change matrix, whatever tissue enumeration is used.
   */
  lemma NoEdges(units: seq<Unit>, tissues: seq<string>)
    requires Records(units) == []
    ensures ProcessFolders(units).genes == []
    ensures MatrixOf(units).genes == [] && MatrixOf(units).rows == []
    ensures ChangesOf(units, tissues) == []
  {
    var tally := ProcessFolders(units);
    if |tally.genes| > 0 {
      VocabularyClosure(units, tally.genes[0]);
      assert false;
    }
    var m := MatrixOf(units);
    if |m.rows| > 0 {
      RowIffEdges(units, m.rows[0].age, m.rows[0].tissue);
      assert false;
    }
    SecondPassChangesNothing(tally.table, tissues, tally.genes);
  }
}
