/**
  `save_degree_changes_to_files` without the CSV/Excel writers: for every
  tissue seen under any age and every gene of the sorted vocabulary, one row
  holding the direction of change of the gene's in-degree across each pair of
  consecutive age groups (+1 up, -1 down, 0 flat), absent entries reading as
  zero. A second pass recomputes the last transition of every row and writes
  it over the first one.
 */
module ChangeMatrix {
  import opened Seqs
  import opened StringOrder
  import opened Aggregation

  /** Number of transitions between consecutive age groups. */
  const TRANSITIONS: nat := |AGES| - 1

  /** The `Change_<a>_to_<b>` columns of a row, in age order. */
  type Changes = s: seq<int> | |s| == TRANSITIONS witness [0, 0, 0, 0, 0]

  datatype ChangeRow = ChangeRow(tissue: string, gene: string, changes: Changes)

  function Sign(x: int): int {
    if x > 0 then 1 else if x < 0 then -1 else 0
  }

  /** Column heading of transition `i` (line 89). */
  function TransitionName(i: nat): string
    requires i < TRANSITIONS
  {
    "Change_" + AGES[i] + "_to_" + AGES[i + 1]
  }

  /**
    Lines 84-88: transition `i` of (tissue, gene), comparing the degrees under
    `AGES[i]` and `AGES[i + 1]` with `.get(..., 0)` defaults.
   */
  function Change(t: DegreeTable, tissue: string, gene: string, i: nat): (r: int)
    requires i < TRANSITIONS
    ensures -1 <= r <= 1
  {
    var current := Degree(t, i, tissue, gene);
    var next := Degree(t, i + 1, tissue, gene);
    if next > current then 1 else if next < current then -1 else 0
  }

  /** The three-way comparison is the sign of the degree difference. */
  lemma ChangeIsSign(t: DegreeTable, tissue: string, gene: string, i: nat)
    requires i < TRANSITIONS
    ensures Change(t, tissue, gene, i) == Sign(Degree(t, i + 1, tissue, gene) as int - Degree(t, i, tissue, gene) as int)
  {
  }

  /** Lines 82-90: the row of (tissue, gene) built by the first pass. */
  function FirstRow(t: DegreeTable, tissue: string, gene: string): ChangeRow
  {
    ChangeRow(tissue, gene, seq(TRANSITIONS, i requires 0 <= i < TRANSITIONS => Change(t, tissue, gene, i)))
  }

  /** Lines 80-90: tissues in the given enumeration order, genes in column order. */
  function FirstPass(t: DegreeTable, tissues: seq<string>, genes: seq<string>): (rows: seq<ChangeRow>)
    ensures |rows| == |tissues| * |genes|
    ensures forall k :: 0 <= k < |rows| ==>
      rows[k].tissue in tissues && rows[k].gene in genes && rows[k] == FirstRow(t, rows[k].tissue, rows[k].gene)
    decreases |tissues|
  {
    if |tissues| == 0 then []
    else
      var here := seq(|genes|, j requires 0 <= j < |genes| => FirstRow(t, tissues[0], genes[j]));
      var rest := FirstPass(t, tissues[1..], genes);
      assert |here + rest| == |genes| + (|tissues| - 1) * |genes| == |tissues| * |genes|;
      assert forall k :: 0 <= k < |rest| ==> rest[k].tissue in tissues;
      here + rest
  }

  /**
    Lines 95-100: the last transition, recomputed from the last two age
    groups; it is the value the first pass put in the last column.
   */
  function LastChange(t: DegreeTable, tissue: string, gene: string): (r: int)
    ensures r == Change(t, tissue, gene, TRANSITIONS - 1)
  {
    var lastIndex := |AGES| - 1;
    var penultimate := Degree(t, lastIndex - 1, tissue, gene);
    var last := Degree(t, lastIndex, tissue, gene);
    if last > penultimate then 1 else if last < penultimate then -1 else 0
  }

  /** The patched row has the key and the first transitions of the original. */
  predicate KeepsEarlier(before: ChangeRow, after: ChangeRow) {
    && after.tissue == before.tissue && after.gene == before.gene
    && forall i :: 0 <= i < TRANSITIONS - 1 ==> after.changes[i] == before.changes[i]
  }

  /** Lines 101-103: every row of (tissue, gene) gets `value` as its last transition. */
  function Overwrite(rows: seq<ChangeRow>, tissue: string, gene: string, value: int): (r: seq<ChangeRow>)
    ensures |r| == |rows|
    ensures forall k :: 0 <= k < |r| ==> r[k].tissue == rows[k].tissue && r[k].gene == rows[k].gene
    ensures forall k :: 0 <= k < |r| ==> KeepsEarlier(rows[k], r[k])
    ensures forall k :: 0 <= k < |r| && rows[k].tissue == tissue && rows[k].gene == gene ==>
      r[k].changes[TRANSITIONS - 1] == value
    ensures forall k :: 0 <= k < |r| && (rows[k].tissue != tissue || rows[k].gene != gene) ==> r[k] == rows[k]
  {
    seq(|rows|, k requires 0 <= k < |rows| =>
      if rows[k].tissue == tissue && rows[k].gene == gene
      then rows[k].(changes := rows[k].changes[TRANSITIONS - 1 := value])
      else rows[k])
  }

  /** Lines 94-103 for one tissue: the genes in column order. */
  function PatchGenes(rows: seq<ChangeRow>, t: DegreeTable, tissue: string, genes: seq<string>): (r: seq<ChangeRow>)
    ensures |r| == |rows|
    ensures forall k :: 0 <= k < |r| ==> KeepsEarlier(rows[k], r[k])
    ensures forall k :: 0 <= k < |r| && rows[k].tissue != tissue ==> r[k] == rows[k]
    ensures forall k :: 0 <= k < |r| && rows[k].tissue == tissue && rows[k].gene in genes ==>
      r[k].changes[TRANSITIONS - 1] == LastChange(t, tissue, rows[k].gene)
    ensures forall k :: 0 <= k < |r| && rows[k].gene !in genes ==> r[k] == rows[k]
    decreases |genes|
  {
    if |genes| == 0 then rows
    else PatchGenes(Overwrite(rows, tissue, genes[0], LastChange(t, tissue, genes[0])), t, tissue, genes[1..])
  }

  /** Lines 93-103: the second pass over every (tissue, gene). */
  function SecondPass(rows: seq<ChangeRow>, t: DegreeTable, tissues: seq<string>, genes: seq<string>): seq<ChangeRow>
    decreases |tissues|
  {
    if |tissues| == 0 then rows
    else SecondPass(PatchGenes(rows, t, tissues[0], genes), t, tissues[1..], genes)
  }

  /**
    The second pass only ever rewrites last transitions, and only of rows
    whose tissue it visits: keys, order and earlier transitions are kept, and
    every visited (tissue, gene) row ends with the recomputed last transition.
   */
  lemma {:induction false} SecondPassKeeps(rows: seq<ChangeRow>, t: DegreeTable, tissues: seq<string>, genes: seq<string>)
    ensures |SecondPass(rows, t, tissues, genes)| == |rows|
    ensures forall k :: 0 <= k < |rows| ==> KeepsEarlier(rows[k], SecondPass(rows, t, tissues, genes)[k])
    ensures forall k :: 0 <= k < |rows| && rows[k].tissue !in tissues ==> SecondPass(rows, t, tissues, genes)[k] == rows[k]
    ensures forall k :: 0 <= k < |rows| && rows[k].tissue in tissues && rows[k].gene in genes ==>
      SecondPass(rows, t, tissues, genes)[k].changes[TRANSITIONS - 1] == LastChange(t, rows[k].tissue, rows[k].gene)
    decreases |tissues|
  {
    if |tissues| > 0 {
      var patched := PatchGenes(rows, t, tissues[0], genes);
      SecondPassKeeps(patched, t, tissues[1..], genes);
      forall k | 0 <= k < |rows| && rows[k].tissue !in tissues
        ensures SecondPass(rows, t, tissues, genes)[k] == rows[k]
      {
        assert rows[k].tissue !in tissues[1..];
      }
    }
  }

  /** Lines 74-103: both passes over the sorted vocabulary. */
  function BuildChangeMatrix(t: DegreeTable, tissues: seq<string>, vocabulary: seq<string>): seq<ChangeRow>
  {
    var genes := SortedSet(vocabulary);
    SecondPass(FirstPass(t, tissues, genes), t, tissues, genes)
  }

  // ---------------------------------------------------------------------------
  // The second pass is redundant.

  /** Every row already holds the value the second pass would write. */
  predicate LastAgrees(rows: seq<ChangeRow>, t: DegreeTable) {
    forall k :: 0 <= k < |rows| ==> rows[k].changes[TRANSITIONS - 1] == LastChange(t, rows[k].tissue, rows[k].gene)
  }

  lemma OverwriteAgreeing(rows: seq<ChangeRow>, t: DegreeTable, tissue: string, gene: string)
    requires LastAgrees(rows, t)
    ensures Overwrite(rows, tissue, gene, LastChange(t, tissue, gene)) == rows
  {
    var r := Overwrite(rows, tissue, gene, LastChange(t, tissue, gene));
    forall k | 0 <= k < |rows|
      ensures r[k] == rows[k]
    {
      if rows[k].tissue == tissue && rows[k].gene == gene {
        assert rows[k].changes[TRANSITIONS - 1 := LastChange(t, tissue, gene)] == rows[k].changes;
      }
    }
  }

  lemma {:induction false} PatchGenesAgreeing(rows: seq<ChangeRow>, t: DegreeTable, tissue: string, genes: seq<string>)
    requires LastAgrees(rows, t)
    ensures PatchGenes(rows, t, tissue, genes) == rows
    decreases |genes|
  {
    if |genes| > 0 {
      OverwriteAgreeing(rows, t, tissue, genes[0]);
      PatchGenesAgreeing(rows, t, tissue, genes[1..]);
    }
  }

  /** The second pass leaves rows that already agree on their last transition unchanged. */
  lemma {:induction false} SecondPassAgreeing(rows: seq<ChangeRow>, t: DegreeTable, tissues: seq<string>, genes: seq<string>)
    requires LastAgrees(rows, t)
    ensures SecondPass(rows, t, tissues, genes) == rows
    decreases |tissues|
  {
    if |tissues| > 0 {
      PatchGenesAgreeing(rows, t, tissues[0], genes);
      SecondPassAgreeing(rows, t, tissues[1..], genes);
    }
  }

  /**
    The second pass changes nothing: the last column of the first pass is
    already computed by the same rule, so the matrix equals the single
    uniform pass.
   */
  lemma SecondPassChangesNothing(t: DegreeTable, tissues: seq<string>, vocabulary: seq<string>)
    ensures BuildChangeMatrix(t, tissues, vocabulary) == FirstPass(t, tissues, SortedSet(vocabulary))
  {
    var rows := FirstPass(t, tissues, SortedSet(vocabulary));
    assert LastAgrees(rows, t);
    SecondPassAgreeing(rows, t, tissues, SortedSet(vocabulary));
  }

  // ---------------------------------------------------------------------------
  // Shape of the first pass.

  /** Some row is keyed (tissue, gene). */
  predicate PairListed(rows: seq<ChangeRow>, tissue: string, gene: string) {
    exists k :: 0 <= k < |rows| && rows[k].tissue == tissue && rows[k].gene == gene
  }

  lemma {:induction false} FirstPassCover(t: DegreeTable, tissues: seq<string>, genes: seq<string>, tissue: string, gene: string)
    requires tissue in tissues && gene in genes
    ensures PairListed(FirstPass(t, tissues, genes), tissue, gene)
    decreases |tissues|
  {
    var here := seq(|genes|, j requires 0 <= j < |genes| => FirstRow(t, tissues[0], genes[j]));
    var rest := FirstPass(t, tissues[1..], genes);
    var rows := FirstPass(t, tissues, genes);
    assert rows == here + rest;
    if tissues[0] == tissue {
      var j :| 0 <= j < |genes| && genes[j] == gene;
      assert rows[j] == here[j];
    } else {
      assert tissue in tissues[1..];
      FirstPassCover(t, tissues[1..], genes, tissue, gene);
      var k :| 0 <= k < |rest| && rest[k].tissue == tissue && rest[k].gene == gene;
      assert rows[|here| + k] == rest[k];
    }
  }

  lemma {:induction false} FirstPassDistinct(t: DegreeTable, tissues: seq<string>, genes: seq<string>, i: nat, j: nat)
    requires NoDup(tissues) && NoDup(genes)
    requires i < j < |FirstPass(t, tissues, genes)|
    ensures FirstPass(t, tissues, genes)[i].tissue != FirstPass(t, tissues, genes)[j].tissue
      || FirstPass(t, tissues, genes)[i].gene != FirstPass(t, tissues, genes)[j].gene
    decreases |tissues|
  {
    var here := seq(|genes|, j requires 0 <= j < |genes| => FirstRow(t, tissues[0], genes[j]));
    var rest := FirstPass(t, tissues[1..], genes);
    var rows := FirstPass(t, tissues, genes);
    assert rows == here + rest;
    assert NoDup(tissues[1..]);
    if j < |here| {
      assert rows[i] == here[i] && rows[j] == here[j];
    } else if i < |here| {
      assert rows[i].tissue == tissues[0];
      assert rows[j] == rest[j - |here|];
      assert tissues[0] !in tissues[1..];
    } else {
      FirstPassDistinct(t, tissues[1..], genes, i - |here|, j - |here|);
      assert rows[i] == rest[i - |here|] && rows[j] == rest[j - |here|];
    }
  }

  // ---------------------------------------------------------------------------
  // The change matrix of a corpus.

  /** The tissue appears under some age (line 80's set comprehension). */
  predicate TissueSeen(t: DegreeTable, tissue: string) {
    exists a: Age :: HasKey(t, a, tissue)
  }

  /** `tissues` enumerates that set once each, in whatever order Python's set yields. */
  ghost predicate EnumeratesTissues(t: DegreeTable, tissues: seq<string>) {
    NoDup(tissues) && forall x :: x in tissues <==> TissueSeen(t, x)
  }

  /** The change matrix of a corpus, for one enumeration of its tissue set. */
  function ChangesOf(units: seq<Unit>, tissues: seq<string>): seq<ChangeRow>
  {
    var tally := ProcessFolders(units);
    BuildChangeMatrix(tally.table, tissues, tally.genes)
  }

  /**
    There is a row for (tissue, gene) exactly when the tissue had an edge
    under some age and the gene is in the vocabulary, and no pair has two rows;
    so there are (number of tissues) x (vocabulary size) rows.
   */
  lemma ChangeRowsExact(units: seq<Unit>, tissues: seq<string>, tissue: string, gene: string)
    requires EnumeratesTissues(ProcessFolders(units).table, tissues)
    ensures PairListed(ChangesOf(units, tissues), tissue, gene)
      <==> (exists a: Age :: EdgesRead(Records(units), a, tissue) > 0) && gene in ProcessFolders(units).genes
    ensures forall i, j :: 0 <= i < j < |ChangesOf(units, tissues)| ==>
      ChangesOf(units, tissues)[i].tissue != ChangesOf(units, tissues)[j].tissue
      || ChangesOf(units, tissues)[i].gene != ChangesOf(units, tissues)[j].gene
  {
    var tally := ProcessFolders(units);
    var genes := SortedSet(tally.genes);
    var rows := ChangesOf(units, tissues);
    SecondPassChangesNothing(tally.table, tissues, tally.genes);
    assert rows == FirstPass(tally.table, tissues, genes);
    if TissueSeen(tally.table, tissue) {
      var a: Age :| HasKey(tally.table, a, tissue);
      KeyIffEdges(units, a, tissue);
    }
    if exists a: Age :: EdgesRead(Records(units), a, tissue) > 0 {
      var a: Age :| EdgesRead(Records(units), a, tissue) > 0;
      KeyIffEdges(units, a, tissue);
    }
    if tissue in tissues && gene in genes {
      FirstPassCover(tally.table, tissues, genes, tissue, gene);
    }
    StrictlySortedNoDup(genes);
    forall i, j | 0 <= i < j < |rows|
      ensures rows[i].tissue != rows[j].tissue || rows[i].gene != rows[j].gene
    {
      FirstPassDistinct(tally.table, tissues, genes, i, j);
    }
  }

  /** Each row of the change matrix is the one the first pass computes for its pair. */
  lemma ChangesOfRow(units: seq<Unit>, tissues: seq<string>, k: nat)
    requires k < |ChangesOf(units, tissues)|
    ensures ChangesOf(units, tissues)[k]
      == FirstRow(ProcessFolders(units).table, ChangesOf(units, tissues)[k].tissue, ChangesOf(units, tissues)[k].gene)
  {
    var tally := ProcessFolders(units);
    SecondPassChangesNothing(tally.table, tissues, tally.genes);
  }

  /**
    Every transition value of the change matrix is -1, 0 or 1: the sign of the
    number of edges into the gene read for the tissue under the later age group
    minus the number read under the earlier one (0 where none were read).
   */
  lemma ChangeIsSignOfCounts(units: seq<Unit>, tissues: seq<string>, k: nat, i: nat)
    requires k < |ChangesOf(units, tissues)| && i < TRANSITIONS
    ensures var row := ChangesOf(units, tissues)[k];
      -1 <= row.changes[i] <= 1
      && row.changes[i] == Sign(InDegree(Records(units), i + 1, row.tissue, row.gene) as int
                                - InDegree(Records(units), i, row.tissue, row.gene) as int)
  {
    var tally := ProcessFolders(units);
    var row := ChangesOf(units, tissues)[k];
    CountsStored(units, i, row.tissue, row.gene);
    MatrixSignOfCounts(tally.table, tissues, tally.genes, Records(units), k, i);
  }

  /** The table holds the counts of `rs` for (tissue, gene) at both ends of transition `i`. */
  predicate StoresCounts(t: DegreeTable, rs: seq<Record>, i: nat, tissue: string, gene: string)
    requires i < TRANSITIONS
  {
    Degree(t, i, tissue, gene) == InDegree(rs, i, tissue, gene)
    && Degree(t, i + 1, tissue, gene) == InDegree(rs, i + 1, tissue, gene)
  }

  lemma CountsStored(units: seq<Unit>, i: nat, tissue: string, gene: string)
    requires i < TRANSITIONS
    ensures StoresCounts(ProcessFolders(units).table, Records(units), i, tissue, gene)
  {
    DegreeIsMultiplicity(units, i, tissue, gene);
    DegreeIsMultiplicity(units, i + 1, tissue, gene);
  }

  /** A row of the change matrix of a table that stores the counts of `rs` holds their signs. */
  lemma MatrixSignOfCounts(t: DegreeTable, tissues: seq<string>, vocabulary: seq<string>, rs: seq<Record>, k: nat, i: nat)
    requires k < |BuildChangeMatrix(t, tissues, vocabulary)| && i < TRANSITIONS
    requires StoresCounts(t, rs, i, BuildChangeMatrix(t, tissues, vocabulary)[k].tissue, BuildChangeMatrix(t, tissues, vocabulary)[k].gene)
    ensures var row := BuildChangeMatrix(t, tissues, vocabulary)[k];
      -1 <= row.changes[i] <= 1
      && row.changes[i] == Sign(InDegree(rs, i + 1, row.tissue, row.gene) as int - InDegree(rs, i, row.tissue, row.gene) as int)
  {
    SecondPassChangesNothing(t, tissues, vocabulary);
    var row := BuildChangeMatrix(t, tissues, vocabulary)[k];
    RowSignOfCounts(t, rs, row, i);
  }

  /** A first-pass row over a table that stores the counts of `rs` holds their signs. */
  lemma RowSignOfCounts(t: DegreeTable, rs: seq<Record>, row: ChangeRow, i: nat)
    requires i < TRANSITIONS && row == FirstRow(t, row.tissue, row.gene)
    requires Degree(t, i, row.tissue, row.gene) == InDegree(rs, i, row.tissue, row.gene)
    requires Degree(t, i + 1, row.tissue, row.gene) == InDegree(rs, i + 1, row.tissue, row.gene)
    ensures -1 <= row.changes[i] <= 1
    ensures row.changes[i] == Sign(InDegree(rs, i + 1, row.tissue, row.gene) as int - InDegree(rs, i, row.tissue, row.gene) as int)
  {
    assert row.changes[i] == Change(t, row.tissue, row.gene, i);
    ChangeIsSign(t, row.tissue, row.gene, i);
  }
}
