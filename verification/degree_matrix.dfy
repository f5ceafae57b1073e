/**
  `save_degree_matrix_to_files` without the CSV/Excel writers: one row per
  existing (age group, tissue) key of the degree table, in the table's
  insertion order, holding `AgeGroup`, `Tissue` and then one zero-filled cell
  per gene of the sorted vocabulary.
 */
module DegreeMatrix {
  import opened Seqs
  import opened StringOrder
  import opened Aggregation

  /** One output row; its `AgeGroup` column reads `AGES[age]`. */
  datatype Row = Row(age: Age, tissue: string, cells: seq<nat>)

  /** The gene columns (after `AgeGroup` and `Tissue`) and the rows. */
  datatype Matrix = Matrix(genes: seq<string>, rows: seq<Row>)

  /** `genes.get(gene, 0)` of one key, for each column gene in order. */
  function Cells(t: DegreeTable, genes: seq<string>, age: Age, tissue: string): (cells: seq<nat>)
    ensures |cells| == |genes|
  {
    seq(|genes|, j requires 0 <= j < |genes| => Degree(t, age, tissue, genes[j]))
  }

  /** Lines 57-59 read as a typed row: the key, then one cell per column gene. */
  function MakeRow(t: DegreeTable, genes: seq<string>, age: Age, tissue: string): (r: Row)
    ensures r.age == age && r.tissue == tissue && |r.cells| == |genes|
  {
    Row(age, tissue, Cells(t, genes, age, tissue))
  }

  /** A value of the row dictionary: one of the two labels, or a degree. */
  datatype Field = Text(text: string) | Number(n: nat)

  const AGE_GROUP_COLUMN: string := "AgeGroup"

  const TISSUE_COLUMN: string := "Tissue"

  /**
    Lines 57-59 as written: the row is a dictionary keyed by column name. The
    two labels are stored first and every gene is then stored under its own
    name, so a gene called `AgeGroup` or `Tissue` replaces that label with
    its degree instead of getting a column of its own.
   */
  function DictRow(t: DegreeTable, genes: seq<string>, age: Age, tissue: string): (r: map<string, Field>)
    ensures forall c :: c in r <==> c == AGE_GROUP_COLUMN || c == TISSUE_COLUMN || c in genes
    ensures forall g :: g in genes ==> r[g] == Number(Degree(t, age, tissue, g))
    ensures AGE_GROUP_COLUMN !in genes ==> r[AGE_GROUP_COLUMN] == Text(AGES[age])
    ensures TISSUE_COLUMN !in genes ==> r[TISSUE_COLUMN] == Text(tissue)
    decreases |genes|
  {
    if |genes| == 0 then map[AGE_GROUP_COLUMN := Text(AGES[age]), TISSUE_COLUMN := Text(tissue)]
    else
      var front := genes[..|genes| - 1];
      var g := genes[|genes| - 1];
      assert genes == front + [g];
      DictRow(t, front, age, tissue)[g := Number(Degree(t, age, tissue, g))]
  }

  /**
    When no gene is named like a label column, the typed row says what the
    dictionary says: its labels are the key and each cell is the value stored
    under its column gene.
   */
  lemma MakeRowIsDictRow(t: DegreeTable, genes: seq<string>, age: Age, tissue: string)
    requires AGE_GROUP_COLUMN !in genes && TISSUE_COLUMN !in genes
    ensures var d, r := DictRow(t, genes, age, tissue), MakeRow(t, genes, age, tissue);
      d[AGE_GROUP_COLUMN] == Text(AGES[r.age]) && d[TISSUE_COLUMN] == Text(r.tissue)
      && forall j :: 0 <= j < |genes| ==> d[genes[j]] == Number(r.cells[j])
  {
  }

  /**
    A gene named `Tissue` overwrites the tissue label: the row no longer says
    which tissue it belongs to, and the age group is the only label left.
   */
  lemma TissueGeneHidesLabel(t: DegreeTable, genes: seq<string>, age: Age, tissue: string)
    requires TISSUE_COLUMN in genes
    ensures DictRow(t, genes, age, tissue)[TISSUE_COLUMN] == Number(Degree(t, age, tissue, TISSUE_COLUMN))
    ensures forall c :: c in DictRow(t, genes, age, tissue) && DictRow(t, genes, age, tissue)[c].Text? ==> c == AGE_GROUP_COLUMN
  {
  }

  /** The tissues recorded under `age`, in insertion order (none for an absent age). */
  function TissuesAt(t: DegreeTable, age: Age): seq<string>
  {
    if age in t.tissues then t.tissues[age] else []
  }

  /** Line 56-60: the rows of one age, one per tissue recorded under it, in insertion order. */
  function TissueRows(t: DegreeTable, genes: seq<string>, age: Age): (rows: seq<Row>)
    ensures |rows| == |TissuesAt(t, age)|
    ensures forall k :: 0 <= k < |rows| ==> rows[k] == MakeRow(t, genes, age, TissuesAt(t, age)[k])
    ensures forall k :: 0 <= k < |rows| ==> HasKey(t, age, rows[k].tissue)
  {
    var inner := TissuesAt(t, age);
    seq(|inner|, k requires 0 <= k < |inner| => MakeRow(t, genes, age, inner[k]))
  }

  /** Lines 55-60: the ages in order, and under each its tissues in order. */
  function AgeRows(t: DegreeTable, genes: seq<string>, ages: seq<Age>): (rows: seq<Row>)
    ensures forall i :: 0 <= i < |rows| ==>
      rows[i].age in ages && HasKey(t, rows[i].age, rows[i].tissue)
      && rows[i] == MakeRow(t, genes, rows[i].age, rows[i].tissue)
    decreases |ages|
  {
    if |ages| == 0 then []
    else
      var here := TissueRows(t, genes, ages[0]);
      var rest := AgeRows(t, genes, ages[1..]);
      assert forall i :: 0 <= i < |rest| ==> rest[i].age in ages;
      here + rest
  }

  /** Some row is keyed (age, tissue). */
  predicate KeyListed(rows: seq<Row>, age: Age, tissue: string) {
    exists i :: 0 <= i < |rows| && rows[i].age == age && rows[i].tissue == tissue
  }

  /** Every existing key whose age is listed gets a row. */
  lemma {:induction false} AgeRowsCover(t: DegreeTable, genes: seq<string>, ages: seq<Age>, age: Age, tissue: string)
    requires age in ages && HasKey(t, age, tissue)
    ensures KeyListed(AgeRows(t, genes, ages), age, tissue)
    decreases |ages|
  {
    var here := TissueRows(t, genes, ages[0]);
    var rest := AgeRows(t, genes, ages[1..]);
    var rows := AgeRows(t, genes, ages);
    assert rows == here + rest;
    if ages[0] == age {
      var k :| 0 <= k < |TissuesAt(t, age)| && TissuesAt(t, age)[k] == tissue;
      assert rows[k] == here[k];
    } else {
      assert age in ages[1..];
      AgeRowsCover(t, genes, ages[1..], age, tissue);
      var i :| 0 <= i < |rest| && rest[i].age == age && rest[i].tissue == tissue;
      assert rows[|here| + i] == rest[i];
    }
  }

  /** With no age listed twice and no tissue twice under one age, no key gets two rows. */
  lemma {:induction false} AgeRowsDistinct(t: DegreeTable, genes: seq<string>, ages: seq<Age>, i: nat, j: nat)
    requires NoDup(ages) && (forall a :: a in t.tissues ==> NoDup(t.tissues[a]))
    requires i < j < |AgeRows(t, genes, ages)|
    ensures AgeRows(t, genes, ages)[i].age != AgeRows(t, genes, ages)[j].age
      || AgeRows(t, genes, ages)[i].tissue != AgeRows(t, genes, ages)[j].tissue
    decreases |ages|
  {
    var here := TissueRows(t, genes, ages[0]);
    var rest := AgeRows(t, genes, ages[1..]);
    var rows := AgeRows(t, genes, ages);
    assert rows == here + rest;
    assert NoDup(ages[1..]);
    if j < |here| {
      assert rows[i] == here[i] && rows[j] == here[j];
      assert NoDup(TissuesAt(t, ages[0]));
    } else if i < |here| {
      assert rows[i].age == ages[0];
      assert rows[j] == rest[j - |here|];
      assert rest[j - |here|].age in ages[1..];
      assert ages[0] !in ages[1..];
    } else {
      AgeRowsDistinct(t, genes, ages[1..], i - |here|, j - |here|);
      assert rows[i] == rest[i - |here|] && rows[j] == rest[j - |here|];
    }
  }

  /** Lines 48-60: columns are `sorted(all_genes)`, rows follow the table. */
  function BuildDegreeMatrix(tally: Tally): (m: Matrix)
    ensures StrictlySorted(m.genes)
    ensures forall g :: g in m.genes <==> g in tally.genes
    ensures forall i :: 0 <= i < |m.rows| ==>
      HasKey(tally.table, m.rows[i].age, m.rows[i].tissue) && |m.rows[i].cells| == |m.genes|
    ensures forall i, j :: 0 <= i < |m.rows| && 0 <= j < |m.genes| ==>
      m.rows[i].cells[j] == Degree(tally.table, m.rows[i].age, m.rows[i].tissue, m.genes[j])
  {
    var genes := SortedSet(tally.genes);
    Matrix(genes, AgeRows(tally.table, genes, tally.table.ages))
  }

  /** The matrix built from a corpus. */
  function MatrixOf(units: seq<Unit>): Matrix
  {
    BuildDegreeMatrix(ProcessFolders(units))
  }

  /**
    Unless a gene is called `AgeGroup` or `Tissue`, every row of the matrix
    is the dictionary lines 57-59 build for its key, with the columns in
    order.
   */
  lemma MatrixRowIsDictRow(units: seq<Unit>, i: nat)
    requires i < |MatrixOf(units).rows|
    requires AGE_GROUP_COLUMN !in ProcessFolders(units).genes && TISSUE_COLUMN !in ProcessFolders(units).genes
    ensures var m := MatrixOf(units);
      var d := DictRow(ProcessFolders(units).table, m.genes, m.rows[i].age, m.rows[i].tissue);
      d[AGE_GROUP_COLUMN] == Text(AGES[m.rows[i].age]) && d[TISSUE_COLUMN] == Text(m.rows[i].tissue)
      && forall j :: 0 <= j < |m.genes| ==> d[m.genes[j]] == Number(m.rows[i].cells[j])
  {
    var m := MatrixOf(units);
    var row := m.rows[i];
    assert row == MakeRow(ProcessFolders(units).table, m.genes, row.age, row.tissue);
    MakeRowIsDictRow(ProcessFolders(units).table, m.genes, row.age, row.tissue);
  }

  /** The matrix has a row for (age, tissue). */
  predicate HasRow(m: Matrix, age: Age, tissue: string) {
    KeyListed(m.rows, age, tissue)
  }

  // ---------------------------------------------------------------------------
  // Properties of the degree matrix built from a corpus.

  /**
    There is a row for (age, tissue) exactly when at least one edge was read
    for it: no phantom rows for unobserved combinations.
   */
  lemma RowIffEdges(units: seq<Unit>, age: Age, tissue: string)
    ensures HasRow(MatrixOf(units), age, tissue) <==> EdgesRead(Records(units), age, tissue) > 0
  {
    var tally := ProcessFolders(units);
    TableValid(units);
    KeyIffEdges(units, age, tissue);
    if HasKey(tally.table, age, tissue) {
      assert age in tally.table.ages;
      AgeRowsCover(tally.table, MatrixOf(units).genes, tally.table.ages, age, tissue);
    }
  }

  /** No (age, tissue) key has two rows. */
  lemma RowsDistinct(units: seq<Unit>, i: nat, j: nat)
    requires i < j < |MatrixOf(units).rows|
    ensures MatrixOf(units).rows[i].age != MatrixOf(units).rows[j].age
      || MatrixOf(units).rows[i].tissue != MatrixOf(units).rows[j].tissue
  {
    var tally := ProcessFolders(units);
    TableValid(units);
    AgeRowsDistinct(tally.table, MatrixOf(units).genes, tally.table.ages, i, j);
  }

  /** Every cell is the number of edges into its column gene read for its row's key. */
  lemma CellIsInDegree(units: seq<Unit>, i: nat, j: nat)
    requires i < |MatrixOf(units).rows| && j < |MatrixOf(units).genes|
    ensures MatrixOf(units).rows[i].cells[j]
      == InDegree(Records(units), MatrixOf(units).rows[i].age, MatrixOf(units).rows[i].tissue, MatrixOf(units).genes[j])
  {
    var m := MatrixOf(units);
    DegreeIsMultiplicity(units, m.rows[i].age, m.rows[i].tissue, m.genes[j]);
  }

  lemma {:induction false} SumSplit(x: seq<int>, y: seq<int>, z: seq<int>)
    requires |x| == |y| == |z|
    requires forall j :: 0 <= j < |x| ==> x[j] == y[j] + z[j]
    ensures Sum(x) == Sum(y) + Sum(z)
    decreases |x|
  {
    if |x| > 0 {
      SumSplit(x[..|x| - 1], y[..|y| - 1], z[..|z| - 1]);
    }
  }

  /** A 0/1 sequence with a one exactly where `genes` holds `g` sums to 1 if `g` is a column, else 0. */
  lemma {:induction false} SumIndicator(z: seq<int>, genes: seq<string>, g: string)
    requires |z| == |genes| && NoDup(genes)
    requires forall j :: 0 <= j < |z| ==> z[j] == (if genes[j] == g then 1 else 0)
    ensures Sum(z) == (if g in genes then 1 else 0)
    decreases |z|
  {
    if |z| > 0 {
      var n := |z| - 1;
      SumIndicator(z[..n], genes[..n], g);
      assert g in genes <==> g in genes[..n] || genes[n] == g;
      if genes[n] == g {
        assert g !in genes[..n];
      }
    }
  }

  lemma {:induction false} ReplayRowSum(rs: seq<Record>, genes: seq<string>, age: Age, tissue: string)
    requires NoDup(genes)
    requires forall k :: 0 <= k < |rs| && ReadFrom(age, tissue)(rs[k]) ==> rs[k].edge.target in genes
    ensures Sum(Cells(Replay(EMPTY, rs).table, genes, age, tissue)) == EdgesRead(rs, age, tissue)
    decreases |rs|
  {
    if |rs| == 0 {
      var z := Cells(Replay(EMPTY, rs).table, genes, age, tissue);
      SumSplit(z, z, z);
    } else {
      var front := rs[..|rs| - 1];
      var x := rs[|rs| - 1];
      ReplayRowSum(front, genes, age, tissue);
      var before := Replay(EMPTY, front).table;
      var after := Replay(EMPTY, rs).table;
      assert after == Bump(before, x.age, x.tissue, x.edge.target);
      var hit := seq(|genes|, j requires 0 <= j < |genes| =>
        if (age, tissue, genes[j]) == (x.age, x.tissue, x.edge.target) then 1 else 0);
      SumSplit(Cells(after, genes, age, tissue), Cells(before, genes, age, tissue), hit);
      if ReadFrom(age, tissue)(x) {
        SumIndicator(hit, genes, x.edge.target);
      } else {
        SumSplit(hit, hit, hit);
      }
    }
  }

  /**
    The cells of a row add up to the number of edges read for its key: every
    target gene is a column, and each edge counts once.
   */
  lemma RowSumIsEdgeCount(units: seq<Unit>, i: nat)
    requires i < |MatrixOf(units).rows|
    ensures Sum(MatrixOf(units).rows[i].cells) == EdgesRead(Records(units), MatrixOf(units).rows[i].age, MatrixOf(units).rows[i].tissue)
  {
    var m := MatrixOf(units);
    var rs := Records(units);
    var row := m.rows[i];
    StrictlySortedNoDup(m.genes);
    forall k | 0 <= k < |rs| && ReadFrom(row.age, row.tissue)(rs[k])
      ensures rs[k].edge.target in m.genes
    {
      VocabularyClosure(units, rs[k].edge.target);
    }
    ProcessIsReplay(units);
    ReplayRowSum(rs, m.genes, row.age, row.tissue);
    assert row.cells == Cells(ProcessFolders(units).table, m.genes, row.age, row.tissue);
  }

  /**
    Corpora with the same records in any order give the same columns, and
    every row of one is a row of the other.
   */
  lemma MatrixOrderIndependent(u1: seq<Unit>, u2: seq<Unit>)
    requires multiset(Records(u1)) == multiset(Records(u2))
    ensures MatrixOf(u1).genes == MatrixOf(u2).genes
    ensures forall r :: r in MatrixOf(u1).rows ==> r in MatrixOf(u2).rows
  {
    var m1, m2 := MatrixOf(u1), MatrixOf(u2);
    forall g ensures g in m1.genes <==> g in m2.genes {
      OrderIndependent(u1, u2, 0, "", g);
    }
    SortedUnique(m1.genes, m2.genes);
    forall r | r in m1.rows
      ensures r in m2.rows
    {
      var i :| 0 <= i < |m1.rows| && m1.rows[i] == r;
      OrderIndependent(u1, u2, r.age, r.tissue, "");
      RowIffEdges(u1, r.age, r.tissue);
      KeyIffEdges(u1, r.age, r.tissue);
      KeyIffEdges(u2, r.age, r.tissue);
      RowIffEdges(u2, r.age, r.tissue);
      var k :| 0 <= k < |m2.rows| && m2.rows[k].age == r.age && m2.rows[k].tissue == r.tissue;
      forall j | 0 <= j < |m1.genes|
        ensures r.cells[j] == m2.rows[k].cells[j]
      {
        OrderIndependent(u1, u2, r.age, r.tissue, m1.genes[j]);
      }
      assert r.cells == m2.rows[k].cells;
    }
  }
}
