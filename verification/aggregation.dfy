/**
  The edge loop of `process_folders`: every edge of every (age group, tissue)
  unit puts both of its genes into the global vocabulary and adds one to the
  in-degree of its target gene in an auto-vivifying table
  age -> tissue -> gene -> count.

  The nested `defaultdict` is modelled as one map keyed by (age, tissue, gene)
  whose absent entries read as zero, together with the insertion order of the
  nested dictionaries' keys: `ages` lists the outer keys in the order they
  were created and `tissues[a]` the inner keys of age `a`.
 */
module Aggregation {
  import opened Seqs

  /** The age folders, visited in this order. */
  const AGES: seq<string> := ["20", "30", "40", "50", "60", "70"]

  /**
    An age folder, identified by its position in AGES; the table is keyed by
    the folder name `AGES[age]`, which this position determines.
   */
  type Age = i: nat | i < |AGES|

  /** One row of an edge list: `GeneA` interacts with (points to) `GeneB`. */
  datatype Edge = Edge(source: string, target: string)

  /** One readable edge-list file of an age folder, with its tissue key already derived. */
  datatype Unit = Unit(age: Age, tissue: string, edges: seq<Edge>)

  /** One edge together with the unit it was read from. */
  datatype Record = Record(age: Age, tissue: string, edge: Edge)

  datatype DegreeTable = DegreeTable(
    ages: seq<Age>,
    tissues: map<Age, seq<string>>,
    counts: map<(Age, string, string), nat>)

  /** The pair `process_folders` returns: `all_genes` and `degree_dict`. */
  datatype Tally = Tally(genes: seq<string>, table: DegreeTable)

  const EMPTY: Tally := Tally([], DegreeTable([], map[], map[]))

  /** `degree_dict[age][tissue].get(gene, 0)`. */
  function Degree(t: DegreeTable, age: Age, tissue: string, gene: string): nat
  {
    if (age, tissue, gene) in t.counts then t.counts[(age, tissue, gene)] else 0
  }

  /** The key `degree_dict[age][tissue]` exists. */
  predicate HasKey(t: DegreeTable, age: Age, tissue: string) {
    age in t.tissues && tissue in t.tissues[age]
  }

  /** The shape every table built by the edge loop keeps. */
  ghost predicate Valid(t: DegreeTable) {
    && NoDup(t.ages)
    && (forall a :: a in t.tissues <==> a in t.ages)
    && (forall a :: a in t.tissues ==> NoDup(t.tissues[a]))
    && (forall k :: k in t.counts ==> HasKey(t, k.0, k.1))
  }

  /** `all_genes.update([g])` on a vocabulary kept as a duplicate-free sequence. */
  function AddGene(genes: seq<string>, g: string): (r: seq<string>)
    ensures NoDup(genes) ==> NoDup(r)
    ensures forall x :: x in r <==> x in genes || x == g
  {
    if g in genes then genes else genes + [g]
  }

  /** Line 43: `degree_dict[age][tissue][gene] += 1`, creating the keys on first use. */
  function Bump(t: DegreeTable, age: Age, tissue: string, gene: string): (r: DegreeTable)
    ensures forall a: Age, ti, g {:trigger Degree(r, a, ti, g)} ::
      Degree(r, a, ti, g) == Degree(t, a, ti, g) + (if (a, ti, g) == (age, tissue, gene) then 1 else 0)
    ensures forall a: Age, ti {:trigger HasKey(r, a, ti)} ::
      HasKey(r, a, ti) <==> HasKey(t, a, ti) || (a, ti) == (age, tissue)
  {
    var ages := if age in t.ages then t.ages else t.ages + [age];
    var inner := if age in t.tissues then t.tissues[age] else [];
    var inner' := if tissue in inner then inner else inner + [tissue];
    var r := DegreeTable(ages, t.tissues[age := inner'], t.counts[(age, tissue, gene) := Degree(t, age, tissue, gene) + 1]);
    assert forall a: Age, ti :: HasKey(t, a, ti) ==> HasKey(r, a, ti);
    r
  }

  lemma BumpValid(t: DegreeTable, age: Age, tissue: string, gene: string)
    requires Valid(t)
    ensures Valid(Bump(t, age, tissue, gene))
  {
    var r := Bump(t, age, tissue, gene);
    forall k | k in r.counts
      ensures HasKey(r, k.0, k.1)
    {
      if k != (age, tissue, gene) {
        assert k in t.counts && HasKey(t, k.0, k.1);
      }
    }
  }

  /** Lines 37-43: one edge read from the unit (age, tissue). */
  function AddEdge(s: Tally, age: Age, tissue: string, e: Edge): (r: Tally)
    ensures NoDup(s.genes) ==> NoDup(r.genes)
    ensures forall g :: g in r.genes <==> g in s.genes || g == e.source || g == e.target
  {
    Tally(AddGene(AddGene(s.genes, e.source), e.target), Bump(s.table, age, tissue, e.target))
  }

  /** Lines 36-43: the rows of one unit, in file order. */
  function AddEdges(s: Tally, age: Age, tissue: string, edges: seq<Edge>): (r: Tally)
    ensures NoDup(s.genes) ==> NoDup(r.genes)
  {
    if |edges| == 0 then s
    else AddEdge(AddEdges(s, age, tissue, edges[..|edges| - 1]), age, tissue, edges[|edges| - 1])
  }

  /** An edge into `gene`. */
  function Into(gene: string): Edge -> bool
  {
    (e: Edge) => e.target == gene
  }

  /** Some edge names `gene` as its source or its target. */
  predicate Names(edges: seq<Edge>, gene: string) {
    exists i :: 0 <= i < |edges| && (edges[i].source == gene || edges[i].target == gene)
  }

  /**
    One unit's rows raise the in-degree of each gene under the unit's key by
    the number of its edges into that gene, duplicates included, and move no
    other degree.
   */
  lemma {:induction false} AddEdgesDegree(s: Tally, age: Age, tissue: string, edges: seq<Edge>, a: Age, ti: string, gene: string)
    ensures Degree(AddEdges(s, age, tissue, edges).table, a, ti, gene)
      == Degree(s.table, a, ti, gene) + (if (a, ti) == (age, tissue) then Count(edges, Into(gene)) else 0)
    decreases |edges|
  {
    if |edges| > 0 {
      AddEdgesDegree(s, age, tissue, edges[..|edges| - 1], a, ti, gene);
    }
  }

  lemma NamesSnoc(edges: seq<Edge>, gene: string)
    requires |edges| > 0
    ensures Names(edges, gene)
      <==> (Names(edges[..|edges| - 1], gene) || edges[|edges| - 1].source == gene || edges[|edges| - 1].target == gene)
  {
    var front := edges[..|edges| - 1];
    if Names(front, gene) {
      var i :| 0 <= i < |front| && (front[i].source == gene || front[i].target == gene);
      assert edges[i] == front[i];
    }
    if Names(edges, gene) {
      var i :| 0 <= i < |edges| && (edges[i].source == gene || edges[i].target == gene);
      if i < |front| {
        assert front[i] == edges[i];
      }
    }
  }

  /** After one unit, the vocabulary is the old one plus every gene its edges name. */
  lemma {:induction false} AddEdgesGenes(s: Tally, age: Age, tissue: string, edges: seq<Edge>, gene: string)
    ensures gene in AddEdges(s, age, tissue, edges).genes <==> gene in s.genes || Names(edges, gene)
    decreases |edges|
  {
    if |edges| > 0 {
      AddEdgesGenes(s, age, tissue, edges[..|edges| - 1], gene);
      NamesSnoc(edges, gene);
    }
  }

  /**
    Lines 6-45 without the file system: the readable `.csv` files of the age
    folders, in the order the loops visit them.
   */
  function ProcessFolders(units: seq<Unit>): (r: Tally)
    ensures NoDup(r.genes)
  {
    if |units| == 0 then EMPTY
    else
      var u := units[|units| - 1];
      AddEdges(ProcessFolders(units[..|units| - 1]), u.age, u.tissue, u.edges)
  }

  // ---------------------------------------------------------------------------
  // The flat stream of records the nested loops visit, and counts over it.

  /** The edges of one unit, each tagged with the unit's key. */
  function UnitRecords(u: Unit): (rs: seq<Record>)
    ensures |rs| == |u.edges|
    ensures forall i :: 0 <= i < |rs| ==> rs[i] == Record(u.age, u.tissue, u.edges[i])
  {
    seq(|u.edges|, i requires 0 <= i < |u.edges| => Record(u.age, u.tissue, u.edges[i]))
  }

  /** Every row of a unit counts as an edge read for the unit's key. */
  lemma UnitRecordsRead(u: Unit)
    ensures EdgesRead(UnitRecords(u), u.age, u.tissue) == |u.edges|
  {
    CountAll(UnitRecords(u), ReadFrom(u.age, u.tissue));
  }

  /** Every edge of every unit, in processing order. */
  function Records(units: seq<Unit>): seq<Record>
  {
    if |units| == 0 then [] else Records(units[..|units| - 1]) + UnitRecords(units[|units| - 1])
  }

  /** The record is an edge into `gene` read from unit (age, tissue). */
  function TargetsIn(age: Age, tissue: string, gene: string): Record -> bool
  {
    (r: Record) => r.age == age && r.tissue == tissue && r.edge.target == gene
  }

  /** The record was read from unit (age, tissue). */
  function ReadFrom(age: Age, tissue: string): Record -> bool
  {
    (r: Record) => r.age == age && r.tissue == tissue
  }

  /** Number of edges into `gene` among the records of (age, tissue), duplicates included. */
  function InDegree(rs: seq<Record>, age: Age, tissue: string, gene: string): nat
  {
    Count(rs, TargetsIn(age, tissue, gene))
  }

  /** Number of edges read for (age, tissue). */
  function EdgesRead(rs: seq<Record>, age: Age, tissue: string): nat
  {
    Count(rs, ReadFrom(age, tissue))
  }

  /** Some record names `gene` as its source or its target. */
  predicate Mentions(rs: seq<Record>, gene: string) {
    exists i :: 0 <= i < |rs| && (rs[i].edge.source == gene || rs[i].edge.target == gene)
  }

  /** Processing the records one by one from `s`. */
  function Replay(s: Tally, rs: seq<Record>): Tally
  {
    if |rs| == 0 then s
    else
      var x := rs[|rs| - 1];
      AddEdge(Replay(s, rs[..|rs| - 1]), x.age, x.tissue, x.edge)
  }

  lemma {:induction false} ReplayAppend(s: Tally, a: seq<Record>, b: seq<Record>)
    ensures Replay(s, a + b) == Replay(Replay(s, a), b)
    decreases |b|
  {
    if |b| == 0 {
      assert a + b == a;
    } else {
      assert (a + b)[..|a + b| - 1] == a + b[..|b| - 1];
      ReplayAppend(s, a, b[..|b| - 1]);
    }
  }

  lemma {:induction false} AddEdgesIsReplay(s: Tally, u: Unit)
    ensures AddEdges(s, u.age, u.tissue, u.edges) == Replay(s, UnitRecords(u))
    decreases |u.edges|
  {
    if |u.edges| > 0 {
      var u' := u.(edges := u.edges[..|u.edges| - 1]);
      AddEdgesIsReplay(s, u');
      assert UnitRecords(u)[..|u.edges| - 1] == UnitRecords(u');
    }
  }

  /** The nested unit/edge loops visit exactly the flat record stream. */
  lemma {:induction false} ProcessIsReplay(units: seq<Unit>)
    ensures ProcessFolders(units) == Replay(EMPTY, Records(units))
    decreases |units|
  {
    if |units| > 0 {
      var front := units[..|units| - 1];
      var u := units[|units| - 1];
      ProcessIsReplay(front);
      AddEdgesIsReplay(ProcessFolders(front), u);
      ReplayAppend(EMPTY, Records(front), UnitRecords(u));
    }
  }

  lemma {:induction false} ReplayDegree(s: Tally, rs: seq<Record>, age: Age, tissue: string, gene: string)
    ensures Degree(Replay(s, rs).table, age, tissue, gene)
      == Degree(s.table, age, tissue, gene) + InDegree(rs, age, tissue, gene)
    decreases |rs|
  {
    if |rs| > 0 {
      ReplayDegree(s, rs[..|rs| - 1], age, tissue, gene);
    }
  }

  lemma {:induction false} ReplayKeys(s: Tally, rs: seq<Record>, age: Age, tissue: string)
    ensures HasKey(Replay(s, rs).table, age, tissue)
      <==> HasKey(s.table, age, tissue) || EdgesRead(rs, age, tissue) > 0
    decreases |rs|
  {
    if |rs| > 0 {
      ReplayKeys(s, rs[..|rs| - 1], age, tissue);
    }
  }

  lemma MentionsSnoc(rs: seq<Record>, gene: string)
    requires |rs| > 0
    ensures Mentions(rs, gene)
      <==> (Mentions(rs[..|rs| - 1], gene) || rs[|rs| - 1].edge.source == gene || rs[|rs| - 1].edge.target == gene)
  {
    var front := rs[..|rs| - 1];
    if Mentions(front, gene) {
      var i :| 0 <= i < |front| && (front[i].edge.source == gene || front[i].edge.target == gene);
      assert rs[i] == front[i];
    }
    if Mentions(rs, gene) {
      var i :| 0 <= i < |rs| && (rs[i].edge.source == gene || rs[i].edge.target == gene);
      if i < |front| {
        assert front[i] == rs[i];
      }
    }
  }

  lemma {:induction false} ReplayGenes(s: Tally, rs: seq<Record>, gene: string)
    ensures gene in Replay(s, rs).genes <==> gene in s.genes || Mentions(rs, gene)
    decreases |rs|
  {
    if |rs| > 0 {
      ReplayGenes(s, rs[..|rs| - 1], gene);
      MentionsSnoc(rs, gene);
    }
  }

  lemma {:induction false} ReplayValid(s: Tally, rs: seq<Record>)
    requires Valid(s.table)
    ensures Valid(Replay(s, rs).table)
    decreases |rs|
  {
    if |rs| > 0 {
      var x := rs[|rs| - 1];
      ReplayValid(s, rs[..|rs| - 1]);
      BumpValid(Replay(s, rs[..|rs| - 1]).table, x.age, x.tissue, x.edge.target);
    }
  }

  // ---------------------------------------------------------------------------
  // Properties of the aggregation.

  /**
    The table keeps its shape: no age key twice, the age list and the outer
    keys agree, no tissue twice under one age, and every count sits under an
    existing (age, tissue) key.
   */
  lemma TableValid(units: seq<Unit>)
    ensures Valid(ProcessFolders(units).table)
  {
    ProcessIsReplay(units);
    ReplayValid(EMPTY, Records(units));
  }

  /** The vocabulary is the set of all `GeneA` and `GeneB` values over every edge. */
  lemma VocabularyClosure(units: seq<Unit>, gene: string)
    ensures gene in ProcessFolders(units).genes <==> Mentions(Records(units), gene)
  {
    ProcessIsReplay(units);
    ReplayGenes(EMPTY, Records(units), gene);
  }

  /** The stored in-degree is the number of edges into the gene read for (age, tissue). */
  lemma DegreeIsMultiplicity(units: seq<Unit>, age: Age, tissue: string, gene: string)
    ensures Degree(ProcessFolders(units).table, age, tissue, gene) == InDegree(Records(units), age, tissue, gene)
  {
    ProcessIsReplay(units);
    ReplayDegree(EMPTY, Records(units), age, tissue, gene);
  }

  /** A key (age, tissue) exists exactly when at least one edge was read for it. */
  lemma KeyIffEdges(units: seq<Unit>, age: Age, tissue: string)
    ensures HasKey(ProcessFolders(units).table, age, tissue) <==> EdgesRead(Records(units), age, tissue) > 0
  {
    ProcessIsReplay(units);
    ReplayKeys(EMPTY, Records(units), age, tissue);
  }

  /** A gene with a positive in-degree is in the vocabulary. */
  lemma PositiveDegreeInVocabulary(units: seq<Unit>, age: Age, tissue: string, gene: string)
    requires Degree(ProcessFolders(units).table, age, tissue, gene) > 0
    ensures gene in ProcessFolders(units).genes
  {
    var rs := Records(units);
    DegreeIsMultiplicity(units, age, tissue, gene);
    CountPositive(rs, TargetsIn(age, tissue, gene));
    var i :| 0 <= i < |rs| && TargetsIn(age, tissue, gene)(rs[i]);
    VocabularyClosure(units, gene);
  }

  /**
    Neither the order of the units nor the order of the edges inside them
    matters: two corpora with the same records, duplicates included, give the
    same degrees, the same keys and the same vocabulary.
   */
  lemma OrderIndependent(u1: seq<Unit>, u2: seq<Unit>, age: Age, tissue: string, gene: string)
    requires multiset(Records(u1)) == multiset(Records(u2))
    ensures Degree(ProcessFolders(u1).table, age, tissue, gene) == Degree(ProcessFolders(u2).table, age, tissue, gene)
    ensures HasKey(ProcessFolders(u1).table, age, tissue) <==> HasKey(ProcessFolders(u2).table, age, tissue)
    ensures gene in ProcessFolders(u1).genes <==> gene in ProcessFolders(u2).genes
  {
    var r1, r2 := Records(u1), Records(u2);
    DegreeIsMultiplicity(u1, age, tissue, gene);
    DegreeIsMultiplicity(u2, age, tissue, gene);
    CountPermutation(r1, r2, TargetsIn(age, tissue, gene));
    KeyIffEdges(u1, age, tissue);
    KeyIffEdges(u2, age, tissue);
    CountPermutation(r1, r2, ReadFrom(age, tissue));
    VocabularyClosure(u1, gene);
    VocabularyClosure(u2, gene);
    if Mentions(r1, gene) {
      var i :| 0 <= i < |r1| && (r1[i].edge.source == gene || r1[i].edge.target == gene);
      assert r1[i] in multiset(r2);
      var j :| 0 <= j < |r2| && r2[j] == r1[i];
    }
    if Mentions(r2, gene) {
      var i :| 0 <= i < |r2| && (r2[i].edge.source == gene || r2[i].edge.target == gene);
      assert r2[i] in multiset(r1);
      var j :| 0 <= j < |r1| && r1[j] == r2[i];
    }
  }

  // ---------------------------------------------------------------------------
  // Insertion order of the age keys.

  /** The units come from the age folders, visited in list order. */
  predicate AgeOrdered(units: seq<Unit>) {
    forall i, j :: 0 <= i < j < |units| ==> units[i].age <= units[j].age
  }

  lemma {:induction false} AddEdgesAges(s: Tally, age: Age, tissue: string, edges: seq<Edge>)
    ensures AddEdges(s, age, tissue, edges).table.ages
      == if |edges| == 0 || age in s.table.ages then s.table.ages else s.table.ages + [age]
    decreases |edges|
  {
    if |edges| > 0 {
      AddEdgesAges(s, age, tissue, edges[..|edges| - 1]);
    }
  }

  /** Strictly increasing positions in AGES. */
  predicate Ascending(ages: seq<Age>) {
    forall i, j :: 0 <= i < j < |ages| ==> ages[i] < ages[j]
  }

  lemma AppendAscending(ages: seq<Age>, age: Age)
    requires Ascending(ages)
    requires forall x :: x in ages ==> x < age
    ensures Ascending(ages + [age])
  {
    var r := ages + [age];
    forall i, j | 0 <= i < j < |r|
      ensures r[i] < r[j]
    {
      assert r[i] == ages[i] && r[i] in ages;
      if j < |ages| {
        assert r[j] == ages[j];
      }
    }
  }

  /** Appending an age above every present one, or nothing, keeps the keys ascending. */
  lemma AscendingStep(before: seq<Age>, after: seq<Age>, age: Age)
    requires Ascending(before)
    requires forall x :: x in before ==> x <= age
    requires after == before || after == before + [age]
    requires after == before + [age] ==> age !in before
    ensures Ascending(after)
    ensures forall x :: x in after ==> x <= age
  {
    if after != before {
      AppendAscending(before, age);
    }
  }

  /** One unit keeps the outer keys ascending when no key lies above its age. */
  lemma AddEdgesAscending(s: Tally, u: Unit)
    requires Ascending(s.table.ages)
    requires forall x :: x in s.table.ages ==> x <= u.age
    ensures Ascending(AddEdges(s, u.age, u.tissue, u.edges).table.ages)
    ensures forall x :: x in AddEdges(s, u.age, u.tissue, u.edges).table.ages ==> x <= u.age
  {
    AddEdgesAges(s, u.age, u.tissue, u.edges);
    AscendingStep(s.table.ages, AddEdges(s, u.age, u.tissue, u.edges).table.ages, u.age);
  }

  /**
    The outer keys of `degree_dict` are created in ascending age order, none
    after the age of the last unit, so the degree matrix lists its rows age by
    age.
   */
  lemma {:induction false} AgesInserted(units: seq<Unit>)
    requires AgeOrdered(units)
    ensures Ascending(ProcessFolders(units).table.ages)
    ensures |units| > 0 ==> forall a :: a in ProcessFolders(units).table.ages ==> a <= units[|units| - 1].age
    decreases |units|
  {
    if |units| == 0 {
      assert ProcessFolders(units).table.ages == [];
    } else {
      var front := units[..|units| - 1];
      var u := units[|units| - 1];
      assert AgeOrdered(front);
      AgesInserted(front);
      if |front| > 0 {
        assert front[|front| - 1] == units[|units| - 2];
      }
      AddEdgesAscending(ProcessFolders(front), u);
    }
  }
}
