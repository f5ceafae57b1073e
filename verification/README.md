# In-degree aggregation and trend ranking, modelled in Dafny

This project models the computational core of a gene-network ageing study. The
study reads directed gene-gene edge lists, one per (age group, tissue), for the
six age groups 20, 30, 40, 50, 60 and 70. It counts each gene's in-degree per
age group and tissue, and writes two matrices:

- a degree matrix: one row per (age group, tissue), one column per gene;
- a change matrix: one row per (tissue, gene), holding the sign of the change
  between consecutive age groups.

A second script then scores every (tissue, gene) row by its summed changes and
ranks the genes of one tissue by that score.

| module (file) | what it models |
|---|---|
| `Seqs` (`seqs.dfy`) | Duplicate-free sequences. Counting elements that satisfy a predicate, and its invariance under permutation. Integer sums. |
| `StringOrder` (`string_order.dfy`) | Python's `<` on `str`, and `sorted()` of a gene set. |
| `TissueNames` (`tissue_names.dfy`) | The `.csv` filter, `os.path.splitext` and `rsplit('_', 1)[0]`, which turn a file name into a tissue key. |
| `Aggregation` (`aggregation.dfy`) | `process_folders`: the vocabulary set and the auto-vivifying `degree_dict`. |
| `DegreeMatrix` (`degree_matrix.dfy`) | `save_degree_matrix_to_files` without its writers. |
| `ChangeMatrix` (`change_matrix.dfy`) | Both passes of `save_degree_changes_to_files` without its writers. |
| `TrendScore` (`trend_score.dfy`) | `process_gene_changes` without file reading, Excel output and plotting. |
| `Scenario` (`scenario.dfy`) | A worked three-edge corpus, and the corpus without edges. |

Modelling choices:

- **Corpus.** The corpus is a sequence of `Unit(age, tissue, edges)`, in the
  order the folder loop visits the files. An age group is its position in
  `AGES`.
- **Vocabulary.** The vocabulary is a duplicate-free sequence. Only its element
  set matters.
- **Degree table.** `degree_dict` is one flat map from (age, tissue, gene) to a
  count, read with a zero default. Two side sequences record the order in
  which the nested dictionaries first gained each key, which is the order
  Python iterates them in.
- **Record stream.** Every fold is a left fold over the records in processing
  order. The lemmas relate that fold to counts over the record stream, so
  order, duplicates and vocabulary membership can all be stated as properties
  of the records.
- **Scores.** Scores are exact rationals (`real`).

The code divides the summed changes by 15 (m2_degree_change_graphing.py line
15) although a row has five transitions. So five rises score 1/3, and every
score lies in [-1/3, 1/3] (`TrendScore.ScoreExamples`,
`TrendScore.FValueOfTernary`). An edge-free corpus yields no degree-matrix rows
and an empty vocabulary (`Scenario.NoEdges`).

## Model

| member | source | states |
|---|---|---|
| TissueNames.Stem | m1_degreecomparison.py:23-25 | For a name ending in `.csv`, the stem is a prefix of the name. It is the name minus `.csv` exactly when something other than dots precedes the extension. When only dots precede it, `splitext` keeps the whole name. |
| TissueNames.DropAgeSuffix | m1_degreecomparison.py:26 | The result is a prefix of the stem. With no `_` it is the whole stem. Otherwise the stem continues with a `_` right after the result, and there is no `_` after that one, so the cut is at the last underscore. |
| TissueNames.TissueOf | m1_degreecomparison.py:23-26 | A file yields a tissue key exactly when its name ends in `.csv`, and the key is a prefix of the name. |
| TissueNames.NamingRoundTrip | m1_degreecomparison.py:25-26 | `<tissue>_<age>.csv` yields `<tissue>` for any tissue (underscores included) when the age part has no underscore. |
| TissueNames.NoSuffixKept | m1_degreecomparison.py:25-26 | A stem without an underscore (and not all dots) is kept whole as the key. |
| StringOrder.SortedSet | m1_degreecomparison.py:50 | `sorted(all_genes)` is strictly ascending in Python string order and holds exactly the genes of the set. |
| StringOrder.LessIsLexicographic | m1_degreecomparison.py:50 | Python's `<` on strings holds exactly when the first position where the strings differ has the smaller character in the first string, or the first string is a proper prefix of the second. |
| StringOrder.SortedUnique | m1_degreecomparison.py:50 | Two strictly ascending sequences with the same elements are equal, so the column order depends only on the gene set. |
| Aggregation.AddGene | m1_degreecomparison.py:40 | Adding a gene keeps the vocabulary duplicate-free. Its elements are the old ones plus the gene. |
| Aggregation.Bump | m1_degreecomparison.py:43 | The increment raises exactly the (age, tissue, gene) degree by one and leaves every other degree alone. It creates the (age, tissue) key if absent and no other key. |
| Aggregation.BumpValid | m1_degreecomparison.py:43 | The increment keeps the table's shape: no age or tissue key twice, and every stored count under an existing key. |
| Aggregation.AddEdge | m1_degreecomparison.py:37-43 | One edge adds both of its genes to the vocabulary and nothing else. |
| Aggregation.AddEdges | m1_degreecomparison.py:36-43 | The rows of one file keep the vocabulary duplicate-free. |
| Aggregation.AddEdgesDegree | m1_degreecomparison.py:36-43 | One file's rows raise a gene's in-degree under the file's (age, tissue) by the number of its edges into that gene, duplicates included. No other degree moves. |
| Aggregation.AddEdgesGenes | m1_degreecomparison.py:36-40 | After one file, a gene is in the vocabulary exactly when it was there before or some edge of the file names it. |
| Aggregation.ProcessFolders | m1_degreecomparison.py:6-45 | The vocabulary returned is duplicate-free, so it enumerates a set. |
| Aggregation.UnitRecordsRead | m1_degreecomparison.py:36-37 | Every row of a file counts as one edge read for the file's (age, tissue). |
| Aggregation.ProcessIsReplay | m1_degreecomparison.py:14-43 | The nested folder/file/row loops are the same as one fold over the flat record stream. |
| Aggregation.TableValid | m1_degreecomparison.py:11-43 | The table built from any corpus has the shape `BumpValid` keeps. |
| Aggregation.VocabularyClosure | m1_degreecomparison.py:36-40 | A gene is in the vocabulary exactly when some edge of some unit names it as source or target. |
| Aggregation.DegreeIsMultiplicity | m1_degreecomparison.py:36-43 | The stored degree of (age, tissue, gene) is the number of edges into the gene read for (age, tissue), duplicates counted. |
| Aggregation.KeyIffEdges | m1_degreecomparison.py:36-43 | The key (age, tissue) exists exactly when at least one edge was read for it, so a file without rows creates none. |
| Aggregation.PositiveDegreeInVocabulary | m1_degreecomparison.py:40-43 | A gene with a positive degree is in the vocabulary. |
| Aggregation.OrderIndependent | m1_degreecomparison.py:14-43 | Two corpora with the same records in any order (same multiset) have the same degrees, keys and vocabulary. |
| Aggregation.AgesInserted | m1_degreecomparison.py:14-43 | When units come age by age, the age keys are created in ascending order, none above the last unit's age. |
| DegreeMatrix.MakeRow | m1_degreecomparison.py:57-59 | A row carries its key's age and tissue and one cell per column gene. |
| DegreeMatrix.DictRow | m1_degreecomparison.py:57-59 | The row dictionary has exactly the keys `AgeGroup`, `Tissue` and the genes. Each gene maps to its degree. A label keeps its text only when no gene has its name. |
| DegreeMatrix.MakeRowIsDictRow | m1_degreecomparison.py:57-59 | When no gene is named `AgeGroup` or `Tissue`, the typed row agrees with the dictionary: the same labels and the same value under every column gene. |
| DegreeMatrix.TissueGeneHidesLabel | m1_degreecomparison.py:57-59 | A gene named `Tissue` replaces the tissue label with its degree, and `AgeGroup` is left as the only text value. |
| DegreeMatrix.MatrixRowIsDictRow | m1_degreecomparison.py:55-60 | When no gene is named like a label, every matrix row agrees with the dictionary the code builds for its key. |
| DegreeMatrix.TissueRows | m1_degreecomparison.py:56-60 | One age yields one row per tissue recorded under it, in insertion order, each for an existing key. |
| DegreeMatrix.AgeRows | m1_degreecomparison.py:55-60 | Every row produced belongs to an existing key and carries that key's cells. |
| DegreeMatrix.AgeRowsCover | m1_degreecomparison.py:55-60 | Every existing key under a visited age gets a row. |
| DegreeMatrix.AgeRowsDistinct | m1_degreecomparison.py:55-60 | No key gets two rows when the age and tissue keys are duplicate-free. |
| DegreeMatrix.BuildDegreeMatrix | m1_degreecomparison.py:48-60 | The columns are the vocabulary, strictly ascending. Every row belongs to an existing key, has one cell per column, and each cell is the stored degree or 0. |
| DegreeMatrix.RowIffEdges | m1_degreecomparison.py:55-60 | There is a row for (age, tissue) exactly when an edge was read for it: no phantom rows. |
| DegreeMatrix.RowsDistinct | m1_degreecomparison.py:55-60 | No (age, tissue) has two rows. |
| DegreeMatrix.CellIsInDegree | m1_degreecomparison.py:57-59 | Every cell is the number of edges into its column gene read for its row's key. |
| DegreeMatrix.RowSumIsEdgeCount | m1_degreecomparison.py:55-60 | A row's cells add up to the number of edges read for its key. |
| DegreeMatrix.MatrixOrderIndependent | m1_degreecomparison.py:48-60 | Corpora with the same records in any order give the same columns. Every row of one is a row of the other. |
| ChangeMatrix.FirstPass | m1_degreecomparison.py:80-90 | The first pass has (tissues x genes) rows. Each is keyed by a listed tissue and a listed gene and holds the uniform three-way comparison for every transition. |
| ChangeMatrix.Change | m1_degreecomparison.py:84-88 | A transition value is -1, 0 or 1. |
| ChangeMatrix.LastChange | m1_degreecomparison.py:95-100 | The recomputed last transition equals the value the first pass put in the last column. |
| ChangeMatrix.ChangeIsSign | m1_degreecomparison.py:84-88 | A transition is the sign of next degree minus current degree, with absent entries read as 0. |
| ChangeMatrix.Overwrite | m1_degreecomparison.py:101-103 | The patch loop keeps the row count and every row's key and earlier transitions. Every row of the pair gets the new value as its last transition. Rows of other pairs are unchanged. |
| ChangeMatrix.PatchGenes | m1_degreecomparison.py:94-103 | Patching one tissue keeps the row count and every row's key and earlier transitions. Each row of the tissue whose gene is listed gets the recomputed last transition. Rows of other tissues or of unlisted genes are unchanged. |
| ChangeMatrix.SecondPassKeeps | m1_degreecomparison.py:93-103 | The second pass keeps the row count and every row's key and earlier transitions. Each row whose tissue and gene it visits ends with the recomputed last transition. Rows of tissues it does not visit are unchanged. |
| ChangeMatrix.OverwriteAgreeing | m1_degreecomparison.py:101-103 | Writing the recomputed last transition into rows that already hold it changes nothing. |
| ChangeMatrix.SecondPassAgreeing | m1_degreecomparison.py:93-103 | The whole second pass leaves rows that already agree on their last transition unchanged. |
| ChangeMatrix.SecondPassChangesNothing | m1_degreecomparison.py:93-103 | The change matrix after both passes equals the single uniform first pass. |
| ChangeMatrix.FirstPassCover | m1_degreecomparison.py:80-90 | Every listed (tissue, gene) pair gets a row. |
| ChangeMatrix.FirstPassDistinct | m1_degreecomparison.py:80-90 | No pair gets two rows when the tissue and gene lists are duplicate-free. |
| ChangeMatrix.ChangeRowsExact | m1_degreecomparison.py:80-90 | For an enumeration of the tissue set, a (tissue, gene) row exists exactly when the tissue had an edge under some age and the gene is in the vocabulary. No pair has two rows. |
| ChangeMatrix.ChangesOfRow | m1_degreecomparison.py:80-103 | Every row of the final change matrix is the first-pass row of its pair. |
| ChangeMatrix.RowSignOfCounts | m1_degreecomparison.py:83-89 | Over any table that stores the edge counts of a record stream, a first-pass transition is the sign of the later count minus the earlier one. |
| ChangeMatrix.MatrixSignOfCounts | m1_degreecomparison.py:80-103 | Over any table that stores the edge counts of a record stream, every transition of the finished change matrix is -1, 0 or 1 and is the sign of the later count minus the earlier one. |
| ChangeMatrix.ChangeIsSignOfCounts | m1_degreecomparison.py:83-89 | Every transition value is -1, 0 or 1: the sign of the edge count into the gene for the tissue under the later age group minus the count under the earlier one. |
| TrendScore.TransitionNames | m1_degreecomparison.py:83-89 | There are five transition headings, `Change_<age>_to_<next age>` in order, and no two are equal, so each transition has its own column. |
| TrendScore.ChangeColumns | m2_degree_change_graphing.py:14 | The selected columns are exactly those whose name starts with `Change_`. |
| TrendScore.ChangeColumnsOfHeader | m2_degree_change_graphing.py:14 | In the change matrix's header, the selected columns are the five transitions in order. `Tissue` and `Gene` are not among them. |
| TrendScore.FValue | m2_degree_change_graphing.py:15 | The score times 15 is the summed changes. The score is positive exactly when the sum is, and negative exactly when the sum is. |
| TrendScore.SumTernary | m2_degree_change_graphing.py:15 | The sum of -1/0/1 values is the number of rises minus the number of falls. |
| TrendScore.FValueOfTernary | m2_degree_change_graphing.py:15 | For sign rows, the score is (rises - falls) / 15. It is positive exactly when rises outnumber falls, zero exactly when they are equal, and it lies in [-1/3, 1/3] for five transitions. |
| TrendScore.ScoreExamples | m2_degree_change_graphing.py:15 | Five rises score 1/3. One rise and one fall score 0. |
| TrendScore.FValueOfNoChange | m2_degree_change_graphing.py:15 | A row with no change scores 0. |
| TrendScore.ScoreRows | m2_degree_change_graphing.py:14-18 | Every row of every tissue gets its score, with tissue, gene and changes kept, before any filtering. |
| TrendScore.FilterTissue | m2_degree_change_graphing.py:21 | The kept rows are exactly the rows of the tissue, each as often as it occurs. |
| TrendScore.InsertDescending | m2_degree_change_graphing.py:28 | Inserting a row into a ranking gives a ranking with that row added. |
| TrendScore.SortDescending | m2_degree_change_graphing.py:28 | The ranking is a permutation of its input, and its scores never increase. |
| TrendScore.RankingScoresDetermined | m2_degree_change_graphing.py:28 | Any two rankings of the same rows show the same score at every position, however ties are broken. |
| TrendScore.Series | m2_degree_change_graphing.py:31 | The series pairs each ranked row's gene with its score, in rank order. For a ranking, the plotted values never rise from left to right. |
| TrendScore.ProcessGeneChanges | m2_degree_change_graphing.py:14-31 | The report keeps every input row, in order, with its tissue, gene and changes and the score of its changes. Its ranking holds exactly the scored rows of the tissue and is non-increasing in score. Its series follows the ranking. |
| TrendScore.SeriesExact | m2_degree_change_graphing.py:21-31 | A (gene, score) pair is in the series exactly when some input row of the tissue has that gene and its changes give that score. |
| TrendScore.CorpusScoresBounded | m2_degree_change_graphing.py:15 | Every score of a change matrix built from a corpus lies in [-1/3, 1/3]. |
| Scenario.BrainRecords | m1_degreecomparison.py:14-36 | The worked corpus yields its three records in processing order. |
| Scenario.BrainGenes | m1_degreecomparison.py:40 | Its vocabulary is {A, B, C}. |
| Scenario.BrainColumns | m1_degreecomparison.py:50 | Its degree-matrix columns are A, B, C. |
| Scenario.BrainRows | m1_degreecomparison.py:55-60 | Its degree matrix has rows for (20, brain) and (30, brain) and no other age group. |
| Scenario.BrainDegrees | m1_degreecomparison.py:43 | B's in-degree for brain is 1 under age group 20, 2 under 30 and 0 afterwards. C's is always 0. |
| Scenario.BrainTransition | m1_degreecomparison.py:43 | The table holds B's and C's expected brain degrees at both ends of every transition. |
| Scenario.ExpectedChanges | m1_degreecomparison.py:83-89 | Any table holding those degrees gives B the transitions +1, -1, 0, 0, 0 and C all 0. |
| Scenario.BrainChanges | m1_degreecomparison.py:83-89 | B's transitions are +1, -1, 0, 0, 0. C's are all 0. |
| Scenario.NoEdges | m1_degreecomparison.py:6-103 | A corpus without edges has an empty vocabulary, a degree matrix with no columns and no rows, and an empty change matrix. |

## Left out

- Folder traversal (m1_degreecomparison.py:15-24, 126) is out. The existence check and `os.listdir` are file-system I/O. The corpus is an input sequence of units in visiting order, and the model assumes that order visits the age folders in list order.
- `pd.read_csv` and its `try`/`except` (m1_degreecomparison.py:29-33, m2_degree_change_graphing.py:7-11) are foreign library I/O. A unit's edges and the change-matrix rows are given as data. Files that fail to parse are simply absent from the corpus.
- Rows without `GeneA`/`GeneB`, or with NaN genes, are out. The `KeyError` at m1_degreecomparison.py:37 is not handled by the code, so edges are well-formed string pairs.
- CSV and Excel writing and the `print` diagnostics (m1_degreecomparison.py:63-71, 106-114; m2_degree_change_graphing.py:34-40) are output sinks.
- matplotlib plotting (m2_degree_change_graphing.py:43-54) is presentation. `TrendScore.RankingScoresDetermined` states that the plotted score curve does not depend on tie order.
- Floating point is not modelled. Scores are exact rationals, so float rounding of `sum / 15` is out.
- ChangeMatrix.ChangesOf: takes the enumeration order of the tissue set (lines 80 and 93) as a parameter, because Python does not define the iteration order of a set. The lemmas hold for every duplicate-free enumeration of the seen tissues.
- TrendScore.SortDescending: is a stable insertion sort, while pandas' default `sort_values` sort is not stable. Only the permutation and non-increasing properties are claimed, and tie order is left open.
- The auto-vivifying read `degree_dict[current_age]` (m1_degreecomparison.py:86, 98) is out. It adds empty age entries after the degree matrix is written and changes no output. The model reads with a zero default and no side effect.
- Path separators and other platform rules of `os.path.splitext` are out, beyond its leading-dot rule: names are plain file names.
- DegreeMatrix.BuildDegreeMatrix: builds typed rows, which keep the two labels apart from the gene cells. The code builds each row as a dictionary (m1_degreecomparison.py:57-59), so a gene named `AgeGroup` or `Tissue` overwrites that label instead of getting a column. `DegreeMatrix.DictRow` models the dictionary as written and `DegreeMatrix.TissueGeneHidesLabel` shows the overwrite. `DegreeMatrix.MatrixRowIsDictRow` shows the typed rows agree with the dictionaries whenever no gene has a label's name. How `pd.DataFrame` lines the dictionaries up into columns is out.
- ChangeMatrix.BuildChangeMatrix and ChangeMatrix.SecondPass: carry no contract of their own, so the corpus-level proofs do not have to carry those facts. Their properties are stated as lemmas. `ChangeMatrix.SecondPassKeeps` gives what the second pass writes: the recomputed last transition in every visited (tissue, gene) row, with keys, earlier transitions and unvisited rows kept. `ChangeMatrix.SecondPassChangesNothing` gives the whole build as the single uniform first pass.
- The `__main__` configuration blocks are out.
