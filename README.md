# Amino-acid frequencies per secondary structure

This project models the counting core of `bin/parse_pdb_files.py`. For every
entry of a directory, the script takes the DSSP secondary-structure
assignment of the first model. It then walks the residues and counts, for each
of the 20 one-letter amino-acid codes, how many residues stand in a helix
(DSSP codes H, G, I), in a sheet (B, E) or elsewhere (every other code). The
result is a table with one row per letter and the columns Helix, Sheet and
Other. Finally each count is turned into its percentage of the grand total.

The model has five modules.

- `Residues` holds the DSSP records, the code partition and the 20 letters. Its
  method `GetSeqStruct` extracts the two parallel per-residue lists.
- `Tally` holds the frequency table and `FillFreqTable`, its in-place tally.
  The table before transposition is a 3 × 20 `array2<int>`: row 0 is Helix,
  row 1 Sheet, row 2 Other. A failing lookup is an `Err` value.
- `Relative` holds `relative_counts` over exact reals.
- `ProteinIds` derives the protein id from a file name, with Python's
  `str.split` and `str.lstrip` written out.
- `Aggregate` holds main's loop over the directory. This covers the zero
  dictionary, a fresh table per file, and the overwriting of `results`. It also
  covers how a run ends when every entry parses: nothing bound for an empty
  directory, a KeyError for an unknown letter, or else the last file's table.

Each method is proved against a specification function. `Count` is the number
of positions with a given letter and class, and `Histogram` is the table of all
those counts. `RunFrom` is the directory loop as a recursion. Lemmas state what
the source promises about them.

## Model

| member | source | states |
|---|---|---|
| Residues.ClassPartition | bin/parse_pdb_files.py:139-150 | No code is both a helix and a sheet code; a code is tallied as Helix exactly when it is H, G or I, as Sheet exactly when it is B or E, and as Other exactly when it is neither |
| Residues.Classify | bin/parse_pdb_files.py:145-150 | The class the if / elif / else chain tallies a code under; Residues.ClassPartition proves it lands in Helix exactly for H, G, I, in Sheet exactly for B, E, and in Other otherwise |
| Residues.DsspCodesClassified | bin/parse_pdb_files.py:38-49 | Of the eight named DSSP codes, Helix, 3-10 Helix and Pi-Helix fall in Helix, Bridge and Strand in Sheet, Turn, Bend and Other in Other |
| Residues.ProteinLettersDistinct | bin/parse_pdb_files.py:184-185 | The protein letters are 20 distinct characters, so every letter names exactly one column |
| Residues.GetSeqStruct | bin/parse_pdb_files.py:93-112 | Both lists have one element per DSSP record, in key order; element i is field 1 or field 2 of record i |
| Tally.Count | bin/parse_pdb_files.py:142-150 | A tally of the first n residues for one letter and one class never exceeds n |
| Tally.CountIsPositions | bin/parse_pdb_files.py:142-150 | A cell's count is the number of positions whose letter is the row's letter and whose code is in the column's class |
| Tally.CountAbsent | bin/parse_pdb_files.py:142-150 | A letter that occurs in none of the first n residues has count zero in every class |
| Tally.OneIncrementPerResidue | bin/parse_pdb_files.py:142-150 | Tallying one more residue raises exactly the cell of its letter and its class by one and leaves every other cell unchanged |
| Tally.TotalStep | bin/parse_pdb_files.py:142-150 | With distinct letters, one more residue raises the grand total by one if its letter is a column and leaves it unchanged otherwise |
| Tally.HistogramTotal | bin/parse_pdb_files.py:142-150 | When every residue's letter is a column, the grand total of the table equals the number of residues |
| Tally.Total | bin/parse_pdb_files.py:168 | `freq_df.values.sum()` over the rows; Tally.HistogramTotal proves it is the number of residues tallied and Tally.ZeroTotal that it is zero exactly for the all-zero table |
| Tally.ZeroHistogram | bin/parse_pdb_files.py:190-192 | The table before any residue is tallied has total zero |
| Tally.CountStep | bin/parse_pdb_files.py:145-150 | Tallying residue i in its letter's column and its class's row raises that count by one and no other |
| Tally.TallyResidue | bin/parse_pdb_files.py:143-150 | One loop pass: after it, every cell holds its start value plus the counts of the first i + 1 residues |
| Tally.FillFreqTable | bin/parse_pdb_files.py:126-153 | The tally succeeds exactly when every residue has a sequence element and a known letter. Otherwise it stops with the IndexError or KeyError of the first failing residue, with the residues before it already counted. Each cell becomes its old value plus its count. The result is the transposed table, and from a zero table it is the histogram |
| Tally.IndexOf | bin/parse_pdb_files.py:146-150 | The column lookup `freq_df[aa]`: the position returned holds the letter and no earlier column does |
| Tally.TransposedTotal | bin/parse_pdb_files.py:151-152 | Transposing loses no cell: the grand total of the transposed table, which relative_counts divides by, is the sum of all 3 · 20 cells of the table the loop filled |
| Tally.FromZeroIsHistogram | bin/parse_pdb_files.py:190-192 | A table that started at zero and holds the counts of all residues is the histogram, and has no negative cell |
| Tally.ZeroTotal | bin/parse_pdb_files.py:168 | With no negative cell, the grand total is non-negative and zero exactly when every cell is zero |
| Tally.FirstUnknown | bin/parse_pdb_files.py:142-146 | Every letter before the returned index is a column, and the letter at it, if any, is not |
| Tally.FailureIsFirstUnknown | bin/parse_pdb_files.py:142-146 | For lists of equal length, a failing tally can only be a KeyError, raised at the first unknown letter |
| Tally.KnownIffNoUnknown | bin/parse_pdb_files.py:142-146 | For lists of equal length, the tally succeeds exactly when there is no unknown letter |
| Relative.PercentRows | bin/parse_pdb_files.py:169 | Dividing every cell by a total keeps the number of rows, and the percentages sum to the table's total as a percentage of that total |
| Relative.RelativeCounts | bin/parse_pdb_files.py:158-173 | For a non-zero total, the rows and letters are kept in order, each cell becomes 100 · cell / total, and all percentages sum to exactly 100 |
| Relative.PercentRowsAt | bin/parse_pdb_files.py:169 | Row k of the divided table is row k of the input with each cell as a percentage of the total |
| Relative.PercentOfWhole | bin/parse_pdb_files.py:168-169 | The total as a percentage of itself is 100 |
| Relative.CellsBelowTotal | bin/parse_pdb_files.py:168 | With no negative cell, every row's sum is at most the grand total |
| Relative.PercentagesInRange | bin/parse_pdb_files.py:168-169 | For a table of counts with a positive total, every percentage lies in [0, 100] |
| Relative.ShareInRange | bin/parse_pdb_files.py:169 | A count between 0 and a positive total is between 0 % and 100 % of it |
| ProteinIds.JoinSplit | bin/parse_pdb_files.py:196 | No piece of a split holds the separator, and joining the pieces gives back the string |
| ProteinIds.Split | bin/parse_pdb_files.py:196 | `str.split` with a one-character separator gives at least one piece; ProteinIds.JoinSplit and ProteinIds.SplitJoin prove it the inverse of `str.join` on separator-free pieces |
| ProteinIds.SplitJoin | bin/parse_pdb_files.py:196 | Splitting the join of separator-free pieces gives back the pieces |
| ProteinIds.JoinAppend | bin/parse_pdb_files.py:196 | Joining two lists of pieces puts exactly one separator between their joins |
| ProteinIds.JoinEnds | bin/parse_pdb_files.py:196 | The first piece begins the joined string and the last one ends it |
| ProteinIds.LStrip | bin/parse_pdb_files.py:196 | The result is a suffix of the input, every removed character is in the set, and the result does not begin with one |
| ProteinIds.LastPiece | bin/parse_pdb_files.py:196 | The last `/` piece holds no `/`, ends the name, and is the whole name or follows a `/` |
| ProteinIds.FirstPiece | bin/parse_pdb_files.py:196 | The first `.` piece holds no `.`, begins the string, and is the whole string or is followed by a `.` |
| ProteinIds.PieceBeforeLast | bin/parse_pdb_files.py:196 | In a join of two or more pieces, the separator stands just before the last piece |
| ProteinIds.StemShape | bin/parse_pdb_files.py:196 | The part of the name before the first `.` of its last `/` piece contains neither `/` nor `.` |
| ProteinIds.Stem | bin/parse_pdb_files.py:196 | `infile.split('/')[-1].split('.')[0]`; ProteinIds.StemShape proves it holds no `/` and no `.`, and ProteinIds.EntStem that `<dir>/<stem>.ent` gives `<stem>` |
| ProteinIds.ProteinId | bin/parse_pdb_files.py:196 | The id is a suffix of the stem, everything removed from the front of the stem is p, d or b, and the id does not begin with one of them |
| ProteinIds.ProteinIdShape | bin/parse_pdb_files.py:196 | The protein id has no `/` or `.`, does not begin with p, d or b, and is the stem with its leading run of p, d and b removed |
| ProteinIds.SplitNoSeparator | bin/parse_pdb_files.py:196 | A string without the separator splits into itself alone |
| ProteinIds.SplitAround | bin/parse_pdb_files.py:196 | Splitting at one separator splits the two sides independently |
| ProteinIds.EntStem | bin/parse_pdb_files.py:196 | The stem of `<stem>.ent`, under any directory or none, is `<stem>` when it holds neither `/` nor `.` |
| ProteinIds.LStripRun | bin/parse_pdb_files.py:196 | lstrip of a run of stripped characters followed by a string that does not begin with one leaves exactly that string |
| ProteinIds.EntryFileName | bin/parse_pdb_files.py:196 | `pdb<code>.ent`, under any directory or none, yields `<code>` when the code does not begin with p, d or b |
| ProteinIds.LStripIsNotPrefixRemoval | bin/parse_pdb_files.py:196 | lstrip removes characters, not the prefix "pdb": `pdbd<code>.ent` and `d<code>.ent` both yield `<code>` |
| Aggregate.HistogramLabels | bin/parse_pdb_files.py:170-172 | The AA column of a tallied table is exactly the column labels of the frame, in their order |
| Aggregate.NormaliseMeaning | bin/parse_pdb_files.py:168-169 | For a table of counts, the result is the all-NaN table exactly when every count is zero, and otherwise relative_counts' percentages with a positive total |
| Aggregate.Normalise | bin/parse_pdb_files.py:168-173 | relative_counts including its 0 / 0 case; Aggregate.NormaliseMeaning proves it is the NaN table exactly when every count is zero and the percentage table otherwise |
| Aggregate.FileResultMeaning | bin/parse_pdb_files.py:207-209 | For a file whose letters are all known, the result is NaN exactly when the file has no residue. Otherwise it has 20 rows in the order A, C, ..., Y, each percentage lies in [0, 100], and they sum to 100 |
| Aggregate.FourResidueCounts | bin/parse_pdb_files.py:142-150 | Residues A/H, A/H, A/E, C/- give A the counts 2, 1, 0, C the counts 0, 0, 1, and every other letter zeros |
| Aggregate.FourResidueExample | bin/parse_pdb_files.py:207-209 | The same residues give A 50 % Helix and 25 % Sheet, C 25 % Other, and every other cell 0 % |
| Aggregate.AminoDict | bin/parse_pdb_files.py:190-192 | The dictionary's keys are exactly the protein letters, and each maps to [0, 0, 0] |
| Aggregate.FrameFromDict | bin/parse_pdb_files.py:207 | A new 3-row table with one column per letter, in order, whose cell [row, k] is element row of letter k's list |
| Aggregate.TallyFresh | bin/parse_pdb_files.py:207-208 | A fresh table from the zero dictionary, tallied, succeeds exactly when every residue is known, giving the histogram of the residues; otherwise it fails at the first failing residue |
| Aggregate.FileOutcomeMeaning | bin/parse_pdb_files.py:201-209 | A file yields a table exactly when all its letters are known. Otherwise it yields the KeyError of its first residue with an unknown letter |
| Aggregate.FileOutcome | bin/parse_pdb_files.py:200-209 | What one file yields, as a reference independent of the loop; Aggregate.FileOutcomeMeaning proves it is the file's table exactly when its letters are all known and the KeyError of its first unknown residue otherwise, and Aggregate.ProcessFile that one loop pass computes it |
| Aggregate.TallyOutcome | bin/parse_pdb_files.py:208-209 | What the tally of one file's lists reports decides what the file yields: its error, or its normalised table |
| Aggregate.ProcessFile | bin/parse_pdb_files.py:196-209 | One pass of main's loop over a file yields exactly that file's outcome: its KeyError, or its own normalised table |
| Aggregate.RunDirectory | bin/parse_pdb_files.py:190-209 | main's loop, with a fresh table per file and `results` overwritten, ends as the recursive run over the files' outcomes does |
| Aggregate.RunFrom | bin/parse_pdb_files.py:195-209 | The loop from file i on as a recursion over the files' outcomes; Aggregate.RunFromFailure and Aggregate.RunFromTables prove it stops at the first error and otherwise writes the last table |
| Aggregate.Run | bin/parse_pdb_files.py:195-213 | A whole run over the directory; Aggregate.DirectoryOutcome and Aggregate.LastFileWins state how it ends, and Aggregate.RunDirectory that main's loop computes it |
| Aggregate.RunFromTables | bin/parse_pdb_files.py:195-209 | When every remaining file yields a table, the run writes the last one, whatever came before |
| Aggregate.RunFromFailure | bin/parse_pdb_files.py:195-209 | The run fails exactly when some remaining file yields an error. It then fails at the first such file, with that file's error |
| Aggregate.DirectoryOutcome | bin/parse_pdb_files.py:195-213 | Every entry is taken to parse. An empty directory leaves `results` unbound. The run fails exactly when some file has an unknown letter, and then at the first such file, with the KeyError of its first unknown residue. Otherwise the table written is the last file's own table |
| Aggregate.LastFileWins | bin/parse_pdb_files.py:195-209 | Nothing accumulates across files: when every file is readable, a directory gives the same result as its last file alone |

## Left out

- Reading structures is left out. PDBParser, DSSP and parse_pdb are foreign code, so each file's DSSP records are an input, in the order of the DSSP object's keys.
- Every directory entry is assumed to parse. `os.listdir` returns every entry, not only structure files, and `parse_pdb` (PDBParser and DSSP) can raise on one; that exception ends the real run and has no `Outcome` in the model.
- Only fields 1 and 2 of a DSSP record are kept. The script reads no other field.
- The order of `os.listdir` is given by the entries sequence. `os.path.join`, logging, argparse and `print` are I/O.
- Writing `AA_freq_table.tsv` with `to_csv` is left out as file output. An empty directory is modelled as the run ending with `results` unbound, where the script raises a NameError/UnboundLocalError.
- Aggregate.ProcessFile computes the protein id, but its only use is as the structure id passed to the parser, which is not part of this model.
- get_seq_struct is called twice per file in the script. It is deterministic, so the model calls it once.
- Relative.RelativeCounts: uses exact reals. It does not model floating-point division or the rounding to two decimals, so the "sums to 100" statement holds before rounding only.
- Aggregate.Normalise: an all-zero table is the `NotANumber` value, standing for pandas' table of NaN cells (0 / 0). IEEE NaN arithmetic is not modelled.
- Counts are unbounded integers. The int64 cells of the DataFrame could only overflow beyond 2^63 residues.
- pandas mechanics are reduced to their effect. `DataFrame.from_dict` becomes a fresh `array2`. The chained `freq_df[aa][row] += 1` writes through to the frame, as in pandas 1.x. `transpose`, `set_axis` and `reset_index`/`rename` become the labelled `CountRow`/`RelRow` rows.
- The plotting script `bin/plot_multibar.py` and the workflow files are not part of this model.
