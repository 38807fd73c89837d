/** The directory loop of main (bin/parse_pdb_files.py:176-213): the zero
    dictionary over the 20 protein letters, then for every file of the
    directory a fresh zero table, the tally and the normalisation, each result
    overwriting the previous one. The directory is given as its entries in
    listing order; each entry carries the DSSP records that the structure
    parser and DSSP produce for that file. */
module Aggregate {
  import opened Residues
  import opened Tally
  import opened Relative
  import opened ProteinIds

  datatype Option<T> = None | Some(value: T)

  /** A directory entry: its file name and the DSSP records of its first model. */
  datatype Entry = Entry(name: string, dssp: seq<DsspRecord>)

  /** The table relative_counts returns: percentages, or, when every count is
      zero, a table whose every cell is NaN (pandas divides 0 by 0). */
  datatype Normalised = Percentages(rows: seq<RelRow>) | NotANumber(labels: seq<char>)

  /** How a run ends: an empty directory leaves `results` unbound when it is
      written out; a residue with an unknown letter aborts the run at file
      `file`; otherwise the last file's table is written. */
  datatype Outcome = Unbound | Failed(file: nat, error: TallyError) | Written(results: Normalised)

  /** The AA column of a table of counts. */
  function Labels(rows: seq<CountRow>): seq<char>
  {
    seq(|rows|, k requires 0 <= k < |rows| => rows[k].aa)
  }

  /** The AA column of a tallied table is the column labels, in order. */
  lemma HistogramLabels(columns: seq<char>, seqList: seq<char>, ssList: seq<char>, n: nat)
    requires n <= |seqList| && n <= |ssList|
    ensures Labels(Histogram(columns, seqList, ssList, n)) == columns
  {
  }

  /** relative_counts on a table of counts, both when the total is positive
      and when it is zero. */
  function Normalise(freq: seq<CountRow>): Normalised
  {
    if Total(freq) == 0 then NotANumber(Labels(freq)) else Percentages(RelativeCounts(freq))
  }

  /** On a table of counts the NaN table arises exactly when every cell is
      zero; otherwise the result is relative_counts' table of percentages. */
  lemma NormaliseMeaning(freq: seq<CountRow>)
    requires NonNegative(freq)
    ensures var r := Normalise(freq);
      (r.NotANumber? <==>
        forall k | 0 <= k < |freq| :: freq[k].helix == 0 && freq[k].sheet == 0 && freq[k].other == 0) &&
      (r.NotANumber? ==> r.labels == Labels(freq)) &&
      (r.Percentages? ==> Total(freq) > 0 && r.rows == RelativeCounts(freq))
  {
    ZeroTotal(freq);
  }

  /** Every residue of the structure has one of the 20 table letters. */
  predicate Readable(dssp: seq<DsspRecord>)
  {
    forall i | 0 <= i < |dssp| :: dssp[i].aa in ProteinLetters
  }

  /** The table the script computes for one file on its own: the counts of its
      residues in a zero table over the 20 letters, normalised. */
  function FileResult(dssp: seq<DsspRecord>): Normalised
  {
    Normalise(Histogram(ProteinLetters, AminoAcids(dssp), Structures(dssp), |dssp|))
  }

  /** For a readable file, the result is the NaN table exactly when the file has
      no residue; otherwise it has one row per letter, in the order A, C, ..., Y,
      every percentage lies in [0, 100] and they sum to 100. */
  lemma FileResultMeaning(dssp: seq<DsspRecord>)
    requires Readable(dssp)
    ensures FileResult(dssp).NotANumber? <==> |dssp| == 0
    ensures FileResult(dssp).NotANumber? ==> FileResult(dssp).labels == ProteinLetters
    ensures var r := FileResult(dssp);
      r.Percentages? ==>
        |r.rows| == 20 && RelTotal(r.rows) == 100.0 &&
        forall k | 0 <= k < 20 :: r.rows[k].aa == ProteinLetters[k] &&
          0.0 <= r.rows[k].helix <= 100.0 && 0.0 <= r.rows[k].sheet <= 100.0 && 0.0 <= r.rows[k].other <= 100.0
  {
    var freq := Histogram(ProteinLetters, AminoAcids(dssp), Structures(dssp), |dssp|);
    NormaliseMeaning(freq);
    ProteinLettersDistinct();
    HistogramTotal(ProteinLetters, AminoAcids(dssp), Structures(dssp), |dssp|);
    ZeroTotal(freq);
    if |dssp| > 0 {
      PercentagesInRange(freq);
    } else {
      assert Labels(freq) == ProteinLetters;
    }
  }

  /** Four residues, A in two helices and a strand and C in a coil: A gets
      50 % Helix and 25 % Sheet, C gets 25 % Other, every other cell 0 %. */
  lemma FourResidueExample()
    ensures var r := FileResult(FourResidues);
      r.Percentages? && |r.rows| == 20 &&
      r.rows[0] == RelRow('A', 50.0, 25.0, 0.0) &&
      r.rows[1] == RelRow('C', 0.0, 0.0, 25.0) &&
      forall k | 2 <= k < 20 :: r.rows[k] == RelRow(ProteinLetters[k], 0.0, 0.0, 0.0)
  {
    FourResidueCounts();
    var freq := Histogram(ProteinLetters, "AAAC", "HHE-", 4);
    ProteinLettersDistinct();
    HistogramTotal(ProteinLetters, "AAAC", "HHE-", 4);
    assert FileResult(FourResidues) == Percentages(RelativeCounts(freq));
    var rows := RelativeCounts(freq);
    assert Percent(2, 4) == 50.0 && Percent(1, 4) == 25.0 && Percent(0, 4) == 0.0;
    assert rows[0] == RelRow('A', 50.0, 25.0, 0.0);
    assert rows[1] == RelRow('C', 0.0, 0.0, 25.0);
  }

  const FourResidues: seq<DsspRecord> :=
    [DsspRecord('A', 'H'), DsspRecord('A', 'H'), DsspRecord('A', 'E'), DsspRecord('C', '-')]

  /** The raw counts of the four residues: A 2/1/0, C 0/0/1, nothing else. */
  lemma FourResidueCounts()
    ensures AminoAcids(FourResidues) == "AAAC" && Structures(FourResidues) == "HHE-"
    ensures var freq := Histogram(ProteinLetters, "AAAC", "HHE-", 4);
      |freq| == 20 && freq[0] == CountRow('A', 2, 1, 0) && freq[1] == CountRow('C', 0, 0, 1) &&
      forall k | 2 <= k < 20 :: freq[k] == CountRow(ProteinLetters[k], 0, 0, 0)
  {
    var seqList, ssList := "AAAC", "HHE-";
    var freq := Histogram(ProteinLetters, seqList, ssList, 4);
    assert freq[0] == CountRow('A', 2, 1, 0);
    assert freq[1] == CountRow('C', 0, 0, 1);
    forall k | 2 <= k < 20
      ensures freq[k] == CountRow(ProteinLetters[k], 0, 0, 0)
    {
      var aa := ProteinLetters[k];
      assert aa != 'A' && aa != 'C';
      CountAbsent(seqList, ssList, aa, Helix, 4);
      CountAbsent(seqList, ssList, aa, Sheet, 4);
      CountAbsent(seqList, ssList, aa, Other, 4);
    }
  }

  /** The dictionary of main: every protein letter maps to [0, 0, 0]. */
  method AminoDict(letters: seq<char>) returns (d: map<char, seq<int>>)
    ensures forall c :: c in d <==> c in letters
    ensures forall c | c in d :: d[c] == [0, 0, 0]
  {
    d := map[];
    for i := 0 to |letters|
      invariant forall c :: c in d <==> c in letters[..i]
      invariant forall c | c in d :: d[c] == [0, 0, 0]
    {
      d := d[letters[i] := [0, 0, 0]];
    }
  }

  /** `pd.DataFrame.from_dict(d)`: a new table with one column per key, in
      the dictionary's insertion order `columns`, holding a copy of its list. */
  method FrameFromDict(columns: seq<char>, d: map<char, seq<int>>) returns (df: array2<int>)
    requires forall c | c in columns :: c in d && |d[c]| == 3
    ensures fresh(df) && df.Length0 == 3 && df.Length1 == |columns|
    ensures forall row, k | 0 <= row < 3 && 0 <= k < |columns| :: df[row, k] == d[columns[k]][row]
  {
    df := new int[3, |columns|]((row, k) requires 0 <= row < 3 && 0 <= k < |columns| => d[columns[k]][row]);
  }

  /** Lines 207-208: a fresh zero table from the dictionary, tallied. */
  method TallyFresh(aminoDict: map<char, seq<int>>, seqList: seq<char>, secStructList: seq<char>)
      returns (r: Result<seq<CountRow>, TallyError>)
    requires forall c :: c in aminoDict <==> c in ProteinLetters
    requires forall c | c in aminoDict :: aminoDict[c] == [0, 0, 0]
    ensures r.Ok? <==> Known(seqList, secStructList, ProteinLetters, |secStructList|)
    ensures r.Ok? ==> r.value == Histogram(ProteinLetters, seqList, secStructList, |secStructList|)
    ensures r.Err? ==> FailsWith(seqList, secStructList, ProteinLetters, r.error)
  {
    ProteinLettersDistinct();
    var df := FrameFromDict(ProteinLetters, aminoDict);
    assert forall row, k | 0 <= row < 3 && 0 <= k < |ProteinLetters| :: df[row, k] == 0;
    r := FillFreqTable(seqList, secStructList, ProteinLetters, df);
  }

  /** What one file yields: the KeyError of its first residue whose letter is
      not one of the 20, or else its normalised table. */
  function FileOutcome(dssp: seq<DsspRecord>): Result<Normalised, TallyError>
  {
    var seqList := AminoAcids(dssp);
    var k := FirstUnknown(ProteinLetters, seqList);
    if k < |seqList| then Err(KeyError(k, seqList[k])) else Ok(FileResult(dssp))
  }

  /** A file yields a table exactly when it is readable; otherwise its error
      names the first residue with an unknown letter. */
  lemma FileOutcomeMeaning(dssp: seq<DsspRecord>)
    ensures Readable(dssp) <==> FileOutcome(dssp).Ok?
    ensures FileOutcome(dssp).Ok? ==> FileOutcome(dssp).value == FileResult(dssp)
    ensures var r := FileOutcome(dssp);
      r.Err? ==>
        r.error.KeyError? && r.error.at < |dssp| && r.error.letter == dssp[r.error.at].aa &&
        r.error.letter !in ProteinLetters &&
        forall i | 0 <= i < r.error.at :: dssp[i].aa in ProteinLetters
  {
    var seqList := AminoAcids(dssp);
    var k := FirstUnknown(ProteinLetters, seqList);
    assert forall i | 0 <= i < |dssp| :: seqList[i] == dssp[i].aa;
  }

  /** The body of main's loop for one file (lines 196-209): the protein id, the
      two residue lists, the tally into a fresh table and relative_counts. */
  method ProcessFile(aminoDict: map<char, seq<int>>, entry: Entry) returns (r: Result<Normalised, TallyError>)
    requires forall c :: c in aminoDict <==> c in ProteinLetters
    requires forall c | c in aminoDict :: aminoDict[c] == [0, 0, 0]
    ensures r == FileOutcome(entry.dssp)
  {
    // The id is handed to the structure parser, whose output is entry.dssp.
    var proteinId := ProteinId(entry.name);
    var seqList, secStructList := GetSeqStruct(entry.dssp);
    var freq := TallyFresh(aminoDict, seqList, secStructList);
    TallyOutcome(entry.dssp, freq);
    if freq.Err? {
      return Err(freq.error);
    }
    return Ok(Normalise(freq.value));
  }

  /** What the tally of a file's two residue lists reports decides what the file yields. */
  lemma TallyOutcome(dssp: seq<DsspRecord>, r: Result<seq<CountRow>, TallyError>)
    requires var seqList, ssList := AminoAcids(dssp), Structures(dssp);
      (r.Ok? <==> Known(seqList, ssList, ProteinLetters, |ssList|)) &&
      (r.Ok? ==> r.value == Histogram(ProteinLetters, seqList, ssList, |ssList|)) &&
      (r.Err? ==> FailsWith(seqList, ssList, ProteinLetters, r.error))
    ensures FileOutcome(dssp) == if r.Ok? then Ok(Normalise(r.value)) else Err(r.error)
  {
    var seqList, ssList := AminoAcids(dssp), Structures(dssp);
    if r.Err? {
      FailureIsFirstUnknown(seqList, ssList, ProteinLetters, r.error);
    } else {
      KnownIffNoUnknown(seqList, ssList, ProteinLetters);
    }
  }

  /** What each file of the directory yields, in listing order. */
  function FileOutcomes(entries: seq<Entry>): seq<Result<Normalised, TallyError>>
  {
    seq(|entries|, j requires 0 <= j < |entries| => FileOutcome(entries[j].dssp))
  }

  /** The rest of main's loop from file i on, given what every file yields,
      with `results` as the last table computed so far: the first error ends
      the run, and each table replaces the one before. */
  function RunFrom(outs: seq<Result<Normalised, TallyError>>, i: nat, results: Option<Normalised>): Outcome
    requires i <= |outs|
    decreases |outs| - i
  {
    if i == |outs| then
      if results.None? then Unbound else Written(results.value)
    else
      match outs[i]
      case Err(e) => Failed(i, e)
      case Ok(table) => RunFrom(outs, i + 1, Some(table))
  }

  /** A whole run of the aggregator over a directory. */
  function Run(entries: seq<Entry>): Outcome
  {
    RunFrom(FileOutcomes(entries), 0, None)
  }

  /** main's loop over the directory: every file is tallied into a fresh zero
      table and normalised, and `results` is overwritten each time. */
  method RunDirectory(entries: seq<Entry>) returns (out: Outcome)
    ensures out == Run(entries)
  {
    var aminoDict := AminoDict(ProteinLetters);
    ghost var outs := FileOutcomes(entries);
    var results: Option<Normalised> := None;
    var i := 0;
    while i < |entries|
      invariant i <= |entries|
      invariant RunFrom(outs, i, results) == Run(entries)
    {
      var r := ProcessFile(aminoDict, entries[i]);
      assert r == outs[i];
      if r.Err? {
        return Failed(i, r.error);
      }
      results := Some(r.value);
      i := i + 1;
    }
    if results.None? {
      return Unbound;
    }
    return Written(results.value);
  }

  /** File `f` is the first of the directory with a residue whose letter is
      not one of the 20. */
  predicate FirstUnreadable(entries: seq<Entry>, f: nat)
  {
    f < |entries| && !Readable(entries[f].dssp) && forall j | 0 <= j < f :: Readable(entries[j].dssp)
  }

  /** When every file from i on yields a table, the run writes the last one. */
  lemma {:induction false} RunFromTables(outs: seq<Result<Normalised, TallyError>>, i: nat, results: Option<Normalised>)
    requires i < |outs|
    requires forall j | i <= j < |outs| :: outs[j].Ok?
    ensures RunFrom(outs, i, results) == Written(outs[|outs| - 1].value)
    decreases |outs| - i
  {
    if i + 1 < |outs| {
      RunFromTables(outs, i + 1, Some(outs[i].value));
    }
  }

  /** The run fails exactly when some file from i on yields an error, and then
      it fails at the first such file, with that file's error. */
  lemma {:induction false} RunFromFailure(outs: seq<Result<Normalised, TallyError>>, i: nat, results: Option<Normalised>)
    requires i <= |outs|
    ensures RunFrom(outs, i, results).Failed? <==> exists j | i <= j < |outs| :: outs[j].Err?
    ensures var out := RunFrom(outs, i, results);
      out.Failed? ==>
        i <= out.file < |outs| && Err(out.error) == outs[out.file] &&
        forall j | i <= j < out.file :: outs[j].Ok?
    decreases |outs| - i
  {
    if i < |outs| && outs[i].Ok? {
      RunFromFailure(outs, i + 1, Some(outs[i].value));
    }
  }

  /** What a run of the aggregator ends with. An empty directory leaves
      `results` unbound. If some file holds a residue whose letter is not one
      of the 20, the run stops at the first such file, with the KeyError of its
      first such residue. Otherwise the table written is the last file's own
      normalised table. */
  lemma DirectoryOutcome(entries: seq<Entry>)
    ensures |entries| == 0 ==> Run(entries) == Unbound
    ensures Run(entries).Failed? <==> exists j | 0 <= j < |entries| :: !Readable(entries[j].dssp)
    ensures var out := Run(entries);
      out.Failed? ==>
        FirstUnreadable(entries, out.file) && out.error.KeyError? &&
        out.error.at < |entries[out.file].dssp| &&
        out.error.letter == entries[out.file].dssp[out.error.at].aa &&
        out.error.letter !in ProteinLetters &&
        forall i | 0 <= i < out.error.at :: entries[out.file].dssp[i].aa in ProteinLetters
    ensures |entries| > 0 && (forall j | 0 <= j < |entries| :: Readable(entries[j].dssp)) ==>
      Run(entries) == Written(FileResult(entries[|entries| - 1].dssp))
  {
    var outs := FileOutcomes(entries);
    RunFromFailure(outs, 0, None);
    forall j | 0 <= j < |entries|
      ensures Readable(entries[j].dssp) <==> outs[j].Ok?
      ensures outs[j].Ok? ==> outs[j].value == FileResult(entries[j].dssp)
    {
      FileOutcomeMeaning(entries[j].dssp);
    }
    var out := RunFrom(outs, 0, None);
    if out.Failed? {
      FileOutcomeMeaning(entries[out.file].dssp);
    }
    if |entries| > 0 && forall j | 0 <= j < |entries| :: Readable(entries[j].dssp) {
      RunFromTables(outs, 0, None);
    }
  }

  /** Tables are not accumulated across files: when every file is readable, a
      directory gives the same result as its last file alone. */
  lemma LastFileWins(earlier: seq<Entry>, last: Entry)
    requires forall j | 0 <= j < |earlier| :: Readable(earlier[j].dssp)
    requires Readable(last.dssp)
    ensures Run(earlier + [last]) == Run([last])
  {
    var all := earlier + [last];
    assert forall j | 0 <= j < |all| :: Readable(all[j].dssp) by {
      forall j | 0 <= j < |all| ensures Readable(all[j].dssp) {
        if j < |earlier| { assert all[j] == earlier[j]; }
      }
    }
    DirectoryOutcome(all);
    DirectoryOutcome([last]);
  }
}
