/** Residue observations as the DSSP secondary-structure assignment delivers them,
    the fixed partition of DSSP codes into three coarse classes, the 20 amino-acid
    letters that index the frequency table, and the extraction of the two parallel
    per-residue lists (bin/parse_pdb_files.py, get_seq_struct). */
module Residues {

  /** One DSSP record. The library returns a tuple per residue; only the two
      fields the script reads are kept, field 1 (the one-letter amino-acid code)
      and field 2 (the secondary-structure code). The records of one structure
      are given as a sequence in the order of the DSSP object's keys. */
  datatype DsspRecord = DsspRecord(aa: char, ss: char)

  /** The three columns of the frequency table, in their fixed order. */
  datatype SsClass = Helix | Sheet | Other

  /** The eight DSSP codes and their names, as listed in the script. */
  const DsspCodes: seq<(string, char)> := [
    ("Helix", 'H'), ("Bridge", 'B'), ("Strand", 'E'), ("3-10 Helix", 'G'),
    ("Pi-Helix", 'I'), ("Turn", 'T'), ("Bend", 'S'), ("Other", '-')
  ]

  /** Codes counted as helix and as sheet; every other code counts as Other. */
  const HelixCodes: seq<char> := ['H', 'G', 'I']
  const SheetCodes: seq<char> := ['B', 'E']

  /** The class a code is tallied under: the if / elif / else chain of fill_freq_table. */
  function Classify(code: char): SsClass
  {
    if code in HelixCodes then Helix
    else if code in SheetCodes then Sheet
    else Other
  }

  /** The partition is disjoint (no code is both helix and sheet), so the order
      of the tests in the chain does not matter, and it is total: each code
      lands in exactly the class whose code list holds it. */
  lemma ClassPartition(code: char)
    ensures !(code in HelixCodes && code in SheetCodes)
    ensures Classify(code) == Helix <==> code in HelixCodes
    ensures Classify(code) == Sheet <==> code in SheetCodes
    ensures Classify(code) == Other <==> code !in HelixCodes && code !in SheetCodes
  {
  }

  /** The eight named DSSP codes fall as the script's grouping says:
      H, G and I are helices, B and E sheets, T, S and '-' Other. */
  lemma DsspCodesClassified()
    ensures forall k | 0 <= k < |DsspCodes| ::
      Classify(DsspCodes[k].1) == (if k in {0, 3, 4} then Helix else if k in {1, 2} then Sheet else Other)
  {
  }

  /** Row index of a class in the table before it is transposed (row 0 Helix,
      row 1 Sheet, row 2 Other). */
  function ClassRow(c: SsClass): (row: nat)
    ensures row < 3
    ensures RowClass(row) == c
  {
    match c
    case Helix => 0
    case Sheet => 1
    case Other => 2
  }

  function RowClass(row: nat): (c: SsClass)
    requires row < 3
  {
    if row == 0 then Helix else if row == 1 then Sheet else Other
  }

  /** IUPAC's 20 one-letter protein codes, in Biopython's order (protein_letters). */
  const ProteinLetters: string := "ACDEFGHIKLMNPQRSTVWY"

  predicate Distinct(s: seq<char>)
  {
    forall i, j | 0 <= i < j < |s| :: s[i] != s[j]
  }

  lemma ProteinLettersDistinct()
    ensures |ProteinLetters| == 20 && Distinct(ProteinLetters)
  {
  }

  /** Field 1 of every record, in order. */
  function AminoAcids(dssp: seq<DsspRecord>): (s: seq<char>)
  {
    seq(|dssp|, i requires 0 <= i < |dssp| => dssp[i].aa)
  }

  /** Field 2 of every record, in order. */
  function Structures(dssp: seq<DsspRecord>): (s: seq<char>)
  {
    seq(|dssp|, i requires 0 <= i < |dssp| => dssp[i].ss)
  }

  /** get_seq_struct: walks the records in key order and appends field 1 to the
      sequence and field 2 to the structure string; both become lists of
      characters, one per record. */
  method GetSeqStruct(dssp: seq<DsspRecord>) returns (seqList: seq<char>, secStructList: seq<char>)
    ensures |seqList| == |dssp| && |secStructList| == |dssp|
    ensures forall i | 0 <= i < |dssp| :: seqList[i] == dssp[i].aa && secStructList[i] == dssp[i].ss
    ensures seqList == AminoAcids(dssp) && secStructList == Structures(dssp)
  {
    var sequence: seq<char> := [];
    var secStructure: seq<char> := [];
    var z := 0;
    while z < |dssp|
      invariant z <= |dssp|
      invariant |sequence| == z && |secStructure| == z
      invariant forall i | 0 <= i < z :: sequence[i] == dssp[i].aa && secStructure[i] == dssp[i].ss
    {
      var record := dssp[z];
      sequence := sequence + [record.aa];
      secStructure := secStructure + [record.ss];
      z := z + 1;
    }
    seqList, secStructList := sequence, secStructure;
  }
}
