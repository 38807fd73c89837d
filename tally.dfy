/** The frequency table and fill_freq_table (bin/parse_pdb_files.py:126-153).

    Before tallying, the table is the DataFrame built from the amino-acid
    dictionary: one column per amino-acid letter and three rows, row 0 Helix,
    row 1 Sheet, row 2 Other. It is modelled as its column labels and an
    `array2<int>` indexed [row, column] that the tally updates in place. After
    the loop the script transposes it and names the columns Helix, Sheet and
    Other; that view is a sequence of `CountRow` values, one per letter. */
module Tally {
  import opened Residues

  datatype Result<T, E> = Ok(value: T) | Err(error: E)

  /** Why a tally stops: the letter of residue `at` is not a column of the
      table (pandas raises KeyError), or the sequence list has no element at
      `at` (Python raises IndexError). */
  datatype TallyError = KeyError(at: nat, letter: char) | IndexError(at: nat)

  /** One row of the transposed table: the letter and its three counts. */
  datatype CountRow = CountRow(aa: char, helix: int, sheet: int, other: int)
  {
    function Get(c: SsClass): int
    {
      match c
      case Helix => helix
      case Sheet => sheet
      case Other => other
    }

    function Sum(): int
    {
      helix + sheet + other
    }
  }

  /** Residue i has letter `aa` and a code of class `c`. */
  predicate Counted(seqList: seq<char>, ssList: seq<char>, aa: char, c: SsClass, i: nat)
    requires i < |seqList| && i < |ssList|
  {
    seqList[i] == aa && Classify(ssList[i]) == c
  }

  /** Number of positions i < n whose letter is `aa` and whose code falls in class `c`. */
  function Count(seqList: seq<char>, ssList: seq<char>, aa: char, c: SsClass, n: nat): (k: nat)
    requires n <= |seqList| && n <= |ssList|
    ensures k <= n
  {
    if n == 0 then 0
    else Count(seqList, ssList, aa, c, n - 1) + (if Counted(seqList, ssList, aa, c, n - 1) then 1 else 0)
  }

  /** The same number, as the size of the set of positions it counts. */
  lemma {:induction false} CountIsPositions(seqList: seq<char>, ssList: seq<char>, aa: char, c: SsClass, n: nat)
    requires n <= |seqList| && n <= |ssList|
    ensures Count(seqList, ssList, aa, c, n) == |set i | 0 <= i < n && Counted(seqList, ssList, aa, c, i)|
  {
    var positions := set i | 0 <= i < n && Counted(seqList, ssList, aa, c, i);
    if n > 0 {
      CountIsPositions(seqList, ssList, aa, c, n - 1);
      var before := set i | 0 <= i < n - 1 && Counted(seqList, ssList, aa, c, i);
      if Counted(seqList, ssList, aa, c, n - 1) {
        assert positions == before + {n - 1};
        assert n - 1 !in before;
        assert |before + {n - 1}| == |before| + 1;
      } else {
        assert positions == before;
      }
    } else {
      assert positions == {};
    }
  }

  /** A letter that does not occur among the first n residues has count zero. */
  lemma {:induction false} CountAbsent(seqList: seq<char>, ssList: seq<char>, aa: char, c: SsClass, n: nat)
    requires n <= |seqList| && n <= |ssList|
    requires forall i | 0 <= i < n :: seqList[i] != aa
    ensures Count(seqList, ssList, aa, c, n) == 0
  {
    if n > 0 {
      CountAbsent(seqList, ssList, aa, c, n - 1);
    }
  }

  /** The counts of the first n residues, one row per column label: what a table
      that started at zero holds after tallying n residues. */
  function Histogram(columns: seq<char>, seqList: seq<char>, ssList: seq<char>, n: nat): (rows: seq<CountRow>)
    requires n <= |seqList| && n <= |ssList|
  {
    seq(|columns|, k requires 0 <= k < |columns| =>
      CountRow(columns[k],
               Count(seqList, ssList, columns[k], Helix, n),
               Count(seqList, ssList, columns[k], Sheet, n),
               Count(seqList, ssList, columns[k], Other, n)))
  }

  /** Sum of every cell of a table (`freq_df.values.sum()`). */
  function Total(rows: seq<CountRow>): int
  {
    if rows == [] then 0 else rows[0].Sum() + Total(rows[1..])
  }

  predicate NonNegative(rows: seq<CountRow>)
  {
    forall k | 0 <= k < |rows| :: rows[k].helix >= 0 && rows[k].sheet >= 0 && rows[k].other >= 0
  }

  /** The first n residues can be tallied: each has a sequence element and its
      letter is a column of the table. */
  predicate Known(seqList: seq<char>, ssList: seq<char>, columns: seq<char>, n: nat)
  {
    n <= |seqList| && n <= |ssList| && forall i | 0 <= i < n :: seqList[i] in columns
  }

  /** `e` is the error the loop raises: every residue before `e.at` was tallied
      and residue `e.at` is the first whose lookup fails. */
  predicate FailsWith(seqList: seq<char>, ssList: seq<char>, columns: seq<char>, e: TallyError)
  {
    e.at < |ssList| && Known(seqList, ssList, columns, e.at) &&
    match e
    case KeyError(at, letter) => at < |seqList| && letter == seqList[at] && letter !in columns
    case IndexError(at) => at == |seqList|
  }

  /** Tallying one more residue changes exactly one cell: the one in its letter's
      row and its class's column goes up by one, every other cell is unchanged. */
  lemma OneIncrementPerResidue(columns: seq<char>, seqList: seq<char>, ssList: seq<char>, n: nat)
    requires n < |seqList| && n < |ssList|
    ensures var before, after := Histogram(columns, seqList, ssList, n), Histogram(columns, seqList, ssList, n + 1);
      |before| == |after| == |columns| &&
      forall k, c | 0 <= k < |columns| ::
        after[k].Get(c) == before[k].Get(c) + (if columns[k] == seqList[n] && c == Classify(ssList[n]) then 1 else 0)
  {
  }

  /** Adding residue n raises the grand total by one if its letter is a column
      and leaves it unchanged otherwise; this needs the labels to be distinct. */
  lemma {:induction false} TotalStep(columns: seq<char>, seqList: seq<char>, ssList: seq<char>, n: nat)
    requires Distinct(columns)
    requires n < |seqList| && n < |ssList|
    ensures Total(Histogram(columns, seqList, ssList, n + 1))
            == Total(Histogram(columns, seqList, ssList, n)) + (if seqList[n] in columns then 1 else 0)
  {
    if columns != [] {
      var tail := columns[1..];
      assert Histogram(columns, seqList, ssList, n)[1..] == Histogram(tail, seqList, ssList, n);
      assert Histogram(columns, seqList, ssList, n + 1)[1..] == Histogram(tail, seqList, ssList, n + 1);
      TotalStep(tail, seqList, ssList, n);
      assert seqList[n] in columns <==> seqList[n] == columns[0] || seqList[n] in tail;
      assert seqList[n] == columns[0] ==> seqList[n] !in tail;
    }
  }

  /** The grand total of the tallied table equals the number of residues tallied. */
  lemma {:induction false} HistogramTotal(columns: seq<char>, seqList: seq<char>, ssList: seq<char>, n: nat)
    requires Distinct(columns)
    requires Known(seqList, ssList, columns, n)
    ensures Total(Histogram(columns, seqList, ssList, n)) == n
  {
    if n == 0 {
      ZeroHistogram(columns, seqList, ssList);
    } else {
      HistogramTotal(columns, seqList, ssList, n - 1);
      TotalStep(columns, seqList, ssList, n - 1);
    }
  }

  lemma {:induction false} ZeroHistogram(columns: seq<char>, seqList: seq<char>, ssList: seq<char>)
    ensures Total(Histogram(columns, seqList, ssList, 0)) == 0
  {
    if columns != [] {
      assert Histogram(columns, seqList, ssList, 0)[1..] == Histogram(columns[1..], seqList, ssList, 0);
      ZeroHistogram(columns[1..], seqList, ssList);
    }
  }

  /** Column `k` of the pre-transpose table. */
  function Transposed(columns: seq<char>, df: array2<int>): seq<CountRow>
    requires df.Length0 == 3 && df.Length1 == |columns|
    reads df
  {
    seq(|columns|, k requires 0 <= k < |columns| reads df => CountRow(columns[k], df[0, k], df[1, k], df[2, k]))
  }

  /** Sum of the cells in columns k, k + 1, ... of the table before transposition. */
  function CellsFrom(df: array2<int>, k: nat): int
    requires df.Length0 == 3 && k <= df.Length1
    reads df
    decreases df.Length1 - k
  {
    if k == df.Length1 then 0 else df[0, k] + df[1, k] + df[2, k] + CellsFrom(df, k + 1)
  }

  /** Transposing loses no cell: the grand total of the transposed table
      (`freq_df.values.sum()`) is the sum of all 3 * |columns| cells. */
  lemma TransposedTotal(columns: seq<char>, df: array2<int>)
    requires df.Length0 == 3 && df.Length1 == |columns|
    ensures Total(Transposed(columns, df)) == CellsFrom(df, 0)
  {
    TransposedTotalFrom(columns, df, 0);
  }

  lemma {:induction false} TransposedTotalFrom(columns: seq<char>, df: array2<int>, k: nat)
    requires df.Length0 == 3 && df.Length1 == |columns| && k <= |columns|
    ensures Total(Transposed(columns, df)[k..]) == CellsFrom(df, k)
    decreases |columns| - k
  {
    var rows := Transposed(columns, df);
    if k < |columns| {
      assert rows[k..][1..] == rows[k + 1..];
      assert rows[k..][0] == rows[k];
      TransposedTotalFrom(columns, df, k + 1);
    } else {
      assert rows[k..] == [];
    }
  }

  /** Position of a column label (the DataFrame's column lookup). */
  function IndexOf(columns: seq<char>, x: char): (k: nat)
    requires x in columns
    ensures k < |columns| && columns[k] == x
    ensures forall j | 0 <= j < k :: columns[j] != x
  {
    if columns[0] == x then 0 else 1 + IndexOf(columns[1..], x)
  }

  /** fill_freq_table: for each residue, adds one to the cell of its letter's
      column in the row of its code's class, then returns the table transposed.
      A failing lookup stops the loop with the residues before it already counted. */
  method FillFreqTable(seqList: seq<char>, ssList: seq<char>, columns: seq<char>, df: array2<int>)
      returns (r: Result<seq<CountRow>, TallyError>)
    requires df.Length0 == 3 && df.Length1 == |columns|
    requires Distinct(columns)
    modifies df
    ensures r.Ok? <==> Known(seqList, ssList, columns, |ssList|)
    ensures r.Err? ==> FailsWith(seqList, ssList, columns, r.error)
    ensures var n := if r.Ok? then |ssList| else r.error.at;
      n <= |seqList| && n <= |ssList| &&
      forall row, k | 0 <= row < 3 && 0 <= k < |columns| ::
        df[row, k] == old(df[row, k]) + Count(seqList, ssList, columns[k], RowClass(row), n)
    ensures r.Ok? ==> r.value == Transposed(columns, df)
    ensures r.Ok? && (forall row, k | 0 <= row < 3 && 0 <= k < |columns| :: old(df[row, k]) == 0) ==>
      r.value == Histogram(columns, seqList, ssList, |ssList|)
  {
    ghost var start := Cells(df);
    var i := 0;
    while i < |ssList|
      invariant i <= |ssList|
      invariant Known(seqList, ssList, columns, i)
      invariant forall row, k | 0 <= row < 3 && 0 <= k < |columns| :: start[row][k] == old(df[row, k])
      invariant Tallied(seqList, ssList, columns, df, start, i)
    {
      if i >= |seqList| {
        return Err(IndexError(i));
      }
      var aa := seqList[i];
      if aa !in columns {
        return Err(KeyError(i, aa));
      }
      TallyResidue(seqList, ssList, columns, df, start, i);
      i := i + 1;
    }
    r := Ok(Transposed(columns, df));
    if forall row, k | 0 <= row < 3 && 0 <= k < |columns| :: old(df[row, k]) == 0 {
      FromZeroIsHistogram(columns, seqList, ssList, r.value);
    }
  }

  /** The cells of the table before transposition, row by row. */
  function Cells(df: array2<int>): seq<seq<int>>
    requires df.Length0 == 3
    reads df
  {
    seq(3, row requires 0 <= row < 3 reads df => seq(df.Length1, k requires 0 <= k < df.Length1 reads df => df[row, k]))
  }

  /** Every cell holds its starting value plus the count of the first n residues. */
  ghost predicate Tallied(seqList: seq<char>, ssList: seq<char>, columns: seq<char>, df: array2<int>, start: seq<seq<int>>, n: nat)
    requires df.Length0 == 3 && df.Length1 == |columns|
    reads df
  {
    n <= |seqList| && n <= |ssList| && |start| == 3 &&
    forall row, k | 0 <= row < 3 && 0 <= k < |columns| ::
      k < |start[row]| && df[row, k] == start[row][k] + Count(seqList, ssList, columns[k], RowClass(row), n)
  }

  /** One pass of the loop for residue i, whose letter is a column: adds one to
      the cell of that column in the row of its code's class. */
  method TallyResidue(seqList: seq<char>, ssList: seq<char>, columns: seq<char>, df: array2<int>,
                      ghost start: seq<seq<int>>, i: nat)
    requires df.Length0 == 3 && df.Length1 == |columns|
    requires Distinct(columns)
    requires i < |seqList| && i < |ssList| && seqList[i] in columns
    requires Tallied(seqList, ssList, columns, df, start, i)
    modifies df
    ensures Tallied(seqList, ssList, columns, df, start, i + 1)
  {
    var k := IndexOf(columns, seqList[i]);
    var ss := ssList[i];
    var row;
    if ss in HelixCodes {
      row := 0;
    } else if ss in SheetCodes {
      row := 1;
    } else {
      row := 2;
    }
    CountStep(seqList, ssList, columns, i, k, row);
    df[row, k] := df[row, k] + 1;
  }

  /** Tallying residue i, whose letter is column k and whose code's class is
      row `row`, raises that one count by one and leaves the others unchanged. */
  lemma CountStep(seqList: seq<char>, ssList: seq<char>, columns: seq<char>, i: nat, k: nat, row: nat)
    requires Distinct(columns)
    requires i < |seqList| && i < |ssList| && k < |columns| && row < 3
    requires seqList[i] == columns[k] && row == ClassRow(Classify(ssList[i]))
    ensures forall row', k' | 0 <= row' < 3 && 0 <= k' < |columns| ::
      Count(seqList, ssList, columns[k'], RowClass(row'), i + 1)
      == Count(seqList, ssList, columns[k'], RowClass(row'), i) + (if row' == row && k' == k then 1 else 0)
  {
  }

  /** Starting from the all-zero table, a successful tally leaves exactly the
      histogram of the residues in it. */
  lemma FromZeroIsHistogram(columns: seq<char>, seqList: seq<char>, ssList: seq<char>, rows: seq<CountRow>)
    requires Known(seqList, ssList, columns, |ssList|)
    requires |rows| == |columns|
    requires forall k, row | 0 <= k < |columns| && 0 <= row < 3 ::
      rows[k].aa == columns[k] && rows[k].Get(RowClass(row)) == 0 + Count(seqList, ssList, columns[k], RowClass(row), |ssList|)
    ensures rows == Histogram(columns, seqList, ssList, |ssList|)
    ensures NonNegative(rows)
  {
    forall k | 0 <= k < |columns|
      ensures rows[k] == Histogram(columns, seqList, ssList, |ssList|)[k]
    {
      assert rows[k].Get(RowClass(0)) == rows[k].helix;
      assert rows[k].Get(RowClass(1)) == rows[k].sheet;
      assert rows[k].Get(RowClass(2)) == rows[k].other;
    }
  }

  /** A table with no negative cell has total zero exactly when every cell is zero. */
  lemma {:induction false} ZeroTotal(rows: seq<CountRow>)
    requires NonNegative(rows)
    ensures Total(rows) >= 0
    ensures Total(rows) == 0 <==>
      forall k | 0 <= k < |rows| :: rows[k].helix == 0 && rows[k].sheet == 0 && rows[k].other == 0
  {
    if rows != [] {
      assert NonNegative(rows[1..]);
      ZeroTotal(rows[1..]);
      assert forall k | 1 <= k < |rows| :: rows[k] == rows[1..][k - 1];
    }
  }

  /** Index of the first letter of `s` that is not a column label, or |s|. */
  function FirstUnknown(columns: seq<char>, s: seq<char>): (k: nat)
    ensures k <= |s|
    ensures forall i | 0 <= i < k :: s[i] in columns
    ensures k < |s| ==> s[k] !in columns
  {
    if s == [] || s[0] !in columns then 0 else 1 + FirstUnknown(columns, s[1..])
  }

  /** When both lists have the same length the tally can fail only by a
      KeyError, and only at the first unknown letter. */
  lemma FailureIsFirstUnknown(seqList: seq<char>, ssList: seq<char>, columns: seq<char>, e: TallyError)
    requires |seqList| == |ssList|
    requires FailsWith(seqList, ssList, columns, e)
    ensures var k := FirstUnknown(columns, seqList); k < |seqList| && e == KeyError(k, seqList[k])
  {
  }

  lemma KnownIffNoUnknown(seqList: seq<char>, ssList: seq<char>, columns: seq<char>)
    requires |seqList| == |ssList|
    ensures Known(seqList, ssList, columns, |ssList|) <==> FirstUnknown(columns, seqList) == |seqList|
  {
  }
}
