/** relative_counts (bin/parse_pdb_files.py:158-173): every cell becomes its
    share of the grand total in percent. The values are exact reals; the
    rounding to two decimals is not modelled. After `reset_index` the letter
    labels become the first column, AA, so each result row carries its letter. */
module Relative {
  import opened Tally

  /** One row of the result table: AA, then Helix, Sheet and Other in percent. */
  datatype RelRow = RelRow(aa: char, helix: real, sheet: real, other: real)

  function Percent(cell: int, total: int): real
    requires total != 0
  {
    100.0 * cell as real / total as real
  }

  /** Sum of every percentage of a result table. */
  function RelTotal(rows: seq<RelRow>): real
  {
    if rows == [] then 0.0 else rows[0].helix + rows[0].sheet + rows[0].other + RelTotal(rows[1..])
  }

  /** Each row of `freq` with its cells taken as percentages of `total`. */
  function PercentRows(freq: seq<CountRow>, total: int): (r: seq<RelRow>)
    requires total != 0
    ensures |r| == |freq|
    ensures RelTotal(r) == Percent(Total(freq), total)
  {
    if freq == [] then []
    else
      var row := freq[0];
      [RelRow(row.aa, Percent(row.helix, total), Percent(row.sheet, total), Percent(row.other, total))]
      + PercentRows(freq[1..], total)
  }

  /** relative_counts on a table whose total is not zero. The letters and the
      order of the rows are kept, each cell becomes 100 * cell / total, and the
      percentages sum to exactly 100. */
  function RelativeCounts(freq: seq<CountRow>): (r: seq<RelRow>)
    requires Total(freq) != 0
    ensures |r| == |freq|
    ensures forall k | 0 <= k < |r| :: r[k] == RelRow(freq[k].aa,
      Percent(freq[k].helix, Total(freq)), Percent(freq[k].sheet, Total(freq)), Percent(freq[k].other, Total(freq)))
    ensures RelTotal(r) == 100.0
  {
    var total := Total(freq);
    PercentRowsAt(freq, total);
    PercentOfWhole(total);
    PercentRows(freq, total)
  }

  lemma {:induction false} PercentRowsAt(freq: seq<CountRow>, total: int)
    requires total != 0
    ensures forall k | 0 <= k < |freq| :: PercentRows(freq, total)[k] == RelRow(freq[k].aa,
      Percent(freq[k].helix, total), Percent(freq[k].sheet, total), Percent(freq[k].other, total))
  {
    if freq != [] {
      PercentRowsAt(freq[1..], total);
      assert PercentRows(freq, total)[1..] == PercentRows(freq[1..], total);
    }
  }

  lemma PercentOfWhole(total: int)
    requires total != 0
    ensures Percent(total, total) == 100.0
  {
  }

  /** With no negative cell, every cell is at most the grand total. */
  lemma {:induction false} CellsBelowTotal(freq: seq<CountRow>)
    requires NonNegative(freq)
    ensures Total(freq) >= 0
    ensures forall k | 0 <= k < |freq| :: freq[k].Sum() <= Total(freq)
  {
    if freq != [] {
      assert NonNegative(freq[1..]);
      CellsBelowTotal(freq[1..]);
      forall k | 0 < k < |freq|
        ensures freq[k].Sum() <= Total(freq)
      {
        assert freq[k] == freq[1..][k - 1];
      }
    }
  }

  /** For a table of counts (no cell negative, total above zero) every
      percentage lies between 0 and 100. */
  lemma PercentagesInRange(freq: seq<CountRow>)
    requires NonNegative(freq) && Total(freq) > 0
    ensures var r := RelativeCounts(freq);
      forall k | 0 <= k < |r| ::
        0.0 <= r[k].helix <= 100.0 && 0.0 <= r[k].sheet <= 100.0 && 0.0 <= r[k].other <= 100.0
  {
    CellsBelowTotal(freq);
    var r := RelativeCounts(freq);
    var t := Total(freq);
    forall k | 0 <= k < |r|
      ensures 0.0 <= r[k].helix <= 100.0 && 0.0 <= r[k].sheet <= 100.0 && 0.0 <= r[k].other <= 100.0
    {
      assert freq[k].Sum() <= t;
      ShareInRange(freq[k].helix, t);
      ShareInRange(freq[k].sheet, t);
      ShareInRange(freq[k].other, t);
    }
  }

  lemma ShareInRange(cell: int, total: int)
    requires 0 <= cell <= total && total > 0
    ensures 0.0 <= Percent(cell, total) <= 100.0
  {
  }
}
