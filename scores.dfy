/**
 * The awk program `run_bcftools_and_write` pipes bcftools' query output
 * through: per record, split the SpliceAI field on `|`, take the delta
 * scores at awk positions 3 to 6 (DS_AG, DS_AL, DS_DG, DS_DL), find their
 * maximum by a chain of `>` comparisons, and print the record with the four
 * scores and the maximum when that maximum exceeds 0.5.
 *
 * awk keeps the score TEXT and compares numerically; how a text reads as a
 * number is the parameter `value`.
 */
module ScoreFilter {
  import opened Text
  import opened Filtering

  /** One line of `bcftools query -f '%CHROM\t%POS\t%REF\t%ALT\t%INFO/CSQ\t%INFO/SpliceAI\n'`, as awk's `$1`..`$6`. */
  datatype Record = Record(chrom: string, pos: string, ref: string, alt: string, csq: string, spliceAI: string)

  const Threshold: real := 0.5

  /** `split($6, f, "|")`: awk's `f[k]` is `Components(r)[k - 1]`. */
  function Components(r: Record): seq<string> {
    Split(r.spliceAI, '|')
  }

  /** The SpliceAI field reaches awk position 6. */
  predicate HasScores(r: Record) {
    |Components(r)| >= 6
  }

  /** `f[3]`, `f[4]`, `f[5]`, `f[6]`: the four delta scores. */
  function Scores(r: Record): (s: seq<string>)
    requires HasScores(r)
    ensures |s| == 4
  {
    Components(r)[2..6]
  }

  /** `max=s[0]; if(s[1]>max) max=s[1]; if(s[2]>max) max=s[2]; if(s[3]>max) max=s[3]` */
  function ChainMax(s: seq<string>, value: string -> real): string
    requires |s| == 4
  {
    var m1 := if value(s[1]) > value(s[0]) then s[1] else s[0];
    var m2 := if value(s[2]) > value(m1) then s[2] else m1;
    if value(s[3]) > value(m2) then s[3] else m2
  }

  /** `s[k]` has the largest value of `s`, and every earlier entry a smaller one. */
  predicate IsFirstMax(s: seq<string>, value: string -> real, k: int) {
    && 0 <= k < |s|
    && (forall j :: 0 <= j < |s| ==> value(s[j]) <= value(s[k]))
    && (forall j :: 0 <= j < k ==> value(s[j]) < value(s[k]))
  }

  /**
   * The chain of strict `>` comparisons picks the FIRST score whose value is
   * the largest: on a tie the earlier text is kept.
   */
  lemma ChainMaxIsFirstMax(s: seq<string>, value: string -> real)
    requires |s| == 4
    ensures exists k :: IsFirstMax(s, value, k) && ChainMax(s, value) == s[k]
  {
    var v := value;
    var k1 := if v(s[1]) > v(s[0]) then 1 else 0;
    var k2 := if v(s[2]) > v(s[k1]) then 2 else k1;
    var k3 := if v(s[3]) > v(s[k2]) then 3 else k2;
    assert IsFirstMax(s[..2], v, k1);
    assert IsFirstMax(s[..3], v, k2) by {
      assert forall j :: 0 <= j < 2 ==> s[..3][j] == s[..2][j];
    }
    assert IsFirstMax(s, v, k3) by {
      assert forall j :: 0 <= j < 3 ==> s[j] == s[..3][j];
    }
    assert ChainMax(s, v) == s[k3];
  }

  /** The first-maximum position is unique, so it determines the chain's result. */
  lemma FirstMaxUnique(s: seq<string>, value: string -> real, k: int, l: int)
    requires IsFirstMax(s, value, k) && IsFirstMax(s, value, l)
    ensures k == l
  {
    assert value(s[k]) <= value(s[l]) && value(s[l]) <= value(s[k]);
  }

  /** `if (max > 0.5)`: the record is printed. */
  predicate Keep(r: Record, value: string -> real)
    requires HasScores(r)
  {
    value(ChainMax(Scores(r), value)) > Threshold
  }

  /**
   * A record is printed exactly when one of its four delta scores exceeds
   * 0.5; a record whose best score is exactly 0.5 is dropped.
   */
  lemma KeepIffSomeScoreAbove(r: Record, value: string -> real)
    requires HasScores(r)
    ensures Keep(r, value) <==> exists j :: 0 <= j < 4 && value(Scores(r)[j]) > Threshold
  {
    ChainMaxIsFirstMax(Scores(r), value);
  }

  /** `print $1, $2, $3, $4, $5, $6, f[3], f[4], f[5], f[6], max` */
  function Row(r: Record, value: string -> real): (row: seq<string>)
    requires HasScores(r)
    ensures |row| == 11
    ensures row[..6] == [r.chrom, r.pos, r.ref, r.alt, r.csq, r.spliceAI]
    ensures row[6..10] == Scores(r)
    ensures forall j :: 6 <= j < 10 ==> value(row[j]) <= value(row[10])
    ensures row[10] in row[6..10]
  {
    var f := Components(r);
    ChainMaxIsFirstMax(Scores(r), value);
    [r.chrom, r.pos, r.ref, r.alt, r.csq, r.spliceAI, f[2], f[3], f[4], f[5], ChainMax(f[2..6], value)]
  }

  predicate AllHaveScores(rs: seq<Record>) {
    forall i :: 0 <= i < |rs| ==> HasScores(rs[i])
  }

  /** The test awk applies to each record, as a predicate on records. */
  function Passes(value: string -> real): Record -> bool {
    r => HasScores(r) && Keep(r, value)
  }

  /** The row awk prints for a record, as a function on records. */
  function RowOf(value: string -> real): Record --> seq<string> {
    r requires HasScores(r) => Row(r, value)
  }

  /** The rows awk prints for the records `rs`, in their order. */
  function HighScoring(rs: seq<Record>, value: string -> real): seq<seq<string>>
    requires AllHaveScores(rs)
  {
    MapKept(rs, Passes(value), RowOf(value))
  }

  /**
   * The printed rows are the rows of exactly the records that pass the
   * threshold, in the order of the input: the k-th row belongs to the k-th
   * passing record, and the passing positions increase.
   */
  lemma HighScoringIsOrderedFilter(rs: seq<Record>, value: string -> real)
    requires AllHaveScores(rs)
    ensures |HighScoring(rs, value)| == |Positions(rs, Passes(value))|
    ensures forall k :: 0 <= k < |Positions(rs, Passes(value))| ==>
      && Positions(rs, Passes(value))[k] < |rs|
      && HighScoring(rs, value)[k] == Row(rs[Positions(rs, Passes(value))[k]], value)
    ensures forall k, l :: 0 <= k < l < |Positions(rs, Passes(value))| ==>
      Positions(rs, Passes(value))[k] < Positions(rs, Passes(value))[l]
    ensures forall i :: 0 <= i < |rs| ==> (Keep(rs[i], value) <==> i in Positions(rs, Passes(value)))
  {
    MapKeptAt(rs, Passes(value), RowOf(value));
    PositionsAscending(rs, Passes(value));
    PositionsExactly(rs, Passes(value));
  }

  /** The row of one passing record is appended after the rows of the records before it. */
  lemma ExtractStep(rs: seq<Record>, i: nat, value: string -> real)
    requires AllHaveScores(rs) && i < |rs|
    ensures MapKept(rs[..i + 1], Passes(value), RowOf(value)) ==
      MapKept(rs[..i], Passes(value), RowOf(value)) + (if Keep(rs[i], value) then [Row(rs[i], value)] else [])
  {
    MapKeptSnoc(rs, i, Passes(value), RowOf(value));
  }

  /** With `max` the chain's pick, the record is kept when `max` exceeds 0.5, and its row ends with `max`. */
  lemma RowWithMax(r: Record, value: string -> real, max: string)
    requires HasScores(r) && max == ChainMax(Scores(r), value)
    ensures Keep(r, value) <==> value(max) > Threshold
    ensures var f := Components(r);
      Row(r, value) == [r.chrom, r.pos, r.ref, r.alt, r.csq, r.spliceAI, f[2], f[3], f[4], f[5], max]
  {
  }

  /**
   * `max=f[3]` followed by the three guarded overwrites, on the components
   * `f` of one record (awk's `f[k]` is `f[k - 1]` here).
   */
  method MaxScore(f: seq<string>, value: string -> real) returns (max: string)
    requires |f| >= 6
    ensures max == ChainMax(f[2..6], value)
  {
    max := f[2];
    if value(f[3]) > value(max) { max := f[3]; }
    if value(f[4]) > value(max) { max := f[4]; }
    if value(f[5]) > value(max) { max := f[5]; }
  }

  /**
   * The filter the awk program applies, record by record: the rows printed
   * are those of `HighScoring`, in record order.
   */
  method ExtractHighScoring(records: seq<Record>, value: string -> real) returns (rows: seq<seq<string>>)
    requires AllHaveScores(records)
    ensures rows == HighScoring(records, value)
  {
    rows := [];
    for i := 0 to |records|
      invariant rows == MapKept(records[..i], Passes(value), RowOf(value))
    {
      var r := records[i];
      var f := Split(r.spliceAI, '|');
      var max := MaxScore(f, value);
      RowWithMax(r, value, max);
      ExtractStep(records, i, value);
      if value(max) > Threshold {
        rows := rows + [[r.chrom, r.pos, r.ref, r.alt, r.csq, r.spliceAI, f[2], f[3], f[4], f[5], max]];
      }
    }
    assert records[..|records|] == records;
  }

  /** `OFS='\t'`: a printed row is its columns joined by tabs, then a newline. */
  function TsvLine(row: seq<string>): string {
    JoinOn(row, '\t') + "\n"
  }

  /** The lines the awk program prints, one per row. */
  function TsvLines(rows: seq<seq<string>>): seq<string> {
    seq(|rows|, k requires 0 <= k < |rows| => TsvLine(rows[k]))
  }

  /** The text of the TSV file the awk program writes. */
  function TsvText(rows: seq<seq<string>>): string {
    Concat(TsvLines(rows))
  }

  /** A row with no newline in any column is printed as exactly one complete line. */
  lemma TsvLineComplete(row: seq<string>)
    requires forall j :: 0 <= j < |row| ==> '\n' !in row[j]
    ensures CompleteLine(TsvLine(row))
  {
    JoinOnExcludes(row, '\t', '\n');
    assert TsvLine(row)[..|TsvLine(row)| - 1] == JoinOn(row, '\t');
  }

  /**
   * When no column holds a newline, reading the TSV back line by line gives
   * exactly one line per printed row, in order, each a complete line.
   */
  lemma TsvTextReadsBack(rows: seq<seq<string>>)
    requires forall k, j :: 0 <= k < |rows| && 0 <= j < |rows[k]| ==> '\n' !in rows[k][j]
    ensures forall k :: 0 <= k < |rows| ==> CompleteLine(TsvLines(rows)[k])
    ensures Lines(TsvText(rows)) == TsvLines(rows)
  {
    forall k | 0 <= k < |rows| ensures CompleteLine(TsvLines(rows)[k]) {
      TsvLineComplete(rows[k]);
    }
    LinesConcat(TsvLines(rows));
  }
}
