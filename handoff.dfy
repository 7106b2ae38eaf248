/**
 * The hand-off between the score filter and `build_sites_file`: the TSV the
 * awk program writes, read back line by line, yields one sites line per
 * retained record, carrying that record's CHROM, POS, REF and ALT, in record
 * order, with no IndexError, as long as no field holds a tab or a newline and
 * CHROM starts with something other than white space or `#`.
 */
module Handoff {
  import opened Wrappers
  import opened Text
  import opened Filtering
  import opened Steps
  import opened ScoreFilter
  import opened Sites
  import opened Pipeline

  predicate Plain(s: string) {
    '\t' !in s && '\n' !in s
  }

  /** A record whose TSV row reads back as the same fields. */
  predicate Clean(r: Record) {
    && Plain(r.chrom) && Plain(r.pos) && Plain(r.ref) && Plain(r.alt) && Plain(r.csq) && Plain(r.spliceAI)
    && |r.chrom| > 0 && !IsSpace(r.chrom[0]) && r.chrom[0] != '#'
  }

  /** A TSV row that reads back as a data line with its first four columns as fields. */
  predicate ReadsBack(row: seq<string>) {
    && |row| == 11 && (forall j :: 0 <= j < 11 ==> Plain(row[j]))
    && |row[0]| > 0 && !IsSpace(row[0][0]) && row[0][0] != '#'
    && '|' in row[5]
  }

  /** The score components of a clean record are plain, and its SpliceAI field holds a `|`. */
  lemma CleanRowReadsBack(r: Record, value: string -> real)
    requires HasScores(r) && Clean(r)
    ensures ReadsBack(Row(r, value))
    ensures Row(r, value)[..4] == [r.chrom, r.pos, r.ref, r.alt]
  {
    var parts := Components(r);
    PiecesWithin(parts, '|', '\t');
    PiecesWithin(parts, '|', '\n');
    var row := Row(r, value);
    assert forall j :: 6 <= j < 10 ==> row[j] == parts[j - 4] by {
      assert forall j :: 6 <= j < 10 ==> row[j] == row[6..10][j - 6];
    }
    assert row[10] in row[6..10];
    assert forall j :: 0 <= j < 6 ==> row[j] == row[..6][j];
    assert |parts| > 1;
    assert row[..4] == row[..6][..4];
  }

  /** The line of a row, cut after its fourth tab. */
  lemma TsvLineShape(row: seq<string>)
    requires |row| == 11
    ensures TsvLine(row) == row[0] + ['\t'] + (row[1] + ['\t'] + (row[2] + ['\t'] + (row[3] + ['\t'] +
      (row[4] + ['\t'] + (row[5] + ['\t'] + JoinOn(row[6..], '\t')) + "\n"))))
  {
    JoinOnCons(row, '\t');
    JoinOnCons(row[1..], '\t');
    JoinOnCons(row[2..], '\t');
    JoinOnCons(row[3..], '\t');
    JoinOnCons(row[4..], '\t');
    JoinOnCons(row[5..], '\t');
    assert row[1..][1..] == row[2..] && row[2..][1..] == row[3..] && row[3..][1..] == row[4..];
    assert row[4..][1..] == row[5..] && row[5..][1..] == row[6..];
  }

  /** Splitting at the first four tabs gives the four pieces before them. */
  lemma SplitFour(a: string, b: string, c: string, d: string, rest: string)
    requires '\t' !in a && '\t' !in b && '\t' !in c && '\t' !in d
    ensures Split(a + ['\t'] + (b + ['\t'] + (c + ['\t'] + (d + ['\t'] + rest))), '\t') == [a, b, c, d] + Split(rest, '\t')
  {
    var t := ['\t'];
    var x3 := d + t + rest;
    var x2 := c + t + x3;
    var x1 := b + t + x2;
    SplitCons(d, '\t', rest);
    SplitCons(c, '\t', x3);
    SplitCons(b, '\t', x2);
    SplitCons(a, '\t', x1);
    ConsFour(a, b, c, d, Split(rest, '\t'));
  }

  lemma ConsFour<T>(a: T, b: T, c: T, d: T, s: seq<T>)
    ensures [a] + ([b] + ([c] + ([d] + s))) == [a, b, c, d] + s
  {
  }

  /** Regrouping the pieces of a line cut after its fourth separator. */
  lemma Regroup<T>(a: seq<T>, b: seq<T>, c: seq<T>, d: seq<T>, t: seq<T>, rest: seq<T>)
    ensures a + t + (b + t + (c + t + (d + t))) + rest == a + t + (b + t + (c + t + (d + t + rest)))
  {
  }

  lemma TakeFour<T>(s: seq<T>, r: seq<T>)
    requires |s| >= 4
    ensures ([s[0], s[1], s[2], s[3]] + r)[..4] == s[..4]
  {
  }

  /** What follows the fourth tab of a row's line. */
  function AfterFour(row: seq<string>): string
    requires |row| == 11
  {
    row[4] + ['\t'] + (row[5] + ['\t'] + JoinOn(row[6..], '\t')) + "\n"
  }

  /**
   * Stripping the line of a row that reads back removes nothing before the
   * fourth tab: the line starts with CHROM, and the `|` in the SpliceAI
   * column comes after that tab.
   */
  lemma StripTsvLine(row: seq<string>)
    requires ReadsBack(row)
    ensures Strip(TsvLine(row)) ==
      row[0] + ['\t'] + (row[1] + ['\t'] + (row[2] + ['\t'] + (row[3] + ['\t'] + RStrip(AfterFour(row)))))
    ensures TsvLine(row)[0] == row[0][0]
  {
    var line := TsvLine(row);
    var t := ['\t'];
    TsvLineShape(row);
    var head := row[0] + t + (row[1] + t + (row[2] + t + (row[3] + t)));
    var tail := AfterFour(row);
    Regroup(row[0], row[1], row[2], row[3], t, tail);
    var j :| 0 <= j < |row[5]| && row[5][j] == '|';
    assert tail[|row[4]| + 1 + j] == '|';
    LStripKeeps(line);
    RStripAppend(head, tail, |row[4]| + 1 + j);
    Regroup(row[0], row[1], row[2], row[3], t, RStrip(tail));
  }

  /**
   * A row that reads back is a complete data line whose first four fields
   * are the row's first four columns.
   */
  lemma TsvLineReadBack(row: seq<string>)
    requires ReadsBack(row)
    ensures CompleteLine(TsvLine(row))
    ensures IsDataLine(TsvLine(row)) && !Short(TsvLine(row))
    ensures Fields(TsvLine(row))[..4] == row[..4]
  {
    var line := TsvLine(row);
    assert forall j :: 0 <= j < |row| ==> Plain(row[j]);
    TsvLineComplete(row);
    StripTsvLine(row);
    var rest := RStrip(AfterFour(row));
    SplitFour(row[0], row[1], row[2], row[3], rest);
    TakeFour(row, Split(rest, '\t'));
    assert line[..1][0] != "#"[0];
    assert |Strip(line)| > 0;
  }

  /** `line` is a data line with enough fields, and its sites line is made of the first four columns of `row`. */
  predicate SitesLineOfRow(line: string, row: seq<string>) {
    IsDataLine(line) && !Short(line) && |row| >= 4 && SiteLineOf(line) == SiteLine(row[..4])
  }

  /** The TSV of rows that read back is read as those rows' lines, each a data line with enough fields. */
  lemma ReadBackLines(rows: seq<seq<string>>)
    requires forall k :: 0 <= k < |rows| ==> ReadsBack(rows[k])
    ensures Lines(TsvText(rows)) == TsvLines(rows)
    ensures forall k :: 0 <= k < |rows| ==> SitesLineOfRow(TsvLines(rows)[k], rows[k])
  {
    var ls := TsvLines(rows);
    forall k | 0 <= k < |rows|
      ensures CompleteLine(ls[k]) && SitesLineOfRow(ls[k], rows[k])
    {
      TsvLineReadBack(rows[k]);
      var f := Fields(ls[k]);
      assert f[0] == f[..4][0] && f[1] == f[..4][1] && f[2] == f[..4][2] && f[3] == f[..4][3];
    }
    LinesConcat(ls);
  }

  /**
   * Reading back a TSV whose rows all read back: no line is too short, and
   * the sites file is the header followed by one sites line per row, made of
   * the row's first four columns.
   */
  lemma SitesOfRows(rows: seq<seq<string>>)
    requires forall k :: 0 <= k < |rows| ==> ReadsBack(rows[k])
    ensures SitesFile(Lines(TsvText(rows))).failedAt == None
    ensures |SitesFile(Lines(TsvText(rows))).written| == 2 + |rows|
    ensures SitesFile(Lines(TsvText(rows))).written[..2] == Header()
    ensures forall k :: 0 <= k < |rows| ==>
      |rows[k]| >= 4 && SitesFile(Lines(TsvText(rows))).written[2 + k] == SiteLine(rows[k][..4])
  {
    ReadBackLines(rows);
    AllDataLines(TsvLines(rows));
  }

  /**
   * Reading back the TSV of the records that pass the filter: no line is
   * too short, and the sites file is the header followed by one sites line
   * per retained record, in record order, made of its CHROM, POS, REF and ALT.
   */
  lemma SitesOfHighScoring(records: seq<Record>, value: string -> real)
    requires AllHaveScores(records) && forall i :: 0 <= i < |records| ==> Clean(records[i])
    ensures SitesFile(Lines(TsvText(HighScoring(records, value)))).failedAt == None
    ensures |SitesFile(Lines(TsvText(HighScoring(records, value)))).written| == 2 + |Positions(records, Passes(value))|
    ensures SitesFile(Lines(TsvText(HighScoring(records, value)))).written[..2] == Header()
    ensures forall k :: 0 <= k < |Positions(records, Passes(value))| ==>
      && Positions(records, Passes(value))[k] < |records|
      && var r := records[Positions(records, Passes(value))[k]];
      SitesFile(Lines(TsvText(HighScoring(records, value)))).written[2 + k] == SiteLine([r.chrom, r.pos, r.ref, r.alt])
  {
    var rows := HighScoring(records, value);
    var ps := Positions(records, Passes(value));
    HighScoringIsOrderedFilter(records, value);
    forall k | 0 <= k < |rows|
      ensures ReadsBack(rows[k])
      ensures rows[k][..4] == [records[ps[k]].chrom, records[ps[k]].pos, records[ps[k]].ref, records[ps[k]].alt]
    {
      CleanRowReadsBack(records[ps[k]], value);
    }
    SitesOfRows(rows);
    assert |rows| == |ps|;
  }

  /** A run fed with the TSV of clean records never stops with IndexError. */
  lemma NoIndexErrorOnCleanRecords(input: string, fs: set<string>, made: Action -> set<string>,
                                   records: seq<Record>, value: string -> real)
    requires AllHaveScores(records) && forall i :: 0 <= i < |records| ==> Clean(records[i])
    ensures !Main(input, fs, made, TsvText(HighScoring(records, value))).outcome.Failed? ||
      !Main(input, fs, made, TsvText(HighScoring(records, value))).outcome.failure.IndexError?
  {
    SitesOfHighScoring(records, value);
  }
}
