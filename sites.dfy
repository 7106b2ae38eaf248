/**
 * `build_sites_file`: turn the filtered TSV into a minimal VCF that lists
 * only where the retained variants are. Two fixed header lines (the
 * `##fileformat` line and the column line of section 1.3 of the VCF v4.2
 * specification), then, for every input line that is neither blank after
 * stripping nor a comment, the eight fixed VCF columns with `.` for every
 * value that is not copied (section 1.4.1 of the same specification).
 */
module Sites {
  import opened Wrappers
  import opened Text
  import opened Filtering

  const FileFormatLine := "##fileformat=VCFv4.2\n"
  const ColumnLine := "#CHROM\tPOS\tID\tREF\tALT\tQUAL\tFILTER\tINFO\n"

  function Header(): seq<string> {
    [FileFormatLine, ColumnLine]
  }

  /** `line.strip() == "" or line.startswith("#")`: the loop skips the line. */
  predicate Skipped(line: string) {
    Strip(line) == [] || StartsWith(line, "#")
  }

  predicate IsDataLine(line: string) {
    !Skipped(line)
  }

  /** `line.strip().split("\t")` */
  function Fields(line: string): seq<string> {
    Split(Strip(line), '\t')
  }

  /** A data line whose fields stop before `fields[3]`: Python raises IndexError on it. */
  predicate Short(line: string) {
    IsDataLine(line) && |Fields(line)| < 4
  }

  predicate NoShort(lines: seq<string>) {
    forall j :: 0 <= j < |lines| ==> !Short(lines[j])
  }

  /** `f"{fields[0]}\t{fields[1]}\t.\t{fields[2]}\t{fields[3]}\t.\t.\t.\n"` */
  function SiteLine(f: seq<string>): string
    requires |f| >= 4
  {
    f[0] + "\t" + f[1] + "\t.\t" + f[2] + "\t" + f[3] + "\t.\t.\t.\n"
  }

  /**
   * A sites line is a complete line of exactly the eight fixed VCF columns:
   * CHROM, POS, REF and ALT copied unchanged, `.` for ID, QUAL, FILTER and
   * INFO, and nothing of the scores.
   */
  lemma SiteLineColumns(f: seq<string>)
    requires |f| >= 4 && forall j :: 0 <= j < 4 ==> '\t' !in f[j]
    ensures var cols := [f[0], f[1], ".", f[2], f[3], ".", ".", "."];
      && SiteLine(f) == JoinOn(cols, '\t') + "\n"
      && Split(SiteLine(f)[..|SiteLine(f)| - 1], '\t') == cols
  {
    var cols := [f[0], f[1], ".", f[2], f[3], ".", ".", "."];
    SiteLineIsJoin(f);
    assert SiteLine(f)[..|SiteLine(f)| - 1] == JoinOn(cols, '\t');
    SplitJoin(cols, '\t');
  }

  lemma SiteLineIsJoin(f: seq<string>)
    requires |f| >= 4
    ensures SiteLine(f) == JoinOn([f[0], f[1], ".", f[2], f[3], ".", ".", "."], '\t') + "\n"
  {
    var cols := [f[0], f[1], ".", f[2], f[3], ".", ".", "."];
    var t, d := "\t", ".";
    JoinOnEight(cols, '\t');
    assert "\t.\t" == t + d + t && "\t.\t.\t.\n" == t + d + t + d + t + d + "\n";
    Regroup8(f[0], f[1], f[2], f[3], t, d, "\n");
  }

  lemma JoinOnEight(cols: seq<string>, c: char)
    requires |cols| == 8
    ensures JoinOn(cols, c) == cols[0] + [c] + (cols[1] + [c] + (cols[2] + [c] + (cols[3] + [c] +
      (cols[4] + [c] + (cols[5] + [c] + (cols[6] + [c] + cols[7]))))))
  {
    JoinOnCons(cols, c);
    JoinOnCons(cols[1..], c);
    JoinOnCons(cols[2..], c);
    JoinOnCons(cols[3..], c);
    JoinOnCons(cols[4..], c);
    JoinOnCons(cols[5..], c);
    JoinOnCons(cols[6..], c);
    assert cols[1..][1..] == cols[2..] && cols[2..][1..] == cols[3..] && cols[3..][1..] == cols[4..];
    assert cols[4..][1..] == cols[5..] && cols[5..][1..] == cols[6..] && cols[6..][1..] == cols[7..];
  }

  lemma Regroup8<T>(a: seq<T>, b: seq<T>, c: seq<T>, e: seq<T>, t: seq<T>, d: seq<T>, n: seq<T>)
    ensures a + t + b + (t + d + t) + c + t + e + (t + d + t + d + t + d + n) ==
      a + t + (b + t + (d + t + (c + t + (e + t + (d + t + (d + t + d)))))) + n
  {
  }

  /** The first data line that is too short, if any. */
  function FirstShort(lines: seq<string>): Option<nat> {
    First(lines, Short)
  }

  /** The sites line written for a data line with enough fields. */
  function SiteLineOf(line: string): string
    requires IsDataLine(line) && !Short(line)
  {
    SiteLine(Fields(line))
  }

  /** The sites lines written for `lines` when none of them is too short. */
  function DataLines(lines: seq<string>): seq<string>
    requires NoShort(lines)
  {
    MapKept(lines, IsDataLine, SiteLineOf)
  }

  /** What the loop writes, and the line it stops at with IndexError, if any. */
  datatype SitesOutput = SitesOutput(written: seq<string>, failedAt: Option<nat>)

  /**
   * The sites file: the header, then one sites line per data line, in order,
   * up to the first data line that is too short; that line raises IndexError
   * and leaves what was written so far in the file.
   */
  function SitesFile(lines: seq<string>): (out: SitesOutput)
    ensures out.failedAt == FirstShort(lines)
  {
    match FirstShort(lines)
    case None => SitesOutput(Header() + DataLines(lines), None)
    case Some(k) => SitesOutput(Header() + DataLines(lines[..k]), Some(k))
  }

  /**
   * Without a short line, the data lines are the sites lines of exactly the
   * data lines of the input, in their order.
   */
  lemma DataLinesAreSiteLines(lines: seq<string>)
    requires NoShort(lines)
    ensures forall k, l :: 0 <= k < l < |Positions(lines, IsDataLine)| ==>
      Positions(lines, IsDataLine)[k] < Positions(lines, IsDataLine)[l]
    ensures forall i :: 0 <= i < |lines| ==> (IsDataLine(lines[i]) <==> i in Positions(lines, IsDataLine))
    ensures |DataLines(lines)| == |Positions(lines, IsDataLine)|
    ensures forall k :: 0 <= k < |Positions(lines, IsDataLine)| ==>
      && Positions(lines, IsDataLine)[k] < |lines|
      && |Fields(lines[Positions(lines, IsDataLine)[k]])| >= 4
      && DataLines(lines)[k] == SiteLine(Fields(lines[Positions(lines, IsDataLine)[k]]))
  {
    PositionsAscending(lines, IsDataLine);
    PositionsExactly(lines, IsDataLine);
    MapKeptAt(lines, IsDataLine, SiteLineOf);
  }

  /** When every line is a data line with enough fields, the file holds one sites line per line, in order. */
  lemma AllDataLines(lines: seq<string>)
    requires forall i :: 0 <= i < |lines| ==> IsDataLine(lines[i]) && !Short(lines[i])
    ensures SitesFile(lines).failedAt == None
    ensures |SitesFile(lines).written| == 2 + |lines| && SitesFile(lines).written[..2] == Header()
    ensures forall k :: 0 <= k < |lines| ==> SitesFile(lines).written[2 + k] == SiteLineOf(lines[k])
  {
    MapKeptAll(lines, IsDataLine, SiteLineOf);
  }

  /** The lines before position `i` are none of them too short. */
  predicate NoneShortBefore(lines: seq<string>, i: int) {
    forall j :: 0 <= j < i && j < |lines| ==> !Short(lines[j])
  }

  /** One step of the loop over line `i` that does not stop it. */
  lemma LoopStep(lines: seq<string>, i: nat)
    requires i < |lines| && NoneShortBefore(lines, i + 1)
    ensures MapKept(lines[..i + 1], IsDataLine, SiteLineOf) == MapKept(lines[..i], IsDataLine, SiteLineOf) +
      (if IsDataLine(lines[i]) then [SiteLineOf(lines[i])] else [])
  {
    MapKeptSnoc(lines, i, IsDataLine, SiteLineOf);
  }

  lemma NoneShortThrough(lines: seq<string>, i: nat)
    requires i < |lines| && NoneShortBefore(lines, i) && !Short(lines[i])
    ensures NoneShortBefore(lines, i + 1)
  {
  }

  /** A short line at `i`, after none before it, ends the file with IndexError on line `i`. */
  lemma LoopStops(lines: seq<string>, i: nat)
    requires i < |lines| && NoneShortBefore(lines, i) && Short(lines[i])
    ensures NoShort(lines[..i])
    ensures SitesFile(lines) == SitesOutput(Header() + MapKept(lines[..i], IsDataLine, SiteLineOf), Some(i))
  {
    FirstAt(lines, Short, i);
    assert FirstShort(lines) == Some(i);
    var init := lines[..i];
    forall j | 0 <= j < i
      ensures !Short(init[j])
    {
      assert init[j] == lines[j];
    }
    assert DataLines(init) == MapKept(init, IsDataLine, SiteLineOf);
  }

  /** Having walked every line without a short one, the file is complete. */
  lemma LoopEnds(lines: seq<string>)
    requires NoneShortBefore(lines, |lines|)
    ensures NoShort(lines)
    ensures SitesFile(lines) == SitesOutput(Header() + MapKept(lines, IsDataLine, SiteLineOf), None)
  {
  }

  /**
   * The loop of `build_sites_file`: write the header, then walk the lines,
   * skipping blank and comment lines and writing one sites line for each
   * other one; a line with fewer than four fields stops it with IndexError.
   */
  method BuildSitesFile(lines: seq<string>) returns (written: seq<string>, failedAt: Option<nat>)
    ensures SitesOutput(written, failedAt) == SitesFile(lines)
  {
    written := [FileFormatLine, ColumnLine];
    failedAt := None;
    var i := 0;
    while i < |lines|
      invariant 0 <= i <= |lines|
      invariant NoneShortBefore(lines, i)
      invariant written == Header() + MapKept(lines[..i], IsDataLine, SiteLineOf)
    {
      var line := lines[i];
      if Skipped(line) {
        NoneShortThrough(lines, i);
        LoopStep(lines, i);
        i := i + 1;
        continue;
      }
      var fields := Fields(line);
      if |fields| < 4 {
        LoopStops(lines, i);
        failedAt := Some(i);
        return;
      }
      NoneShortThrough(lines, i);
      LoopStep(lines, i);
      assert SiteLineOf(line) == SiteLine(fields);
      AppendAssoc(Header(), MapKept(lines[..i], IsDataLine, SiteLineOf), [SiteLineOf(line)]);
      written := written + [fields[0] + "\t" + fields[1] + "\t.\t" + fields[2] + "\t" + fields[3] + "\t.\t.\t.\n"];
      i := i + 1;
    }
    assert lines[..i] == lines;
    LoopEnds(lines);
  }
}
