/**
 * `main` and the two container stages around `build_sites_file`: derive the
 * output names from the normalised input, then extract, build the sites file
 * and subset, stopping at the first stage whose expected output is missing.
 * The TSV the extraction leaves behind is given as its text, `tsvText`.
 */
module Pipeline {
  import opened Wrappers
  import opened Text
  import opened Paths
  import opened Steps
  import opened Normalizer
  import opened Sites

  const TsvSuffix := ".high.tsv"
  const SubsetSuffix := ".subset_high.vcf"
  const SitesBasename := "exact_sites.vcf"

  /** `join(dirname(input), basename(processed).replace(".vcf.gz", ".high.tsv"))` */
  function TsvPath(input: string, processed: string): string {
    Join(Dirname(input), ReplaceAll(Basename(processed), Compressed, TsvSuffix))
  }

  function SitesPath(input: string): string {
    Join(Dirname(input), SitesBasename)
  }

  /** `join(dirname(input), basename(processed).replace(".vcf.gz", ".subset_high.vcf"))` */
  function SubsetPath(input: string, processed: string): string {
    Join(Dirname(input), ReplaceAll(Basename(processed), Compressed, SubsetSuffix))
  }

  /** The file a container stage writes, seen from the host: `join(dirname(vcf), basename(out))`. */
  function Local(vcf: string, out: string): string {
    Join(Dirname(vcf), Basename(out))
  }

  /** Run the query and the score filter, then require the TSV on the host. */
  function RunBcftoolsAndWrite(vcf: string, tsv: string, fs: set<string>, made: Action -> set<string>): (r: Step)
    ensures r.issued == [Query(vcf, tsv)] && r.fs == fs + made(Query(vcf, tsv))
    ensures r.outcome.Success? <==> Local(vcf, tsv) in r.fs
    ensures r.outcome.Success? ==> r.outcome.value == Local(vcf, tsv)
    ensures r.outcome.Failure? ==> r.outcome.error == FileNotFound(Local(vcf, tsv))
  {
    var a := Query(vcf, tsv);
    var fs' := fs + made(a);
    var local := Local(vcf, tsv);
    Step([a], fs', if local in fs' then Success(local) else Failure(FileNotFound(local)))
  }

  /**
   * `build_sites_file`: opening the TSV fails when it does not exist; once it
   * is open the sites file is created, and a short data line stops the
   * writing with an `IndexError` after what was written so far.
   */
  function BuildSitesStep(tsv: string, sites: string, tsvLines: seq<string>, fs: set<string>): (r: Step)
    ensures r.issued == [WriteSites(tsv, sites)]
    ensures r.fs == if tsv in fs then fs + {sites} else fs
    ensures tsv !in fs <==> r.outcome == Failure(FileNotFound(tsv))
    ensures tsv in fs ==> sites in r.fs
    ensures r.outcome.Failure? && r.outcome.error.IndexError? <==>
      tsv in fs && FirstShort(tsvLines).Some?
    ensures r.outcome.Failure? && r.outcome.error.IndexError? ==>
      FirstShort(tsvLines) == Some(r.outcome.error.line)
    ensures r.outcome.Success? <==> tsv in fs && FirstShort(tsvLines).None?
    ensures r.outcome.Success? ==> r.outcome.value == sites
  {
    var a := WriteSites(tsv, sites);
    if tsv !in fs then Step([a], fs, Failure(FileNotFound(tsv)))
    else
      var out := SitesFile(tsvLines);
      match out.failedAt
      case Some(n) => Step([a], fs + {sites}, Failure(IndexError(n)))
      case None => Step([a], fs + {sites}, Success(sites))
  }

  /** `subset_vcf`: restrict the VCF to the listed sites, then require the output on the host. */
  function SubsetVcf(vcf: string, sites: string, out: string, fs: set<string>, made: Action -> set<string>): (r: Step)
    ensures r.issued == [SubsetByRegions(vcf, sites, out)] && r.fs == fs + made(SubsetByRegions(vcf, sites, out))
    ensures r.outcome.Success? <==> Local(vcf, out) in r.fs
    ensures r.outcome.Success? ==> r.outcome.value == Local(vcf, out)
    ensures r.outcome.Failure? ==> r.outcome.error == FileNotFound(Local(vcf, out))
  {
    var a := SubsetByRegions(vcf, sites, out);
    var fs' := fs + made(a);
    var local := Local(vcf, out);
    Step([a], fs', if local in fs' then Success(local) else Failure(FileNotFound(local)))
  }

  datatype Stage = Normalize | Extract | BuildSites | Subset

  function Rank(s: Stage): nat {
    match s
    case Normalize => 0
    case Extract => 1
    case BuildSites => 2
    case Subset => 3
  }

  function StageOf(a: Action): Stage {
    match a
    case Index(_) => Normalize
    case CompressAndIndex(_, _) => Normalize
    case Query(_, _) => Extract
    case WriteSites(_, _) => BuildSites
    case SubsetByRegions(_, _, _) => Subset
  }

  /** Every action belongs to a strictly later stage than the one before it. */
  predicate InOrder(issued: seq<Action>) {
    forall i, j :: 0 <= i < j < |issued| ==> Rank(StageOf(issued[i])) < Rank(StageOf(issued[j]))
  }

  /** No action belongs to a stage after `s`. */
  predicate UpTo(issued: seq<Action>, s: Stage) {
    forall i :: 0 <= i < |issued| ==> Rank(StageOf(issued[i])) <= Rank(s)
  }

  /** The run ends with the printed subset name, or with the stage that raised and what it raised. */
  datatype Outcome = Done(output: string) | Failed(stage: Stage, failure: Failure)

  datatype Run = Run(issued: seq<Action>, fs: set<string>, outcome: Outcome)

  /** The three files `main` names after normalising. */
  datatype Names = Names(tsv: string, sites: string, subset: string)

  function NamesFor(input: string, p: string): Names {
    Names(TsvPath(input, p), SitesPath(input), SubsetPath(input, p))
  }

  /** The actions `main` issues after normalising to `p`, in the order it issues them. */
  function Planned(p: string, names: Names): seq<Action> {
    [Query(p, names.tsv), WriteSites(names.tsv, names.sites), SubsetByRegions(p, names.sites, names.subset)]
  }

  /** How many of the planned actions a run with this outcome issued. */
  function Reached(o: Outcome): (n: nat)
    ensures n <= 3
  {
    match o
    case Done(_) => 3
    case Failed(s, _) => Rank(s)
  }

  /** The sites and subset stages, after the TSV was extracted from `p`. */
  function FromSites(p: string, names: Names, fs: set<string>, made: Action -> set<string>, tsvLines: seq<string>): (run: Run)
    ensures fs <= run.fs
    ensures 2 <= Reached(run.outcome) && [Query(p, names.tsv)] + run.issued == Planned(p, names)[..Reached(run.outcome)]
    ensures run.outcome.Failed? && run.outcome.failure.FileNotFound? ==>
      run.outcome.failure.path !in run.fs
    ensures run.outcome.Failed? && run.outcome.failure.IndexError? ==>
      run.outcome.stage == BuildSites && FirstShort(tsvLines) == Some(run.outcome.failure.line)
    ensures run.outcome.Failed? && run.outcome.stage == BuildSites && run.outcome.failure.FileNotFound? ==>
      run.outcome.failure.path == names.tsv
    ensures run.outcome.Done? ==>
      run.outcome.output == names.subset && Local(p, names.subset) in run.fs
    ensures run.outcome == Failed(BuildSites, FileNotFound(names.tsv)) <==> names.tsv !in fs
    ensures run.outcome.Failed? && run.outcome.failure.IndexError? <==> names.tsv in fs && FirstShort(tsvLines).Some?
    ensures run.outcome.Failed? && run.outcome.stage == Subset <==>
      && names.tsv in fs && FirstShort(tsvLines).None?
      && Local(p, names.subset) !in fs + {names.sites} + made(SubsetByRegions(p, names.sites, names.subset))
  {
    var b := BuildSitesStep(names.tsv, names.sites, tsvLines, fs);
    if b.outcome.Failure? then Run(b.issued, b.fs, Failed(BuildSites, b.outcome.error))
    else
      var v := SubsetVcf(p, names.sites, names.subset, b.fs, made);
      Run(b.issued + v.issued, v.fs,
          if v.outcome.Failure? then Failed(Subset, v.outcome.error) else Done(names.subset))
  }

  /** The container stages and the sites file, once the input is normalised to `p`. */
  function FromExtract(p: string, names: Names, fs: set<string>, made: Action -> set<string>, tsvLines: seq<string>): (run: Run)
    ensures fs <= run.fs
    ensures 1 <= Reached(run.outcome) && run.issued == Planned(p, names)[..Reached(run.outcome)]
    ensures run.outcome.Failed? && run.outcome.failure.FileNotFound? ==>
      run.outcome.failure.path !in run.fs
    ensures run.outcome.Failed? && run.outcome.failure.IndexError? ==>
      run.outcome.stage == BuildSites && FirstShort(tsvLines) == Some(run.outcome.failure.line)
    ensures run.outcome.Failed? && run.outcome.stage == BuildSites && run.outcome.failure.FileNotFound? ==>
      run.outcome.failure.path == names.tsv && Local(p, names.tsv) in run.fs
    ensures run.outcome.Done? ==>
      run.outcome.output == names.subset && Local(p, names.subset) in run.fs
    ensures run.outcome == Failed(Extract, FileNotFound(Local(p, names.tsv))) <==>
      Local(p, names.tsv) !in fs + made(Query(p, names.tsv))
  {
    var e := RunBcftoolsAndWrite(p, names.tsv, fs, made);
    if e.outcome.Failure? then Run(e.issued, e.fs, Failed(Extract, e.outcome.error))
    else
      var rest := FromSites(p, names, e.fs, made, tsvLines);
      Run(e.issued + rest.issued, rest.fs, rest.outcome)
  }

  /**
   * `main` on an absolute input path. A failing normaliser ends the run;
   * otherwise the planned actions are issued one stage at a time up to the
   * stage that failed, or all of them. A `FileNotFoundError` names a path
   * that does not exist at the end, an `IndexError` comes from building the
   * sites file and stops it at the first short data line of the TSV, and a run
   * that completes reports the subset name and that file exists.
   */
  function Main(input: string, fs: set<string>, made: Action -> set<string>, tsvText: string): (run: Run)
    ensures fs <= run.fs
    ensures var n := EnsureBgzipAndIndex(input, fs, made);
      && (n.outcome.Failure? ==> run == Run(n.issued, n.fs, Failed(Normalize, n.outcome.error)))
      && (n.outcome.Success? ==>
            && 1 <= Reached(run.outcome)
            && run.issued == n.issued + Planned(n.outcome.value, NamesFor(input, n.outcome.value))[..Reached(run.outcome)])
    ensures run.outcome.Failed? && run.outcome.failure.FileNotFound? ==>
      run.outcome.failure.path !in run.fs
    ensures run.outcome.Failed? && run.outcome.failure.IndexError? ==>
      run.outcome.stage == BuildSites && FirstShort(Lines(tsvText)) == Some(run.outcome.failure.line)
    ensures run.outcome.Failed? && run.outcome.stage == BuildSites && run.outcome.failure.FileNotFound? ==>
      && run.outcome.failure.path == TsvPath(input, Normalized(input))
      && Local(Normalized(input), run.outcome.failure.path) in run.fs
    ensures run.outcome.Done? ==>
      && EnsureBgzipAndIndex(input, fs, made).outcome.Success?
      && run.outcome.output == SubsetPath(input, Normalized(input))
      && Local(Normalized(input), run.outcome.output) in run.fs
  {
    var n := EnsureBgzipAndIndex(input, fs, made);
    if n.outcome.Failure? then Run(n.issued, n.fs, Failed(Normalize, n.outcome.error))
    else
      var rest := FromExtract(n.outcome.value, NamesFor(input, n.outcome.value), n.fs, made, Lines(tsvText));
      Run(n.issued + rest.issued, rest.fs, rest.outcome)
  }

  /**
   * At most one normalising action, then the first `Reached(o)` planned
   * actions: ranks rise, and none is past the stage a failed run stopped at.
   */
  lemma PrefixInOrder(pre: seq<Action>, p: string, names: Names, o: Outcome, issued: seq<Action>)
    requires pre == [] || (|pre| == 1 && StageOf(pre[0]) == Normalize)
    requires Reached(o) <= 3 && issued == pre + Planned(p, names)[..Reached(o)]
    ensures InOrder(issued)
    ensures o.Failed? ==> UpTo(issued, o.stage)
  {
    var plan := Planned(p, names);
    assert forall i :: 0 <= i < 3 ==> Rank(StageOf(plan[i])) == i + 1;
    assert forall i :: 0 <= i < |issued| ==> Rank(StageOf(issued[i])) == if i < |pre| then 0 else i - |pre| + 1;
  }

  /** The normaliser issues at most one action, and it belongs to the normalising stage. */
  lemma NormalizeIssuesAtMostOne(input: string, fs: set<string>, made: Action -> set<string>)
    ensures var n := EnsureBgzipAndIndex(input, fs, made);
      n.issued == [] || (|n.issued| == 1 && StageOf(n.issued[0]) == Normalize)
  {
  }

  /**
   * The stages run in the order normalise, extract, build sites, subset, each
   * issuing at most one action, and no action belongs to a stage after the
   * one that failed.
   */
  lemma MainStageOrder(input: string, fs: set<string>, made: Action -> set<string>, tsvText: string)
    ensures InOrder(Main(input, fs, made, tsvText).issued)
    ensures Main(input, fs, made, tsvText).outcome.Failed? ==>
      UpTo(Main(input, fs, made, tsvText).issued, Main(input, fs, made, tsvText).outcome.stage)
  {
    var run := Main(input, fs, made, tsvText);
    var n := EnsureBgzipAndIndex(input, fs, made);
    NormalizeIssuesAtMostOne(input, fs, made);
    if n.outcome.Success? {
      PrefixInOrder(n.issued, n.outcome.value, NamesFor(input, n.outcome.value), run.outcome, run.issued);
    } else {
      assert run.issued == n.issued && run.outcome.stage == Normalize;
    }
  }

  /**
   * The three checks that follow normalising to `p` all pass: the TSV is on
   * the host after the query, the sites file is built from it without a
   * short line, and the subset output is on the host after the subset step.
   */
  predicate ChecksPass(p: string, names: Names, fs: set<string>, made: Action -> set<string>, tsvLines: seq<string>) {
    var fs1 := fs + made(Query(p, names.tsv));
    && Local(p, names.tsv) in fs1
    && names.tsv in fs1
    && FirstShort(tsvLines).None?
    && Local(p, names.subset) in fs1 + {names.sites} + made(SubsetByRegions(p, names.sites, names.subset))
  }

  /** A TSV missing on the host after the query stops the run there with `FileNotFoundError` naming it. */
  lemma MainStopsAtExtract(input: string, fs: set<string>, made: Action -> set<string>, tsvText: string)
    requires EnsureBgzipAndIndex(input, fs, made).outcome.Success?
    requires var n := EnsureBgzipAndIndex(input, fs, made);
      var p := n.outcome.value;
      Local(p, TsvPath(input, p)) !in n.fs + made(Query(p, TsvPath(input, p)))
    ensures var n := EnsureBgzipAndIndex(input, fs, made);
      var p := n.outcome.value;
      var run := Main(input, fs, made, tsvText);
      && run.outcome == Failed(Extract, FileNotFound(Local(p, TsvPath(input, p))))
      && run.issued == n.issued + [Query(p, TsvPath(input, p))]
      && run.fs == n.fs + made(Query(p, TsvPath(input, p)))
  {
  }

  /**
   * Once the TSV is on the host, building the sites file stops the run when
   * the TSV cannot be opened under its name (`FileNotFoundError`) or has a
   * short data line (`IndexError` on the first one); the subset step is
   * never issued.
   */
  lemma MainStopsAtSites(input: string, fs: set<string>, made: Action -> set<string>, tsvText: string)
    requires EnsureBgzipAndIndex(input, fs, made).outcome.Success?
    requires var n := EnsureBgzipAndIndex(input, fs, made);
      var p := n.outcome.value;
      var t := TsvPath(input, p);
      var fs1 := n.fs + made(Query(p, t));
      Local(p, t) in fs1 && (t !in fs1 || FirstShort(Lines(tsvText)).Some?)
    ensures var n := EnsureBgzipAndIndex(input, fs, made);
      var p := n.outcome.value;
      var t := TsvPath(input, p);
      var fs1 := n.fs + made(Query(p, t));
      var run := Main(input, fs, made, tsvText);
      && run.outcome == Failed(BuildSites,
           if t !in fs1 then FileNotFound(t) else IndexError(FirstShort(Lines(tsvText)).value))
      && run.issued == n.issued + [Query(p, t), WriteSites(t, SitesPath(input))]
  {
    var n := EnsureBgzipAndIndex(input, fs, made);
    var p := n.outcome.value;
    var rest := FromExtract(p, NamesFor(input, p), n.fs, made, Lines(tsvText));
    assert Main(input, fs, made, tsvText) == Run(n.issued + rest.issued, rest.fs, rest.outcome);
    FromExtractStopsAtSites(p, NamesFor(input, p), n.fs, made, Lines(tsvText));
  }

  lemma FromExtractStopsAtSites(p: string, names: Names, fs: set<string>, made: Action -> set<string>, tsvLines: seq<string>)
    requires var fs1 := fs + made(Query(p, names.tsv));
      Local(p, names.tsv) in fs1 && (names.tsv !in fs1 || FirstShort(tsvLines).Some?)
    ensures var fs1 := fs + made(Query(p, names.tsv));
      var run := FromExtract(p, names, fs, made, tsvLines);
      && run.outcome == Failed(BuildSites, if names.tsv !in fs1 then FileNotFound(names.tsv) else IndexError(FirstShort(tsvLines).value))
      && run.issued == [Query(p, names.tsv), WriteSites(names.tsv, names.sites)]
  {
  }

  /** With the sites file built, a subset output missing on the host stops the run with `FileNotFoundError` naming it. */
  lemma MainStopsAtSubset(input: string, fs: set<string>, made: Action -> set<string>, tsvText: string)
    requires EnsureBgzipAndIndex(input, fs, made).outcome.Success?
    requires var n := EnsureBgzipAndIndex(input, fs, made);
      var p := n.outcome.value;
      var names := NamesFor(input, p);
      var fs1 := n.fs + made(Query(p, names.tsv));
      && Local(p, names.tsv) in fs1 && names.tsv in fs1 && FirstShort(Lines(tsvText)).None?
      && Local(p, names.subset) !in fs1 + {names.sites} + made(SubsetByRegions(p, names.sites, names.subset))
    ensures var n := EnsureBgzipAndIndex(input, fs, made);
      var p := n.outcome.value;
      var names := NamesFor(input, p);
      var run := Main(input, fs, made, tsvText);
      && run.outcome == Failed(Subset, FileNotFound(Local(p, names.subset)))
      && run.issued == n.issued + Planned(p, names)
  {
  }

  /**
   * A run completes exactly when the normaliser succeeds and every check
   * after it passes.
   */
  lemma MainDoneIff(input: string, fs: set<string>, made: Action -> set<string>, tsvText: string)
    ensures var n := EnsureBgzipAndIndex(input, fs, made);
      Main(input, fs, made, tsvText).outcome.Done? <==>
        n.outcome.Success? && ChecksPass(n.outcome.value, NamesFor(input, n.outcome.value), n.fs, made, Lines(tsvText))
  {
    var n := EnsureBgzipAndIndex(input, fs, made);
    var run := Main(input, fs, made, tsvText);
    if n.outcome.Success? {
      var p := n.outcome.value;
      var rest := FromExtract(p, NamesFor(input, p), n.fs, made, Lines(tsvText));
      assert run == Run(n.issued + rest.issued, rest.fs, rest.outcome);
      FromExtractDoneIff(p, NamesFor(input, p), n.fs, made, Lines(tsvText));
    } else {
      assert run.outcome.Failed?;
    }
  }

  /** After normalising to `p`, the run completes exactly when every check passes. */
  lemma FromExtractDoneIff(p: string, names: Names, fs: set<string>, made: Action -> set<string>, tsvLines: seq<string>)
    ensures FromExtract(p, names, fs, made, tsvLines).outcome.Done? <==> ChecksPass(p, names, fs, made, tsvLines)
  {
    var fs1 := fs + made(Query(p, names.tsv));
    if Local(p, names.tsv) in fs1 && names.tsv in fs1 && FirstShort(tsvLines).None? {
      assert FromSites(p, names, fs1, made, tsvLines).outcome.Done? <==>
        Local(p, names.subset) in fs1 + {names.sites} + made(SubsetByRegions(p, names.sites, names.subset));
    }
  }

  /** Both replacement suffixes are plain names, longer than the suffix they replace. */
  lemma SuffixFacts()
    ensures '/' !in TsvSuffix && '/' !in SubsetSuffix
    ensures |TsvSuffix| > |Compressed| && |SubsetSuffix| > |Compressed|
  {
  }

  lemma CompressedBorderless()
    ensures Borderless(Compressed)
  {
    assert Compressed == ['.', 'v', 'c', 'f', '.', 'g', 'z'];
    forall k | 0 < k < |Compressed| ensures Compressed[k..] != Compressed[..|Compressed| - k] {
      if k == 4 {
        assert Compressed[k..][1] != Compressed[..|Compressed| - k][1];
      } else {
        assert Compressed[k..][0] != Compressed[..|Compressed| - k][0];
      }
    }
  }

  /**
   * For `<dir>/<stem>.vcf` and `<dir>/<stem>.vcf.gz` with no `.vcf.gz` inside
   * the stem, the outputs are `<dir>/<stem>.high.tsv` and
   * `<dir>/<stem>.subset_high.vcf`.
   */
  lemma OutputNames(input: string, stem: string)
    requires Basename(input) == stem + Compressed || Basename(input) == stem + ".vcf"
    requires !Occurs(stem, Compressed)
    ensures TsvPath(input, Normalized(input)) == Join(Dirname(input), stem + TsvSuffix)
    ensures SubsetPath(input, Normalized(input)) == Join(Dirname(input), stem + SubsetSuffix)
  {
    NormalizedBasename(input, stem);
    CompressedBorderless();
    ReplaceAllSuffix(stem, Compressed, TsvSuffix);
    ReplaceAllSuffix(stem, Compressed, SubsetSuffix);
  }

  /** Both `<stem>.vcf` and `<stem>.vcf.gz` normalise to the base name `<stem>.vcf.gz`. */
  lemma NormalizedBasename(input: string, stem: string)
    requires Basename(input) == stem + Compressed || Basename(input) == stem + ".vcf"
    ensures Basename(Normalized(input)) == stem + Compressed
  {
    if Basename(input) == stem + Compressed {
      CompressedBasename(input, stem);
    } else {
      PlainBasename(input, stem);
    }
  }

  lemma CompressedBasename(input: string, stem: string)
    requires Basename(input) == stem + Compressed
    ensures Normalized(input) == input
  {
    var b := Basename(input);
    assert b[|b| - |Compressed|..] == Compressed;
    assert input[|input| - |Compressed|..] == b[|b| - |Compressed|..];
  }

  lemma PlainBasename(input: string, stem: string)
    requires Basename(input) == stem + ".vcf"
    ensures Basename(Normalized(input)) == stem + Compressed
  {
    var b := Basename(input);
    assert input[|input| - 1] == b[|b| - 1] == 'f';
    assert !EndsWith(input, Compressed) by {
      assert Compressed[|Compressed| - 1] == 'z';
    }
    AppendName(input, ".gz");
    AppendAssoc(stem, ".vcf", ".gz");
  }

  /** The normalised path is normal and lies in the input's directory. */
  lemma NormalizedBesideInput(input: string)
    requires Normal(input)
    ensures Normal(Normalized(input))
    ensures Dirname(Normalized(input)) == Dirname(input)
    ensures Join(Dirname(input), Basename(Normalized(input))) == Normalized(input)
  {
    var p := Normalized(input);
    if p != input {
      AppendName(input, ".gz");
    }
    JoinDirnameBasename(p);
  }

  /**
   * The TSV and the subset output land on the normalised input itself exactly
   * when its base name holds no `.vcf.gz`: `str.replace` then leaves the name
   * unchanged, as for an input named `sample.bcf`, normalised to
   * `sample.bcf.gz`.
   */
  lemma NamesCollapse(input: string)
    requires Normal(input)
    ensures TsvPath(input, Normalized(input)) == Normalized(input) <==>
      !Occurs(Basename(Normalized(input)), Compressed)
    ensures SubsetPath(input, Normalized(input)) == Normalized(input) <==>
      !Occurs(Basename(Normalized(input)), Compressed)
  {
    NormalizedBesideInput(input);
    SuffixFacts();
    SameNameIff(input, Normalized(input), TsvSuffix);
    SameNameIff(input, Normalized(input), SubsetSuffix);
  }

  lemma SameNameIff(input: string, p: string, rep: string)
    requires '/' !in rep && |rep| > |Compressed|
    requires Join(Dirname(input), Basename(p)) == p
    ensures Join(Dirname(input), ReplaceAll(Basename(p), Compressed, rep)) == p <==> !Occurs(Basename(p), Compressed)
  {
    var n := ReplaceAll(Basename(p), Compressed, rep);
    ReplaceAllChangesIff(Basename(p), Compressed, rep);
    ReplaceAllExcludes(Basename(p), Compressed, rep, '/');
    BasenameJoin(Dirname(input), n);
  }

  /**
   * For any input each container stage checks for its output at the
   * path `main` named. So a completed run leaves the reported subset file,
   * and building the sites file, which opens the TSV by that name, never
   * raises FileNotFoundError.
   */
  lemma CheckedPathsAreNamed(input: string, fs: set<string>, made: Action -> set<string>, tsvText: string)
    ensures Local(Normalized(input), TsvPath(input, Normalized(input))) == TsvPath(input, Normalized(input))
    ensures Local(Normalized(input), SubsetPath(input, Normalized(input))) == SubsetPath(input, Normalized(input))
    ensures Main(input, fs, made, tsvText).outcome.Done? ==>
      Main(input, fs, made, tsvText).outcome.output in Main(input, fs, made, tsvText).fs
    ensures Main(input, fs, made, tsvText).outcome.Failed? && Main(input, fs, made, tsvText).outcome.stage == BuildSites ==>
      Main(input, fs, made, tsvText).outcome.failure.IndexError?
  {
    if Normalized(input) != input {
      AppendName(input, ".gz");
    }
    SuffixFacts();
    HostPathIsName(input, Normalized(input), TsvSuffix);
    HostPathIsName(input, Normalized(input), SubsetSuffix);
  }

  lemma HostPathIsName(input: string, p: string, rep: string)
    requires '/' !in rep && Dirname(p) == Dirname(input)
    ensures Local(p, Join(Dirname(input), ReplaceAll(Basename(p), Compressed, rep))) ==
      Join(Dirname(input), ReplaceAll(Basename(p), Compressed, rep))
  {
    var n := ReplaceAll(Basename(p), Compressed, rep);
    ReplaceAllExcludes(Basename(p), Compressed, rep, '/');
    BasenameJoin(Dirname(input), n);
  }
}
