/**
 * `ensure_bgzip_and_index`: make sure the input is a bgzipped VCF with an
 * index beside it. The file system is the set of paths that exist; each
 * external bcftools step is an `Action`, and `made(a)` is the set of files
 * that running `a` created, whatever the tool did inside.
 */
module Normalizer {
  import opened Wrappers
  import opened Text
  import opened Paths
  import opened Steps

  const Compressed := ".vcf.gz"

  /** The index the normaliser looks for: `<dir>/<basename>.tbi`. */
  function IndexFile(vcf: string): string {
    Join(Dirname(vcf), Basename(vcf) + ".tbi")
  }

  /** The path the normaliser hands on when it succeeds. */
  function Normalized(vcf: string): string {
    if EndsWith(vcf, Compressed) then vcf else vcf + ".gz"
  }

  /**
   * A `.vcf.gz` path is returned as it is, after asking bcftools to index it
   * when its `.tbi` is missing (whether that worked is not checked). Any
   * other path is compressed to `<path>.gz` and indexed, and the result is
   * returned only if `<path>.gz` exists afterwards.
   */
  function EnsureBgzipAndIndex(vcf: string, fs: set<string>, made: Action -> set<string>): (r: Step)
    ensures fs <= r.fs
    ensures EndsWith(vcf, Compressed) ==>
      && r.outcome == Success(vcf)
      && (r.issued == [] <==> IndexFile(vcf) in fs)
      && (r.issued != [] ==> r.issued == [Index(vcf)] && r.fs == fs + made(Index(vcf)))
      && (r.issued == [] ==> r.fs == fs)
    ensures !EndsWith(vcf, Compressed) ==>
      && r.issued == [CompressAndIndex(vcf, vcf + ".gz")]
      && r.fs == fs + made(CompressAndIndex(vcf, vcf + ".gz"))
      && (r.outcome.Success? <==> vcf + ".gz" in r.fs)
      && (r.outcome.Success? ==> r.outcome.value == vcf + ".gz")
      && (r.outcome.Failure? ==> r.outcome.error == FileNotFound(vcf + ".gz"))
    ensures r.outcome.Success? ==> r.outcome == Success(Normalized(vcf)) && EndsWith(r.outcome.value, ".gz")
  {
    if EndsWith(vcf, Compressed) then
      CompressedIsGz(vcf);
      if IndexFile(vcf) !in fs then
        Step([Index(vcf)], fs + made(Index(vcf)), Success(vcf))
      else
        Step([], fs, Success(vcf))
    else
      var gz := vcf + ".gz";
      var a := CompressAndIndex(vcf, gz);
      var fs' := fs + made(a);
      AppendedGz(vcf);
      if gz !in fs' then Step([a], fs', Failure(FileNotFound(gz)))
      else Step([a], fs', Success(gz))
  }

  lemma CompressedIsGz(vcf: string)
    requires EndsWith(vcf, Compressed)
    ensures EndsWith(vcf, ".gz")
  {
    assert vcf[|vcf| - 3..] == vcf[|vcf| - 7..][4..];
  }

  lemma AppendedGz(vcf: string)
    ensures EndsWith(vcf + ".gz", ".gz")
  {
    assert (vcf + ".gz")[|vcf|..] == ".gz";
  }

  /** For a normal path, the index file looked for is the sibling `<path>.tbi`. */
  lemma IndexFileIsSibling(vcf: string)
    requires Normal(vcf)
    ensures IndexFile(vcf) == vcf + ".tbi"
  {
    AppendName(vcf, ".tbi");
    JoinDirnameBasename(vcf + ".tbi");
  }

  /** Appending `.gz` gives a `.vcf.gz` path exactly when the path ended in `.vcf`. */
  lemma GzOfVcf(p: string)
    ensures EndsWith(p + ".gz", Compressed) <==> EndsWith(p, ".vcf")
  {
    var q := p + ".gz";
    if EndsWith(p, ".vcf") {
      assert q[|q| - 7..] == p[|p| - 4..] + ".gz";
    }
    if EndsWith(q, Compressed) {
      assert p[|p| - 4..] == q[|q| - 7..|q| - 3] == Compressed[..4];
    }
  }

  /**
   * Running the normaliser again on its own result returns that result
   * unchanged exactly when the input ended in `.vcf` or `.vcf.gz`; in that
   * case nothing is compressed again, and for a normal path the index
   * command is issued again exactly when `<result>.tbi` does not exist. So
   * if the index tool leaves its index under any other name, every rerun
   * indexes again.
   */
  lemma NormalizeTwice(vcf: string, fs: set<string>, made: Action -> set<string>)
    requires EnsureBgzipAndIndex(vcf, fs, made).outcome.Success?
    ensures
      var first := EnsureBgzipAndIndex(vcf, fs, made);
      var q := first.outcome.value;
      var second := EnsureBgzipAndIndex(q, first.fs, made);
      && (second.outcome == Success(q) <==> EndsWith(vcf, ".vcf") || EndsWith(vcf, Compressed))
      && (EndsWith(vcf, ".vcf") || EndsWith(vcf, Compressed) ==>
            && (forall i :: 0 <= i < |second.issued| ==> second.issued[i] == Index(q))
            && (Normal(vcf) ==> (second.issued == [] <==> q + ".tbi" in first.fs)))
  {
    if EndsWith(vcf, Compressed) {
      RerunCompressed(vcf, fs, made);
    } else {
      RerunPlain(vcf, fs, made);
    }
  }

  /** A `.vcf.gz` input is its own result, so the rerun sees the same path. */
  lemma RerunCompressed(vcf: string, fs: set<string>, made: Action -> set<string>)
    requires EndsWith(vcf, Compressed)
    ensures
      var first := EnsureBgzipAndIndex(vcf, fs, made);
      var second := EnsureBgzipAndIndex(vcf, first.fs, made);
      && first.outcome == second.outcome == Success(vcf)
      && (forall i :: 0 <= i < |second.issued| ==> second.issued[i] == Index(vcf))
      && (Normal(vcf) ==> (second.issued == [] <==> vcf + ".tbi" in first.fs))
  {
    if Normal(vcf) { IndexFileIsSibling(vcf); }
  }

  /** A plain input becomes `<path>.gz`, which is a fixed point only for a `.vcf` input. */
  lemma RerunPlain(vcf: string, fs: set<string>, made: Action -> set<string>)
    requires !EndsWith(vcf, Compressed)
    requires EnsureBgzipAndIndex(vcf, fs, made).outcome.Success?
    ensures
      var first := EnsureBgzipAndIndex(vcf, fs, made);
      var q := vcf + ".gz";
      var second := EnsureBgzipAndIndex(q, first.fs, made);
      && first.outcome == Success(q)
      && (second.outcome == Success(q) <==> EndsWith(vcf, ".vcf"))
      && (EndsWith(vcf, ".vcf") ==>
            && (forall i :: 0 <= i < |second.issued| ==> second.issued[i] == Index(q))
            && (Normal(vcf) ==> (second.issued == [] <==> q + ".tbi" in first.fs)))
  {
    var q := vcf + ".gz";
    GzOfVcf(vcf);
    if EndsWith(vcf, ".vcf") {
      if Normal(vcf) {
        AppendName(vcf, ".gz");
        IndexFileIsSibling(q);
      }
    } else {
      assert |q + ".gz"| != |q|;
    }
  }
}
