/**
 * What every stage of the pipeline works with: the external steps it issues,
 * the errors that stop a run, and what a stage did.
 */
module Steps {
  import opened Wrappers

  /** The steps the pipeline issues, in terms of the local paths they name. */
  datatype Action =
    | Index(vcf: string)                                   // bcftools index <vcf>
    | CompressAndIndex(plain: string, gz: string)          // bcftools view -Oz -o <gz> <plain> && bcftools index <gz>
    | Query(vcf: string, tsv: string)                      // bcftools query ... <vcf> | awk ... > <tsv>
    | WriteSites(tsv: string, sites: string)               // build_sites_file, in process
    | SubsetByRegions(vcf: string, sites: string, out: string) // bcftools view -R <sites> <vcf> -Ov -o <out>

  /**
   * `FileNotFoundError` on a missing expected output, `IndexError` on a short sites input line.
   * Python's `IndexError` carries no line; `line` records where the loop stopped.
   */
  datatype Failure = FileNotFound(path: string) | IndexError(line: nat)

  /** What a stage did: the actions it issued, the files that exist afterwards, and its result. */
  datatype Step = Step(issued: seq<Action>, fs: set<string>, outcome: Result<string, Failure>)
}
