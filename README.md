# subset_splice_vcf in Dafny

A model of the splice-score subsetting script `subset_splice_vcf.py`. The script takes a VCF annotated by SpliceAI and runs these steps:

1. It makes sure the VCF is bgzipped and indexed.
2. It asks bcftools for six columns per record and keeps the records whose largest SpliceAI delta score exceeds 0.5. An awk program does this filtering.
3. It writes a minimal VCF of the retained sites.
4. It asks bcftools for the subset of the input at those sites.

The model covers the decisions the script makes:

- which path the normaliser returns and which bcftools step it asks for;
- the awk max-and-threshold filter, record by record;
- the sites-file builder, line by line, including the `IndexError` it raises on a short line;
- the output names `main` derives;
- the order of the four stages, and the existence check that stops the run after the compress, query and subset steps; the index-only step of a `.vcf.gz` input is not checked.

The model has these modules:

- `Text` holds the Python string operations the script relies on: `strip`, `split`, `str.replace`, and iterating a file by lines.
- `Paths` holds POSIX `os.path.basename`, `dirname` and `join`.
- `Filtering` holds a generic "keep some entries, in order" view shared by the two line-by-line loops.
- `Steps` holds what every stage works with: the external steps (`Action`), the errors that stop a run (`Failure`) and what a stage did (`Step`).
- `Normalizer` is `ensure_bgzip_and_index`.
- `ScoreFilter` is the awk program.
- `Sites` is `build_sites_file`.
- `Pipeline` holds `run_bcftools_and_write`, `subset_vcf` and `main`.
- `Handoff` connects the TSV the filter writes to the sites file read back from it.

The file system is the set of paths that exist. Each external bcftools step is an `Action`, and a caller-supplied `made(action)` says which files that step created. How awk reads a score text as a number is a parameter `value: string -> real`. The TSV that `build_sites_file` reads is given as its text.

## Model

| member | source | states |
|---|---|---|
| Normalizer.EnsureBgzipAndIndex | subset_splice_vcf.py:5-42 | A `.vcf.gz` path comes back unchanged, and the index command is issued exactly when `<dir>/<basename>.tbi` is missing. Any other path issues one compress-and-index step. That path then succeeds with `<path>.gz` exactly when `<path>.gz` exists afterwards, and otherwise fails with `FileNotFoundError` naming it. Files never disappear. |
| Normalizer.IndexFileIsSibling | subset_splice_vcf.py:6-10 | For a normal path, the index file looked for is `<path>.tbi`. |
| Normalizer.NormalizeTwice | subset_splice_vcf.py:9-42 | For an input the normaliser accepted, rerunning it on its own result returns that result unchanged exactly when the input ended in `.vcf` or `.vcf.gz`; any other input gets `.gz` appended again. For those two endings a rerun only ever asks to index the result, and, when the input path is normal, does so exactly when `<result>.tbi` is missing. |
| Normalizer.GzOfVcf | subset_splice_vcf.py:24-26 | `<path>.gz` ends in `.vcf.gz` exactly when `<path>` ends in `.vcf`. |
| ScoreFilter.MaxScore | subset_splice_vcf.py:56-57 | The chain of guarded overwrites starting from component 3 yields the chain maximum of components 3 to 6. |
| ScoreFilter.ChainMaxIsFirstMax | subset_splice_vcf.py:57 | The `>` chain picks the score with the largest value; on a tie the earlier score's text is kept. |
| ScoreFilter.FirstMaxUnique | subset_splice_vcf.py:57 | The first maximal position is unique, so the chain's pick is determined. |
| ScoreFilter.KeepIffSomeScoreAbove | subset_splice_vcf.py:58 | A record is printed exactly when one of its four delta scores is strictly above 0.5. A best score of exactly 0.5 is dropped. |
| ScoreFilter.Row | subset_splice_vcf.py:59 | A printed row has 11 columns: the six queried fields, then components 3 to 6, then the maximum. The maximum is one of the four scores and is at least each of them. |
| ScoreFilter.HighScoringIsOrderedFilter | subset_splice_vcf.py:54-60 | The printed rows belong to exactly the passing records, in input order. The k-th row is the row of the k-th passing record. |
| ScoreFilter.ExtractHighScoring | subset_splice_vcf.py:55-60 | The per-record awk loop prints exactly the rows of the ordered filter. |
| ScoreFilter.TsvLineComplete | subset_splice_vcf.py:59-60 | A row with no newline in any column is printed as exactly one complete line: newline-terminated, with no other newline. |
| ScoreFilter.TsvTextReadsBack | subset_splice_vcf.py:60 | When no column holds a newline, reading the TSV back line by line gives exactly one complete line per printed row, in row order. |
| Sites.SiteLineColumns | subset_splice_vcf.py:82 | A sites line holds exactly the eight VCF columns `CHROM POS . REF ALT . . .`. Splitting it on tabs gives them back, and none of the score columns is carried through. |
| Sites.SitesFile | subset_splice_vcf.py:74-82 | The sites output stops with `IndexError` exactly at the first data line that has fewer than four fields. |
| Sites.DataLinesAreSiteLines | subset_splice_vcf.py:78-82 | Without a short line, one sites line is written per line that is neither blank after stripping nor starts with `#`. The lines are written in input order, each from that line's fields, and nothing else is written. |
| Sites.AllDataLines | subset_splice_vcf.py:76-82 | When every line is a data line with enough fields, the file is the two header lines followed by one sites line per input line. |
| Sites.BuildSitesFile | subset_splice_vcf.py:74-82 | The loop writes the two header lines, skips blank and comment lines and writes one sites line per other line. On a short line it stops with `IndexError` at that line, after what it has written so far. |
| Pipeline.RunBcftoolsAndWrite | subset_splice_vcf.py:44-70 | Issues one query step, after which the files are the ones before plus what the step made. It succeeds exactly when `join(dirname(vcf), basename(tsv))` is among them and returns that path; otherwise `FileNotFoundError` names it. |
| Pipeline.BuildSitesStep | subset_splice_vcf.py:72-83 | A missing TSV raises `FileNotFoundError` naming it and creates nothing. Otherwise exactly the sites file is added; `IndexError` is raised exactly when the TSV has a short data line, at the first such line, and otherwise the step succeeds with the sites path. |
| Pipeline.SubsetVcf | subset_splice_vcf.py:85-106 | Issues one subset step, after which the files are the ones before plus what the step made. It succeeds exactly when `join(dirname(vcf), basename(out))` is among them; otherwise `FileNotFoundError` names it. |
| Pipeline.FromSites | subset_splice_vcf.py:126-127 | After extraction, the remaining planned steps are issued in order up to the one that fails. The sites stage fails with `FileNotFoundError` exactly when the TSV is missing and with `IndexError` exactly when it has a short data line; the subset stage fails exactly when those pass and the subset output is missing on the host. A completed run reports the subset name, and its host path `join(dirname(p), basename(subset))` exists. |
| Pipeline.FromExtract | subset_splice_vcf.py:125-127 | After normalising, the planned steps are issued in order up to the first failure. The run stops at extraction with `FileNotFoundError` exactly when the TSV is missing on the host after the query. Every `FileNotFoundError` names a path that does not exist at the end. |
| Pipeline.Main | subset_splice_vcf.py:108-129 | A failing normaliser ends the run. Otherwise query, sites and subset are issued in that order, up to the stage that fails. An `IndexError` comes from building the sites file, and a completed run reports the subset name of the normalised input. |
| Pipeline.FromExtractDoneIff | subset_splice_vcf.py:125-127 | After normalising, the run completes exactly when all three checks pass: the TSV is on the host, the sites file is built without a short line, and the subset output is on the host. |
| Pipeline.FromExtractStopsAtSites | subset_splice_vcf.py:125-126 | With the TSV on the host after the query, a TSV that cannot be opened or has a short data line stops the run at the sites stage, after exactly the query and sites steps. |
| Pipeline.MainStopsAtExtract | subset_splice_vcf.py:66-68 | After a successful normaliser, a TSV missing on the host after the query ends `main` with `FileNotFoundError` naming it. Only the query step follows the normaliser, and the files are those it made. |
| Pipeline.MainStopsAtSites | subset_splice_vcf.py:125-126 | With the TSV on the host, `main` stops at building the sites file with `FileNotFoundError` when the TSV cannot be opened under its name, or else with `IndexError` on the first short line. The subset step is never issued. |
| Pipeline.MainStopsAtSubset | subset_splice_vcf.py:103-105 | With the sites file built, a subset output missing on the host ends `main` with `FileNotFoundError` naming it, after all three planned steps. |
| Pipeline.MainDoneIff | subset_splice_vcf.py:117-129 | `main` completes exactly when the normaliser succeeds and the three checks after it all pass. |
| Pipeline.MainStageOrder | subset_splice_vcf.py:117-127 | Every issued action belongs to a strictly later stage than the one before it: normalise, extract, sites, subset. No action belongs to a stage after the one that failed. |
| Pipeline.OutputNames | subset_splice_vcf.py:119-122 | For `<dir>/<stem>.vcf` or `<dir>/<stem>.vcf.gz` where the stem has no `.vcf.gz`, the outputs are `<dir>/<stem>.high.tsv` and `<dir>/<stem>.subset_high.vcf`. |
| Pipeline.NormalizedBasename | subset_splice_vcf.py:9-42 | Both `<stem>.vcf` and `<stem>.vcf.gz` normalise to the base name `<stem>.vcf.gz`. |
| Pipeline.NormalizedBesideInput | subset_splice_vcf.py:113-117 | The normalised path is normal and lies in the input's directory. |
| Pipeline.NamesCollapse | subset_splice_vcf.py:120-122 | The TSV and subset names equal the normalised input exactly when its base name has no `.vcf.gz`. In that case the replacement changes nothing. |
| Pipeline.CheckedPathsAreNamed | subset_splice_vcf.py:120-127 | For any input, each container stage checks exactly the path `main` named. A completed run leaves the reported file. Building the sites file can then only fail with `IndexError`. |
| Handoff.CleanRowReadsBack | subset_splice_vcf.py:59-60 | Take a record whose SpliceAI field has at least six components. Suppose none of its fields holds a tab or newline, and CHROM is non-empty and starts with neither white space nor `#`. Then its row has plain columns and a `|` in its SpliceAI column, and starts with CHROM, POS, REF, ALT. |
| Handoff.TsvLineReadBack | subset_splice_vcf.py:79-81 | Such a row's line is a complete data line, and its first four fields are the row's first four columns. |
| Handoff.ReadBackLines | subset_splice_vcf.py:78 | Take rows that each have 11 columns with no tab or newline in any column, a CHROM that is non-empty and starts with neither white space nor `#`, and a `|` in column 6. Reading their TSV back line by line gives exactly the printed lines, and each line read back is a data line with at least four fields whose sites line is made of its row's first four columns. |
| Handoff.SitesOfHighScoring | subset_splice_vcf.py:54-83 | Take records that each have at least six SpliceAI components, no tab or newline in any field, and a non-empty CHROM starting with neither white space nor `#`. The sites file built from the filter's TSV of those records has no `IndexError`. It holds the header, then one sites line per passing record, in record order, made of that record's CHROM, POS, REF and ALT. |
| Handoff.NoIndexErrorOnCleanRecords | subset_splice_vcf.py:125-126 | Under the same conditions on the records as `SitesOfHighScoring`, `main` fed with the filter's TSV of those records never stops with `IndexError`. |
| Text.StripEmptyIff | subset_splice_vcf.py:79 | `line.strip() == ""` exactly when every character is white space. |
| Text.Split | subset_splice_vcf.py:81 | `split` yields at least one piece, no piece holds the separator, and joining the pieces gives the text back. |
| Text.SplitJoin | subset_splice_vcf.py:81 | Splitting the join of pieces without the separator gives the pieces back. |
| Text.ReplaceAllCons | subset_splice_vcf.py:120-122 | For a pattern that overlaps itself nowhere, such as `.vcf.gz`, and an `a` with no occurrence of it, `(a + pat + b).replace(pat, rep)` is `a + rep + b.replace(pat, rep)`. So every occurrence is replaced, left to right. |
| Text.ReplaceAllSuffix | subset_splice_vcf.py:120-122 | If the stem has no `.vcf.gz`, replacing in `<stem>.vcf.gz` gives `<stem><replacement>`. |
| Text.ReplaceAllChangesIff | subset_splice_vcf.py:120-122 | A lengthening replacement changes the text exactly when the pattern occurs in it. |
| Text.Lines | subset_splice_vcf.py:78 | The lines of a file concatenate back to its text and none is empty. Every line but the last ends with its only newline, and the last holds no newline except possibly at its end. |
| Text.LinesConcat | subset_splice_vcf.py:78 | Lines written whole are read back as the same lines. |
| Paths.JoinDirnameBasename | subset_splice_vcf.py:66 | Joining the directory and base name of a normal path gives the path back. |
| Paths.AppendName | subset_splice_vcf.py:26 | Appending a name without `/` keeps the directory and extends the base name. |
| Paths.BasenameJoin | subset_splice_vcf.py:120-122 | The base name of `join(d, n)` is `n` when `n` has no `/`. |

## Left out

- The docker and bcftools steps themselves are not modelled: BGZF compression, the index format, VCF parsing, and the region matching of `view -R`. Each step is an action that may or may not create its output file, and `made` says which. So nothing says that `bcftools index` writes a `.tbi` rather than a `.csi`. `NormalizeTwice` states what follows when it does not.
- How awk compares score text (numeric for numeric-looking strings, otherwise as strings) is not modelled, and neither is the parsing of decimal text. The parameter `value` is the reading of a score.
- ScoreFilter.ExtractHighScoring: requires every SpliceAI field to have at least six `|` components. With fewer, awk works on empty strings, and that case is not modelled.
- `print` progress messages, `argparse`, `os.path.abspath` and the backslash-to-slash rewriting are left out. Input paths are assumed to be in the form `abspath` gives (`Paths.Normal`) wherever a lemma needs it.
- `for line in f` is modelled as splitting on `\n` only; universal-newline translation of `\r` is not modelled.
- Text decoding is not modelled: files are read as already-decoded characters, so the `UnicodeDecodeError` that `for line in f` can raise on a file in text mode is not a modelled outcome.
- Paths follow POSIX `posixpath` only. On a Windows host `os.path` is `ntpath`, and `join("C:/d", "x.high.tsv")` gives `C:/d\x.high.tsv`. So `Pipeline.OutputNames` and `Pipeline.CheckedPathsAreNamed` hold only on POSIX hosts, although the backslash rewriting in `main` suggests Windows use.
- The two other scripts, `run_spliceai.py` (parallel docker SpliceAI runs) and `vcftomaf.py` (a vcf2maf batch wrapper), are not part of this model.
- The normaliser is not idempotent on every input: it compresses every path that does not end in `.vcf.gz`, including one that is already `<x>.gz` for another extension. `NormalizeTwice` states exactly when a rerun is a fixed point.
