# Seq4Primers flank assembly and annotation, in Dafny

Seq4Primers writes one GenBank file per requested SNP. For every row of the
SNP's location table it does the following:

- cuts a window of `f` bases on either side of the variant out of the chromosome;
- finds every known variant whose span lies inside that window;
- checks each variant's recorded reference against the window;
- appends a bracketed code for the target and a parenthesised code for each neighbour to the summary line in `seq4primers.txt`;
- upper-cases the validated spans;
- writes the LOCUS, DEFINITION and FEATURES header lines, one feature entry per variant, and the ORIGIN block.

The model replaces the SQLite database with a value, `VariantStore.Db`:
a chromosome map, the location rows and the allele rows. The two SQL queries
become functions over these values. The clock becomes a `GenBank.Date`
parameter. The output files become returned strings: the summary text and a
map from file name to file text.

Modules, in dependency order:

- `Results`: `Option` and `Result`.
- `Strings`: the string operations the program relies on. These are Python
  slicing (clamped and wrapping, exactly as Python does it), SQLite `SUBSTR`
  and `LOWER`, ASCII case mapping, `re.split(', *')`, `'/'.join`, right
  justification, decimal text, and the `re.sub('(.{1,10})', ' \1')` grouping.
- `VariantStore`: the database rows and the two queries. `select_seq` gives
  three lowered `SUBSTR` pieces per location row. `select_snp` is a filter,
  a join with `GROUP_CONCAT`, and an `ORDER BY pos_from`.
- `Validation`: the per-overlap checks in source order, as a pure function
  `Validate` and as the method `CheckOverlap`. `check_allele` is the method
  `CheckAllele`.
- `FlankAssembly`: the overlap loop as a fold `Fold` of a step function
  over a state. The state holds the cursor, the summary text, the working
  window and the accepted features. The module also covers the code string,
  the allele tokens, and the upper-casing of a span. It proves what the fold
  computes against an independent layout function `Weave`.
- `GenBank`: the header lines, the feature entries, and the ORIGIN block
  with its `while` loop (`WriteOrigin`).
- `Seq4Primers`: the body of `main` as methods. `VisitOverlap`,
  `AnnotateWindow`, `WriteRow` and `RunAll` are each proved equal to a
  specification function (`Step`, `Fold`, `RowResult`, `Run`). These are
  the functions that the lemmas are about.

The program stops with `exit(...)` on several failures. The model turns
these into a `Validation.Failure` value:

- no SNP record;
- wrong SNP position;
- no reference allele;
- a missing frequency (the program's `IndexError` at line 121);
- a chromosome missing from the database (the `TypeError` of `len(None)`).

Three consequences of the code that a reader might not expect:

- **The display code** (seq4primers.py:103) is `obs + "/" + freq` of the
  two whole `GROUP_CONCAT` strings, not a list of per-allele pairs.
- **A `'-'` reference with `len` 0** (begin `p`, end `p-1`). Lines 82-83
  swap the ends, so the end is one past the begin. The test at line 96 is
  then non-zero, so line 97 takes a two-base slice instead of keeping the
  literal `'-'`. Line 99 rejects the overlap with a position error
  (`Validation.DashOverZeroBasesIsRejected`). The literal `'-'` is kept
  only for the reversed two-base span
  (`Validation.DashOverTwoBasesIsInsertionPoint`).
- **Deleting the codes from the summary line** (lines 109-112) does not
  give a string as long as the window. Each validated span is skipped over
  and replaced by its code, so what remains is the window with every
  validated span removed (`FlankAssembly.CodesRemoved`).

## Model

| member | source | states |
|---|---|---|
| `Strings.Slice` | seq4primers.py:109-110 | Python slicing: within bounds it is `s[a..b]`; an empty result when the end is not after the start; clamped at the end of the string |
| `Strings.Substr` | seq4primers.py:11-13 | SQLite `SUBSTR(s, start, len)` with 1-based start: at most `len` characters; exactly `s[start-1 .. start-1+len]` when that fits; exactly the rest `s[start-1 ..]` when the string ends inside the range, as when the right flank runs past the chromosome's end; empty past the end |
| `Strings.Lower` | seq4primers.py:72 | lowering keeps the length and lowers every character (ASCII letters only) |
| `Strings.Upper` | seq4primers.py:98 | upper-casing keeps the length and upper-cases every character |
| `Strings.UpperOfLower` | seq4primers.py:92-98 | comparing upper-cased texts is unaffected by lowering the reference first |
| `Strings.SplitCommas` | seq4primers.py:114-115 | `re.split(', *')` yields at least one piece, no piece holds a comma, and no piece after the first starts with a space |
| `Strings.SplitJoin` | seq4primers.py:114-115 | splitting a `GROUP_CONCAT` of comma-free allele texts gives back exactly those texts |
| `Strings.Join` | seq4primers.py:131 | definition: `sep.join(xs)`, the texts with the separator between consecutive ones |
| `Strings.RightJustify` | seq4primers.py:138 | `'{:>w}'`: the length is the larger of `w` and the text's length, the text is the suffix, and the rest is spaces |
| `Strings.NatToStringValue` | seq4primers.py:73 | the decimal text of `n` denotes `n` |
| `Strings.SpaceGroupsByTen` | seq4primers.py:140 | the regex substitution puts one space before each consecutive group of 10 characters, the last group possibly shorter |
| `Strings.SpaceGroups` | seq4primers.py:140 | definition: `re.sub('(.{1,10})', ' \1')`, a space before each group of up to 10 characters |
| `Strings.ChunksCount` | seq4primers.py:140 | cutting into groups of `n` gives `ceil(len/n)` groups |
| `Strings.SpaceGroupsUnspaced` | seq4primers.py:140 | removing the spaces from the grouped text gives back the bases |
| `VariantStore.LeftStart` | seq4primers.py:11 | definition: the first position of the left piece, `pos_from - f` when positive and 1 otherwise |
| `VariantStore.WindowSeq` | seq4primers.py:11-13 | definition: the three lowered `SUBSTR` pieces of one location row, concatenated |
| `VariantStore.WindowRowOf` | seq4primers.py:8-15 | definition: one result row of `select_seq`, with chromosome, begin, `pos_from + len - 1` and the window, or no window when the chromosome is missing |
| `VariantStore.WindowRows` | seq4primers.py:8-15 | every row `select_seq` returns is built from a location row of the SNP, and there are no more rows than location rows |
| `VariantStore.RowIfMatches` | seq4primers.py:14 | definition: the `WHERE snp_id = ?` test on one location row, giving its window row or nothing |
| `VariantStore.WindowRowsComplete` | seq4primers.py:8-15 | every location row of the SNP gives a row of `select_seq` |
| `VariantStore.WindowRowsAppend` | seq4primers.py:14 | the query reads the table in order: the rows for two stretches of the table are those of the first followed by those of the second |
| `VariantStore.WindowRowsInOrder` | seq4primers.py:14 | of two location rows of the SNP, the earlier one's window row comes first |
| `VariantStore.UnclippedWindowIsContiguous` | seq4primers.py:11-13 | when `pos_from - f > 0` the three pieces are one contiguous lowered substring of `2f + len` bases starting at `pos_from - f` |
| `VariantStore.ClippedWindowKeepsFullLeftPiece` | seq4primers.py:11 | when `pos_from - f <= 0` the left piece is still `f` bases, `chrom[1..f]`, followed by the variant's own bases |
| `VariantStore.InWindow` | seq4primers.py:19-23 | definition: the `WHERE` clause, the chromosome and both ends of the span in `[lo, hi]` |
| `VariantStore.AllelesOf` | seq4primers.py:17-18 | definition: the allele texts of one SNP's allele rows, in table order |
| `VariantStore.FreqsOf` | seq4primers.py:17-18 | definition: the non-NULL frequencies of one SNP's allele rows, in table order, as `GROUP_CONCAT(freq)` keeps them |
| `VariantStore.GroupOf` | seq4primers.py:17-18 | definition: a location joined to its alleles, with `GROUP_CONCAT` of the alleles and of the non-NULL frequencies |
| `VariantStore.Candidates` | seq4primers.py:17-25 | definition: for each location row in table order that meets the `WHERE` clause and has an allele row, its grouped record |
| `VariantStore.Overlaps` | seq4primers.py:17-27 | definition: the whole `select_snp` query, the candidates sorted by `pos_from` |
| `VariantStore.SortByBeg` | seq4primers.py:26 | `ORDER BY pos_from`: the result is sorted by begin and is a permutation of its input |
| `VariantStore.OverlapsSelection` | seq4primers.py:17-27 | a record is returned iff some location on the chromosome has both ends in `[lo, hi]` and at least one allele row; it is that location grouped with its alleles; the result is sorted by `pos_from`. This is the program's `GROUP BY` when each SNP id has at most one location row |
| `VariantStore.OverlapsDistinct` | seq4primers.py:25 | with one location per SNP id, `GROUP BY snp_id` returns each id at most once |
| `VariantStore.TargetInOwnWindow` | seq4primers.py:80 | the target's own location, if it has alleles and a span of a base or a positive flank, is among the overlaps of its window |
| `VariantStore.FreqsAlign` | seq4primers.py:18 | when no allele of the SNP has a NULL frequency, the frequency list is as long as the allele list |
| `Validation.Oriented` | seq4primers.py:82-83 | definition: the span's ends, swapped when the reference is `'-'` |
| `Validation.ComparisonString` | seq4primers.py:95-97 | definition: the literal `'-'` when `end - beg + 1` is zero, and the Python slice `seq[beg-1:end]` otherwise |
| `Validation.Validate` | seq4primers.py:82-101 | definition: the checks of the loop body in order, giving skipped, one of the three failures, or the accepted, shifted span |
| `Validation.HasReferenceAllele` | seq4primers.py:148-153 | definition: some piece of the observed alleles split on `', *'` equals the reference ignoring case |
| `Validation.CheckAllele` | seq4primers.py:148-153 | `check_allele` returns true iff some token of the observed alleles split on `', *'` equals the reference ignoring case |
| `Validation.CheckAlleleOfGroup` | seq4primers.py:149 | on a `GROUP_CONCAT` of comma-free alleles, `check_allele` asks whether one of the alleles is the reference |
| `Validation.CheckOverlap` | seq4primers.py:82-101 | the checks in the loop body return the verdict `Validate` gives |
| `Validation.ValidationOutcome` | seq4primers.py:82-99 | skipped iff there is no frequency; "no SNP record" iff there is a frequency but no reference; a position error iff both are present and the comparison text at the swapped, shifted span differs from the reference ignoring case |
| `Validation.AlleleOutcome` | seq4primers.py:92-101 | "no reference allele" iff the position matches and no observed allele is the reference; accepted iff all checks pass, and then at the swapped, shifted span |
| `Validation.AcceptedSpan` | seq4primers.py:96-98 | when the accepted span's end is not negative, the span has `beg - 1 <= end`, and in bounds its window text equals the reference ignoring case |
| `Validation.AcceptedMatches` | seq4primers.py:92-98 | an accepted overlap has a reference, and its comparison text matches the lowered reference |
| `Validation.DashOverTwoBasesIsInsertionPoint` | seq4primers.py:82-96 | a `'-'` reference over the two-base span is compared as the literal `'-'` and is accepted iff `'-'` is among the observed alleles |
| `Validation.DashOverZeroBasesIsRejected` | seq4primers.py:82-99 | a `'-'` reference with `len` 0 is compared with two window bases and rejected as a wrong position |
| `FlankAssembly.Code` | seq4primers.py:103-107 | definition: `obs/freq` wrapped as `[id:…]` for the target and `(id:…)` otherwise |
| `FlankAssembly.AlleleTokens` | seq4primers.py:114-121 | definition: one token per observed allele, `del` for `'-'` and `allele-freq[i]` otherwise, or nothing when `freq_set[i]` is missing |
| `FlankAssembly.MarkUpper` | seq4primers.py:122 | definition: `seq[0:beg-1] + seq[beg-1:end].upper() + seq[end:]` with Python slicing |
| `FlankAssembly.StepOn` | seq4primers.py:84-122 | definition: one loop pass given its verdict; skipped leaves the state, a failure stops, an accepted span adds its feature or stops on a missing frequency |
| `FlankAssembly.Step` | seq4primers.py:81-122 | definition: one loop pass, `StepOn` of the verdict `Validate` gives |
| `FlankAssembly.Advance` | seq4primers.py:109-122 | definition: the new state after an accepted feature: the cursor at its end, the gap and the code appended, its span upper-cased, the feature added |
| `FlankAssembly.Fold` | seq4primers.py:81-122 | definition: the overlap loop, the steps applied in order, stopping at the first failure |
| `FlankAssembly.Start` | seq4primers.py:76-77 | definition: the state before the overlap loop: cursor 0, empty summary text, the lowered window, no features |
| `FlankAssembly.Flanked` | seq4primers.py:132 | definition: `flanked_seq + seq[current_pos:]`, the summary text with the rest of the window |
| `FlankAssembly.CodeShape` | seq4primers.py:103-107 | the code is `[id:obs/freq]` for the target and `(id:obs/freq)` otherwise, with the length that implies |
| `FlankAssembly.AlleleTokensSpec` | seq4primers.py:114-121 | the tokens exist iff every non-`'-'` allele has a frequency at its index; then there is one token per allele, `del` for `'-'` and `allele-freq[i]` otherwise |
| `FlankAssembly.BuildAlleleTokens` | seq4primers.py:116-121 | the `append` loop builds the token list, or stops where `freq_set[i]` is missing |
| `FlankAssembly.TokensOfGroup` | seq4primers.py:114-121 | on grouped alleles and frequencies of equal number, token `i` is `del` or `allele[i]-freq[i]` |
| `FlankAssembly.MarkUpperSpan` | seq4primers.py:122 | the rebuilt window keeps its length, upper-cases exactly the indices `[beg-1, end)`, leaves `lower(seq)` unchanged, and is idempotent |
| `FlankAssembly.StepCases` | seq4primers.py:81-122 | a step that does not fail either skips the overlap with the state unchanged, or appends one feature, moves the cursor to its end, upper-cases its span, and appends the gap and the code |
| `FlankAssembly.FoldExtends` | seq4primers.py:81-131 | the loop only appends to the feature list |
| `FlankAssembly.FoldAssembles` | seq4primers.py:109-112 | for accepted spans in order inside the window, the summary line is the original window's gaps interleaved with the codes, then the tail; the final window has exactly those spans upper-cased and the same lowered text; the cursor never moves back |
| `FlankAssembly.CodesRemoved` | seq4primers.py:110-111 | with every code deleted, the layout is the window with every accepted span removed |
| `FlankAssembly.SkippedOverlapsIgnored` | seq4primers.py:84-86 | overlaps without a frequency change nothing: dropping them all gives the same result |
| `FlankAssembly.FoldFeatureIds` | seq4primers.py:104-107 | with distinct overlap ids the features keep distinct ids, and a feature is marked as the target iff its id is the target's |
| `FlankAssembly.OnlyTargetBracketed` | seq4primers.py:104-105 | at most one feature, the target's, gets the square brackets |
| `GenBank.LocusLine` | seq4primers.py:54-58 | definition: the LOCUS line with the right-justified chromosome, the length field and the date |
| `GenBank.LengthField` | seq4primers.py:73 | definition: `'{: > 9}'` of the window length, the signed-space decimal text right-justified to 9 |
| `GenBank.DefinitionLine` | seq4primers.py:65-71 | definition: the DEFINITION line, with the range `1..len(seq)` when the left flank is clipped and `beg-f .. beg-f+len(seq)-1` otherwise |
| `GenBank.Header` | seq4primers.py:74 | definition: the LOCUS, DEFINITION and FEATURES lines written at the start of a record |
| `GenBank.KeyLine` | seq4primers.py:124-127 | definition: the key column (`variation` or `Polymorphism`) and the location `beg..end` |
| `GenBank.Qualifier` | seq4primers.py:128-131 | definition: a `/name="value"` line starting at column 22 |
| `GenBank.FeatureLines` | seq4primers.py:124-131 | definition: the lines of one feature entry |
| `GenBank.FeaturesText` | seq4primers.py:124-131 | definition: the entries of the features, one after another |
| `GenBank.LineAt` | seq4primers.py:138-141 | definition: one ORIGIN line, the offset plus one right-justified to 9, then the grouped 60 bases from the offset and a newline |
| `GenBank.OriginLines` | seq4primers.py:136-142 | definition: the ORIGIN lines from offset `i` to the end of the window |
| `GenBank.OriginText` | seq4primers.py:134-143 | definition: `ORIGIN`, the ORIGIN lines and `//` |
| `GenBank.Record` | seq4primers.py:74-143 | definition: one row's record, the header, the feature entries and the ORIGIN block |
| `GenBank.TwoDigitsValue` | seq4primers.py:58 | `%d` is two digits denoting the day |
| `GenBank.LocusColumns` | seq4primers.py:54-58 | the LOCUS line has `LOCUS  `, the chromosome right-aligned in columns 8-31, ` MiHA ` in 32-37 and the length field in 38-46 |
| `GenBank.LengthFieldValue` | seq4primers.py:73 | when the length has at most 8 digits, `'{: > 9}'` of it is 9 characters: spaces, then the digits, which denote the length |
| `GenBank.DefinitionRangeSpan` | seq4primers.py:65-71 | the DEFINITION range holds `len(seq)` positions in both branches and starts right after `max(0, beg-f-1)` |
| `GenBank.FeatureEntry` | seq4primers.py:124-131 | an entry has 4 lines for the target and 3 otherwise; the key is `variation` iff strict; location from column 22; `/MiHA` iff target; then `/label` and `/frequency` with the tokens joined by `/` |
| `GenBank.KeyLineColumns` | seq4primers.py:124-127 | the key column is 21 characters and reads `variation` exactly under the strict rules |
| `GenBank.MiHAOnlyForTarget` | seq4primers.py:128-129 | a `/MiHA` qualifier appears in an entry iff the feature is the target |
| `GenBank.FeaturesTextAppend` | seq4primers.py:124-131 | adding a feature at the end appends exactly its entry to the text |
| `GenBank.WriteOrigin` | seq4primers.py:136-142 | the `while` loop writes exactly the ORIGIN lines of the window, in order |
| `GenBank.OriginLineCount` | seq4primers.py:136-142 | from offset `i` there are `ceil((len(seq)-i)/60)` lines, none past the end |
| `GenBank.OriginLineAt` | seq4primers.py:137-141 | line `k` starts at offset `i + 60k` inside the window, and is that offset plus one right-justified to 9, the grouped 60 bases from there, and a newline |
| `GenBank.OriginReadsBack` | seq4primers.py:136-142 | dropping each line's offset, its spaces and its newline gives back the window from `i` |
| `Seq4Primers.StartShift` | seq4primers.py:65-67 | definition: `beg - f - 1`, or 0 when that is negative |
| `Seq4Primers.DefinitionMatchesShift` | seq4primers.py:65-71 | `start_shift` is never negative, and the DEFINITION range runs from `start_shift + 1` to `start_shift + len(seq)` |
| `Seq4Primers.UnclippedWindowFromShift` | seq4primers.py:65-73 | without clipping the window is the lowered chromosome from position `start_shift + 1` on |
| `Seq4Primers.VisitOverlap` | seq4primers.py:81-131 | one pass of the loop body gives the fold's step, and on success writes exactly the new feature's entry |
| `Seq4Primers.AnnotateOverlap` | seq4primers.py:103-131 | after acceptance, the code, the cursor, the tokens, the upper-casing and the entry make the step's new state |
| `Seq4Primers.EntryText` | seq4primers.py:124-131 | the lines written one after another make up the entry's text |
| `Seq4Primers.AnnotateWindow` | seq4primers.py:79-131 | the overlap loop ends in the fold's state or stops with its failure; the entries written are those of the features accepted so far |
| `Seq4Primers.RowResult` | seq4primers.py:63-143 | definition: one row's record and summary line, or its failure |
| `Seq4Primers.OverlapsFor` | seq4primers.py:80 | definition: the overlap query for a row, on its chromosome with bounds `beg - f` and `end + f` |
| `Seq4Primers.WriteRow` | seq4primers.py:63-143 | one row writes its record: the header, the entries, ORIGIN with the lines and `//`; it also writes the summary line `id \t flanked + tail`, or gives the row's failure |
| `Seq4Primers.RowQueriesOwnWindow` | seq4primers.py:80 | a target location's row asks for the overlaps of its own window, and they include the target |
| `Seq4Primers.RowSummaryLayout` | seq4primers.py:132-133 | when the loop succeeds with spans in order, the summary line is the id, a tab, the window's gaps interleaved with the codes, and a newline |
| `Seq4Primers.RowBracketsOnlyTarget` | seq4primers.py:104-105 | with one location row per SNP id, in a row's record and summary only the target's feature is bracketed, and at most once |
| `Seq4Primers.RowsFrom` | seq4primers.py:62-143 | definition: the rows of one SNP in order, their records and summary lines appended, stopping at the first failure |
| `Seq4Primers.Run` | seq4primers.py:50-53 | definition: the requested SNPs in order, each with its file and summary lines, stopping at the first failure |
| `Seq4Primers.RunFrom` | seq4primers.py:50-53 | definition: the loop over the requested SNPs from a given one on, each SNP's summary lines appended and its file `{id}.gb` (re)written |
| `Seq4Primers.SnpRecords` | seq4primers.py:62-143 | definition: one SNP's records and summary lines, those of its window rows one after another |
| `Seq4Primers.RunAll` | seq4primers.py:50-53 | the loops over the requested SNPs and their rows give the run's output or its first failure |
| `Seq4Primers.RunFiles` | seq4primers.py:52-53 | a successful run writes exactly one file `{id}.gb` per requested SNP, holding the records of that SNP's rows |
| `Seq4Primers.SummaryLines` | seq4primers.py:52-133 | definition: the requested SNPs' summary lines, in request order |
| `Seq4Primers.RowSummaries` | seq4primers.py:63-133 | definition: the summary lines of a SNP's window rows, in table order |
| `Seq4Primers.RunSummary` | seq4primers.py:52-133 | a successful run writes the summary file as the requested SNPs' summary lines in request order, an id requested twice having its lines twice |
| `Seq4Primers.SnpSummaryLines` | seq4primers.py:63-133 | a SNP whose rows get through has one summary line per window row, in table order, each that row's `id \t ... \n` line, so one line per location row of the SNP |

## Left out

- makeDB.py is not part of this model. It loads the CSV files into SQLite.
  The only fact about its output that the model uses is that a frequency
  may be NULL.
- Command-line parsing, the SQLite connection and cursors, and the file
  handles are left out. The database is a parameter. The file texts are
  returned, not written.
- The clock: the date is a parameter. `%b` is taken in the C locale.
- The `print` messages are left out: the truncation warning, "NO FREQ", the
  file-created message and "...done".
- A run that stops returns only its failure. The files the program has
  already written or partly written at that point are not modelled.
- Case mapping covers ASCII letters only, as SQLite's `LOWER` does. Python's
  `lower()` and `upper()` on other characters are not modelled.
- A NULL reference and a NULL `GROUP_CONCAT(freq)` are both modelled as the
  empty text. The program's `not x` treats the two alike.
- Frequencies are opaque text. The program only concatenates their text
  form; floating-point values are not modelled.
- `GROUP_CONCAT` order within a group is taken as table order. SQLite
  leaves that order unspecified.
- Ties in `ORDER BY pos_from` keep table order (a stable insertion sort).
  SQLite leaves their order unspecified.
- The regex engine is not modelled. `re.split(', *')` and
  `re.sub('(.{1,10})', ' \1')` are specific string functions. The latter's
  `.` not matching a newline is covered only for texts without one.
- Lines 89-90 repeat the test of line 87 and can never fire. They are not
  modelled as a separate error.
- A SNP may have several location rows: the schema puts only a non-unique
  index on `snp_id`. `select_seq` handles this, and the model does too
  (`VariantStore.WindowRows`, `Seq4Primers.RowsFrom`). The `GROUP BY snp_id`
  of `select_snp` does not: `VariantStore.Candidates` gives one record per
  location row in the window, each with the SNP's alleles once. If `k`
  location rows of one SNP lie in the window, SQLite gives a single record
  instead. Its `GROUP_CONCAT` texts repeat the alleles and frequencies `k`
  times (obs `C,C` and freq `1,1` for one allele `C` with frequency `1`
  and `k = 2`, hence tokens `C-1/C-1`), and its bare columns (`pos_from`,
  `reference`) come from one of the rows, which SQLite leaves unspecified.
  On such a database `Overlaps`, and so `Run`, differ from the program.
  With at most one location row per SNP id (`UniqueIds`) the two agree.
- VariantStore.OverlapsDistinct: proved only under `UniqueIds`. With several
  location rows of one SNP in the window, `Candidates` returns that id more
  than once, while the program's `GROUP BY` returns it once.
- Seq4Primers.RowBracketsOnlyTarget: proved only under `UniqueIds`, for the
  same reason. The program brackets the target at most once per row
  without it, because `GROUP BY` returns the target's id at most once.
- Seq4Primers.RunAll: requires `f >= 0` and well-formed location rows
  (`pos_from >= 1`, `len >= 0`), because `SUBSTR` is modelled only for a
  start of 1 or more and a length of 0 or more. The program does not check
  the flank size it is given.
- GenBank.LocusColumns: states the column layout only when the chromosome
  name fits in 24 columns and the length has at most 8 digits. The program
  writes longer values without truncating them, which shifts the columns.
- GenBank.OriginReadsBack: states the read-back only for windows without
  spaces or newlines, as hgChrom sequences are.
- FlankAssembly.FoldAssembles: assumes the accepted spans lie inside the
  window in order without overlapping (`WellPlaced`). The program does not
  check this, and for other inputs the slices clamp or overlap as Python's
  slicing makes them.
- With a clipped left flank (`pos_from - f <= 0`), the window's left piece is
  `chrom[1..f]`. It can contain the variant's own bases, which then appear
  twice in the window. The model keeps this
  (`VariantStore.ClippedWindowKeepsFullLeftPiece`) rather than correcting it.
