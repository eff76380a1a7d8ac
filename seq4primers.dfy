/**
 * The body of `main` (seq4primers.py:49-145) with the database, the clock and the
 * output files replaced by values: for every requested SNP, each window row gives a
 * GenBank record for "{id}.gb" and one line of the summary file seq4primers.txt.
 */
module Seq4Primers {
  import opened Results
  import opened Strings
  import opened VariantStore
  import opened Validation
  import opened FlankAssembly
  import opened GenBank

  /** `start_shift = beg - f - 1`, set to 0 when it is negative (seq4primers.py:65-67). */
  function StartShift(beg: int, f: int): int {
    if beg - f - 1 < 0 then 0 else beg - f - 1
  }

  /**
   * The DEFINITION range holds len(seq) positions in both branches and starts just
   * after the shift, so window position j (1-based) is shown as chromosome position
   * shift + j.
   */
  lemma DefinitionMatchesShift(beg: int, f: int, n: nat)
    ensures var (a, b) := DefinitionRange(beg, f, n);
            StartShift(beg, f) >= 0 && a == StartShift(beg, f) + 1 && b == StartShift(beg, f) + n
  {
  }

  /**
   * Without clipping, the window holds the bases of chromosome positions shift + 1
   * onwards, lowered: the shift turns chromosome positions into window positions.
   */
  lemma UnclippedWindowFromShift(cs: string, l: Location, f: int)
    requires WellFormed(l) && f >= 0 && l.posFrom - f - 1 >= 0
    ensures StartShift(l.posFrom, f) + 1 == l.posFrom - f
    ensures WindowSeq(cs, l, f) == Lower(Substr(cs, StartShift(l.posFrom, f) + 1, f + l.len + f))
  {
    UnclippedWindowIsContiguous(cs, l, f);
  }

  // ---------------------------------------------------------------------------
  // The overlap loop (seq4primers.py:81-131).

  /**
   * One pass of the overlap loop: the checks, the code string, the cursor, the
   * allele tokens, the upper-casing and the feature entry. A skipped overlap leaves
   * the state as it is and writes nothing.
   */
  method VisitOverlap(st: FoldState, o: Overlap, target: string, shift: int, strict: bool)
    returns (r: Result<FoldState, Failure>, entry: string)
    ensures r == Step(st, o, target, shift)
    ensures r.Ok? ==> FeaturesText(r.value.features, strict) == FeaturesText(st.features, strict) + entry
  {
    var verdict := CheckOverlap(o, st.window, shift);
    if verdict.Skipped? {
      return Ok(st), "";
    } else if verdict.Rejected? {
      return Err(verdict.failure), "";
    }
    r, entry := AnnotateOverlap(st, o, target, strict, verdict.beg, verdict.end);
  }

  /**
   * The rest of the loop body, once the overlap is accepted at [snpBeg, snpEnd] of
   * the window.
   */
  method AnnotateOverlap(st: FoldState, o: Overlap, target: string, strict: bool, snpBeg: int, snpEnd: int)
    returns (r: Result<FoldState, Failure>, entry: string)
    ensures r == StepOn(st, o, target, Accepted(snpBeg, snpEnd))
    ensures r.Ok? ==> FeaturesText(r.value.features, strict) == FeaturesText(st.features, strict) + entry
  {
    var code := o.obs + "/" + o.freq;
    if target == o.id {
      code := "[" + o.id + ":" + code + "]";
    } else {
      code := "(" + o.id + ":" + code + ")";
    }
    var currentLen := snpBeg - st.pos - 1;
    var flanked := st.flanked + Slice(st.window, st.pos, st.pos + currentLen);
    flanked := flanked + code;
    var tokens := BuildAlleleTokens(SplitCommas(o.obs), SplitCommas(o.freq));
    if tokens.None? {
      return Err(MissingFrequency(o.id)), "";
    }
    var window := Slice(st.window, 0, snpBeg - 1) + Upper(Slice(st.window, snpBeg - 1, snpEnd)) +
                  SliceFrom(st.window, snpEnd);
    var f := Feature(o.id, snpBeg, snpEnd, o.obs, o.freq, tokens.value, target == o.id);
    assert code == Code(f);
    var miha := "";
    if f.isTarget {
      miha := Qualifier("MiHA", f.id);
    }
    entry := KeyLine(f, strict) + miha + Qualifier("label", f.id) + Qualifier("frequency", Join(f.tokens, "/"));
    EntryText(f, strict, entry);
    FeaturesTextAppend(st.features, f, strict);
    assert window == MarkUpper(st.window, snpBeg, snpEnd);
    assert FoldState(snpEnd, flanked, window, st.features + [f]) == Advance(st, f);
    r := Ok(FoldState(snpEnd, flanked, window, st.features + [f]));
  }

  /** The lines written one after another make up the entry's text. */
  lemma EntryText(f: Feature, strict: bool, entry: string)
    requires entry == KeyLine(f, strict) + (if f.isTarget then Qualifier("MiHA", f.id) else "") +
                      Qualifier("label", f.id) + Qualifier("frequency", Join(f.tokens, "/"))
    ensures entry == FeatureText(f, strict)
  {
    var key, miha := KeyLine(f, strict), Qualifier("MiHA", f.id);
    var named, freq := Qualifier("label", f.id), Qualifier("frequency", Join(f.tokens, "/"));
    if f.isTarget {
      assert FeatureLines(f, strict) == [key, miha, named, freq];
      ConcatFour(key, miha, named, freq);
    } else {
      assert FeatureLines(f, strict) == [key, named, freq];
      ConcatThree(key, named, freq);
      assert key + "" == key;
    }
  }

  lemma ConcatThree(a: string, b: string, c: string)
    ensures Concat([a, b, c]) == a + b + c
  {
    assert [a, b, c][1..] == [b, c] && [b, c][1..] == [c] && [c][1..] == [];
    assert Concat([c]) == c;
    assert Concat([b, c]) == b + c;
  }

  lemma ConcatFour(a: string, b: string, c: string, d: string)
    ensures Concat([a, b, c, d]) == a + b + c + d
  {
    assert [a, b, c, d][1..] == [b, c, d];
    ConcatThree(b, c, d);
  }

  /**
   * The overlap loop for one window: it ends in the state the fold computes, or
   * stops with the fold's failure, and the entries it has written are those of the
   * accepted features, in order.
   */
  method AnnotateWindow(window: string, os: seq<Overlap>, target: string, shift: int, strict: bool)
    returns (r: Result<FoldState, Failure>, entries: string)
    ensures r == Fold(Start(window), os, target, shift)
    ensures r.Ok? ==> entries == FeaturesText(r.value.features, strict)
  {
    var st := Start(window);
    entries := "";
    for k := 0 to |os|
      invariant Fold(st, os[k..], target, shift) == Fold(Start(window), os, target, shift)
      invariant entries == FeaturesText(st.features, strict)
    {
      var next, entry := VisitOverlap(st, os[k], target, shift, strict);
      FoldAt(st, os, k, target, shift);
      if next.Err? {
        return next, entries;
      }
      entries := entries + entry;
      st := next.value;
    }
    assert os[|os|..] == [];
    r := Ok(st);
  }

  /** The fold over the overlaps from k on, after one more step. */
  lemma FoldAt(st: FoldState, os: seq<Overlap>, k: nat, target: string, shift: int)
    requires k < |os|
    ensures Fold(st, os[k..], target, shift) ==
            if Step(st, os[k], target, shift).Err? then Err(Step(st, os[k], target, shift).error)
            else Fold(Step(st, os[k], target, shift).value, os[k + 1..], target, shift)
  {
    FoldFirst(st, os[k..], target, shift);
    assert os[k..][0] == os[k] && os[k..][1..] == os[k + 1..];
  }

  // ---------------------------------------------------------------------------
  // One window row (seq4primers.py:63-143).

  /** The GenBank text and the summary line that one window row produces. */
  datatype RowOutput = RowOutput(record: string, summary: string)

  /** The overlap query's bounds around the row: [beg - f, end + f]. */
  function OverlapsFor(db: Db, row: WindowRow, f: int): seq<Overlap> {
    Overlaps(db, row.chrom, RowLo(row, f), RowHi(row, f))
  }

  function RowLo(row: WindowRow, f: int): int {
    row.beg - f
  }

  function RowHi(row: WindowRow, f: int): int {
    row.end + f
  }

  /** What one row gives: the record and the summary line, or the failure that stops the run. */
  function RowResult(db: Db, id: string, row: WindowRow, f: int, strict: bool, d: Date): Result<RowOutput, Failure>
    requires ValidDate(d)
  {
    match row.bases
    case None => Err(NoChromosome(row.chrom))
    case Some(bases) =>
      var w := Lower(bases);
      match Fold(Start(w), OverlapsFor(db, row, f), id, StartShift(row.beg, f))
      case Err(e) => Err(e)
      case Ok(fin) =>
        Ok(RowOutput(Record(Header(id, row.chrom, row.beg, f, |w|, d), fin.features, strict, fin.window),
                     id + "\t" + Flanked(fin) + "\n"))
  }

  /** The body of the row loop, with the writes returned as strings. */
  method WriteRow(db: Db, id: string, row: WindowRow, f: int, strict: bool, d: Date)
    returns (r: Result<RowOutput, Failure>)
    requires ValidDate(d)
    ensures r == RowResult(db, id, row, f, strict, d)
  {
    if row.bases.None? {
      return Err(NoChromosome(row.chrom));
    }
    var shift := StartShift(row.beg, f);
    var header := Header(id, row.chrom, row.beg, f, |row.bases.value|, d);
    var w := Lower(row.bases.value);
    var fold, entries := AnnotateWindow(w, OverlapsFor(db, row, f), id, shift, strict);
    if fold.Err? {
      return Err(fold.error);
    }
    var fin := fold.value;
    var summary := id + "\t" + (fin.flanked + SliceFrom(fin.window, fin.pos)) + "\n";
    var origin := WriteOrigin(fin.window);
    var record := header + entries + ("ORIGIN\n" + origin + "//\n");
    r := Ok(RowOutput(record, summary));
  }

  /**
   * The row of a target location asks for the overlaps of the target's own window,
   * which include the target itself when it has alleles.
   */
  lemma RowQueriesOwnWindow(db: Db, l: Location, f: int)
    requires l in db.locations && WellFormed(l) && f >= 0
    requires l.len >= 1 || f >= 1
    requires AllelesOf(db.alleles, l.snpId) != []
    ensures GroupOf(db.alleles, l) in OverlapsFor(db, WindowRowOf(db.chroms, l, f), f)
  {
    var row := WindowRowOf(db.chroms, l, f);
    TargetInOwnWindow(db, l, f);
    SameQuery(db, row, f, l.chrom, WindowLo(l, f), WindowHi(l, f));
  }

  lemma SameQuery(db: Db, row: WindowRow, f: int, chrom: string, lo: int, hi: int)
    requires row.chrom == chrom && RowLo(row, f) == lo && RowHi(row, f) == hi
    ensures OverlapsFor(db, row, f) == Overlaps(db, chrom, lo, hi)
  {
  }

  /**
   * When the loop over the overlaps gets through and the accepted spans are in order
   * inside the window, the summary line is the target id, a tab, the lowered window's
   * gaps interleaved with the codes, and a newline.
   */
  lemma RowSummaryLayout(db: Db, id: string, row: WindowRow, f: int, strict: bool, d: Date, fin: FoldState)
    requires ValidDate(d) && row.bases.Some?
    requires Fold(Start(Lower(row.bases.value)), OverlapsFor(db, row, f), id, StartShift(row.beg, f)) == Ok(fin)
    requires WellPlaced(fin.features, |row.bases.value|)
    ensures RowResult(db, id, row, f, strict, d).Ok?
    ensures RowResult(db, id, row, f, strict, d).value.summary ==
            id + "\t" + Weave(Lower(row.bases.value), 0, fin.features, Codes(fin.features)) + "\n"
  {
    FoldAssembles(Lower(row.bases.value), OverlapsFor(db, row, f), id, StartShift(row.beg, f), fin);
  }

  /**
   * With one location row per SNP id, the overlaps of a row have distinct ids, so
   * only the target's own feature is bracketed, and at most once.
   */
  lemma RowBracketsOnlyTarget(db: Db, id: string, row: WindowRow, f: int, fin: FoldState)
    requires UniqueIds(db.locations) && row.bases.Some?
    requires Fold(Start(Lower(row.bases.value)), OverlapsFor(db, row, f), id, StartShift(row.beg, f)) == Ok(fin)
    ensures forall k :: 0 <= k < |fin.features| ==> (fin.features[k].isTarget <==> fin.features[k].id == id)
    ensures forall j, k ::
              (0 <= j < |fin.features| && 0 <= k < |fin.features| &&
               fin.features[j].isTarget && fin.features[k].isTarget) ==> j == k
  {
    OverlapsDistinct(db, row.chrom, RowLo(row, f), RowHi(row, f));
    OnlyTargetBracketed(Lower(row.bases.value), OverlapsFor(db, row, f), id, StartShift(row.beg, f), fin);
  }

  // ---------------------------------------------------------------------------
  // The run over the requested SNPs (seq4primers.py:50-53, 62-63, 133).

  /** The summary file's text and the GenBank files, keyed by file name. */
  datatype Output = Output(summary: string, files: map<string, string>)

  /** The rows of one SNP from row k on, appended to the file text and the summary. */
  function RowsFrom(db: Db, id: string, rows: seq<WindowRow>, f: int, strict: bool, d: Date,
                    record: string, summary: string): Result<RowOutput, Failure>
    requires ValidDate(d)
    decreases |rows|
  {
    if rows == [] then Ok(RowOutput(record, summary))
    else
      match RowResult(db, id, rows[0], f, strict, d)
      case Err(e) => Err(e)
      case Ok(row) => RowsFrom(db, id, rows[1..], f, strict, d, record + row.record, summary + row.summary)
  }

  /** The requested SNPs from the first one on; "{id}.gb" is (re)written for each. */
  function RunFrom(db: Db, ids: seq<string>, f: int, strict: bool, d: Date, acc: Output): Result<Output, Failure>
    requires ValidDb(db) && f >= 0 && ValidDate(d)
    decreases |ids|
  {
    if ids == [] then Ok(acc)
    else
      var id := ids[0];
      match RowsFrom(db, id, WindowRows(db.chroms, db.locations, id, f), f, strict, d, "", "")
      case Err(e) => Err(e)
      case Ok(rs) => RunFrom(db, ids[1..], f, strict, d, Output(acc.summary + rs.summary, acc.files[id + ".gb" := rs.record]))
  }

  function Run(db: Db, ids: seq<string>, f: int, strict: bool, d: Date): Result<Output, Failure>
    requires ValidDb(db) && f >= 0 && ValidDate(d)
  {
    RunFrom(db, ids, f, strict, d, Output("", map[]))
  }

  /** The loops over the requested SNPs and their window rows. */
  method RunAll(db: Db, ids: seq<string>, f: int, strict: bool, d: Date) returns (r: Result<Output, Failure>)
    requires ValidDb(db) && f >= 0 && ValidDate(d)
    ensures r == Run(db, ids, f, strict, d)
  {
    var acc := Output("", map[]);
    for k := 0 to |ids|
      invariant RunFrom(db, ids[k..], f, strict, d, acc) == Run(db, ids, f, strict, d)
    {
      var id := ids[k];
      var rows := WindowRows(db.chroms, db.locations, id, f);
      var record, summary := "", "";
      for j := 0 to |rows|
        invariant RowsFrom(db, id, rows[j..], f, strict, d, record, summary) ==
                  RowsFrom(db, id, rows, f, strict, d, "", "")
      {
        var row := WriteRow(db, id, rows[j], f, strict, d);
        RowsAt(db, id, rows, j, f, strict, d, record, summary);
        if row.Err? {
          return Err(row.error);
        }
        record, summary := record + row.value.record, summary + row.value.summary;
      }
      assert rows[|rows|..] == [];
      RunAt(db, ids, k, f, strict, d, acc);
      assert RowsFrom(db, id, rows, f, strict, d, "", "") == Ok(RowOutput(record, summary));
      acc := Output(acc.summary + summary, acc.files[id + ".gb" := record]);
    }
    assert ids[|ids|..] == [];
    r := Ok(acc);
  }

  /** The names of the files a run over ids writes. */
  function FileNames(ids: seq<string>): set<string> {
    set id | id in ids :: id + ".gb"
  }

  /** The records of one SNP: those of its window rows, one after another. */
  function SnpRecords(db: Db, id: string, f: int, strict: bool, d: Date): Result<RowOutput, Failure>
    requires ValidDb(db) && f >= 0 && ValidDate(d)
  {
    RowsFrom(db, id, WindowRows(db.chroms, db.locations, id, f), f, strict, d, "", "")
  }

  /** The summary lines of the requested SNPs, one SNP's lines after another's, in request order. */
  function SummaryLines(db: Db, ids: seq<string>, f: int, strict: bool, d: Date): string
    requires ValidDb(db) && f >= 0 && ValidDate(d)
    requires forall id :: id in ids ==> SnpRecords(db, id, f, strict, d).Ok?
    decreases |ids|
  {
    if ids == [] then ""
    else SnpRecords(db, ids[0], f, strict, d).value.summary + SummaryLines(db, ids[1..], f, strict, d)
  }

  /** The summary lines of a SNP's window rows, one row's line after another's, in table order. */
  function RowSummaries(db: Db, id: string, rows: seq<WindowRow>, f: int, strict: bool, d: Date): string
    requires ValidDate(d)
    requires forall k :: 0 <= k < |rows| ==> RowResult(db, id, rows[k], f, strict, d).Ok?
    decreases |rows|
  {
    if rows == [] then ""
    else RowResult(db, id, rows[0], f, strict, d).value.summary + RowSummaries(db, id, rows[1..], f, strict, d)
  }

  /**
   * A run that gets through writes the summary file as the requested SNPs' summary
   * lines in request order (an id requested twice has its lines written twice).
   */
  lemma RunSummary(db: Db, ids: seq<string>, f: int, strict: bool, d: Date, out: Output)
    requires ValidDb(db) && f >= 0 && ValidDate(d)
    requires Run(db, ids, f, strict, d) == Ok(out)
    ensures forall id :: id in ids ==> SnpRecords(db, id, f, strict, d).Ok?
    ensures out.summary == SummaryLines(db, ids, f, strict, d)
  {
    RunFiles(db, ids, f, strict, d, out);
    RunFromSummary(db, ids, f, strict, d, Output("", map[]), out);
  }

  lemma {:induction false} RunFromSummary(db: Db, ids: seq<string>, f: int, strict: bool, d: Date, acc: Output, out: Output)
    requires ValidDb(db) && f >= 0 && ValidDate(d)
    requires forall id :: id in ids ==> SnpRecords(db, id, f, strict, d).Ok?
    requires RunFrom(db, ids, f, strict, d, acc) == Ok(out)
    ensures out.summary == acc.summary + SummaryLines(db, ids, f, strict, d)
    decreases |ids|
  {
    if ids == [] {
      assert out == acc;
    } else {
      var id, rest := ids[0], ids[1..];
      RunFromFirst(db, ids, f, strict, d, acc, out);
      var rs := SnpRecords(db, id, f, strict, d).value;
      assert forall x :: x in rest ==> x in ids;
      RunFromSummary(db, rest, f, strict, d, Output(acc.summary + rs.summary, acc.files[id + ".gb" := rs.record]), out);
      var later := SummaryLines(db, rest, f, strict, d);
      assert SummaryLines(db, ids, f, strict, d) == rs.summary + later;
      AppendAssoc(acc.summary, rs.summary, later);
    }
  }

  /**
   * A SNP whose rows all get through has as its summary one line per window row, in
   * table order, each the row's own `id \t ... \n` line.
   */
  lemma SnpSummaryLines(db: Db, id: string, f: int, strict: bool, d: Date, rs: RowOutput)
    requires ValidDb(db) && f >= 0 && ValidDate(d)
    requires SnpRecords(db, id, f, strict, d) == Ok(rs)
    ensures var rows := WindowRows(db.chroms, db.locations, id, f);
            (forall k :: 0 <= k < |rows| ==> RowResult(db, id, rows[k], f, strict, d).Ok?) &&
            rs.summary == RowSummaries(db, id, rows, f, strict, d)
  {
    var rows := WindowRows(db.chroms, db.locations, id, f);
    RowsSummary(db, id, rows, f, strict, d, "", "", rs);
    assert "" + RowSummaries(db, id, rows, f, strict, d) == RowSummaries(db, id, rows, f, strict, d);
  }

  lemma {:induction false} RowsSummary(db: Db, id: string, rows: seq<WindowRow>, f: int, strict: bool, d: Date,
                                       record: string, summary: string, rs: RowOutput)
    requires ValidDate(d)
    requires RowsFrom(db, id, rows, f, strict, d, record, summary) == Ok(rs)
    ensures forall k :: 0 <= k < |rows| ==> RowResult(db, id, rows[k], f, strict, d).Ok?
    ensures rs.summary == summary + RowSummaries(db, id, rows, f, strict, d)
    decreases |rows|
  {
    if rows == [] {
      assert rs.summary == summary;
    } else {
      RowsFromFirst(db, id, rows, f, strict, d, record, summary, rs);
      var row := RowResult(db, id, rows[0], f, strict, d).value;
      RowsSummary(db, id, rows[1..], f, strict, d, record + row.record, summary + row.summary, rs);
      forall k | 1 <= k < |rows| ensures RowResult(db, id, rows[k], f, strict, d).Ok? {
        assert rows[k] == rows[1..][k - 1];
      }
      var later := RowSummaries(db, id, rows[1..], f, strict, d);
      assert RowSummaries(db, id, rows, f, strict, d) == row.summary + later;
      AppendAssoc(summary, row.summary, later);
    }
  }

  lemma AppendAssoc(a: string, b: string, c: string)
    ensures (a + b) + c == a + (b + c)
  {
  }

  /** The first row gets through, and the rest go on from its record and summary line. */
  lemma RowsFromFirst(db: Db, id: string, rows: seq<WindowRow>, f: int, strict: bool, d: Date,
                      record: string, summary: string, rs: RowOutput)
    requires ValidDate(d) && rows != []
    requires RowsFrom(db, id, rows, f, strict, d, record, summary) == Ok(rs)
    ensures var row := RowResult(db, id, rows[0], f, strict, d);
            row.Ok? &&
            RowsFrom(db, id, rows[1..], f, strict, d, record + row.value.record, summary + row.value.summary) == Ok(rs)
  {
  }

  /**
   * A run that gets through writes exactly one file per requested SNP, "{id}.gb",
   * holding the records of that SNP's window rows (an id requested twice gets the
   * same text both times).
   */
  lemma RunFiles(db: Db, ids: seq<string>, f: int, strict: bool, d: Date, out: Output)
    requires ValidDb(db) && f >= 0 && ValidDate(d)
    requires Run(db, ids, f, strict, d) == Ok(out)
    ensures out.files.Keys == FileNames(ids)
    ensures forall id :: id in ids ==>
              SnpRecords(db, id, f, strict, d).Ok? && out.files[id + ".gb"] == SnpRecords(db, id, f, strict, d).value.record
  {
    RunFromFiles(db, ids, f, strict, d, Output("", map[]), out);
  }

  lemma {:induction false} RunFromFiles(db: Db, ids: seq<string>, f: int, strict: bool, d: Date, acc: Output, out: Output)
    requires ValidDb(db) && f >= 0 && ValidDate(d)
    requires RunFrom(db, ids, f, strict, d, acc) == Ok(out)
    ensures out.files.Keys == acc.files.Keys + FileNames(ids)
    ensures forall id :: id in ids ==>
              SnpRecords(db, id, f, strict, d).Ok? && out.files[id + ".gb"] == SnpRecords(db, id, f, strict, d).value.record
    ensures forall key :: key in acc.files && key !in FileNames(ids) ==> out.files[key] == acc.files[key]
    decreases |ids|
  {
    if ids != [] {
      var id, rest := ids[0], ids[1..];
      RunFromFirst(db, ids, f, strict, d, acc, out);
      var rs := SnpRecords(db, id, f, strict, d).value;
      RunFromFiles(db, rest, f, strict, d, Output(acc.summary + rs.summary, acc.files[id + ".gb" := rs.record]), out);
      FileNamesCons(ids);
    }
  }

  /** The first requested SNP's records are written, and the run goes on with the rest. */
  lemma RunFromFirst(db: Db, ids: seq<string>, f: int, strict: bool, d: Date, acc: Output, out: Output)
    requires ValidDb(db) && f >= 0 && ValidDate(d) && ids != []
    requires RunFrom(db, ids, f, strict, d, acc) == Ok(out)
    ensures var rs := SnpRecords(db, ids[0], f, strict, d);
            rs.Ok? &&
            RunFrom(db, ids[1..], f, strict, d,
                    Output(acc.summary + rs.value.summary, acc.files[ids[0] + ".gb" := rs.value.record])) == Ok(out)
  {
  }

  lemma FileNamesCons(ids: seq<string>)
    requires ids != []
    ensures FileNames(ids) == {ids[0] + ".gb"} + FileNames(ids[1..])
    ensures ids[0] !in ids[1..] ==> ids[0] + ".gb" !in FileNames(ids[1..])
  {
    var id, rest := ids[0], ids[1..];
    assert forall x :: x in ids <==> x == id || x in rest;
    if id !in rest {
      forall y | y in rest ensures y + ".gb" != id + ".gb" {
        if y + ".gb" == id + ".gb" { SameStem(y, id, ".gb"); }
      }
    }
  }

  /** Appending the same suffix to two different names gives two different names. */
  lemma SameStem(x: string, y: string, s: string)
    requires x + s == y + s
    ensures x == y
  {
    assert |x| == |y|;
    assert x == (x + s)[..|x|] && y == (y + s)[..|y|];
  }

  lemma RowsAt(db: Db, id: string, rows: seq<WindowRow>, j: nat, f: int, strict: bool, d: Date,
               record: string, summary: string)
    requires ValidDate(d) && j < |rows|
    ensures var row := RowResult(db, id, rows[j], f, strict, d);
            RowsFrom(db, id, rows[j..], f, strict, d, record, summary) ==
            if row.Err? then Err(row.error)
            else RowsFrom(db, id, rows[j + 1..], f, strict, d, record + row.value.record, summary + row.value.summary)
  {
    assert rows[j..][0] == rows[j] && rows[j..][1..] == rows[j + 1..];
  }

  lemma RunAt(db: Db, ids: seq<string>, k: nat, f: int, strict: bool, d: Date, acc: Output)
    requires ValidDb(db) && f >= 0 && ValidDate(d) && k < |ids|
    ensures var rs := RowsFrom(db, ids[k], WindowRows(db.chroms, db.locations, ids[k], f), f, strict, d, "", "");
            RunFrom(db, ids[k..], f, strict, d, acc) ==
            if rs.Err? then Err(rs.error)
            else RunFrom(db, ids[k + 1..], f, strict, d,
                         Output(acc.summary + rs.value.summary, acc.files[ids[k] + ".gb" := rs.value.record]))
  {
    assert ids[k..][0] == ids[k] && ids[k..][1..] == ids[k + 1..];
  }
}
