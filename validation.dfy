/**
 * The checks every overlapping SNP goes through before it is annotated
 * (seq4primers.py:82-101) and `check_allele` (seq4primers.py:148-153). The calls to
 * `exit(...)` become a Failure value.
 */
module Validation {
  import opened Strings
  import opened VariantStore

  /** Why a run stops. */
  datatype Failure =
    | NoChromosome(chrom: string)                             // the window query gave NULL: len(None)
    | NoSnpRecord(id: string)                                 // "ERROR - no SNP record"
    | WrongSnpPosition(id: string, ref: string, found: string) // "ERROR - WRONG SNP POSITION"
    | NoReferenceAllele(id: string, obs: string)              // "ERROR - no reference allele"
    | MissingFrequency(id: string)                            // IndexError on freq_set[i]

  /** `check_allele(ref, obs)`: some allele of obs, split on ', *', equals ref ignoring case. */
  predicate HasReferenceAllele(ref: string, obs: string) {
    exists t :: t in SplitCommas(obs) && SameIgnoringCase(t, ref)
  }

  /** `check_allele`, as the loop with an early return that the program runs. */
  method CheckAllele(reference: string, observed: string) returns (found: bool)
    ensures found <==> HasReferenceAllele(reference, observed)
  {
    var alleles := SplitCommas(observed);
    for k := 0 to |alleles|
      invariant forall j :: 0 <= j < k ==> !SameIgnoringCase(alleles[j], reference)
    {
      if Upper(alleles[k]) == Upper(reference) {
        assert alleles[k] in alleles;
        return true;
      }
    }
    return false;
  }

  /**
   * On a GROUP_CONCAT of allele texts that hold no comma (and, after the first, do
   * not start with a space), `check_allele` asks exactly whether one of the alleles
   * is the reference, ignoring case.
   */
  lemma CheckAlleleOfGroup(ref: string, alleles: seq<string>)
    requires Splittable(alleles)
    ensures HasReferenceAllele(ref, Join(alleles, ",")) <==>
            exists a :: a in alleles && SameIgnoringCase(a, ref)
  {
    SplitJoin(alleles);
  }

  /** The outcome of the checks on one overlap. Accepted carries the window-local span. */
  datatype Verdict = Skipped | Accepted(beg: int, end: int) | Rejected(failure: Failure)

  /** Begin and end once the '-' convention is applied: a '-' reference stores its span reversed. */
  function Oriented(o: Overlap): (int, int) {
    if o.ref == "-" then (o.end, o.beg) else (o.beg, o.end)
  }

  /** The text the reference is compared with: the literal "-" when the span is empty
      (end == begin - 1), otherwise the slice `seq[b-1:e]`. */
  function ComparisonString(window: string, b: int, e: int): string {
    if e - b + 1 == 0 then "-" else Slice(window, b - 1, e)
  }

  /** The checks in the order the program makes them, with begin and end mapped into
      the window by subtracting shift. */
  function Validate(o: Overlap, window: string, shift: int): Verdict {
    var (b, e) := Oriented(o);
    if o.freq == "" then Skipped
    else if o.ref == "" then Rejected(NoSnpRecord(o.id))
    else
      var ref := Lower(o.ref);
      var lb, le := b - shift, e - shift;
      var found := ComparisonString(window, lb, le);
      if !SameIgnoringCase(found, ref) then Rejected(WrongSnpPosition(o.id, ref, found))
      else if !HasReferenceAllele(ref, o.obs) then Rejected(NoReferenceAllele(o.id, o.obs))
      else Accepted(lb, le)
  }

  /** The checks as the loop body makes them (seq4primers.py:82-101), one after another. */
  method CheckOverlap(o: Overlap, window: string, shift: int) returns (v: Verdict)
    ensures v == Validate(o, window, shift)
  {
    var snpBeg, snpEnd := o.beg, o.end;
    if o.ref == "-" {
      snpBeg, snpEnd := snpEnd, snpBeg;
    }
    if o.freq == "" {
      return Skipped;
    }
    if o.ref == "" {
      return Rejected(NoSnpRecord(o.id));
    }
    var ref := Lower(o.ref);
    snpBeg, snpEnd := snpBeg - shift, snpEnd - shift;
    var snpSeq := "-";
    if snpEnd - snpBeg + 1 != 0 {
      snpSeq := Slice(window, snpBeg - 1, snpEnd);
    }
    ValidateChecked(o, window, shift, snpBeg, snpEnd, snpSeq);
    if Upper(snpSeq) != Upper(ref) {
      return Rejected(WrongSnpPosition(o.id, ref, snpSeq));
    }
    var found := CheckAllele(ref, o.obs);
    if !found {
      return Rejected(NoReferenceAllele(o.id, o.obs));
    }
    return Accepted(snpBeg, snpEnd);
  }

  /** The outcome once an overlap with a frequency and a reference has its span mapped into the window. */
  lemma ValidateChecked(o: Overlap, window: string, shift: int, b: int, e: int, found: string)
    requires o.freq != "" && o.ref != ""
    requires b == Oriented(o).0 - shift && e == Oriented(o).1 - shift
    requires found == ComparisonString(window, b, e)
    ensures Validate(o, window, shift) ==
            if !SameIgnoringCase(found, Lower(o.ref)) then Rejected(WrongSnpPosition(o.id, Lower(o.ref), found))
            else if !HasReferenceAllele(Lower(o.ref), o.obs) then Rejected(NoReferenceAllele(o.id, o.obs))
            else Accepted(b, e)
  {
  }

  /**
   * The first three outcomes, in terms of the overlap as stored: no frequency skips
   * it; then a missing reference stops the run; then a window text that differs from
   * the reference ignoring case.
   */
  lemma ValidationOutcome(o: Overlap, window: string, shift: int)
    ensures Validate(o, window, shift) == Skipped <==> o.freq == ""
    ensures Validate(o, window, shift) == Rejected(NoSnpRecord(o.id)) <==> o.freq != "" && o.ref == ""
    ensures Validate(o, window, shift).Rejected? && Validate(o, window, shift).failure.WrongSnpPosition? <==>
            o.freq != "" && o.ref != "" &&
            !SameIgnoringCase(ComparisonString(window, Oriented(o).0 - shift, Oriented(o).1 - shift), o.ref)
  {
    var found := ComparisonString(window, Oriented(o).0 - shift, Oriented(o).1 - shift);
    ValidateUnlowered(o, window, shift, found);
  }

  /**
   * The last two outcomes: past the position check, the allele check decides between
   * the stop and acceptance, and an accepted span is the oriented span shifted into
   * the window.
   */
  lemma AlleleOutcome(o: Overlap, window: string, shift: int)
    ensures Validate(o, window, shift) == Rejected(NoReferenceAllele(o.id, o.obs)) <==>
            o.freq != "" && o.ref != "" &&
            SameIgnoringCase(ComparisonString(window, Oriented(o).0 - shift, Oriented(o).1 - shift), o.ref) &&
            !HasReferenceAllele(o.ref, o.obs)
    ensures Validate(o, window, shift).Accepted? <==>
            o.freq != "" && o.ref != "" &&
            SameIgnoringCase(ComparisonString(window, Oriented(o).0 - shift, Oriented(o).1 - shift), o.ref) &&
            HasReferenceAllele(o.ref, o.obs)
    ensures Validate(o, window, shift).Accepted? ==>
            Validate(o, window, shift) == Accepted(Oriented(o).0 - shift, Oriented(o).1 - shift)
  {
    var found := ComparisonString(window, Oriented(o).0 - shift, Oriented(o).1 - shift);
    ValidateUnlowered(o, window, shift, found);
  }

  /** The checks restated on the reference as stored, before it is lowered. */
  lemma ValidateUnlowered(o: Overlap, window: string, shift: int, found: string)
    requires found == ComparisonString(window, Oriented(o).0 - shift, Oriented(o).1 - shift)
    ensures Validate(o, window, shift) ==
            if o.freq == "" then Skipped
            else if o.ref == "" then Rejected(NoSnpRecord(o.id))
            else if !SameIgnoringCase(found, o.ref) then Rejected(WrongSnpPosition(o.id, Lower(o.ref), found))
            else if !HasReferenceAllele(o.ref, o.obs) then Rejected(NoReferenceAllele(o.id, o.obs))
            else Accepted(Oriented(o).0 - shift, Oriented(o).1 - shift)
  {
    var lowered := Lower(o.ref);
    LoweredMatch(found, o.ref);
    LoweredAllele(o.ref, o.obs);
    var v := Validate(o, window, shift);
    if o.freq != "" && o.ref != "" {
      assert v == if !SameIgnoringCase(found, lowered) then Rejected(WrongSnpPosition(o.id, lowered, found))
                  else if !HasReferenceAllele(lowered, o.obs) then Rejected(NoReferenceAllele(o.id, o.obs))
                  else Accepted(Oriented(o).0 - shift, Oriented(o).1 - shift);
    }
  }

  /** Lowering the reference first (as the program does) changes neither comparison. */
  lemma LoweredMatch(t: string, ref: string)
    ensures SameIgnoringCase(t, Lower(ref)) <==> SameIgnoringCase(t, ref)
  {
    UpperOfLower(ref);
  }

  lemma LoweredAllele(ref: string, obs: string)
    ensures HasReferenceAllele(Lower(ref), obs) <==> HasReferenceAllele(ref, obs)
  {
    UpperOfLower(ref);
  }

  /**
   * An accepted span whose end is not negative is well ordered: it is an insertion
   * point (end == begin - 1) or covers at least one base, and then the window holds
   * the reference there, ignoring case.
   */
  lemma AcceptedSpan(o: Overlap, window: string, shift: int)
    requires Validate(o, window, shift).Accepted?
    requires Validate(o, window, shift).end >= 0
    ensures var v := Validate(o, window, shift);
            v.beg - 1 <= v.end
    ensures var v := Validate(o, window, shift);
            1 <= v.beg <= v.end <= |window| ==> SameIgnoringCase(window[v.beg - 1 .. v.end], o.ref)
  {
    var v := Validate(o, window, shift);
    AcceptedMatches(o, window, shift);
    LoweredMatch(ComparisonString(window, v.beg, v.end), o.ref);
  }

  /** An accepted overlap's comparison text matches its lowered reference. */
  lemma AcceptedMatches(o: Overlap, window: string, shift: int)
    requires Validate(o, window, shift).Accepted?
    ensures o.ref != ""
    ensures var v := Validate(o, window, shift);
            SameIgnoringCase(ComparisonString(window, v.beg, v.end), Lower(o.ref))
  {
    var found := ComparisonString(window, Oriented(o).0 - shift, Oriented(o).1 - shift);
    ValidateUnlowered(o, window, shift, found);
    LoweredMatch(found, o.ref);
    var v := Validate(o, window, shift);
    assert v == Accepted(Oriented(o).0 - shift, Oriented(o).1 - shift);
    assert ComparisonString(window, v.beg, v.end) == found;
  }

  /**
   * The insertion convention that passes the position check: a '-' reference stored
   * with a two-base span (len 2). After the swap the span is empty, the comparison
   * text is "-", and only the allele check remains.
   */
  lemma DashOverTwoBasesIsInsertionPoint(o: Overlap, window: string, shift: int)
    requires o.ref == "-" && o.end == o.beg + 1 && o.freq != ""
    ensures Validate(o, window, shift) ==
            if HasReferenceAllele("-", o.obs) then Accepted(o.beg + 1 - shift, o.beg - shift)
            else Rejected(NoReferenceAllele(o.id, o.obs))
  {
  }

  /**
   * A '-' reference stored with len 0 (end == begin - 1) is swapped into a two-base
   * span, so the comparison text is two bases, never "-": the run stops with a
   * position error whenever those bases lie in the window.
   */
  lemma DashOverZeroBasesIsRejected(o: Overlap, window: string, shift: int)
    requires o.ref == "-" && o.end == o.beg - 1 && o.freq != ""
    requires 0 <= o.end - shift - 1 && o.beg - shift <= |window|
    ensures Validate(o, window, shift).Rejected?
    ensures Validate(o, window, shift).failure.WrongSnpPosition?
  {
    var found := ComparisonString(window, o.end - shift, o.beg - shift);
    assert |found| == 2;
    assert |Upper(found)| != |Upper(Lower(o.ref))|;
  }
}
