/**
 * The flank assembly of seq4primers.py:76-132: a fold over the ordered overlaps that
 * carries the write cursor `current_pos`, the annotated text `flanked_seq` and the
 * working window `seq`, which is rebuilt with each accepted variant's span in upper
 * case. Each accepted overlap also yields a feature entry for the record.
 */
module FlankAssembly {
  import opened Results
  import opened Strings
  import opened VariantStore
  import opened Validation

  /** An accepted overlap: id, window-local span (begin, end), the GROUP_CONCAT texts,
      the allele display tokens, and whether it is the target SNP itself. */
  datatype Feature = Feature(id: string, beg: int, end: int, obs: string, freq: string,
                             tokens: seq<string>, isTarget: bool)

  // ---------------------------------------------------------------------------
  // The code string (seq4primers.py:103-107).

  function Code(f: Feature): string {
    var code := f.obs + "/" + f.freq;
    if f.isTarget then "[" + f.id + ":" + code + "]" else "(" + f.id + ":" + code + ")"
  }

  /**
   * A code is the SNP id between an opening bracket and a colon, then `obs/freq`, then
   * the closing bracket; the brackets are square exactly for the target SNP and round
   * for every neighbour.
   */
  lemma CodeShape(f: Feature)
    ensures |Code(f)| == |f.id| + |f.obs| + |f.freq| + 4
    ensures Code(f)[0] == '[' <==> f.isTarget
    ensures Code(f)[0] == '(' <==> !f.isTarget
    ensures Code(f)[|Code(f)| - 1] == (if f.isTarget then ']' else ')')
    ensures Code(f)[1 .. 1 + |f.id|] == f.id && Code(f)[1 + |f.id|] == ':'
    ensures Code(f)[2 + |f.id| .. |Code(f)| - 1] == f.obs + "/" + f.freq
  {
    var c := Code(f);
    var open := if f.isTarget then "[" else "(";
    var close := if f.isTarget then "]" else ")";
    assert c == open + f.id + ":" + (f.obs + "/" + f.freq) + close;
  }

  // ---------------------------------------------------------------------------
  // Allele display tokens (seq4primers.py:114-121).

  /**
   * One token per observed allele: "del" for '-', otherwise `allele-freq` with the
   * frequency at the same index. None when some allele other than '-' has no
   * frequency at its index (the IndexError on freq_set[i]).
   */
  function AlleleTokens(obsSet: seq<string>, freqSet: seq<string>): Option<seq<string>>
    decreases |obsSet|
  {
    if obsSet == [] then Some([])
    else
      var n := |obsSet| - 1;
      match AlleleTokens(obsSet[..n], freqSet)
      case None => None
      case Some(t) =>
        if obsSet[n] == "-" then Some(t + ["del"])
        else if n < |freqSet| then Some(t + [obsSet[n] + "-" + freqSet[n]])
        else None
  }

  /** Every allele other than '-' needs a frequency at its own index. */
  predicate FreqsCover(obsSet: seq<string>, freqSet: seq<string>) {
    forall i :: 0 <= i < |obsSet| && obsSet[i] != "-" ==> i < |freqSet|
  }

  /** The token of allele i: "del" for '-', otherwise the allele, '-' and its frequency. */
  function TokenAt(obsSet: seq<string>, freqSet: seq<string>, i: int): string
    requires 0 <= i < |obsSet| && (obsSet[i] != "-" ==> i < |freqSet|)
  {
    if obsSet[i] == "-" then "del" else obsSet[i] + "-" + freqSet[i]
  }

  /**
   * The tokens exist exactly when every allele other than '-' has a frequency at its
   * index; then there is one per allele, in order.
   */
  lemma {:induction false} AlleleTokensSpec(obsSet: seq<string>, freqSet: seq<string>)
    ensures AlleleTokens(obsSet, freqSet).Some? <==> FreqsCover(obsSet, freqSet)
    ensures AlleleTokens(obsSet, freqSet).Some? ==>
              var t := AlleleTokens(obsSet, freqSet).value;
              |t| == |obsSet| && forall i :: 0 <= i < |obsSet| ==> t[i] == TokenAt(obsSet, freqSet, i)
    decreases |obsSet|
  {
    if obsSet != [] {
      var n := |obsSet| - 1;
      var pre := obsSet[..n];
      AlleleTokensSpec(pre, freqSet);
      assert forall i :: 0 <= i < n ==> pre[i] == obsSet[i];
      var r := AlleleTokens(pre, freqSet);
      if r.None? {
        var i :| 0 <= i < n && pre[i] != "-" && !(i < |freqSet|);
        assert obsSet[i] != "-";
      } else if obsSet[n] != "-" && n >= |freqSet| {
        assert !FreqsCover(obsSet, freqSet);
      } else {
        var t := r.value;
        var x := TokenAt(obsSet, freqSet, n);
        assert AlleleTokens(obsSet, freqSet) == Some(t + [x]);
        forall i | 0 <= i < n ensures (t + [x])[i] == TokenAt(obsSet, freqSet, i) {
          assert TokenAt(pre, freqSet, i) == TokenAt(obsSet, freqSet, i);
        }
      }
    }
  }

  /** The loop that appends the tokens one by one. */
  method BuildAlleleTokens(obsSet: seq<string>, freqSet: seq<string>) returns (r: Option<seq<string>>)
    ensures r == AlleleTokens(obsSet, freqSet)
  {
    var alleles: seq<string> := [];
    for i := 0 to |obsSet|
      invariant AlleleTokens(obsSet[..i], freqSet) == Some(alleles)
    {
      TokensStep(obsSet, freqSet, i, alleles);
      if obsSet[i] == "-" {
        alleles := alleles + ["del"];
      } else {
        if i >= |freqSet| {
          TokensFail(obsSet, freqSet, i);
          return None;
        }
        alleles := alleles + [obsSet[i] + "-" + freqSet[i]];
      }
    }
    assert obsSet[..|obsSet|] == obsSet;
    return Some(alleles);
  }

  /** The tokens of one allele more. */
  lemma TokensStep(obsSet: seq<string>, freqSet: seq<string>, i: nat, t: seq<string>)
    requires i < |obsSet| && AlleleTokens(obsSet[..i], freqSet) == Some(t)
    ensures AlleleTokens(obsSet[..i + 1], freqSet) ==
            if obsSet[i] == "-" then Some(t + ["del"])
            else if i < |freqSet| then Some(t + [obsSet[i] + "-" + freqSet[i]])
            else None
  {
    var p := obsSet[..i + 1];
    var n := |p| - 1;
    assert n == i;
    assert p[..n] == obsSet[..i];
    assert p[n] == obsSet[i];
  }

  /** An allele other than '-' without a frequency at its index makes the tokens fail. */
  lemma TokensFail(obsSet: seq<string>, freqSet: seq<string>, i: nat)
    requires i < |obsSet| && obsSet[i] != "-" && i >= |freqSet|
    ensures AlleleTokens(obsSet, freqSet) == None
  {
    AlleleTokensSpec(obsSet, freqSet);
  }

  /**
   * For a SNP none of whose allele rows has a NULL frequency (and whose allele and
   * frequency texts hold no comma and start with no space), the tokens never fail and
   * pair every allele with its own frequency.
   */
  lemma TokensOfGroup(alleles: seq<string>, freqs: seq<string>)
    requires Splittable(alleles) && Splittable(freqs) && |freqs| == |alleles|
    ensures AlleleTokens(SplitCommas(Join(alleles, ",")), SplitCommas(Join(freqs, ","))) ==
            Some(seq(|alleles|, i requires 0 <= i < |alleles| =>
                   if alleles[i] == "-" then "del" else alleles[i] + "-" + freqs[i]))
  {
    SplitJoin(alleles);
    SplitJoin(freqs);
    AlleleTokensSpec(alleles, freqs);
    var r := AlleleTokens(alleles, freqs);
    assert r.Some?;
    var want := seq(|alleles|, i requires 0 <= i < |alleles| =>
                  if alleles[i] == "-" then "del" else alleles[i] + "-" + freqs[i]);
    assert r.value == want;
  }

  // ---------------------------------------------------------------------------
  // Upper-casing the variant's span (seq4primers.py:122).

  /** `seq[0:b-1] + seq[b-1:e].upper() + seq[e:]` */
  function MarkUpper(s: string, b: int, e: int): string {
    Slice(s, 0, b - 1) + Upper(Slice(s, b - 1, e)) + SliceFrom(s, e)
  }

  /**
   * For a span inside the window, the step keeps the length, upper-cases exactly the
   * indices b-1 .. e-1 and no other, leaves the lower-cased text unchanged, and is
   * idempotent.
   */
  lemma MarkUpperSpan(s: string, b: int, e: int)
    requires 1 <= b && b - 1 <= e <= |s|
    ensures |MarkUpper(s, b, e)| == |s|
    ensures forall i :: 0 <= i < |s| ==>
              MarkUpper(s, b, e)[i] == if b - 1 <= i < e then UpperChar(s[i]) else s[i]
    ensures Lower(MarkUpper(s, b, e)) == Lower(s)
    ensures MarkUpper(MarkUpper(s, b, e), b, e) == MarkUpper(s, b, e)
  {
    MarkUpperPointwise(s, b, e);
    MarkUpperLower(s, b, e);
    MarkUpperTwice(s, b, e);
  }

  lemma MarkUpperLower(s: string, b: int, e: int)
    requires 1 <= b && b - 1 <= e <= |s|
    ensures Lower(MarkUpper(s, b, e)) == Lower(s)
  {
    MarkUpperPointwise(s, b, e);
    LowerOfSpan(MarkUpper(s, b, e), s, b - 1, e);
  }

  /** Upper-casing some characters does not change the lower-cased text. */
  lemma LowerOfSpan(r: string, s: string, lo: int, hi: int)
    requires |r| == |s|
    requires forall i :: 0 <= i < |s| ==> r[i] == if lo <= i < hi then UpperChar(s[i]) else s[i]
    ensures Lower(r) == Lower(s)
  {
    forall i | 0 <= i < |s| ensures Lower(r)[i] == Lower(s)[i] {
    }
  }

  lemma MarkUpperTwice(s: string, b: int, e: int)
    requires 1 <= b && b - 1 <= e <= |s|
    ensures MarkUpper(MarkUpper(s, b, e), b, e) == MarkUpper(s, b, e)
  {
    var r := MarkUpper(s, b, e);
    MarkUpperPointwise(s, b, e);
    MarkUpperPointwise(r, b, e);
    var r2 := MarkUpper(r, b, e);
    forall i | 0 <= i < |s| ensures r2[i] == r[i] {
      if b - 1 <= i < e { UpperCharTwice(s[i]); }
    }
  }

  lemma UpperCharTwice(c: char)
    ensures UpperChar(UpperChar(c)) == UpperChar(c)
  {
  }

  lemma MarkUpperPointwise(s: string, b: int, e: int)
    requires 1 <= b && b - 1 <= e <= |s|
    ensures |MarkUpper(s, b, e)| == |s|
    ensures forall i :: 0 <= i < |s| ==>
              MarkUpper(s, b, e)[i] == if b - 1 <= i < e then UpperChar(s[i]) else s[i]
  {
    var p, m, q := s[..b - 1], Upper(s[b - 1..e]), s[e..];
    var r := MarkUpper(s, b, e);
    assert r == p + m + q;
    forall i | 0 <= i < |s| ensures r[i] == if b - 1 <= i < e then UpperChar(s[i]) else s[i] {
      if i < b - 1 {
        assert r[i] == p[i];
      } else if i < e {
        assert r[i] == m[i - (b - 1)];
      } else {
        assert r[i] == q[i - e];
      }
    }
  }

  // ---------------------------------------------------------------------------
  // The fold over the overlaps (seq4primers.py:76-132).

  /** `current_pos`, `flanked_seq`, the working `seq`, and the feature entries so far. */
  datatype FoldState = FoldState(pos: int, flanked: string, window: string, features: seq<Feature>)

  /** The body of the overlap loop, for one overlap. */
  function Step(st: FoldState, o: Overlap, target: string, shift: int): Result<FoldState, Failure> {
    StepOn(st, o, target, Validate(o, st.window, shift))
  }

  /** The loop body after the checks, given their verdict. */
  function StepOn(st: FoldState, o: Overlap, target: string, v: Verdict): Result<FoldState, Failure> {
    match v
    case Skipped => Ok(st)
    case Rejected(failure) => Err(failure)
    case Accepted(lb, le) =>
      match AlleleTokens(SplitCommas(o.obs), SplitCommas(o.freq))
      case None => Err(MissingFrequency(o.id))
      case Some(tokens) => Ok(Advance(st, Feature(o.id, lb, le, o.obs, o.freq, tokens, target == o.id)))
  }

  /**
   * The state after feature f: the gap up to f (current_len = beg - current_pos - 1
   * characters) and f's code appended, the cursor at f's end, f's span upper-cased.
   */
  function Advance(st: FoldState, f: Feature): FoldState {
    var currentLen := f.beg - st.pos - 1;
    FoldState(f.end,
              st.flanked + Slice(st.window, st.pos, st.pos + currentLen) + Code(f),
              MarkUpper(st.window, f.beg, f.end),
              st.features + [f])
  }

  function Fold(st: FoldState, os: seq<Overlap>, target: string, shift: int): Result<FoldState, Failure>
    decreases |os|
  {
    if os == [] then Ok(st)
    else
      match Step(st, os[0], target, shift)
      case Err(failure) => Err(failure)
      case Ok(next) => Fold(next, os[1..], target, shift)
  }

  /** The state the loop starts from: cursor 0, nothing annotated yet. */
  function Start(window: string): FoldState {
    FoldState(0, "", window, [])
  }

  /** `flanked_seq + seq[current_pos:]`, the line written to the summary file. */
  function Flanked(st: FoldState): string {
    st.flanked + SliceFrom(st.window, st.pos)
  }

  // ---------------------------------------------------------------------------
  // What the fold computes, stated against an independent layout.

  /** Index i of the window lies in some feature's span (0-based indices beg-1 .. end-1). */
  predicate Covered(i: int, fs: seq<Feature>)
    decreases |fs|
  {
    fs != [] && (fs[0].beg - 1 <= i < fs[0].end || Covered(i, fs[1..]))
  }

  /** An index outside every span is not covered. */
  lemma {:induction false} Outside(i: int, fs: seq<Feature>)
    requires forall j :: 0 <= j < |fs| ==> !(fs[j].beg - 1 <= i < fs[j].end)
    ensures !Covered(i, fs)
    decreases |fs|
  {
    if fs != [] {
      assert forall j :: 0 <= j < |fs| - 1 ==> fs[1..][j] == fs[j + 1];
      Outside(i, fs[1..]);
    }
  }

  /** An index inside the span of feature k is covered. */
  lemma {:induction false} Inside(i: int, fs: seq<Feature>, k: nat)
    requires k < |fs| && fs[k].beg - 1 <= i < fs[k].end
    ensures Covered(i, fs)
    decreases k
  {
    if k > 0 {
      assert fs[1..][k - 1] == fs[k];
      Inside(i, fs[1..], k - 1);
    }
  }

  /** Features inside a window of n bases, in order, none overlapping the next. */
  predicate WellPlaced(fs: seq<Feature>, n: int) {
    (forall k :: 0 <= k < |fs| ==> 1 <= fs[k].beg && fs[k].beg - 1 <= fs[k].end <= n) &&
    (forall j, k :: 0 <= j < k < |fs| ==> fs[j].end <= fs[k].beg - 1)
  }

  /** The codes of a list of features. */
  function Codes(fs: seq<Feature>): (r: seq<string>)
    ensures |r| == |fs|
  {
    seq(|fs|, k requires 0 <= k < |fs| => Code(fs[k]))
  }

  /** Codes that are all empty: the layout with every code deleted. */
  predicate AllBlank(codes: seq<string>) {
    forall i :: 0 <= i < |codes| ==> codes[i] == ""
  }

  /**
   * The layout the annotated line should have: starting at pos, the slice of s up to
   * each feature, that feature's code, and after the last feature the rest of s.
   */
  function Weave(s: string, pos: int, fs: seq<Feature>, codes: seq<string>): string
    requires |codes| == |fs|
    decreases |fs|
  {
    if fs == [] then SliceFrom(s, pos)
    else Slice(s, pos, fs[0].beg - 1) + codes[0] + Weave(s, fs[0].end, fs[1..], codes[1..])
  }

  /** The characters of s[lo..hi] that no feature covers: s with every span deleted. */
  function Uncovered(s: string, lo: int, hi: int, fs: seq<Feature>): string
    requires 0 <= lo <= hi <= |s|
    decreases hi - lo
  {
    if lo == hi then "" else (if Covered(lo, fs) then "" else [s[lo]]) + Uncovered(s, lo + 1, hi, fs)
  }

  /** The loop's working state, relative to the lowered window s0 it started from. */
  ghost predicate Tracks(st: FoldState, s0: string) {
    |st.window| == |s0| &&
    st.pos == (if st.features == [] then 0 else st.features[|st.features| - 1].end) &&
    forall i :: 0 <= i < |s0| ==>
      st.window[i] == if Covered(i, st.features) then UpperChar(s0[i]) else s0[i]
  }

  /** In a well-placed list the ends and the begins both never decrease. */
  lemma Chain(fs: seq<Feature>, n: int)
    requires WellPlaced(fs, n)
    ensures forall j, k :: 0 <= j <= k < |fs| ==> fs[j].end <= fs[k].end
    ensures forall j, k :: 0 <= j <= k < |fs| ==> fs[j].beg <= fs[k].beg
  {
  }

  lemma WellPlacedPrefix(fs: seq<Feature>, m: nat, n: int)
    requires WellPlaced(fs, n) && m <= |fs|
    ensures WellPlaced(fs[..m], n)
  {
    assert forall k :: 0 <= k < m ==> fs[..m][k] == fs[k];
  }

  /** The fold only ever appends to the feature list. */
  lemma {:induction false} FoldExtends(st: FoldState, os: seq<Overlap>, target: string, shift: int, fin: FoldState)
    requires Fold(st, os, target, shift) == Ok(fin)
    ensures |st.features| <= |fin.features| && fin.features[..|st.features|] == st.features
    decreases |os|
  {
    if os != [] {
      var next := Step(st, os[0], target, shift).value;
      FoldExtends(next, os[1..], target, shift, fin);
      assert next.features[..|st.features|] == st.features;
    }
  }

  lemma {:induction false} CoveredAppend(i: int, fs: seq<Feature>, f: Feature)
    ensures Covered(i, fs + [f]) <==> Covered(i, fs) || f.beg - 1 <= i < f.end
    decreases |fs|
  {
    var gs := fs + [f];
    if fs == [] {
      assert gs == [f] && gs[1..] == [];
    } else {
      assert gs[0] == fs[0] && gs[1..] == fs[1..] + [f];
      CoveredAppend(i, fs[1..], f);
    }
  }

  /** Nothing at or after the cursor has been upper-cased yet. */
  lemma CursorClear(st: FoldState, s0: string)
    requires Tracks(st, s0) && WellPlaced(st.features, |s0|)
    ensures 0 <= st.pos <= |s0|
    ensures forall i :: st.pos <= i < |s0| ==> !Covered(i, st.features)
    ensures st.window[st.pos..] == s0[st.pos..]
  {
    var fs, k := st.features, |st.features|;
    Chain(fs, |s0|);
    forall i | st.pos <= i < |s0| ensures !Covered(i, fs) {
      forall j | 0 <= j < k ensures !(fs[j].beg - 1 <= i < fs[j].end) {
        assert fs[j].end <= fs[k - 1].end;
      }
      Outside(i, fs);
    }
  }

  /** next is st after one accepted overlap: one feature more, cursor at its end,
      its span upper-cased, and the gap before it and its code appended. */
  predicate Advances(st: FoldState, next: FoldState) {
    var k := |st.features|;
    |next.features| == k + 1 &&
    var f := next.features[k];
    next.features == st.features + [f] &&
    next.pos == f.end &&
    next.window == MarkUpper(st.window, f.beg, f.end) &&
    next.flanked == st.flanked + Slice(st.window, st.pos, st.pos + (f.beg - st.pos - 1)) + Code(f)
  }

  /** A step that does not fail either skips the overlap or advances. */
  lemma StepCases(st: FoldState, o: Overlap, target: string, shift: int)
    requires Step(st, o, target, shift).Ok?
    ensures Validate(o, st.window, shift).Skipped? ==> Step(st, o, target, shift).value == st
    ensures !Validate(o, st.window, shift).Skipped? ==>
              Validate(o, st.window, shift).Accepted? && Advances(st, Step(st, o, target, shift).value)
  {
    var v := Validate(o, st.window, shift);
    if v.Accepted? {
      StepAccepted(st, o, target, shift);
    }
  }

  lemma StepAccepted(st: FoldState, o: Overlap, target: string, shift: int)
    requires Step(st, o, target, shift).Ok? && Validate(o, st.window, shift).Accepted?
    ensures Advances(st, Step(st, o, target, shift).value)
  {
    var v := Validate(o, st.window, shift);
    assert Step(st, o, target, shift) == StepOn(st, o, target, v);
    StepOnAdvances(st, o, target, v);
  }

  lemma StepOnAdvances(st: FoldState, o: Overlap, target: string, v: Verdict)
    requires v.Accepted? && StepOn(st, o, target, v).Ok?
    ensures Advances(st, StepOn(st, o, target, v).value)
  {
    var tokens := AlleleTokens(SplitCommas(o.obs), SplitCommas(o.freq)).value;
    var f := Feature(o.id, v.beg, v.end, o.obs, o.freq, tokens, target == o.id);
    assert StepOn(st, o, target, v) == Ok(Advance(st, f));
    AdvanceAdvances(st, f);
  }

  lemma AdvanceAdvances(st: FoldState, f: Feature)
    ensures Advances(st, Advance(st, f))
  {
    var next := Advance(st, f);
    assert next.features[|st.features|] == f;
  }

  /** Where an accepted feature lies relative to the cursor before it. */
  lemma AdvanceBounds(st: FoldState, next: FoldState, s0: string)
    requires Tracks(st, s0) && Advances(st, next)
    requires WellPlaced(next.features, |s0|)
    ensures next.features[..|st.features|] == st.features
    ensures var f := next.features[|st.features|];
            0 <= st.pos <= f.beg - 1 && f.beg - 1 <= f.end <= |s0|
    ensures forall i :: st.pos <= i < |s0| ==> !Covered(i, st.features)
    ensures forall i :: st.pos <= i < |s0| ==> st.window[i] == s0[i]
  {
    var k := |st.features|;
    assert next.features[..k] == st.features;
    WellPlacedPrefix(next.features, k, |s0|);
    CursorClear(st, s0);
    if k > 0 {
      assert next.features[k - 1] == st.features[k - 1];
      assert next.features[k - 1].end <= next.features[k].beg - 1;
    }
  }

  lemma SliceAgree(a: string, b: string, lo: int, hi: int)
    requires 0 <= lo <= hi <= |a| && hi <= |b|
    requires forall i :: lo <= i < hi ==> a[i] == b[i]
    ensures a[lo..hi] == b[lo..hi]
  {
  }

  /** One accepted overlap appends the gap of the original window and the code. */
  lemma AdvanceWrites(st: FoldState, next: FoldState, s0: string)
    requires Tracks(st, s0) && Advances(st, next)
    requires WellPlaced(next.features, |s0|)
    ensures Written(next.flanked, st.flanked, s0, st.pos, next.features[|st.features|])
  {
    AdvanceGap(st, next, s0);
  }

  lemma AdvanceGap(st: FoldState, next: FoldState, s0: string)
    requires Tracks(st, s0) && Advances(st, next)
    requires WellPlaced(next.features, |s0|)
    ensures var f := next.features[|st.features|];
            Slice(st.window, st.pos, st.pos + (f.beg - st.pos - 1)) == Slice(s0, st.pos, f.beg - 1)
  {
    var f := next.features[|st.features|];
    AdvanceBounds(st, next, s0);
    GapSame(st.window, s0, st.pos, f.beg);
  }

  /** The gap slice the step takes from the working window is the original one. */
  lemma GapSame(w: string, s0: string, pos: int, b: int)
    requires 0 <= pos <= b - 1 <= |s0| && |w| == |s0|
    requires forall i :: pos <= i < |s0| ==> w[i] == s0[i]
    ensures Slice(w, pos, pos + (b - pos - 1)) == Slice(s0, pos, b - 1)
  {
    var hi := pos + (b - pos - 1);
    assert hi == b - 1;
    SliceAgree(w, s0, pos, hi);
  }

  /** One accepted overlap keeps the tracking relation. */
  lemma AdvanceTracks(st: FoldState, next: FoldState, s0: string)
    requires Tracks(st, s0) && Advances(st, next)
    requires WellPlaced(next.features, |s0|)
    ensures Tracks(next, s0)
  {
    var f := next.features[|st.features|];
    AdvanceBounds(st, next, s0);
    MarkUpperPointwise(st.window, f.beg, f.end);
    forall i | 0 <= i < |s0|
      ensures next.window[i] == if Covered(i, next.features) then UpperChar(s0[i]) else s0[i]
    {
      CoveredAppend(i, st.features, f);
    }
  }

  lemma CodesCons(fs: seq<Feature>)
    requires fs != []
    ensures Codes(fs)[0] == Code(fs[0]) && Codes(fs)[1..] == Codes(fs[1..])
  {
    var c, t := Codes(fs), Codes(fs[1..]);
    forall i | 0 <= i < |t| ensures c[1..][i] == t[i] {
      assert fs[1..][i] == fs[i + 1];
    }
  }

  lemma Associate(x: string, a: string, b: string, c: string)
    ensures x + a + b + c == x + (a + b + c)
  {
  }

  lemma WeaveCons(s: string, pos: int, fs: seq<Feature>, codes: seq<string>)
    requires |codes| == |fs| && fs != []
    ensures Weave(s, pos, fs, codes) ==
            Slice(s, pos, fs[0].beg - 1) + codes[0] + Weave(s, fs[0].end, fs[1..], codes[1..])
  {
  }

  /** y is x followed by the gap from pos up to feature f, then f's code. */
  predicate Written(y: string, x: string, s0: string, pos: int, f: Feature) {
    y == x + Slice(s0, pos, f.beg - 1) + Code(f)
  }

  /** full is x followed by the layout of the remaining features from pos. */
  predicate Lays(full: string, x: string, s0: string, pos: int, rest: seq<Feature>) {
    full == x + Weave(s0, pos, rest, Codes(rest))
  }

  /** With no overlap left, the rest of the working window is the rest of the original. */
  lemma DoneTracks(st: FoldState, s0: string)
    requires Tracks(st, s0) && WellPlaced(st.features, |s0|)
    ensures Lays(Flanked(st), st.flanked, s0, st.pos, [])
  {
    CursorClear(st, s0);
  }

  /** The layout from a cursor is the gap to the next span, its code, and the layout after it. */
  lemma WeaveStep(x: string, s0: string, pos: int, fs: seq<Feature>, k: nat, f: Feature, y: string, full: string)
    requires k < |fs| && fs[k] == f
    requires Written(y, x, s0, pos, f)
    requires Lays(full, y, s0, f.end, fs[k + 1..])
    ensures Lays(full, x, s0, pos, fs[k..])
  {
    var rest := fs[k..];
    assert rest[0] == fs[k] && rest[1..] == fs[k + 1..];
    CodesCons(rest);
    var tail := Weave(s0, fs[k].end, fs[k + 1..], Codes(fs[k + 1..]));
    var gap := Slice(s0, pos, fs[k].beg - 1);
    WeaveCons(s0, pos, rest, Codes(rest));
    assert Weave(s0, pos, rest, Codes(rest)) == gap + Code(fs[k]) + tail;
    Associate(x, gap, Code(fs[k]), tail);
  }

  /** The states the loop passes through, one per overlap, up to the first failure. */
  function Trace(st: FoldState, os: seq<Overlap>, target: string, shift: int): (r: seq<FoldState>)
    ensures |r| >= 1 && r[0] == st
    decreases |os|
  {
    if os == [] then [st]
    else
      match Step(st, os[0], target, shift)
      case Err(_) => [st]
      case Ok(next) => [st] + Trace(next, os[1..], target, shift)
  }

  /** Each state either repeats the one before it or advances past one more feature. */
  predicate Chained(sts: seq<FoldState>)
    decreases |sts|
  {
    |sts| <= 1 || ((sts[1] == sts[0] || Advances(sts[0], sts[1])) && Chained(sts[1..]))
  }

  /** The last state of a non-empty run. */
  function Last(sts: seq<FoldState>): FoldState
    requires |sts| >= 1
  {
    sts[|sts| - 1]
  }

  lemma LastCons(x: FoldState, rest: seq<FoldState>)
    requires |rest| >= 1
    ensures Last([x] + rest) == Last(rest)
  {
    var all := [x] + rest;
    assert |all| - 1 == |rest|;
    assert all[|rest|] == rest[|rest| - 1];
  }

  /** A fold that succeeds passes through a chain of states from its start to its result. */
  lemma {:induction false} FoldTrace(st: FoldState, os: seq<Overlap>, target: string, shift: int, fin: FoldState)
    requires Fold(st, os, target, shift) == Ok(fin)
    ensures Last(Trace(st, os, target, shift)) == fin
    ensures Chained(Trace(st, os, target, shift))
    decreases |os|
  {
    if os != [] {
      FoldFirst(st, os, target, shift);
      StepCases(st, os[0], target, shift);
      var next := Step(st, os[0], target, shift).value;
      FoldTrace(next, os[1..], target, shift, fin);
      var rest := Trace(next, os[1..], target, shift);
      var all := Trace(st, os, target, shift);
      assert all == [st] + rest;
      assert all[1..] == rest;
      LastCons(st, rest);
    }
  }

  /** Along a chain the feature list only grows at its end. */
  lemma {:induction false} ChainExtends(sts: seq<FoldState>)
    requires |sts| >= 1 && Chained(sts)
    ensures var a, z := sts[0], Last(sts);
            |a.features| <= |z.features| && z.features[..|a.features|] == a.features
    decreases |sts|
  {
    if |sts| > 1 {
      ChainExtends(sts[1..]);
      var a, b, z := sts[0], sts[1], Last(sts);
      assert sts[1..][0] == b && Last(sts[1..]) == z;
      if b != a {
        assert b.features == a.features + [b.features[|a.features|]];
        assert z.features[..|b.features|][..|a.features|] == z.features[..|a.features|];
      }
    }
  }

  lemma {:induction false} ChainTracks(sts: seq<FoldState>, s0: string)
    requires |sts| >= 1 && Chained(sts)
    requires Tracks(sts[0], s0)
    requires WellPlaced(Last(sts).features, |s0|)
    ensures Tracks(Last(sts), s0)
    ensures |sts[0].features| <= |Last(sts).features|
    ensures Lays(Flanked(Last(sts)), sts[0].flanked, s0, sts[0].pos,
                 Last(sts).features[|sts[0].features|..])
    decreases |sts|
  {
    var a, z := sts[0], Last(sts);
    ChainExtends(sts);
    if |sts| == 1 {
      assert z.features[|a.features|..] == [];
      DoneTracks(a, s0);
    } else {
      var b := sts[1];
      assert sts[1..][0] == b && Last(sts[1..]) == z;
      ChainExtends(sts[1..]);
      WellPlacedPrefix(z.features, |b.features|, |s0|);
      if b == a {
        ChainTracks(sts[1..], s0);
      } else {
        var k := |a.features|;
        var f := b.features[k];
        AdvanceTracks(a, b, s0);
        AdvanceWrites(a, b, s0);
        ChainTracks(sts[1..], s0);
        assert z.features[..k + 1] == b.features;
        assert z.features[k] == f;
        WeaveStep(a.flanked, s0, a.pos, z.features, k, f, b.flanked, Flanked(z));
      }
    }
  }

  /** Lower-casing a window with some spans upper-cased gives back the lowered original. */
  lemma LowerOfMarked(w: string, s0: string, fs: seq<Feature>)
    requires |w| == |s0|
    requires forall i :: 0 <= i < |s0| ==> w[i] == if Covered(i, fs) then UpperChar(s0[i]) else s0[i]
    ensures Lower(w) == Lower(s0)
  {
    assert forall i :: 0 <= i < |s0| ==> Lower(w)[i] == Lower(s0)[i];
  }

  /** What a chain from the start state to z establishes about z. */
  lemma ChainAssembles(sts: seq<FoldState>, s0: string)
    requires |sts| >= 1 && Chained(sts) && sts[0] == Start(s0)
    requires WellPlaced(Last(sts).features, |s0|)
    ensures var z := Last(sts);
            Flanked(z) == Weave(s0, 0, z.features, Codes(z.features)) &&
            |z.window| == |s0| && Lower(z.window) == Lower(s0) &&
            (forall i :: 0 <= i < |s0| ==>
               z.window[i] == if Covered(i, z.features) then UpperChar(s0[i]) else s0[i]) &&
            (forall j, k :: 0 <= j <= k < |z.features| ==> 0 <= z.features[j].end <= z.features[k].end) &&
            z.pos == if z.features == [] then 0 else z.features[|z.features| - 1].end
  {
    var z := Last(sts);
    ChainTracks(sts, s0);
    assert z.features[0..] == z.features;
    var w := Weave(s0, 0, z.features, Codes(z.features));
    assert "" + w == w;
    LowerOfMarked(z.window, s0, z.features);
    Chain(z.features, |s0|);
  }

  /**
   * For overlaps whose accepted spans lie inside the window, in order and without
   * overlapping: the summary text is the original window's gap slices interleaved
   * with the codes, followed by the tail; the working window is the original one with
   * exactly the accepted spans upper-cased; and the cursor never moves back.
   */
  lemma FoldAssembles(s0: string, os: seq<Overlap>, target: string, shift: int, fin: FoldState)
    requires Fold(Start(s0), os, target, shift) == Ok(fin)
    requires WellPlaced(fin.features, |s0|)
    ensures Flanked(fin) == Weave(s0, 0, fin.features, Codes(fin.features))
    ensures |fin.window| == |s0| && Lower(fin.window) == Lower(s0)
    ensures forall i :: 0 <= i < |s0| ==>
              fin.window[i] == if Covered(i, fin.features) then UpperChar(s0[i]) else s0[i]
    ensures forall j, k :: 0 <= j <= k < |fin.features| ==> 0 <= fin.features[j].end <= fin.features[k].end
    ensures fin.pos == if fin.features == [] then 0 else fin.features[|fin.features| - 1].end
  {
    var sts := Trace(Start(s0), os, target, shift);
    FoldTrace(Start(s0), os, target, shift, fin);
    ChainAssembles(sts, s0);
  }

  lemma {:induction false} UncoveredSplit(s: string, lo: int, mid: int, hi: int, fs: seq<Feature>)
    requires 0 <= lo <= mid <= hi <= |s|
    ensures Uncovered(s, lo, hi, fs) == Uncovered(s, lo, mid, fs) + Uncovered(s, mid, hi, fs)
    decreases mid - lo
  {
    if lo < mid {
      UncoveredSplit(s, lo + 1, mid, hi, fs);
    }
  }

  lemma {:induction false} UncoveredPlain(s: string, lo: int, hi: int, fs: seq<Feature>)
    requires 0 <= lo <= hi <= |s|
    requires forall i :: lo <= i < hi ==> !Covered(i, fs)
    ensures Uncovered(s, lo, hi, fs) == s[lo..hi]
    decreases hi - lo
  {
    if lo < hi {
      UncoveredPlain(s, lo + 1, hi, fs);
      assert [s[lo]] + s[lo + 1..hi] == s[lo..hi];
    }
  }

  lemma {:induction false} UncoveredNone(s: string, lo: int, hi: int, fs: seq<Feature>)
    requires 0 <= lo <= hi <= |s|
    requires forall i :: lo <= i < hi ==> Covered(i, fs)
    ensures Uncovered(s, lo, hi, fs) == ""
    decreases hi - lo
  {
    if lo < hi {
      UncoveredNone(s, lo + 1, hi, fs);
    }
  }

  /** Where the cursor stands once the first k features are written. */
  function CursorAfter(fs: seq<Feature>, k: nat): int
    requires k <= |fs|
  {
    if k == 0 then 0 else fs[k - 1].end
  }

  /** Between the cursor and the next span no index is covered. */
  lemma GapClear(fs: seq<Feature>, n: int, k: nat)
    requires WellPlaced(fs, n) && k < |fs|
    ensures 0 <= CursorAfter(fs, k) <= fs[k].beg - 1
    ensures forall i :: CursorAfter(fs, k) <= i < fs[k].beg - 1 ==> !Covered(i, fs)
  {
    Chain(fs, n);
    forall i | CursorAfter(fs, k) <= i < fs[k].beg - 1 ensures !Covered(i, fs) {
      forall j | 0 <= j < |fs| ensures !(fs[j].beg - 1 <= i < fs[j].end) {
        if j < k {
          assert fs[j].end <= fs[k - 1].end;
        } else {
          assert fs[k].beg <= fs[j].beg;
        }
      }
      Outside(i, fs);
    }
  }

  /** After the last span no index is covered. */
  lemma TailClear(fs: seq<Feature>, n: int)
    requires WellPlaced(fs, n) && n >= 0
    ensures 0 <= CursorAfter(fs, |fs|) <= n
    ensures forall i :: CursorAfter(fs, |fs|) <= i < n ==> !Covered(i, fs)
  {
    Chain(fs, n);
    var k := |fs|;
    forall i | CursorAfter(fs, k) <= i < n ensures !Covered(i, fs) {
      forall j | 0 <= j < k ensures !(fs[j].beg - 1 <= i < fs[j].end) {
        assert fs[j].end <= fs[k - 1].end;
      }
      Outside(i, fs);
    }
  }

  /** Between the cursor and the next span nothing is deleted. */
  lemma GapKept(s: string, fs: seq<Feature>, k: nat)
    requires WellPlaced(fs, |s|) && k < |fs|
    ensures 0 <= CursorAfter(fs, k) <= fs[k].beg - 1
    ensures Uncovered(s, CursorAfter(fs, k), fs[k].beg - 1, fs) == s[CursorAfter(fs, k) .. fs[k].beg - 1]
  {
    var lo, hi := CursorAfter(fs, k), fs[k].beg - 1;
    GapClear(fs, |s|, k);
    UncoveredPlain(s, lo, hi, fs);
    assert Uncovered(s, lo, hi, fs) == s[lo..hi];
  }

  /** A feature's own span is deleted entirely. */
  lemma SpanDropped(s: string, fs: seq<Feature>, k: nat)
    requires WellPlaced(fs, |s|) && k < |fs|
    ensures Uncovered(s, fs[k].beg - 1, fs[k].end, fs) == ""
  {
    var lo, hi := fs[k].beg - 1, fs[k].end;
    forall i | lo <= i < hi ensures Covered(i, fs) {
      Inside(i, fs, k);
    }
    UncoveredNone(s, lo, hi, fs);
    assert Uncovered(s, lo, hi, fs) == "";
  }

  /** After the last span nothing is deleted. */
  lemma TailKept(s: string, fs: seq<Feature>)
    requires WellPlaced(fs, |s|)
    ensures 0 <= CursorAfter(fs, |fs|) <= |s|
    ensures Uncovered(s, CursorAfter(fs, |fs|), |s|, fs) == s[CursorAfter(fs, |fs|)..]
  {
    TailClear(fs, |s|);
    TailPlain(s, CursorAfter(fs, |fs|), fs);
  }

  lemma TailPlain(s: string, lo: int, fs: seq<Feature>)
    requires 0 <= lo <= |s|
    requires forall i :: lo <= i < |s| ==> !Covered(i, fs)
    ensures Uncovered(s, lo, |s|, fs) == s[lo..]
  {
    UncoveredPlain(s, lo, |s|, fs);
    assert s[lo..|s|] == s[lo..];
  }

  lemma WeaveBlankStep(s: string, pos: int, fs: seq<Feature>, k: nat, codes: seq<string>)
    requires k < |fs| && |codes| == |fs| - k && AllBlank(codes)
    ensures |codes[1..]| == |fs[k + 1..]|
    ensures Weave(s, pos, fs[k..], codes) ==
            Slice(s, pos, fs[k].beg - 1) + Weave(s, fs[k].end, fs[k + 1..], codes[1..])
  {
    DropCons(fs, k);
    WeaveBlankCons(s, pos, fs[k..], fs[k], fs[k + 1..], codes);
  }

  lemma DropCons(fs: seq<Feature>, k: nat)
    requires k < |fs|
    ensures fs[k..][0] == fs[k] && fs[k..][1..] == fs[k + 1..]
  {
  }

  /** An empty code adds nothing between the gap and the rest of the layout. */
  lemma WeaveBlankCons(s: string, pos: int, rest: seq<Feature>, head: Feature, tail: seq<Feature>,
                       codes: seq<string>)
    requires rest != [] && rest[0] == head && rest[1..] == tail
    requires |codes| == |rest| && AllBlank(codes)
    ensures |codes[1..]| == |tail|
    ensures Weave(s, pos, rest, codes) == Slice(s, pos, head.beg - 1) + Weave(s, head.end, tail, codes[1..])
  {
    assert codes[0] == "";
    WeaveCons(s, pos, rest, codes);
    AppendEmpty(Slice(s, pos, head.beg - 1), Weave(s, head.end, tail, codes[1..]));
  }

  lemma AppendEmpty(a: string, b: string)
    ensures a + "" + b == a + b
  {
  }

  /** Deleting the spans from feature k on keeps the gap before it and deletes its span. */
  lemma UncoveredAt(s: string, fs: seq<Feature>, k: nat, pos: int)
    requires WellPlaced(fs, |s|) && k < |fs| && pos == CursorAfter(fs, k)
    ensures 0 <= pos <= fs[k].beg - 1
    ensures Uncovered(s, pos, |s|, fs) == s[pos..fs[k].beg - 1] + Uncovered(s, fs[k].end, |s|, fs)
  {
    var n := |s|;
    var b, e := fs[k].beg, fs[k].end;
    GapKept(s, fs, k);
    UncoveredSplit(s, pos, b - 1, n, fs);
    UncoveredSplit(s, b - 1, e, n, fs);
    SpanDropped(s, fs, k);
    var rest := Uncovered(s, e, n, fs);
    assert "" + rest == rest;
  }

  /** The layout from feature k on, given the layout from feature k+1 on. */
  lemma WeaveBlanksMore(s: string, fs: seq<Feature>, k: nat, pos: int, codes: seq<string>)
    requires WellPlaced(fs, |s|) && k < |fs| && pos == CursorAfter(fs, k)
    requires |codes| == |fs| - k && AllBlank(codes)
    requires Weave(s, fs[k].end, fs[k + 1..], codes[1..]) == Uncovered(s, fs[k].end, |s|, fs)
    ensures 0 <= pos <= |s|
    ensures Weave(s, pos, fs[k..], codes) == Uncovered(s, pos, |s|, fs)
  {
    UncoveredAt(s, fs, k, pos);
    WeaveBlankStep(s, pos, fs, k, codes);
  }

  lemma AllBlankTail(codes: seq<string>)
    requires codes != [] && AllBlank(codes)
    ensures AllBlank(codes[1..])
  {
    var tail := codes[1..];
    assert forall i :: 0 <= i < |tail| ==> tail[i] == codes[i + 1];
  }

  lemma CursorNext(fs: seq<Feature>, k: nat)
    requires k < |fs|
    ensures CursorAfter(fs, k + 1) == fs[k].end
  {
  }

  lemma WeaveBlanksDone(s: string, fs: seq<Feature>, k: nat, pos: int, codes: seq<string>)
    requires WellPlaced(fs, |s|) && k == |fs| && pos == CursorAfter(fs, k) && codes == []
    ensures 0 <= pos <= |s|
    ensures Weave(s, pos, fs[k..], codes) == Uncovered(s, pos, |s|, fs)
  {
    TailKept(s, fs);
    assert fs[k..] == [];
  }

  lemma {:induction false} WeaveBlanks(s: string, fs: seq<Feature>, k: nat, pos: int, codes: seq<string>)
    requires WellPlaced(fs, |s|) && k <= |fs| && pos == CursorAfter(fs, k)
    requires |codes| == |fs| - k && AllBlank(codes)
    ensures 0 <= pos <= |s|
    ensures Weave(s, pos, fs[k..], codes) == Uncovered(s, pos, |s|, fs)
    decreases |fs| - k
  {
    if k == |fs| {
      WeaveBlanksDone(s, fs, k, pos, codes);
    } else {
      AllBlankTail(codes);
      CursorNext(fs, k);
      WeaveBlanks(s, fs, k + 1, fs[k].end, codes[1..]);
      WeaveBlanksMore(s, fs, k, pos, codes);
    }
  }

  /**
   * Deleting the codes from the layout, that is, replacing each by the empty string,
   * leaves the window with every accepted span deleted.
   */
  lemma CodesRemoved(s: string, fs: seq<Feature>, codes: seq<string>)
    requires WellPlaced(fs, |s|) && |codes| == |fs| && AllBlank(codes)
    ensures Weave(s, 0, fs, codes) == Uncovered(s, 0, |s|, fs)
  {
    WeaveBlanks(s, fs, 0, 0, codes);
    assert fs[0..] == fs;
  }

  // ---------------------------------------------------------------------------
  // Overlaps without frequency data take no part; every feature is the target's
  // exactly when its id is the target's.

  function WithFrequency(os: seq<Overlap>): (r: seq<Overlap>)
    decreases |os|
  {
    if os == [] then [] else (if os[0].freq == "" then [] else [os[0]]) + WithFrequency(os[1..])
  }

  /** An overlap with no frequency changes nothing: dropping all of them does not change the fold. */
  lemma {:induction false} SkippedOverlapsIgnored(st: FoldState, os: seq<Overlap>, target: string, shift: int)
    ensures Fold(st, os, target, shift) == Fold(st, WithFrequency(os), target, shift)
    decreases |os|
  {
    if os != [] {
      var w := WithFrequency(os);
      var rest := WithFrequency(os[1..]);
      if os[0].freq == "" {
        ValidationOutcome(os[0], st.window, shift);
        assert Step(st, os[0], target, shift) == Ok(st);
        assert w == rest;
        SkippedOverlapsIgnored(st, os[1..], target, shift);
      } else {
        assert w == [os[0]] + rest;
        assert w[0] == os[0] && w[1..] == rest;
        FoldFirst(st, w, target, shift);
        FoldFirst(st, os, target, shift);
        var r := Step(st, os[0], target, shift);
        if r.Ok? {
          SkippedOverlapsIgnored(r.value, os[1..], target, shift);
        }
      }
    }
  }

  /** One step of the fold. */
  lemma FoldFirst(st: FoldState, os: seq<Overlap>, target: string, shift: int)
    requires os != []
    ensures Fold(st, os, target, shift) ==
            if Step(st, os[0], target, shift).Err? then Err(Step(st, os[0], target, shift).error)
            else Fold(Step(st, os[0], target, shift).value, os[1..], target, shift)
  {
  }

  predicate FeatureIdsDistinct(fs: seq<Feature>) {
    forall j, k :: 0 <= j < k < |fs| ==> fs[j].id != fs[k].id
  }

  lemma {:induction false} FoldFeatureIds(st: FoldState, os: seq<Overlap>, target: string, shift: int, fin: FoldState)
    requires Fold(st, os, target, shift) == Ok(fin)
    requires DistinctIds(os) && FeatureIdsDistinct(st.features)
    requires forall k, o :: 0 <= k < |st.features| && o in os ==> st.features[k].id != o.id
    requires forall k :: 0 <= k < |st.features| ==> (st.features[k].isTarget <==> st.features[k].id == target)
    ensures FeatureIdsDistinct(fin.features)
    ensures forall k :: 0 <= k < |fin.features| ==> (fin.features[k].isTarget <==> fin.features[k].id == target)
    decreases |os|
  {
    if os != [] {
      var next := Step(st, os[0], target, shift).value;
      var rest := os[1..];
      FoldFirst(st, os, target, shift);
      StepCases(st, os[0], target, shift);
      StepIds(st, next, os, target);
      DistinctTail(os);
      FoldFeatureIds(next, rest, target, shift, fin);
    }
  }

  /** After one step the invariant of FoldFeatureIds carries over to the rest of the overlaps. */
  lemma StepIds(st: FoldState, next: FoldState, os: seq<Overlap>, target: string)
    requires os != [] && DistinctIds(os) && FeatureIdsDistinct(st.features)
    requires forall k, o :: 0 <= k < |st.features| && o in os ==> st.features[k].id != o.id
    requires forall k :: 0 <= k < |st.features| ==> (st.features[k].isTarget <==> st.features[k].id == target)
    requires next == st || (Advances(st, next) && next.features[|st.features|].id == os[0].id &&
                            (next.features[|st.features|].isTarget <==> os[0].id == target))
    ensures FeatureIdsDistinct(next.features)
    ensures forall k, o :: 0 <= k < |next.features| && o in os[1..] ==> next.features[k].id != o.id
    ensures forall k :: 0 <= k < |next.features| ==> (next.features[k].isTarget <==> next.features[k].id == target)
  {
    var rest := os[1..];
    forall k, o | 0 <= k < |next.features| && o in rest ensures next.features[k].id != o.id {
      var m :| 0 <= m < |rest| && rest[m] == o;
      assert os[m + 1] == o;
    }
    forall j, k | 0 <= j < k < |next.features| ensures next.features[j].id != next.features[k].id {
      if k == |st.features| { assert os[0] in os; }
    }
  }

  lemma DistinctTail(os: seq<Overlap>)
    requires os != [] && DistinctIds(os)
    ensures DistinctIds(os[1..])
  {
    var rest := os[1..];
    forall i, j | 0 <= i < j < |rest| ensures rest[i].id != rest[j].id {
      assert rest[i] == os[i + 1] && rest[j] == os[j + 1];
    }
  }

  /**
   * When no SNP id occurs twice among the overlaps, at most one feature is marked as
   * the target (so at most one code is wrapped in square brackets), and a feature is
   * marked exactly when its id is the target's.
   */
  lemma OnlyTargetBracketed(s0: string, os: seq<Overlap>, target: string, shift: int, fin: FoldState)
    requires Fold(Start(s0), os, target, shift) == Ok(fin)
    requires DistinctIds(os)
    ensures forall k :: 0 <= k < |fin.features| ==> (fin.features[k].isTarget <==> fin.features[k].id == target)
    ensures forall j, k ::
              (0 <= j < |fin.features| && 0 <= k < |fin.features| &&
               fin.features[j].isTarget && fin.features[k].isTarget) ==> j == k
  {
    FoldFeatureIds(Start(s0), os, target, shift, fin);
  }
}
