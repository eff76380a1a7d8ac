/**
 * The GenBank record written for one window (seq4primers.py:54-74, 124-143): the
 * LOCUS, DEFINITION and FEATURES header lines, one feature entry per accepted
 * overlap, and the ORIGIN block that lists the window 60 bases to a line.
 */
module GenBank {
  import opened Strings
  import opened FlankAssembly

  // ---------------------------------------------------------------------------
  // The LOCUS line (seq4primers.py:54-58, 64, 73).

  /** The run's date; the clock it is read from is outside the model. */
  datatype Date = Date(day: nat, month: nat, year: nat)

  predicate ValidDate(d: Date) {
    1 <= d.day <= 31 && 1 <= d.month <= 12
  }

  /** `strftime("%d")`: the day with a leading zero below ten. */
  function TwoDigits(n: nat): (r: string)
    requires n < 100
    ensures |r| == 2 && '0' <= r[0] <= '9' && '0' <= r[1] <= '9'
  {
    [DigitChar(n / 10), DigitChar(n % 10)]
  }

  lemma TwoDigitsValue(n: nat)
    requires n < 100
    ensures DigitsValue(TwoDigits(n)) == n
  {
    var a, b := n / 10, n % 10;
    var r := TwoDigits(n);
    var first := r[..1];
    assert first == [DigitChar(a)] && first[..0] == [];
    assert r[1] as int - '0' as int == b;
    assert DigitsValue(first) == a;
    assert DigitsValue(r) == a * 10 + b;
  }

  /** `strftime("%b")` in the C locale. */
  function MonthAbbrev(m: nat): (r: string)
    requires 1 <= m <= 12
    ensures |r| == 3
  {
    ["Jan", "Feb", "Mar", "Apr", "May", "Jun", "Jul", "Aug", "Sep", "Oct", "Nov", "Dec"][m - 1]
  }

  /** `{dd}-{Mon}-{year}` */
  function DateText(d: Date): string
    requires ValidDate(d)
  {
    TwoDigits(d.day) + "-" + MonthAbbrev(d.month) + "-" + NatToString(d.year)
  }

  /** `'{: > 9}'.format(n)`: a space sign, then the digits, right-justified to width 9. */
  function LengthField(n: nat): string {
    RightJustify(" " + NatToString(n), 9)
  }

  function LocusLine(chrom: string, n: nat, d: Date): string
    requires ValidDate(d)
  {
    "LOCUS  " + RightJustify(chrom, 24) + " MiHA " + (LengthField(n) + LocusTail(d))
  }

  /** What follows the length: the fixed molecule fields, the division and the date. */
  function LocusTail(d: Date): string
    requires ValidDate(d)
  {
    " bp    DNA     linear   UNA " + DateText(d) + "\n"
  }

  /**
   * The LOCUS line has fixed columns as long as the chromosome name fits its 24
   * columns and the length has at most 8 digits: the name right-aligned in columns
   * 8-31, " MiHA " in columns 32-37, and the length field in columns 38-46.
   */
  lemma LocusColumns(chrom: string, n: nat, d: Date)
    requires ValidDate(d) && |chrom| <= 24 && |NatToString(n)| <= 8
    ensures var line := LocusLine(chrom, n, d);
            |line| > 46 && line[..7] == "LOCUS  " && line[7..31] == RightJustify(chrom, 24) &&
            line[31..37] == " MiHA " && line[37..46] == LengthField(n)
  {
    var name, len := RightJustify(chrom, 24), LengthField(n);
    var line := LocusLine(chrom, n, d);
    var head := "LOCUS  " + name;
    var tail := len + LocusTail(d);
    assert |name| == 24 && |len| == 9 && |head| == 31;
    FieldOf(head, " MiHA ", tail);
    PrefixOfPrefix(line, head, 7);
    SliceOfPrefix(line, head, 7);
    PrefixOfSuffix(line, 37, tail, 9);
  }

  /** s starts with p, so its first k characters are p's. */
  lemma PrefixOfPrefix(s: string, p: string, k: nat)
    requires |p| <= |s| && s[..|p|] == p && k <= |p|
    ensures s[..k] == p[..k]
  {
  }

  /** s starts with p, so the rest of p is s between k and |p|. */
  lemma SliceOfPrefix(s: string, p: string, k: nat)
    requires |p| <= |s| && s[..|p|] == p && k <= |p|
    ensures s[k..|p|] == p[k..]
  {
  }

  /** s ends with t from i on, so s[i..i+k] is t's first k characters. */
  lemma PrefixOfSuffix(s: string, i: nat, t: string, k: nat)
    requires i <= |s| && s[i..] == t && k <= |t|
    ensures s[i..i + k] == t[..k]
  {
    assert s[i..i + k] == s[i..][..k];
  }

  /**
   * The length field holds the digits right-aligned behind spaces, and they read
   * back as the length.
   */
  lemma LengthFieldValue(n: nat)
    requires |NatToString(n)| <= 8
    ensures var field, digits := LengthField(n), NatToString(n);
            |field| == 9 && field[9 - |digits|..] == digits &&
            (forall i :: 0 <= i < 9 - |digits| ==> field[i] == ' ') &&
            DigitsValue(field[9 - |digits|..]) == n
  {
    var digits := NatToString(n);
    var signed := " " + digits;
    var field := LengthField(n);
    assert field[9 - |signed|..] == signed;
    assert field[9 - |digits|..] == signed[1..];
    NatToStringValue(n);
  }

  /** The middle piece of a concatenation, found by its position. */
  lemma FieldOf(x: string, y: string, z: string)
    ensures (x + y + z)[..|x|] == x && (x + y + z)[|x|..|x| + |y|] == y
    ensures (x + y + z)[|x| + |y|..] == z
  {
    assert x + y + z == x + (y + z);
  }

  // ---------------------------------------------------------------------------
  // The DEFINITION line (seq4primers.py:65-71) and the FEATURES line (line 60).

  /** The chromosome range shown: 1..len(seq) when the left flank is clipped
      (beg - f - 1 < 0), otherwise beg-f .. beg-f+len(seq)-1. */
  function DefinitionRange(beg: int, f: int, n: nat): (int, int) {
    if beg - f - 1 < 0 then (1, n) else (beg - f, beg - f + n - 1)
  }

  /** In both branches the range holds exactly len(seq) positions and starts right
      after the positions the window's coordinates are shifted by. */
  lemma DefinitionRangeSpan(beg: int, f: int, n: nat)
    ensures var (a, b) := DefinitionRange(beg, f, n);
            b - a + 1 == n && a == Max(0, beg - f - 1) + 1
  {
  }

  function DefinitionLine(id: string, chrom: string, beg: int, f: int, n: nat): string {
    var (a, b) := DefinitionRange(beg, f, n);
    "DEFINITION           " + id + " " + chrom + ":" + IntToString(a) + ".." + IntToString(b) + "\n"
  }

  const FeaturesLine: string := "FEATURES             Location/Qualifiers\n"

  /** The three header lines in the order they are written (seq4primers.py:74). */
  function Header(id: string, chrom: string, beg: int, f: int, n: nat, d: Date): string
    requires ValidDate(d)
  {
    LocusLine(chrom, n, d) + DefinitionLine(id, chrom, beg, f, n) + FeaturesLine
  }

  // ---------------------------------------------------------------------------
  // One feature entry (seq4primers.py:124-131).

  /** The feature key, padded so that the location starts at column 22. */
  function KeyColumn(strict: bool): string {
    if strict then "    variation        " else "    Polymorphism     "
  }

  function KeyLine(f: Feature, strict: bool): string {
    KeyColumn(strict) + IntToString(f.beg) + ".." + IntToString(f.end) + "\n"
  }

  /** `/name="value"` on its own line, starting at column 22. */
  function Qualifier(name: string, value: string): string {
    "                     /" + name + "=\"" + value + "\"\n"
  }

  /** The lines of the entry: the key line, /MiHA for the target only, /label, /frequency. */
  function FeatureLines(f: Feature, strict: bool): seq<string> {
    [KeyLine(f, strict)] +
    (if f.isTarget then [Qualifier("MiHA", f.id)] else []) +
    [Qualifier("label", f.id), Qualifier("frequency", Join(f.tokens, "/"))]
  }

  function FeatureText(f: Feature, strict: bool): string {
    Concat(FeatureLines(f, strict))
  }

  /** A line that is the qualifier `name`. */
  predicate IsQualifier(line: string, name: string) {
    var lead := "                     /" + name + "=";
    |lead| <= |line| && line[..|lead|] == lead
  }

  /**
   * An entry has four lines for the target and three for any other SNP; its key is
   * "variation" exactly under the strict rules and "Polymorphism" otherwise, with
   * the location from column 22; a /MiHA qualifier appears in it exactly when the
   * feature is the target; the last two lines are /label with the id and
   * /frequency with the allele tokens joined by '/'.
   */
  lemma FeatureEntry(f: Feature, strict: bool)
    ensures var lines := FeatureLines(f, strict);
            |lines| == (if f.isTarget then 4 else 3) &&
            |KeyColumn(strict)| == 21 &&
            lines[0][..21] == KeyColumn(strict) &&
            (lines[0][4..13] == "variation" <==> strict) &&
            lines[|lines| - 2] == Qualifier("label", f.id) &&
            lines[|lines| - 1] == Qualifier("frequency", Join(f.tokens, "/"))
    ensures var lines := FeatureLines(f, strict);
            (exists j :: 0 <= j < |lines| && IsQualifier(lines[j], "MiHA")) <==> f.isTarget
  {
    KeyLineColumns(f, strict);
    MiHAOnlyForTarget(f, strict);
  }

  lemma KeyLineColumns(f: Feature, strict: bool)
    ensures |KeyColumn(strict)| == 21
    ensures KeyLine(f, strict)[..21] == KeyColumn(strict)
    ensures KeyLine(f, strict)[4..13] == "variation" <==> strict
  {
    var c := KeyColumn(strict);
    var key := KeyLine(f, strict);
    assert key == c + (IntToString(f.beg) + ".." + IntToString(f.end) + "\n");
    assert key[..21] == c;
    assert key[4..13] == c[4..13];
    if !strict {
      assert c[4..13][0] == 'P';
    }
  }

  lemma MiHAOnlyForTarget(f: Feature, strict: bool)
    ensures var lines := FeatureLines(f, strict);
            (exists j :: 0 <= j < |lines| && IsQualifier(lines[j], "MiHA")) <==> f.isTarget
  {
    var lines := FeatureLines(f, strict);
    if f.isTarget {
      assert IsQualifier(lines[1], "MiHA");
    } else {
      forall j | 0 <= j < |lines| ensures !IsQualifier(lines[j], "MiHA") {
        if j == 0 {
          KeyLineColumns(f, strict);
          assert lines[0][4] != ' ';
        } else {
          var name := if j == 1 then "label" else "frequency";
          var value := if j == 1 then f.id else Join(f.tokens, "/");
          assert lines[j] == Qualifier(name, value);
          QualifierName(name, value);
        }
      }
    }
  }

  /** The qualifier line named "label" or "frequency" is not a /MiHA line. */
  lemma QualifierName(name: string, value: string)
    requires name == "label" || name == "frequency"
    ensures !IsQualifier(Qualifier(name, value), "MiHA")
  {
    var line := Qualifier(name, value);
    assert line[22] == name[0];
  }

  /** All entries, in the order the fold accepted the features. */
  function FeaturesText(fs: seq<Feature>, strict: bool): string
    decreases |fs|
  {
    if fs == [] then "" else FeaturesText(fs[..|fs| - 1], strict) + FeatureText(fs[|fs| - 1], strict)
  }

  /** Writing one more entry appends its text. */
  lemma FeaturesTextAppend(fs: seq<Feature>, f: Feature, strict: bool)
    ensures FeaturesText(fs + [f], strict) == FeaturesText(fs, strict) + FeatureText(f, strict)
  {
    assert (fs + [f])[..|fs|] == fs;
  }

  // ---------------------------------------------------------------------------
  // The ORIGIN block (seq4primers.py:134-143).

  /** `'{:>9}'.format(i + 1)`: the 1-based position of the line's first base. */
  function Offset(i: nat): string {
    RightJustify(NatToString(i + 1), 9)
  }

  function OriginLine(i: nat, bases: string): string {
    Offset(i) + SpaceGroups(bases) + "\n"
  }

  /** The lines for the bases from offset i on, 60 to a line. */
  function OriginLines(s: string, i: nat): seq<string>
    decreases |s| - i
  {
    if i >= |s| then [] else [LineAt(s, i)] + OriginLines(s, i + 60)
  }

  /** The line for the (up to) 60 bases from offset i. */
  function LineAt(s: string, i: nat): string {
    OriginLine(i, Slice(s, i, i + 60))
  }

  /** The while loop of seq4primers.py:136-142, writing one line per pass. */
  method WriteOrigin(s: string) returns (text: string)
    ensures text == Concat(OriginLines(s, 0))
  {
    text := "";
    var i: nat := 0;
    while i < |s|
      invariant text + Concat(OriginLines(s, i)) == Concat(OriginLines(s, 0))
      decreases |s| - i
    {
      var line := Offset(i) + SpaceGroups(Slice(s, i, i + 60)) + "\n";
      NextLine(s, i, line);
      text := text + line;
      i := i + 60;
    }
    assert OriginLines(s, i) == [];
    assert text + "" == text;
  }

  /** The line written at offset i is the first of the lines from i. */
  lemma NextLine(s: string, i: nat, line: string)
    requires i < |s| && line == Offset(i) + SpaceGroups(Slice(s, i, i + 60)) + "\n"
    ensures Concat(OriginLines(s, i)) == line + Concat(OriginLines(s, i + 60))
  {
    assert OriginLines(s, i) == [line] + OriginLines(s, i + 60);
    ConcatCons(line, OriginLines(s, i + 60));
  }

  lemma ConcatCons(x: string, xs: seq<string>)
    ensures Concat([x] + xs) == x + Concat(xs)
  {
    var all := [x] + xs;
    assert all[0] == x && all[1..] == xs;
  }

  /** `"ORIGIN\n"`, the numbered lines, and the closing `"//\n"`. */
  function OriginText(s: string): string {
    "ORIGIN\n" + Concat(OriginLines(s, 0)) + "//\n"
  }

  /** There are ceil((|s| - i) / 60) lines: the fewest whose 60 bases each cover the rest. */
  lemma {:induction false} OriginLineCount(s: string, i: nat)
    ensures i >= |s| ==> OriginLines(s, i) == []
    ensures i < |s| ==> 60 * (|OriginLines(s, i)| - 1) < |s| - i <= 60 * |OriginLines(s, i)|
    decreases |s| - i
  {
    if i < |s| {
      var n := |OriginLines(s, i + 60)|;
      OriginLineCount(s, i + 60);
      assert |OriginLines(s, i)| == n + 1;
    }
  }

  /** The offset of line k of the lines from offset i. */
  function LineStart(i: nat, k: nat): nat {
    i + 60 * k
  }

  /** Line k starts at offset i + 60k, shows that number, and lists the next 60 bases. */
  lemma {:induction false} OriginLineAt(s: string, i: nat, k: nat)
    requires k < |OriginLines(s, i)|
    ensures LineStart(i, k) < |s|
    ensures OriginLines(s, i)[k] == LineAt(s, LineStart(i, k))
    decreases k
  {
    if k == 0 {
      OriginLineFirst(s, i);
    } else {
      OriginLineNext(s, i, k);
      OriginLineAt(s, i + 60, k - 1);
    }
  }

  lemma OriginLineFirst(s: string, i: nat)
    requires OriginLines(s, i) != []
    ensures LineStart(i, 0) == i < |s|
    ensures OriginLines(s, i)[0] == LineAt(s, i)
  {
  }

  lemma OriginLineNext(s: string, i: nat, k: nat)
    requires 0 < k < |OriginLines(s, i)|
    ensures k - 1 < |OriginLines(s, i + 60)|
    ensures OriginLines(s, i)[k] == OriginLines(s, i + 60)[k - 1]
    ensures LineStart(i + 60, k - 1) == LineStart(i, k)
  {
    var rest := OriginLines(s, i + 60);
    assert OriginLines(s, i) == [LineAt(s, i)] + rest;
  }

  /** The bases on a line: what follows the number, without the spaces and the newline. */
  function LineBases(line: string, i: nat): string {
    var w := |Offset(i)|;
    if |line| <= w then "" else RemoveSpaces(line[w..|line| - 1])
  }

  /** The bases of the lines from offset i on, read back one line after another. */
  function ReadBack(lines: seq<string>, i: nat): string
    decreases |lines|
  {
    if lines == [] then "" else LineBases(lines[0], i) + ReadBack(lines[1..], i + 60)
  }

  /** For a window without spaces or newlines, the listed bases read back to the window. */
  lemma {:induction false} OriginReadsBack(s: string, i: nat)
    requires ' ' !in s && '\n' !in s
    ensures ReadBack(OriginLines(s, i), i) == SliceFrom(s, i)
    decreases |s| - i
  {
    if i < |s| {
      var piece := Slice(s, i, i + 60);
      var rest := OriginLines(s, i + 60);
      OriginReadsBack(s, i + 60);
      assert OriginLines(s, i)[0] == LineAt(s, i) && OriginLines(s, i)[1..] == rest;
      PieceFree(s, i, ' ');
      PieceFree(s, i, '\n');
      LineReadsBack(i, piece);
      SliceSplit(s, i);
    }
  }

  lemma LineReadsBack(i: nat, piece: string)
    requires ' ' !in piece && '\n' !in piece
    ensures LineBases(OriginLine(i, piece), i) == piece
  {
    var line := OriginLine(i, piece);
    var g := SpaceGroups(piece);
    FieldOf(Offset(i), g, "\n");
    assert line[|Offset(i)|..|line| - 1] == g;
    SpaceGroupsUnspaced(piece);
  }

  /** The 60 bases from i hold no character the whole window lacks. */
  lemma PieceFree(s: string, i: nat, c: char)
    requires i < |s| && c !in s
    ensures c !in Slice(s, i, i + 60)
  {
    var p := Slice(s, i, i + 60);
    assert forall k :: 0 <= k < |p| ==> p[k] == s[i + k];
  }

  /** The rest of the window from i is the next 60 bases and the rest from i + 60. */
  lemma SliceSplit(s: string, i: nat)
    requires i < |s|
    ensures SliceFrom(s, i) == Slice(s, i, i + 60) + SliceFrom(s, i + 60)
  {
    if i + 60 <= |s| {
      assert s[i..] == s[i..i + 60] + s[i + 60..];
    }
  }

  /** The whole record: header, the entries, then the ORIGIN block over the final window. */
  function Record(header: string, fs: seq<Feature>, strict: bool, window: string): string {
    header + FeaturesText(fs, strict) + OriginText(window)
  }
}
