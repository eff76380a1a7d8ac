/**
 * The variant store and the two queries the flank engine runs against it
 * (seq4primers.py:8-27): the three-piece window fetch for a target SNP, and the
 * overlap lookup that joins SNP locations to their alleles, groups them per SNP
 * and orders them by start position. The SQLite database becomes a value.
 */
module VariantStore {
  import opened Results
  import opened Strings

  /** A row of SNP_location. A NULL reference is the empty string. */
  datatype Location = Location(snpId: string, chrom: string, posFrom: int, len: int, reference: string)

  /** A row of SNP_allele; a NULL frequency is None. Frequencies are kept as their text. */
  datatype Allele = Allele(snpId: string, allele: string, freq: Option<string>)

  /** hgChrom keyed by chromosome name, and the two SNP tables in table order. */
  datatype Db = Db(chroms: map<string, string>, locations: seq<Location>, alleles: seq<Allele>)

  /** A location's span starts at position 1 or later and has a non-negative length. */
  predicate WellFormed(l: Location) {
    l.posFrom >= 1 && l.len >= 0
  }

  /** At most one location row per SNP id, so that GROUP BY snp_id groups one location. */
  predicate UniqueIds(locs: seq<Location>) {
    forall i, j :: 0 <= i < j < |locs| ==> locs[i].snpId != locs[j].snpId
  }

  /** Every location row is well formed. */
  predicate ValidDb(db: Db) {
    forall i :: 0 <= i < |db.locations| ==> WellFormed(db.locations[i])
  }

  // ---------------------------------------------------------------------------
  // The window query (select_seq).

  /** One result row: chromosome, begin, end and the lowered window (None when the
      chromosome is missing from hgChrom, where SQLite yields NULL). */
  datatype WindowRow = WindowRow(chrom: string, beg: int, end: int, bases: Option<string>)

  /** `CASE WHEN pos_from - f > 0 THEN pos_from - f ELSE 1 END` */
  function LeftStart(posFrom: int, f: int): int {
    if posFrom - f > 0 then posFrom - f else 1
  }

  /** The three lowered SUBSTR pieces: f bases from LeftStart, the variant's own span,
      and f bases after it. */
  function WindowSeq(cs: string, l: Location, f: int): string
    requires WellFormed(l) && f >= 0
  {
    Lower(Substr(cs, LeftStart(l.posFrom, f), f)) +
    Lower(Substr(cs, l.posFrom, l.len)) +
    Lower(Substr(cs, l.posFrom + l.len, f))
  }

  function WindowRowOf(chroms: map<string, string>, l: Location, f: int): WindowRow
    requires WellFormed(l) && f >= 0
  {
    WindowRow(l.chrom, l.posFrom, l.posFrom + l.len - 1,
              if l.chrom in chroms then Some(WindowSeq(chroms[l.chrom], l, f)) else None)
  }

  /** `... FROM SNP_location WHERE snp_id = ?`, in table order. */
  function WindowRows(chroms: map<string, string>, locs: seq<Location>, id: string, f: int): (rows: seq<WindowRow>)
    requires forall i :: 0 <= i < |locs| ==> WellFormed(locs[i])
    requires f >= 0
    ensures |rows| <= |locs|
    ensures forall r :: r in rows ==>
              exists l :: l in locs && l.snpId == id && r == WindowRowOf(chroms, l, f)
    decreases |locs|
  {
    if locs == [] then []
    else RowIfMatches(chroms, locs[0], id, f) + WindowRows(chroms, locs[1..], id, f)
  }

  /** The window row of one location row when it belongs to the SNP, and nothing otherwise. */
  function RowIfMatches(chroms: map<string, string>, l: Location, id: string, f: int): seq<WindowRow>
    requires WellFormed(l) && f >= 0
  {
    if l.snpId == id then [WindowRowOf(chroms, l, f)] else []
  }

  /** Every location row of the SNP gives a row of the window query. */
  lemma {:induction false} WindowRowsComplete(chroms: map<string, string>, locs: seq<Location>, id: string, f: int, i: int)
    requires forall k :: 0 <= k < |locs| ==> WellFormed(locs[k])
    requires f >= 0
    requires 0 <= i < |locs| && locs[i].snpId == id
    ensures WindowRowOf(chroms, locs[i], f) in WindowRows(chroms, locs, id, f)
    decreases |locs|
  {
    if i > 0 {
      assert locs[i] == locs[1..][i - 1];
      WindowRowsComplete(chroms, locs[1..], id, f, i - 1);
    }
  }

  /** The window query reads the table in order: the rows of two stretches of it follow each other. */
  lemma {:induction false} WindowRowsAppend(chroms: map<string, string>, a: seq<Location>, b: seq<Location>, id: string, f: int)
    requires forall i :: 0 <= i < |a| ==> WellFormed(a[i])
    requires forall i :: 0 <= i < |b| ==> WellFormed(b[i])
    requires f >= 0
    ensures forall i :: 0 <= i < |a + b| ==> WellFormed((a + b)[i])
    ensures WindowRows(chroms, a + b, id, f) == WindowRows(chroms, a, id, f) + WindowRows(chroms, b, id, f)
    decreases |a|
  {
    AppendWellFormed(a, b);
    if a == [] {
      assert a + b == b;
    } else {
      var ab := a + b;
      assert ab[0] == a[0] && ab[1..] == a[1..] + b;
      WindowRowsAppend(chroms, a[1..], b, id, f);
      var head := RowIfMatches(chroms, a[0], id, f);
      var x, y := WindowRows(chroms, a[1..], id, f), WindowRows(chroms, b, id, f);
      assert WindowRows(chroms, ab, id, f) == head + WindowRows(chroms, ab[1..], id, f);
      assert WindowRows(chroms, a, id, f) == head + x;
      assert head + (x + y) == (head + x) + y;
    }
  }

  lemma AppendWellFormed(a: seq<Location>, b: seq<Location>)
    requires forall i :: 0 <= i < |a| ==> WellFormed(a[i])
    requires forall i :: 0 <= i < |b| ==> WellFormed(b[i])
    ensures forall i :: 0 <= i < |a + b| ==> WellFormed((a + b)[i])
  {
    assert forall i :: 0 <= i < |a + b| ==> (a + b)[i] == if i < |a| then a[i] else b[i - |a|];
  }

  /**
   * Two location rows of the SNP give their window rows in table order: the earlier
   * location's row comes first.
   */
  lemma WindowRowsInOrder(chroms: map<string, string>, locs: seq<Location>, id: string, f: int, i: int, j: int)
    requires forall k :: 0 <= k < |locs| ==> WellFormed(locs[k])
    requires f >= 0
    requires 0 <= i < j < |locs| && locs[i].snpId == id && locs[j].snpId == id
    ensures exists p, q :: 0 <= p < q < |WindowRows(chroms, locs, id, f)| &&
              WindowRows(chroms, locs, id, f)[p] == WindowRowOf(chroms, locs[i], f) &&
              WindowRows(chroms, locs, id, f)[q] == WindowRowOf(chroms, locs[j], f)
  {
    var a, b := locs[..j], locs[j..];
    assert locs == a + b;
    WindowRowsAppend(chroms, a, b, id, f);
    var ra, rb := WindowRows(chroms, a, id, f), WindowRows(chroms, b, id, f);
    assert a[i] == locs[i] && b[0] == locs[j];
    WindowRowsComplete(chroms, a, id, f, i);
    var p :| 0 <= p < |ra| && ra[p] == WindowRowOf(chroms, locs[i], f);
    assert rb[0] == WindowRowOf(chroms, locs[j], f);
    var rows := WindowRows(chroms, locs, id, f);
    assert rows == ra + rb;
    assert rows[p] == ra[p] && rows[|ra|] == rb[0];
  }

  lemma LowerAppend(a: string, b: string)
    ensures Lower(a + b) == Lower(a) + Lower(b)
  {
  }

  /**
   * When the left flank is not clipped, the window is one contiguous stretch of the
   * chromosome: the lowered SUBSTR of f + len + f bases from position pos_from - f,
   * which the chromosome's end may cut short.
   */
  lemma UnclippedWindowIsContiguous(cs: string, l: Location, f: int)
    requires WellFormed(l) && f >= 0
    requires l.posFrom - f > 0
    ensures WindowSeq(cs, l, f) == Lower(Substr(cs, l.posFrom - f, f + l.len + f))
  {
    assert LeftStart(l.posFrom, f) == l.posFrom - f;
    SubstrJoin(cs, l.posFrom - f, f, l.posFrom, l.len, l.posFrom + l.len, f);
  }

  /** Three SUBSTR pieces that follow each other, lowered, make up the lowered whole. */
  lemma SubstrJoin(cs: string, s1: int, n1: nat, s2: int, n2: nat, s3: int, n3: nat)
    requires s1 >= 1 && s2 == s1 + n1 && s3 == s2 + n2
    ensures Lower(Substr(cs, s1, n1)) + Lower(Substr(cs, s2, n2)) + Lower(Substr(cs, s3, n3)) ==
            Lower(Substr(cs, s1, n1 + n2 + n3))
  {
    var n := |cs|;
    var a, b, c, d := Min(s1 - 1, n), Min(s2 - 1, n), Min(s3 - 1, n), Min(s3 - 1 + n3, n);
    assert Substr(cs, s1, n1) == cs[a..b];
    assert Substr(cs, s2, n2) == cs[b..c];
    assert Substr(cs, s3, n3) == cs[c..d];
    assert Substr(cs, s1, n1 + n2 + n3) == cs[a..d];
    PiecesJoin(cs, a, b, c, d);
  }

  lemma PiecesJoin(cs: string, a: nat, b: nat, c: nat, d: nat)
    requires a <= b <= c <= d <= |cs|
    ensures Lower(cs[a..b]) + Lower(cs[b..c]) + Lower(cs[c..d]) == Lower(cs[a..d])
  {
    assert cs[a..b] + cs[b..c] + cs[c..d] == cs[a..d];
    LowerAppend(cs[a..b], cs[b..c]);
    LowerAppend(cs[a..b] + cs[b..c], cs[c..d]);
  }

  /**
   * When the left flank is clipped (pos_from - f <= 0), the left piece is still f
   * bases long and starts at position 1: on a chromosome long enough the window is
   * 2f + len bases and opens with the first f bases, which reach past the variant's
   * own start whenever pos_from <= f.
   */
  lemma ClippedWindowKeepsFullLeftPiece(cs: string, l: Location, f: int)
    requires WellFormed(l) && f >= 0
    requires l.posFrom - f <= 0
    requires l.posFrom + l.len - 1 + f <= |cs|
    ensures |WindowSeq(cs, l, f)| == 2 * f + l.len
    ensures WindowSeq(cs, l, f)[..f] == Lower(cs[..f])
    ensures WindowSeq(cs, l, f)[f .. f + l.len] == Lower(cs[l.posFrom - 1 .. l.posFrom - 1 + l.len])
  {
    assert LeftStart(l.posFrom, f) == 1;
    var x, y := Substr(cs, 1, f), Substr(cs, l.posFrom, l.len);
    var z := Substr(cs, l.posFrom + l.len, f);
    assert x == cs[..f];
    assert y == cs[l.posFrom - 1 .. l.posFrom - 1 + l.len];
    assert |z| == f;
    ThreeParts(Lower(x), Lower(y), Lower(z));
  }

  lemma ThreeParts(x: string, y: string, z: string)
    ensures |x + y + z| == |x| + |y| + |z|
    ensures (x + y + z)[..|x|] == x && (x + y + z)[|x| .. |x| + |y|] == y
  {
  }

  // ---------------------------------------------------------------------------
  // The overlap query (select_snp).

  /** One grouped result row. obs and freq are the GROUP_CONCAT texts ("" for NULL). */
  datatype Overlap = Overlap(id: string, beg: int, end: int, ref: string, obs: string, freq: string)

  /** `chrom = ? AND pos_from BETWEEN lo AND hi AND pos_from + len - 1 BETWEEN lo AND hi` */
  predicate InWindow(l: Location, chrom: string, lo: int, hi: int) {
    l.chrom == chrom && lo <= l.posFrom <= hi && lo <= l.posFrom + l.len - 1 <= hi
  }

  /** The alleles of one SNP, in table order. */
  function AllelesOf(alleles: seq<Allele>, id: string): (r: seq<string>)
    ensures |r| <= |alleles|
    decreases |alleles|
  {
    if alleles == [] then []
    else (if alleles[0].snpId == id then [alleles[0].allele] else []) + AllelesOf(alleles[1..], id)
  }

  /** The non-NULL frequencies of one SNP, in table order (GROUP_CONCAT skips NULLs). */
  function FreqsOf(alleles: seq<Allele>, id: string): (r: seq<string>)
    ensures |r| <= |AllelesOf(alleles, id)|
    decreases |alleles|
  {
    if alleles == [] then []
    else
      (if alleles[0].snpId == id && alleles[0].freq.Some? then [alleles[0].freq.value] else []) +
      FreqsOf(alleles[1..], id)
  }

  /** A location joined to its alleles and grouped. */
  function GroupOf(alleles: seq<Allele>, l: Location): Overlap {
    Overlap(l.snpId, l.posFrom, l.posFrom + l.len - 1, l.reference,
            Join(AllelesOf(alleles, l.snpId), ","), Join(FreqsOf(alleles, l.snpId), ","))
  }

  /** The WHERE clause together with the INNER JOIN: the SNP needs at least one allele row. */
  predicate Selected(alleles: seq<Allele>, l: Location, chrom: string, lo: int, hi: int) {
    InWindow(l, chrom, lo, hi) && AllelesOf(alleles, l.snpId) != []
  }

  /** The grouped rows before ORDER BY, in table order. */
  function Candidates(locs: seq<Location>, alleles: seq<Allele>, chrom: string, lo: int, hi: int): seq<Overlap>
    decreases |locs|
  {
    if locs == [] then []
    else
      (if Selected(alleles, locs[0], chrom, lo, hi) then [GroupOf(alleles, locs[0])] else []) +
      Candidates(locs[1..], alleles, chrom, lo, hi)
  }

  predicate SortedByBeg(s: seq<Overlap>) {
    forall i, j :: 0 <= i < j < |s| ==> s[i].beg <= s[j].beg
  }

  predicate DistinctIds(s: seq<Overlap>) {
    forall i, j :: 0 <= i < j < |s| ==> s[i].id != s[j].id
  }

  /** Insert x before the first element that does not start earlier than x. */
  function Insert(x: Overlap, s: seq<Overlap>): (r: seq<Overlap>)
    ensures multiset(r) == multiset(s) + multiset{x}
    decreases |s|
  {
    if s == [] || x.beg <= s[0].beg then [x] + s
    else
      assert s == [s[0]] + s[1..];
      [s[0]] + Insert(x, s[1..])
  }

  /** Every element of an insertion's result is the inserted one or an old one. */
  lemma InsertMembers(x: Overlap, s: seq<Overlap>, y: Overlap)
    requires y in Insert(x, s)
    ensures y == x || y in s
  {
    assert y in multiset(Insert(x, s));
  }

  /** Inserting into a sorted sequence keeps it sorted. */
  lemma {:induction false} InsertSorted(x: Overlap, s: seq<Overlap>)
    requires SortedByBeg(s)
    ensures SortedByBeg(Insert(x, s))
    decreases |s|
  {
    if !(s == [] || x.beg <= s[0].beg) {
      var t := Insert(x, s[1..]);
      InsertSorted(x, s[1..]);
      forall y | y in t ensures y.beg >= s[0].beg {
        InsertMembers(x, s[1..], y);
        if y != x {
          var k :| 0 <= k < |s[1..]| && s[1..][k] == y;
          assert s[k + 1] == y;
        }
      }
      var r := [s[0]] + t;
      forall i, j | 0 <= i < j < |r| ensures r[i].beg <= r[j].beg {
        assert r[j] == t[j - 1];
        if i > 0 {
          assert r[i] == t[i - 1];
        } else {
          assert t[j - 1] in t;
        }
      }
    }
  }

  /** ORDER BY pos_from, as an insertion sort that keeps table order among equal starts. */
  function SortByBeg(s: seq<Overlap>): (r: seq<Overlap>)
    ensures SortedByBeg(r)
    ensures multiset(r) == multiset(s)
    decreases |s|
  {
    if s == [] then []
    else
      assert s == [s[0]] + s[1..];
      InsertSorted(s[0], SortByBeg(s[1..]));
      Insert(s[0], SortByBeg(s[1..]))
  }

  /** The whole query: the selected, grouped locations in ascending pos_from order. */
  function Overlaps(db: Db, chrom: string, lo: int, hi: int): seq<Overlap> {
    SortByBeg(Candidates(db.locations, db.alleles, chrom, lo, hi))
  }

  lemma {:induction false} CandidatesMembers(locs: seq<Location>, alleles: seq<Allele>, chrom: string, lo: int, hi: int, o: Overlap)
    ensures o in Candidates(locs, alleles, chrom, lo, hi) <==>
            exists l :: l in locs && Selected(alleles, l, chrom, lo, hi) && o == GroupOf(alleles, l)
    decreases |locs|
  {
    if locs != [] {
      CandidatesMembers(locs[1..], alleles, chrom, lo, hi, o);
      assert forall l :: l in locs <==> l == locs[0] || l in locs[1..] by {
        assert locs == [locs[0]] + locs[1..];
      }
    }
  }

  /**
   * A record comes out of the overlap query exactly when some location row on the
   * chromosome has both ends inside [lo, hi] and at least one allele row; it is that
   * location grouped with its alleles, and the result is ordered by pos_from.
   */
  lemma OverlapsSelection(db: Db, chrom: string, lo: int, hi: int, o: Overlap)
    ensures o in Overlaps(db, chrom, lo, hi) <==>
            exists l :: l in db.locations && InWindow(l, chrom, lo, hi) &&
                        AllelesOf(db.alleles, l.snpId) != [] && o == GroupOf(db.alleles, l)
    ensures SortedByBeg(Overlaps(db, chrom, lo, hi))
  {
    var c := Candidates(db.locations, db.alleles, chrom, lo, hi);
    CandidatesMembers(db.locations, db.alleles, chrom, lo, hi, o);
    assert o in Overlaps(db, chrom, lo, hi) <==> o in multiset(c);
  }

  lemma {:induction false} CandidatesDistinct(locs: seq<Location>, alleles: seq<Allele>, chrom: string, lo: int, hi: int)
    requires UniqueIds(locs)
    ensures DistinctIds(Candidates(locs, alleles, chrom, lo, hi))
    ensures forall o :: o in Candidates(locs, alleles, chrom, lo, hi) ==>
              exists l :: l in locs && o.id == l.snpId
    decreases |locs|
  {
    if locs != [] {
      var x, tail := locs[0], locs[1..];
      UniqueTail(locs);
      CandidatesDistinct(tail, alleles, chrom, lo, hi);
      var rest := Candidates(tail, alleles, chrom, lo, hi);
      forall o | o in rest ensures o.id != x.snpId && exists l :: l in locs && o.id == l.snpId {
        var l :| l in tail && o.id == l.snpId;
        FirstIdFresh(locs, l);
        assert l in locs;
      }
      if Selected(alleles, x, chrom, lo, hi) {
        var g := GroupOf(alleles, x);
        ConsDistinct(g, rest);
        assert forall o :: o in [g] + rest ==> o == g || o in rest;
      }
    }
  }

  lemma UniqueTail(locs: seq<Location>)
    requires UniqueIds(locs) && locs != []
    ensures UniqueIds(locs[1..])
  {
    var tail := locs[1..];
    forall i, j | 0 <= i < j < |tail| ensures tail[i].snpId != tail[j].snpId {
      assert tail[i] == locs[i + 1] && tail[j] == locs[j + 1];
    }
  }

  lemma FirstIdFresh(locs: seq<Location>, l: Location)
    requires UniqueIds(locs) && locs != [] && l in locs[1..]
    ensures l.snpId != locs[0].snpId
  {
    var k :| 0 <= k < |locs[1..]| && locs[1..][k] == l;
    assert locs[k + 1] == l;
  }

  lemma ConsDistinct(x: Overlap, s: seq<Overlap>)
    requires DistinctIds(s) && forall y :: y in s ==> y.id != x.id
    ensures DistinctIds([x] + s)
  {
    var r := [x] + s;
    forall i, j | 0 <= i < j < |r| ensures r[i].id != r[j].id {
      assert r[j] == s[j - 1];
      if i > 0 {
        assert r[i] == s[i - 1];
      } else {
        assert s[j - 1] in s;
      }
    }
  }

  lemma {:induction false} InsertDistinct(x: Overlap, s: seq<Overlap>)
    requires DistinctIds(s) && forall y :: y in s ==> y.id != x.id
    ensures DistinctIds(Insert(x, s))
    decreases |s|
  {
    if !(s == [] || x.beg <= s[0].beg) {
      InsertDistinct(x, s[1..]);
      var t := Insert(x, s[1..]);
      forall y | y in t ensures y.id != s[0].id {
        InsertMembers(x, s[1..], y);
        if y != x {
          assert y in s[1..];
        }
      }
    }
  }

  lemma {:induction false} SortDistinct(s: seq<Overlap>)
    requires DistinctIds(s)
    ensures DistinctIds(SortByBeg(s))
    decreases |s|
  {
    if s != [] {
      SortDistinct(s[1..]);
      forall y | y in SortByBeg(s[1..]) ensures y.id != s[0].id {
        assert y in multiset(SortByBeg(s[1..]));
        var k :| 0 <= k < |s[1..]| && s[1..][k] == y;
        assert s[k + 1] == y;
      }
      InsertDistinct(s[0], SortByBeg(s[1..]));
    }
  }

  /** With one location row per SNP id, no SNP id comes out of the overlap query twice. */
  lemma OverlapsDistinct(db: Db, chrom: string, lo: int, hi: int)
    requires UniqueIds(db.locations)
    ensures DistinctIds(Overlaps(db, chrom, lo, hi))
  {
    CandidatesDistinct(db.locations, db.alleles, chrom, lo, hi);
    SortDistinct(Candidates(db.locations, db.alleles, chrom, lo, hi));
  }

  /** The lower bound of the overlap query for a target SNP: its start minus the flank. */
  function WindowLo(l: Location, f: int): int {
    l.posFrom - f
  }

  /** The upper bound: the target's last position plus the flank. */
  function WindowHi(l: Location, f: int): int {
    l.posFrom + l.len - 1 + f
  }

  /**
   * The target SNP's own location, if it has alleles and a span of at least one base
   * (or a positive flank), lies in its own window, so the overlap query returns it.
   */
  lemma TargetInOwnWindow(db: Db, l: Location, f: int)
    requires l in db.locations && WellFormed(l) && f >= 0
    requires l.len >= 1 || f >= 1
    requires AllelesOf(db.alleles, l.snpId) != []
    ensures GroupOf(db.alleles, l) in Overlaps(db, l.chrom, WindowLo(l, f), WindowHi(l, f))
  {
    OwnWindowSelects(db, l, f);
    SelectedIsReturned(db, l.chrom, WindowLo(l, f), WindowHi(l, f), l);
  }

  lemma OwnWindowSelects(db: Db, l: Location, f: int)
    requires WellFormed(l) && f >= 0
    requires l.len >= 1 || f >= 1
    requires AllelesOf(db.alleles, l.snpId) != []
    ensures Selected(db.alleles, l, l.chrom, WindowLo(l, f), WindowHi(l, f))
  {
  }

  lemma SelectedIsReturned(db: Db, chrom: string, lo: int, hi: int, l: Location)
    requires l in db.locations && Selected(db.alleles, l, chrom, lo, hi)
    ensures GroupOf(db.alleles, l) in Overlaps(db, chrom, lo, hi)
  {
    var c := Candidates(db.locations, db.alleles, chrom, lo, hi);
    CandidatesHave(db.locations, db.alleles, chrom, lo, hi, l);
    SortKeeps(c, GroupOf(db.alleles, l));
  }

  lemma {:induction false} CandidatesHave(locs: seq<Location>, alleles: seq<Allele>, chrom: string, lo: int, hi: int, l: Location)
    requires l in locs && Selected(alleles, l, chrom, lo, hi)
    ensures GroupOf(alleles, l) in Candidates(locs, alleles, chrom, lo, hi)
    decreases |locs|
  {
    if locs[0] != l {
      assert l in locs[1..];
      CandidatesHave(locs[1..], alleles, chrom, lo, hi, l);
    }
  }

  lemma SortKeeps(s: seq<Overlap>, o: Overlap)
    requires o in s
    ensures o in SortByBeg(s)
  {
    assert o in multiset(s);
    assert o in multiset(SortByBeg(s));
  }

  /**
   * When none of a SNP's allele rows has a NULL frequency, the two GROUP_CONCAT lists
   * line up: one frequency per allele, in the same order.
   */
  lemma {:induction false} FreqsAlign(alleles: seq<Allele>, id: string)
    requires forall i :: 0 <= i < |alleles| && alleles[i].snpId == id ==> alleles[i].freq.Some?
    ensures |FreqsOf(alleles, id)| == |AllelesOf(alleles, id)|
    decreases |alleles|
  {
    if alleles != [] {
      FreqsAlign(alleles[1..], id);
    }
  }
}
