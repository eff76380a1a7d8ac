/**
 * The string operations the flank engine relies on, each stated as a total function:
 * SQLite's LOWER and SUBSTR, Python's str.lower/str.upper, slicing, str.join, `'{:>w}'`
 * formatting and str(int), and the two regular expressions the program uses
 * (`re.split(r', *', ...)` and `re.sub(r'(.{1,10})', r' \1', ...)`).
 */
module Strings {

  function Min(a: int, b: int): int { if a <= b then a else b }

  function Max(a: int, b: int): int { if a <= b then b else a }

  // ---------------------------------------------------------------------------
  // Case mapping. SQLite's LOWER folds ASCII letters only; the model does the same
  // for Python's lower() and upper().

  function LowerChar(c: char): (r: char)
    ensures !('A' <= r <= 'Z')
  {
    if 'A' <= c <= 'Z' then (c as int + 32) as char else c
  }

  function UpperChar(c: char): (r: char)
    ensures !('a' <= r <= 'z')
    ensures LowerChar(r) == LowerChar(c)
  {
    if 'a' <= c <= 'z' then (c as int - 32) as char else c
  }

  function Lower(s: string): (r: string)
    ensures |r| == |s|
    ensures forall i :: 0 <= i < |s| ==> r[i] == LowerChar(s[i])
  {
    seq(|s|, i requires 0 <= i < |s| => LowerChar(s[i]))
  }

  function Upper(s: string): (r: string)
    ensures |r| == |s|
    ensures forall i :: 0 <= i < |s| ==> r[i] == UpperChar(s[i])
  {
    seq(|s|, i requires 0 <= i < |s| => UpperChar(s[i]))
  }

  lemma UpperOfLower(s: string)
    ensures Upper(Lower(s)) == Upper(s)
  {
    forall i | 0 <= i < |s| ensures UpperChar(LowerChar(s[i])) == UpperChar(s[i]) {
      var c := s[i];
      if 'A' <= c <= 'Z' {
        assert 'a' <= LowerChar(c) <= 'z';
      }
    }
  }

  /** Python's `a.upper() == b.upper()`. */
  predicate SameIgnoringCase(a: string, b: string) {
    Upper(a) == Upper(b)
  }

  // ---------------------------------------------------------------------------
  // Python slicing, step 1: a negative bound counts from the end, then both bounds
  // are clamped to the string; a stop at or before the start gives "".

  function Bound(i: int, n: nat): (r: nat)
    ensures r <= n
    ensures 0 <= i ==> r == Min(i, n)
  {
    if i < 0 then (if i + n < 0 then 0 else i + n) else if i > n then n else i
  }

  /** `s[a:b]` */
  function Slice(s: string, a: int, b: int): (r: string)
    ensures |r| <= |s|
    ensures 0 <= a <= b <= |s| ==> r == s[a..b]
    ensures 0 <= b <= a ==> r == ""
    ensures 0 <= a <= |s| <= b ==> r == s[a..]
  {
    var lo, hi := Bound(a, |s|), Bound(b, |s|);
    if lo < hi then s[lo..hi] else ""
  }

  /** `s[a:]` */
  function SliceFrom(s: string, a: int): (r: string)
    ensures 0 <= a <= |s| ==> r == s[a..]
  {
    Slice(s, a, |s|)
  }

  // ---------------------------------------------------------------------------
  // SQLite's SUBSTR with a 1-based start of at least 1 and a non-negative length:
  // the result is clipped at the end of the string.

  function Substr(s: string, start: int, len: int): (r: string)
    requires start >= 1 && len >= 0
    ensures |r| <= len
    ensures start - 1 + len <= |s| ==> r == s[start - 1 .. start - 1 + len]
    ensures start - 1 <= |s| <= start - 1 + len ==> r == s[start - 1 ..]
    ensures start - 1 >= |s| ==> r == ""
  {
    s[Min(start - 1, |s|) .. Min(start - 1 + len, |s|)]
  }

  // ---------------------------------------------------------------------------
  // `re.split(r', *', s)` and `sep.join(xs)`.

  /** The spaces a `' *'` consumes after a comma. */
  function DropSpaces(s: string): (r: string)
    ensures |r| <= |s|
    ensures r == [] || r[0] != ' '
    decreases |s|
  {
    if s != [] && s[0] == ' ' then DropSpaces(s[1..]) else s
  }

  /**
   * `re.split(r', *', s)`: cut at every comma and drop the spaces that follow it.
   * There is always at least one token; no token holds a comma, and no token after
   * the first starts with a space.
   */
  function SplitCommas(s: string): (r: seq<string>)
    ensures |r| >= 1
    ensures forall i :: 0 <= i < |r| ==> ',' !in r[i]
    ensures forall i :: 1 <= i < |r| ==> r[i] == [] || r[i][0] != ' '
    ensures s == [] || s[0] == ',' ==> r[0] == []
    ensures s != [] && s[0] != ',' ==> r[0] != [] && r[0][0] == s[0]
    decreases |s|
  {
    if s == [] then [""]
    else if s[0] == ',' then [""] + SplitCommas(DropSpaces(s[1..]))
    else
      var t := SplitCommas(s[1..]);
      [[s[0]] + t[0]] + t[1..]
  }

  /** `sep.join(xs)`; also what SQLite's GROUP_CONCAT builds, with sep = ",". */
  function Join(xs: seq<string>, sep: string): string
    decreases |xs|
  {
    if |xs| == 0 then "" else if |xs| == 1 then xs[0] else xs[0] + sep + Join(xs[1..], sep)
  }

  /** The strings that `SplitCommas` gives back unchanged after a comma join. */
  predicate Splittable(xs: seq<string>) {
    |xs| >= 1 &&
    (forall i :: 0 <= i < |xs| ==> ',' !in xs[i]) &&
    (forall i :: 1 <= i < |xs| ==> xs[i] == [] || xs[i][0] != ' ')
  }

  lemma {:induction false} SplitCommasPrefix(x: string, t: string)
    requires ',' !in x
    ensures SplitCommas(x + t) == [x + SplitCommas(t)[0]] + SplitCommas(t)[1..]
    decreases |x|
  {
    if x == [] {
      assert x + t == t;
      assert x + SplitCommas(t)[0] == SplitCommas(t)[0];
      assert [SplitCommas(t)[0]] + SplitCommas(t)[1..] == SplitCommas(t);
    } else {
      assert (x + t)[0] == x[0];
      assert (x + t)[1..] == x[1..] + t;
      SplitCommasPrefix(x[1..], t);
      assert [x[0]] + (x[1..] + SplitCommas(t)[0]) == x + SplitCommas(t)[0];
    }
  }

  /** Splitting a comma join gives the parts back. */
  lemma {:induction false} SplitJoin(xs: seq<string>)
    requires Splittable(xs)
    ensures SplitCommas(Join(xs, ",")) == xs
    decreases |xs|
  {
    if |xs| == 1 {
      SplitCommasPrefix(xs[0], "");
      assert xs[0] + "" == xs[0];
    } else {
      var tail, rest := xs[1..], Join(xs[1..], ",");
      SplittableTail(xs);
      SplitJoin(tail);
      JoinTailUnspaced(xs);
      CommaLead(rest, tail);
      assert Join(xs, ",") == xs[0] + ("," + rest);
      SplitCommasPrefix(xs[0], "," + rest);
      assert xs[0] + "" == xs[0];
      assert [xs[0]] + tail == xs;
    }
  }

  lemma SplittableTail(xs: seq<string>)
    requires Splittable(xs) && |xs| >= 2
    ensures Splittable(xs[1..])
  {
    var tail := xs[1..];
    forall i | 0 <= i < |tail| ensures tail[i] == xs[i + 1] {
    }
  }

  /** A comma join of the parts after the first does not start with a space. */
  lemma JoinTailUnspaced(xs: seq<string>)
    requires Splittable(xs) && |xs| >= 2
    ensures DropSpaces(Join(xs[1..], ",")) == Join(xs[1..], ",")
  {
    var tail, rest := xs[1..], Join(xs[1..], ",");
    assert tail[0] == xs[1];
    if |tail| > 1 {
      assert rest == xs[1] + "," + Join(tail[1..], ",");
    }
    assert rest == [] || rest[0] != ' ';
  }

  lemma CommaLead(rest: string, ys: seq<string>)
    requires DropSpaces(rest) == rest && SplitCommas(rest) == ys
    ensures SplitCommas("," + rest) == [""] + ys
  {
    var s := "," + rest;
    assert s[0] == ',' && s[1..] == rest;
  }

  // ---------------------------------------------------------------------------
  // Formatting: `'{:>w}'.format(...)` and str(int).

  function Spaces(n: nat): (r: string)
    ensures |r| == n
    ensures forall i :: 0 <= i < n ==> r[i] == ' '
  {
    seq(n, _ => ' ')
  }

  /** `'{:>w}'.format(s)`: pad on the left with spaces up to width w; never truncates. */
  function RightJustify(s: string, w: nat): (r: string)
    ensures |r| == Max(|s|, w)
    ensures r[|r| - |s|..] == s
    ensures forall i :: 0 <= i < |r| - |s| ==> r[i] == ' '
  {
    (if |s| < w then Spaces(w - |s|) else "") + s
  }

  function DigitChar(d: nat): char
    requires d < 10
  {
    ('0' as int + d) as char
  }

  /** `str(n)` for a non-negative integer: decimal digits, no leading zero. */
  function NatToString(n: nat): (r: string)
    ensures |r| >= 1
    ensures forall i :: 0 <= i < |r| ==> '0' <= r[i] <= '9'
    decreases n
  {
    if n < 10 then [DigitChar(n)] else NatToString(n / 10) + [DigitChar(n % 10)]
  }

  /** `str(i)` */
  function IntToString(i: int): string {
    if i < 0 then "-" + NatToString(-i) else NatToString(i)
  }

  /** The value of a string of decimal digits (the reading `int(...)` would give). */
  function DigitsValue(s: string): int
    decreases |s|
  {
    if s == [] then 0 else DigitsValue(s[..|s| - 1]) * 10 + (s[|s| - 1] as int - '0' as int)
  }

  /** `str` on non-negative integers can be read back. */
  lemma {:induction false} NatToStringValue(n: nat)
    ensures DigitsValue(NatToString(n)) == n
    decreases n
  {
    var r := NatToString(n);
    if n >= 10 {
      NatToStringValue(n / 10);
      assert r[..|r| - 1] == NatToString(n / 10);
    }
  }

  // ---------------------------------------------------------------------------
  // `re.sub(r'(.{1,10})', r' \1', s)`: a space in front of every run of up to ten
  // characters that are not newlines ('.' does not match a newline).

  /** Length of the match of `.{1,max}` at the start of s (0 when there is none). */
  function RunLength(s: string, max: nat): (k: nat)
    ensures k <= max && k <= |s|
    ensures forall i :: 0 <= i < k ==> s[i] != '\n'
    ensures k < max && k < |s| ==> s[k] == '\n'
    decreases max
  {
    if max == 0 || s == [] || s[0] == '\n' then 0 else 1 + RunLength(s[1..], max - 1)
  }

  function SpaceGroups(s: string): string
    decreases |s|
  {
    if s == [] then ""
    else if s[0] == '\n' then "\n" + SpaceGroups(s[1..])
    else
      var k := RunLength(s, 10);
      " " + s[..k] + SpaceGroups(s[k..])
  }

  function Concat(ss: seq<string>): string
    decreases |ss|
  {
    if ss == [] then "" else ss[0] + Concat(ss[1..])
  }

  /** The consecutive pieces of s of length n (the last one possibly shorter). */
  function Chunks(s: string, n: nat): (r: seq<string>)
    requires n > 0
    ensures Concat(r) == s
    ensures forall i :: 0 <= i < |r| ==> 1 <= |r[i]| <= n
    ensures forall i :: 0 <= i < |r| - 1 ==> |r[i]| == n
    decreases |s|
  {
    if s == [] then [] else if |s| <= n then [s] else [s[..n]] + Chunks(s[n..], n)
  }

  /** `Chunks(s, n)` has ceil(|s| / n) pieces: the least count whose n-fold covers s. */
  lemma {:induction false} ChunksCount(s: string, n: nat)
    requires n > 0
    ensures n * (|Chunks(s, n)| - 1) < |s| <= n * |Chunks(s, n)|
    decreases |s|
  {
    if |s| > n {
      var c, m := |Chunks(s, n)|, |Chunks(s[n..], n)|;
      assert c == m + 1;
      ChunksCount(s[n..], n);
      MulStep(n, m, c);
    }
  }

  lemma MulStep(n: nat, m: int, c: int)
    requires c == m + 1
    ensures n * (c - 1) == n * m && n * c == n * m + n && n * (m - 1) == n * m - n
  {
  }

  /** A space before each chunk, as `' ' + c` joined together. */
  function SpacedChunks(cs: seq<string>): string
    decreases |cs|
  {
    if cs == [] then "" else " " + cs[0] + SpacedChunks(cs[1..])
  }

  /** On text without newlines the substitution puts one space before every group of ten. */
  lemma {:induction false} SpaceGroupsByTen(t: string)
    requires '\n' !in t
    ensures SpaceGroups(t) == SpacedChunks(Chunks(t, 10))
    decreases |t|
  {
    if t != [] {
      var k := RunLength(t, 10);
      var head, rest := t[..k], t[k..];
      assert k == Min(10, |t|);
      SliceFree(t, k, '\n');
      SpaceGroupsByTen(rest);
      assert SpaceGroups(t) == " " + head + SpaceGroups(rest);
      if |t| <= 10 {
        assert head == t && rest == [];
        assert Chunks(t, 10) == [head];
        SpacedChunksCons(head, []);
      } else {
        assert Chunks(t, 10) == [head] + Chunks(rest, 10);
        SpacedChunksCons(head, Chunks(rest, 10));
      }
    }
  }

  lemma SpacedChunksCons(c: string, cs: seq<string>)
    ensures SpacedChunks([c] + cs) == " " + c + SpacedChunks(cs)
  {
    var all := [c] + cs;
    assert all[0] == c && all[1..] == cs;
  }

  /** Deleting the spaces from a string. */
  function RemoveSpaces(s: string): (r: string)
    decreases |s|
  {
    if s == [] then "" else (if s[0] == ' ' then "" else [s[0]]) + RemoveSpaces(s[1..])
  }

  lemma {:induction false} RemoveSpacesAppend(a: string, b: string)
    ensures RemoveSpaces(a + b) == RemoveSpaces(a) + RemoveSpaces(b)
    decreases |a|
  {
    if a != [] {
      assert (a + b)[0] == a[0];
      assert (a + b)[1..] == a[1..] + b;
      RemoveSpacesAppend(a[1..], b);
    } else {
      assert a + b == b;
    }
  }

  lemma {:induction false} RemoveSpacesNone(a: string)
    requires ' ' !in a
    ensures RemoveSpaces(a) == a
    decreases |a|
  {
    if a != [] {
      assert a[1..] + [] == a[1..];
      assert forall c :: c in a[1..] ==> c in a;
      RemoveSpacesNone(a[1..]);
      assert [a[0]] + a[1..] == a;
    }
  }

  /** Deleting the inserted spaces gives back the grouped text. */
  lemma {:induction false} SpaceGroupsUnspaced(t: string)
    requires '\n' !in t && ' ' !in t
    ensures RemoveSpaces(SpaceGroups(t)) == t
    decreases |t|
  {
    if t != [] {
      var k := RunLength(t, 10);
      var head, rest := t[..k], t[k..];
      SliceFree(t, k, '\n');
      SliceFree(t, k, ' ');
      SpaceGroupsUnspaced(rest);
      assert SpaceGroups(t) == " " + head + SpaceGroups(rest);
      SpacedPiece(head, SpaceGroups(rest));
      assert head + rest == t;
    }
  }

  lemma SliceFree(t: string, k: nat, c: char)
    requires k <= |t| && c !in t
    ensures c !in t[..k] && c !in t[k..]
  {
    assert forall d :: d in t[..k] ==> d in t;
    assert forall d :: d in t[k..] ==> d in t;
  }

  /** Deleting the spaces from a space, a space-free group and the rest. */
  lemma SpacedPiece(head: string, g: string)
    requires ' ' !in head
    ensures RemoveSpaces(" " + head + g) == head + RemoveSpaces(g)
  {
    var sh := " " + head;
    RemoveSpacesAppend(sh, g);
    DropLeadingSpace(head);
    RemoveSpacesNone(head);
  }

  lemma DropLeadingSpace(x: string)
    ensures RemoveSpaces(" " + x) == RemoveSpaces(x)
  {
    var s := " " + x;
    assert s[0] == ' ' && s[1..] == x;
  }
}
