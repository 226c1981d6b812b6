/** What the compiled masks generate: every UID of the range is generated
    (except where the middle guard misses it), the shape of every entry, and
    the number of entries. */
module MaskCoverage {
  import opened PyResults
  import opened Text
  import opened Decimal
  import opened UidRanges
  import opened Utils
  import opened OrderedDicts
  import opened Masks
  import opened MaskCompiler

  /** Some mask of the map generates byte string `w`. */
  predicate Generates(m: MaskMap, standard: bool, w: seq<Byte>) {
    exists i {:trigger Matches(m[i].key, m[i].value, standard, w)} :: 0 <= i < |m| && Matches(m[i].key, m[i].value, standard, w)
  }

  /** The ranges the compiler's middle guard misses: ends of one length, a
      pivot that is not the last digit, pivot digits one apart, and next
      digits `0` in the start and `9` in the end. */
  predicate MiddleGap(r: UidRange)
    requires 0 <= r.start
  {
    LayoutGap(LayoutOf(r))
  }

  predicate LayoutGap(l: Layout)
    requires ValidLayout(l)
  {
    |l.s| == |l.e| && l.suffixLen > 0 && l.hi == l.lo + 1 && l.s[l.index + 1] == '0' && l.e[l.index + 1] == '9'
  }

  /** What the layout's masks generate, the range's masks generate; the
      preimage of a UID is the encoding of its decimal text. */
  lemma CompileGenerates(standard: bool, r: UidRange, corrected: bool, n: nat)
    requires 0 <= r.start
    requires Generates(CompileLayout(standard, LayoutOf(r), corrected), standard, Encode(Str(n), standard))
    ensures Generates(Compile(standard, r, corrected), standard, Preimage(n, standard))
  {
  }

  lemma GetGenerates(m: MaskMap, k: string, v: seq<string>, standard: bool, w: seq<Byte>)
    requires Get(m, k) == Some(v)
    ensures Matches(k, v, standard, w) ==> Generates(m, standard, w)
  {
    var i :| 0 <= i < |m| && m[i] == Entry(k, v);
  }

  // ---------------------------------------------------------------------
  // Digits of the numbers in the range

  /** Every number of a same-length range shares the digits its ends share. */
  lemma {:induction false} CommonPrefix(s: string, e: string, n: string, j: nat)
    requires IsDigitString(s) && IsDigitString(e) && IsDigitString(n) && |s| == |e| == |n|
    requires Value(s) <= Value(n) <= Value(e) && j <= |s| && s[..j] == e[..j]
    ensures n[..j] == s[..j]
  {
    if j > 0 {
      assert s[..j - 1] == s[..j][..j - 1] && e[..j - 1] == e[..j][..j - 1];
      CommonPrefix(s, e, n, j - 1);
      assert s[j - 1] == s[..j][j - 1] && e[j - 1] == e[..j][j - 1];
      if DigitValue(n[j - 1]) < DigitValue(s[j - 1]) {
        FirstDifferenceDecides(n, s, j - 1);
      }
      if DigitValue(n[j - 1]) > DigitValue(s[j - 1]) {
        FirstDifferenceDecides(e, n, j - 1);
      }
      assert n[..j] == n[..j - 1] + [n[j - 1]] && s[..j] == s[..j - 1] + [s[j - 1]];
    }
  }

  /** For ends of one length the pivot splits a shared prefix from pivot
      digits `lo <= hi`, which are equal only when the range has one UID. */
  lemma SameLengthLayout(r: UidRange)
    requires 0 <= r.start && |Str(r.start)| == |Str(r.end)|
    ensures LayoutOf(r).s[..LayoutOf(r).index] == LayoutOf(r).e[..LayoutOf(r).index]
    ensures LayoutOf(r).lo <= LayoutOf(r).hi
    ensures LayoutOf(r).lo == LayoutOf(r).hi ==> r.start == r.end
  {
    var l := LayoutOf(r);
    assert PaddedStart(r) == l.s;
    if l.s != l.e && l.lo > l.hi {
      FirstDifferenceDecides(l.e, l.s, l.index);
    }
  }

  /** For ends of different lengths the pivot is the first digit. */
  lemma DifferentLengthLayout(r: UidRange)
    requires 0 <= r.start && |Str(r.start)| < |Str(r.end)|
    ensures LayoutOf(r).index == 0 && LayoutOf(r).lo == 1 && 1 <= LayoutOf(r).hi
  {
    var p, e := PaddedStart(r), Str(r.end);
    assert p[0] != e[0];
    FirstDifferenceUnique(p, e, 0);
  }

  /** The decimal text of a number of the range is no shorter than the
      start's and no longer than the end's, and lies between them in value. */
  lemma InRange(r: UidRange, n: nat)
    requires 0 <= r.start <= n <= r.end
    ensures |LayoutOf(r).s| <= |Str(n)| <= |LayoutOf(r).e|
    ensures Value(LayoutOf(r).s) <= Value(Str(n)) <= Value(LayoutOf(r).e)
  {
    StrLengthMonotone(r.start, n);
    StrLengthMonotone(n, r.end);
  }

  /** A number of the range lies between the ends digit by digit. */
  lemma DigitBetween(s: string, e: string, n: string, j: nat)
    requires IsDigitString(s) && IsDigitString(e) && IsDigitString(n) && |s| == |e| == |n|
    requires Value(s) <= Value(n) <= Value(e) && j < |s|
    ensures n[..j] == s[..j] ==> DigitValue(s[j]) <= DigitValue(n[j])
    ensures n[..j] == e[..j] ==> DigitValue(n[j]) <= DigitValue(e[j])
  {
    if n[..j] == s[..j] && DigitValue(n[j]) < DigitValue(s[j]) {
      FirstDifferenceDecides(n, s, j);
    }
    if n[..j] == e[..j] && DigitValue(n[j]) > DigitValue(e[j]) {
      FirstDifferenceDecides(e, n, j);
    }
  }

  // ---------------------------------------------------------------------
  // Keys

  lemma EdgeMaskIsBlock(prefix: string, c: char, k: nat, standard: bool)
    requires IsDigitString(prefix) && IsDigit(c)
    ensures IsDigitString(prefix + [c])
    ensures EdgeMask(prefix, DigitValue(c), k, standard) == BlockMask(prefix + [c], k, standard)
  {
    CodesAppend(prefix, [c], standard);
    assert [c][1..] == [];
  }

  /** The two edge masks differ exactly when their pivot digits do, and no
      edge mask is the middle mask. */
  lemma EdgeKeys(prefix: string, d1: nat, d2: nat, k: nat, standard: bool)
    requires IsDigitString(prefix) && d1 < 10 && d2 < 10
    ensures d1 != d2 ==> EdgeMask(prefix, d1, k, standard) != EdgeMask(prefix, d2, k, standard)
    ensures EdgeMask(prefix, d1, k, standard) != BlockMask(prefix, k + 1, standard)
  {
    var p := Codes(prefix, standard);
    var i := |p| + Width(standard) - 1;
    assert EdgeMask(prefix, d1, k, standard)[i] == Code(d1, standard)[Width(standard) - 1] == DigitChar(d1);
    assert EdgeMask(prefix, d2, k, standard)[i] == Code(d2, standard)[Width(standard) - 1] == DigitChar(d2);
    assert EdgeMask(prefix, d1, k, standard)[|p|] == Code(d1, standard)[0] != '?';
    assert BlockMask(prefix, k + 1, standard)[|p|] == '?';
  }

  lemma LengthMaskIsBlock(n: nat, standard: bool)
    requires n >= 1
    ensures LengthMask(n, standard) == BlockMask([], n - 1, standard)
    ensures |LengthMask(n, standard)| == 2 * n
  {
    assert Codes([], standard) == [];
  }

  // ---------------------------------------------------------------------
  // What each kind of mask generates

  lemma SplitAt(n: string, b: nat)
    requires b < |n|
    ensures n == n[..b] + [n[b]] + n[b + 1..]
  {
  }

  /** `f"{prefix}?1{'?d' * k}"` with bounded digits `lo..hi` generates every
      number that starts with the prefix, continues with a digit `lo..hi`
      and has `k` more digits. */
  lemma BlockMatches(prefix: string, n: string, b: nat, k: nat, lo: nat, hi: nat, standard: bool)
    requires IsDigitString(n) && b < |n| && n[..b] == prefix && k == |n| - b - 1 && hi <= 9 && lo <= DigitValue(n[b]) <= hi
    ensures IsDigitString(prefix)
    ensures Matches(BlockMask(prefix, k, standard), Charsets(DigitRange(lo, hi, standard), standard), standard, Encode(n, standard))
  {
    SplitAt(n, b);
    MatchesBlock(prefix, n[b], n[b + 1..], lo, hi, standard);
  }

  /** `f"{prefix}{d}?1{'?d' * k}"` with bounded digits `lo..hi` generates
      every number that starts with the prefix and `d`, continues with a
      digit `lo..hi` and has `k` more digits. */
  lemma EdgeMatches(prefix: string, n: string, b: nat, d: nat, k: nat, lo: nat, hi: nat, standard: bool)
    requires IsDigitString(n) && b + 1 < |n| && n[..b] == prefix && d == DigitValue(n[b]) && k == |n| - b - 2
    requires hi <= 9 && lo <= DigitValue(n[b + 1]) <= hi
    ensures IsDigitString(prefix) && d < 10
    ensures Matches(EdgeMask(prefix, d, k, standard), Charsets(DigitRange(lo, hi, standard), standard), standard, Encode(n, standard))
  {
    assert n[..b + 1] == prefix + [n[b]];
    EdgeMaskIsBlock(prefix, n[b], k, standard);
    BlockMatches(prefix + [n[b]], n, b + 1, k, lo, hi, standard);
  }

  /** A map holding the block mask with bounded digits `lo..hi` generates
      every number the mask stands for. */
  lemma BlockEntryGenerates(m: MaskMap, prefix: string, n: string, b: nat, k: nat, lo: nat, hi: nat, standard: bool)
    requires IsDigitString(n) && b < |n| && n[..b] == prefix && k == |n| - b - 1 && hi <= 9 && lo <= DigitValue(n[b]) <= hi
    requires Get(m, BlockMask(prefix, k, standard)) == Some(Charsets(DigitRange(lo, hi, standard), standard))
    ensures Generates(m, standard, Encode(n, standard))
  {
    BlockMatches(prefix, n, b, k, lo, hi, standard);
    GetGenerates(m, BlockMask(prefix, k, standard), Charsets(DigitRange(lo, hi, standard), standard), standard, Encode(n, standard));
  }

  /** A map holding the edge mask with bounded digits `lo..hi` generates
      every number the mask stands for. */
  lemma EdgeEntryGenerates(m: MaskMap, prefix: string, n: string, b: nat, d: nat, k: nat, lo: nat, hi: nat, standard: bool)
    requires IsDigitString(n) && b + 1 < |n| && n[..b] == prefix && d == DigitValue(n[b]) && k == |n| - b - 1
    requires hi <= 9 && lo <= DigitValue(n[b + 1]) <= hi
    requires Get(m, EdgeMask(prefix, d, k - 1, standard)) == Some(Charsets(DigitRange(lo, hi, standard), standard))
    ensures Generates(m, standard, Encode(n, standard))
  {
    var key, v, w := EdgeMask(prefix, d, k - 1, standard), Charsets(DigitRange(lo, hi, standard), standard), Encode(n, standard);
    EdgeMatches(prefix, n, b, d, k - 1, lo, hi, standard);
    GetGenerates(m, key, v, standard, w);
  }

  /** Three guarded writes into an empty dict: each key written holds its
      value at the end unless a later write to the same key replaced it. */
  lemma PutChain<V>(k1: string, v1: V, p1: bool, k2: string, v2: V, p2: bool, k3: string, v3: V, p3: bool)
    requires k1 != k2 && k2 != k3
    ensures var m := PutIf(PutIf(PutIf([], p1, k1, v1), p2, k2, v2), p3, k3, v3);
      && (p1 && (!p3 || k1 != k3) ==> Get(m, k1) == Some(v1))
      && (p2 ==> Get(m, k2) == Some(v2))
      && (p3 ==> Get(m, k3) == Some(v3))
  {
    var m1 := PutIf([], p1, k1, v1);
    var m2 := PutIf(m1, p2, k2, v2);
    PutGet([], k1, v1, k1);
    PutGet(m1, k2, v2, k1);
    PutGet(m1, k2, v2, k2);
    PutGet(m2, k3, v3, k1);
    PutGet(m2, k3, v3, k2);
    PutGet(m2, k3, v3, k3);
  }

  /** The start edge mask is kept unless the end edge mask has the same key. */
  lemma PivotStartEdgeKey(standard: bool, prefix: string, k: nat, a: char, c: char, lo: nat, hi: nat, corrected: bool)
    requires IsDigitString(prefix) && k >= 1 && IsDigit(a) && IsDigit(c) && lo <= 9 && hi <= 9
    requires a != '0' && (lo != hi || c == '9')
    ensures Get(PivotMasks(standard, prefix, k, a, c, lo, hi, corrected), EdgeMask(prefix, lo, k - 1, standard))
         == Some(Charsets(DigitRange(DigitValue(a), 9, standard), standard))
  {
    PivotKeys(standard, prefix, lo, hi, k - 1);
    PivotChain(standard, prefix, k, a, c, lo, hi, corrected);
  }

  /** The middle mask is there whenever its guard holds. */
  lemma PivotMiddleKey(standard: bool, prefix: string, k: nat, a: char, c: char, lo: nat, hi: nat, corrected: bool)
    requires IsDigitString(prefix) && k >= 1 && IsDigit(a) && IsDigit(c) && lo <= 9 && hi <= 9
    requires MiddleEmitted(lo, hi, a, c, corrected)
    ensures Get(PivotMasks(standard, prefix, k, a, c, lo, hi, corrected), BlockMask(prefix, k, standard))
         == Some(Charsets(MiddleCharset(lo, hi, a, c, standard), standard))
  {
    PivotKeys(standard, prefix, lo, hi, k - 1);
    PivotChain(standard, prefix, k, a, c, lo, hi, corrected);
  }

  /** The end edge mask is there whenever the end's next digit is not 9. */
  lemma PivotEndEdgeKey(standard: bool, prefix: string, k: nat, a: char, c: char, lo: nat, hi: nat, corrected: bool)
    requires IsDigitString(prefix) && k >= 1 && IsDigit(a) && IsDigit(c) && lo <= 9 && hi <= 9
    requires c != '9'
    ensures Get(PivotMasks(standard, prefix, k, a, c, lo, hi, corrected), EdgeMask(prefix, hi, k - 1, standard))
         == Some(Charsets(DigitRange(0, DigitValue(c), standard), standard))
  {
    PivotKeys(standard, prefix, lo, hi, k - 1);
    PivotChain(standard, prefix, k, a, c, lo, hi, corrected);
  }

  lemma PivotChain(standard: bool, prefix: string, k: nat, a: char, c: char, lo: nat, hi: nat, corrected: bool)
    requires IsDigitString(prefix) && k >= 1 && IsDigit(a) && IsDigit(c) && lo <= 9 && hi <= 9
    requires EdgeMask(prefix, lo, k - 1, standard) != BlockMask(prefix, k, standard)
    requires EdgeMask(prefix, hi, k - 1, standard) != BlockMask(prefix, k, standard)
    ensures var m, k1, k3 := PivotMasks(standard, prefix, k, a, c, lo, hi, corrected),
        EdgeMask(prefix, lo, k - 1, standard), EdgeMask(prefix, hi, k - 1, standard);
      && (a != '0' && (c == '9' || k1 != k3) ==> Get(m, k1) == Some(Charsets(DigitRange(DigitValue(a), 9, standard), standard)))
      && (MiddleEmitted(lo, hi, a, c, corrected)
          ==> Get(m, BlockMask(prefix, k, standard)) == Some(Charsets(MiddleCharset(lo, hi, a, c, standard), standard)))
      && (c != '9' ==> Get(m, k3) == Some(Charsets(DigitRange(0, DigitValue(c), standard), standard)))
  {
    PutChain(EdgeMask(prefix, lo, k - 1, standard), Charsets(DigitRange(DigitValue(a), 9, standard), standard), a != '0',
      BlockMask(prefix, k, standard), Charsets(MiddleCharset(lo, hi, a, c, standard), standard), MiddleEmitted(lo, hi, a, c, corrected),
      EdgeMask(prefix, hi, k - 1, standard), Charsets(DigitRange(0, DigitValue(c), standard), standard), c != '9');
  }

  lemma PivotKeys(standard: bool, prefix: string, lo: nat, hi: nat, k: nat)
    requires IsDigitString(prefix) && lo <= 9 && hi <= 9
    ensures EdgeMask(prefix, lo, k, standard) != BlockMask(prefix, k + 1, standard)
    ensures EdgeMask(prefix, hi, k, standard) != BlockMask(prefix, k + 1, standard)
    ensures lo != hi ==> EdgeMask(prefix, lo, k, standard) != EdgeMask(prefix, hi, k, standard)
  {
    EdgeKeys(prefix, lo, hi, k, standard);
    EdgeKeys(prefix, hi, lo, k, standard);
  }

  // ---------------------------------------------------------------------
  // Coverage, equal lengths

  /** Equal lengths, pivot before the last digit. */
  lemma PivotCoverage(standard: bool, r: UidRange, corrected: bool, n: nat)
    requires 0 <= r.start <= n <= r.end && |Str(r.start)| == |Str(r.end)| && LayoutOf(r).suffixLen > 0
    requires corrected || !MiddleGap(r)
    ensures Generates(Compile(standard, r, corrected), standard, Preimage(n, standard))
  {
    var l := LayoutOf(r);
    InRange(r, n);
    SameLengthLayout(r);
    PivotDigits(l.s, l.e, Str(n), l.index);
    PivotLayoutCovered(standard, l, Str(n), corrected);
    CompileGenerates(standard, r, corrected, n);
  }

  /** The same on the layout and the digits of the number. */
  lemma PivotLayoutCovered(standard: bool, l: Layout, n: string, corrected: bool)
    requires ValidLayout(l) && |l.s| == |l.e| && l.suffixLen > 0
    requires IsDigitString(n) && |n| == |l.e|
    requires n[..l.index] == l.e[..l.index] && l.lo <= DigitValue(n[l.index]) <= l.hi
    requires n[l.index] == l.s[l.index] ==> DigitValue(l.s[l.index + 1]) <= DigitValue(n[l.index + 1])
    requires n[l.index] == l.e[l.index] ==> DigitValue(n[l.index + 1]) <= DigitValue(l.e[l.index + 1])
    requires l.lo == l.hi ==> l.s == l.e
    requires corrected || !LayoutGap(l)
    ensures Generates(CompileLayout(standard, l, corrected), standard, Encode(n, standard))
  {
    var prefix, a, c := l.e[..l.index], l.s[l.index + 1], l.e[l.index + 1];
    assert IsDigitString(prefix) && IsDigit(a) && IsDigit(c);
    assert DigitValue(n[l.index]) == l.lo ==> n[l.index] == l.s[l.index];
    assert DigitValue(n[l.index]) == l.hi ==> n[l.index] == l.e[l.index];
    assert CompileLayout(standard, l, corrected) == PivotMasks(standard, prefix, l.suffixLen, a, c, l.lo, l.hi, corrected);
    PivotCovers(standard, prefix, l.suffixLen, a, c, l.lo, l.hi, corrected, n, l.index);
  }

  /** The number is generated by the start edge, the end edge or the
      middle mask. */
  lemma PivotCovers(standard: bool, prefix: string, k: nat, a: char, c: char, lo: nat, hi: nat, corrected: bool,
                    n: string, b: nat)
    requires IsDigitString(prefix) && k >= 1 && IsDigit(a) && IsDigit(c) && lo <= hi <= 9 && (lo == hi ==> a == c)
    requires IsDigitString(n) && |n| == b + 1 + k && n[..b] == prefix && lo <= DigitValue(n[b]) <= hi
    requires DigitValue(n[b]) == lo ==> DigitValue(a) <= DigitValue(n[b + 1])
    requires DigitValue(n[b]) == hi ==> DigitValue(n[b + 1]) <= DigitValue(c)
    requires corrected || !(hi == lo + 1 && a == '0' && c == '9')
    ensures Generates(PivotMasks(standard, prefix, k, a, c, lo, hi, corrected), standard, Encode(n, standard))
  {
    if DigitValue(n[b]) == lo && a != '0' && (lo != hi || c == '9') {
      StartEdgeGenerates(standard, prefix, k, a, c, lo, hi, corrected, n, b);
    } else if DigitValue(n[b]) == hi && c != '9' {
      EndEdgeGenerates(standard, prefix, k, a, c, lo, hi, corrected, n, b);
    } else {
      MiddleGenerates(standard, prefix, k, a, c, lo, hi, corrected, n, b);
    }
  }

  lemma StartEdgeGenerates(standard: bool, prefix: string, k: nat, a: char, c: char, lo: nat, hi: nat, corrected: bool,
                            n: string, b: nat)
    requires IsDigitString(prefix) && k >= 1 && IsDigit(a) && IsDigit(c) && lo <= 9 && hi <= 9
    requires IsDigitString(n) && |n| == b + 1 + k && n[..b] == prefix && DigitValue(n[b]) == lo && DigitValue(a) <= DigitValue(n[b + 1])
    requires a != '0' && (lo != hi || c == '9')
    ensures Generates(PivotMasks(standard, prefix, k, a, c, lo, hi, corrected), standard, Encode(n, standard))
  {
    PivotStartEdgeKey(standard, prefix, k, a, c, lo, hi, corrected);
    EdgeEntryGenerates(PivotMasks(standard, prefix, k, a, c, lo, hi, corrected), prefix, n, b, lo, k, DigitValue(a), 9, standard);
  }

  lemma EndEdgeGenerates(standard: bool, prefix: string, k: nat, a: char, c: char, lo: nat, hi: nat, corrected: bool,
                          n: string, b: nat)
    requires IsDigitString(prefix) && k >= 1 && IsDigit(a) && IsDigit(c) && lo <= 9 && hi <= 9
    requires IsDigitString(n) && |n| == b + 1 + k && n[..b] == prefix && DigitValue(n[b]) == hi && DigitValue(n[b + 1]) <= DigitValue(c)
    requires c != '9'
    ensures Generates(PivotMasks(standard, prefix, k, a, c, lo, hi, corrected), standard, Encode(n, standard))
  {
    PivotEndEdgeKey(standard, prefix, k, a, c, lo, hi, corrected);
    EdgeEntryGenerates(PivotMasks(standard, prefix, k, a, c, lo, hi, corrected), prefix, n, b, hi, k, 0, DigitValue(c), standard);
  }

  lemma MiddleGenerates(standard: bool, prefix: string, k: nat, a: char, c: char, lo: nat, hi: nat, corrected: bool,
                         n: string, b: nat)
    requires IsDigitString(prefix) && k >= 1 && IsDigit(a) && IsDigit(c) && lo <= 9 && hi <= 9
    requires IsDigitString(n) && |n| == b + 1 + k && n[..b] == prefix
    requires MiddleEmitted(lo, hi, a, c, corrected) && MiddleLo(lo, a) <= DigitValue(n[b]) <= MiddleHi(hi, c)
    ensures Generates(PivotMasks(standard, prefix, k, a, c, lo, hi, corrected), standard, Encode(n, standard))
  {
    PivotMiddleKey(standard, prefix, k, a, c, lo, hi, corrected);
    BlockEntryGenerates(PivotMasks(standard, prefix, k, a, c, lo, hi, corrected), prefix, n, b, k, MiddleLo(lo, a), MiddleHi(hi, c), standard);
  }

  /** The digits of a number of a same-length range around the pivot: the
      shared prefix, a pivot digit `lo..hi`, and a next digit no lower than
      the start's when the pivot digit is the start's, no higher than the
      end's when it is the end's. */
  lemma PivotDigits(s: string, e: string, n: string, b: nat)
    requires IsDigitString(s) && IsDigitString(e) && IsDigitString(n) && |s| == |e| == |n|
    requires Value(s) <= Value(n) <= Value(e) && b < |s| && s[..b] == e[..b]
    ensures n[..b] == e[..b] && DigitValue(s[b]) <= DigitValue(n[b]) <= DigitValue(e[b])
    ensures b + 1 < |s| && n[b] == s[b] ==> DigitValue(s[b + 1]) <= DigitValue(n[b + 1])
    ensures b + 1 < |s| && n[b] == e[b] ==> DigitValue(n[b + 1]) <= DigitValue(e[b + 1])
  {
    CommonPrefix(s, e, n, b);
    DigitBetween(s, e, n, b);
    if b + 1 < |s| {
      if n[b] == s[b] {
        SamePrefixLonger(n, s, b);
        DigitBetween(s, e, n, b + 1);
      }
      if n[b] == e[b] {
        SamePrefixLonger(n, e, b);
        DigitBetween(s, e, n, b + 1);
      }
    }
  }

  lemma SamePrefixLonger(x: string, y: string, b: nat)
    requires b < |x| && b < |y| && x[..b] == y[..b] && x[b] == y[b]
    ensures x[..b + 1] == y[..b + 1]
  {
    assert x[..b + 1] == x[..b] + [x[b]] && y[..b + 1] == y[..b] + [y[b]];
  }

  /** Equal lengths, pivot at the last digit. */
  lemma LastDigitCoverage(standard: bool, r: UidRange, n: nat, corrected: bool)
    requires 0 <= r.start <= n <= r.end && |Str(r.start)| == |Str(r.end)| && LayoutOf(r).suffixLen == 0
    ensures Generates(Compile(standard, r, corrected), standard, Preimage(n, standard))
  {
    InRange(r, n);
    SameLengthLayout(r);
    LastDigitLayoutCovered(standard, LayoutOf(r), Str(n), corrected);
    CompileGenerates(standard, r, corrected, n);
  }

  lemma LastDigitLayoutCovered(standard: bool, l: Layout, n: string, corrected: bool)
    requires ValidLayout(l) && |l.s| == |l.e| && l.suffixLen == 0 && l.s[..l.index] == l.e[..l.index]
    requires IsDigitString(n) && |n| == |l.e| && Value(l.s) <= Value(n) <= Value(l.e)
    ensures Generates(CompileLayout(standard, l, corrected), standard, Encode(n, standard))
  {
    PivotDigits(l.s, l.e, n, l.index);
    LastDigitMasksCover(standard, l.e, l.index, l.lo, l.hi, n);
  }

  /** The one mask for a pivot at the last digit generates every number
      with the end's other digits and a last digit `lo..hi`. */
  lemma LastDigitMasksCover(standard: bool, e: string, b: nat, lo: nat, hi: nat, n: string)
    requires IsDigitString(e) && b + 1 == |e| && hi <= 9
    requires IsDigitString(n) && |n| == |e| && n[..b] == e[..b] && lo <= DigitValue(n[b]) <= hi
    ensures Generates(LastDigitMasks(standard, e, b, lo, hi), standard, Encode(n, standard))
  {
    var key, v := BlockMask(e[..b], 0, standard), Charsets(DigitRange(lo, hi, standard), standard);
    PutGet([], key, v, key);
    BlockEntryGenerates(LastDigitMasks(standard, e, b, lo, hi), e[..b], n, b, 0, lo, hi, standard);
  }

  // ---------------------------------------------------------------------
  // Coverage, different lengths

  /** The masks for the lengths `from .. limit - 1` each carry the charset 1..9. */
  /** One step of the run: the newest length mask, or what the shorter run held. */
  lemma LengthRunStep(m: MaskMap, from: nat, limit: nat, standard: bool, k: string)
    requires 1 <= from < limit
    ensures Get(LengthRun(m, from, limit, standard), k)
         == if k == LengthMask(limit - 1, standard) then Some(Charsets(DigitRange(1, 9, standard), standard))
            else Get(LengthRun(m, from, limit - 1, standard), k)
  {
    PutGet(LengthRun(m, from, limit - 1, standard), LengthMask(limit - 1, standard),
      Charsets(DigitRange(1, 9, standard), standard), k);
  }

  lemma {:induction false} LengthRunHas(m: MaskMap, from: nat, limit: nat, standard: bool, n: nat)
    requires 1 <= from <= n < limit
    ensures Get(LengthRun(m, from, limit, standard), LengthMask(n, standard))
         == Some(Charsets(DigitRange(1, 9, standard), standard))
    decreases limit
  {
    if n == limit - 1 {
      LengthRunStep(m, from, limit, standard, LengthMask(limit - 1, standard));
    } else {
      LengthRunStep(m, from, limit, standard, LengthMask(n, standard));
      assert LengthMask(n, standard) != LengthMask(limit - 1, standard) by {
        LengthMaskIsBlock(n, standard);
        LengthMaskIsBlock(limit - 1, standard);
      }
      LengthRunHas(m, from, limit - 1, standard, n);
    }
  }

  /** Keys of other lengths keep their values. */
  lemma {:induction false} LengthRunKeeps(m: MaskMap, from: nat, limit: nat, standard: bool, key: string)
    requires 1 <= from && (|key| < 2 * from || 2 * limit <= |key|)
    ensures Get(LengthRun(m, from, limit, standard), key) == Get(m, key)
    decreases limit
  {
    if from < limit {
      LengthMaskIsBlock(limit - 1, standard);
      LengthRunStep(m, from, limit, standard, key);
      LengthRunKeeps(m, from, limit - 1, standard, key);
    }
  }

  lemma LengthCoverage(standard: bool, r: UidRange, n: nat, corrected: bool)
    requires 0 <= r.start <= n <= r.end && |Str(r.start)| < |Str(r.end)|
    ensures Generates(Compile(standard, r, corrected), standard, Preimage(n, standard))
  {
    DifferentLengthLayout(r);
    InRange(r, n);
    LengthLayoutCovered(standard, LayoutOf(r), Str(n), corrected);
    CompileGenerates(standard, r, corrected, n);
  }

  lemma LengthLayoutCovered(standard: bool, l: Layout, n: string, corrected: bool)
    requires ValidLayout(l) && |l.s| < |l.e| && l.index == 0 && l.lo == 1
    requires IsCanonical(n) && |l.s| <= |n| <= |l.e| && Value(l.s) <= Value(n) <= Value(l.e)
    ensures Generates(CompileLayout(standard, l, corrected), standard, Encode(n, standard))
  {
    if |n| == |l.s| && DigitValue(n[0]) < DigitValue(l.s[0]) {
      FirstDifferenceDecides(n, l.s, 0);
    }
    if |n| == |l.e| && DigitValue(n[0]) > l.hi {
      FirstDifferenceDecides(l.e, n, 0);
    }
    LengthMasksCover(standard, l.s, l.e, l.hi, n);
  }

  /** A number as long as the start with a first digit no lower than the
      start's, one of a length in between, or one as long as the end with a
      first digit no higher than `hi`, is generated by the length masks. */
  lemma LengthMasksCover(standard: bool, s: string, e: string, hi: nat, n: string)
    requires IsDigitString(s) && 1 <= |s| < |e| && hi <= 9
    requires IsDigitString(n) && |s| <= |n| <= |e| && (|n| > |s| ==> n[0] != '0')
    requires |n| == |s| ==> DigitValue(s[0]) <= DigitValue(n[0])
    requires |n| == |e| ==> DigitValue(n[0]) <= hi
    ensures Generates(LengthMasks(standard, s, e, hi), standard, Encode(n, standard))
  {
    var m := LengthMasks(standard, s, e, hi);
    if |n| == |s| {
      LengthMasksStart(standard, s, e, hi);
      LengthEntryGenerates(m, n, DigitValue(s[0]), 9, standard);
    } else if |n| < |e| {
      LengthMasksBetween(standard, s, e, hi, |n|);
      LengthEntryGenerates(m, n, 1, 9, standard);
    } else {
      LengthMasksEnd(standard, s, e, hi);
      LengthEntryGenerates(m, n, 1, hi, standard);
    }
  }

  /** A map holding the mask for a length with first digits `lo..hi`
      generates every number of that length with such a first digit. */
  lemma LengthEntryGenerates(m: MaskMap, n: string, lo: nat, hi: nat, standard: bool)
    requires IsDigitString(n) && |n| >= 1 && hi <= 9 && lo <= DigitValue(n[0]) <= hi
    requires Get(m, LengthMask(|n|, standard)) == Some(Charsets(DigitRange(lo, hi, standard), standard))
    ensures Generates(m, standard, Encode(n, standard))
  {
    LengthMaskIsBlock(|n|, standard);
    BlockEntryGenerates(m, [], n, 0, |n| - 1, lo, hi, standard);
  }

  /** The mask for the start's length keeps the start's first digit as its
      least. */
  lemma LengthMasksStart(standard: bool, s: string, e: string, hi: nat)
    requires IsDigitString(s) && 1 <= |s| < |e| && hi <= 9
    ensures Get(LengthMasks(standard, s, e, hi), LengthMask(|s|, standard))
         == Some(Charsets(DigitRange(DigitValue(s[0]), 9, standard), standard))
  {
    var key, v := LengthMask(|s|, standard), Charsets(DigitRange(DigitValue(s[0]), 9, standard), standard);
    var m1 := Put([], key, v);
    var m2 := LengthRun(m1, |s| + 1, |e|, standard);
    LengthMaskIsBlock(|s|, standard);
    LengthMaskIsBlock(|e|, standard);
    PutGet([], key, v, key);
    LengthRunKeeps(m1, |s| + 1, |e|, standard, key);
    PutGet(m2, LengthMask(|e|, standard), Charsets(DigitRange(1, hi, standard), standard), key);
  }

  /** Every length strictly between the ends' has a mask with first digit 1..9. */
  lemma LengthMasksBetween(standard: bool, s: string, e: string, hi: nat, k: nat)
    requires IsDigitString(s) && 1 <= |s| < k < |e| && hi <= 9
    ensures Get(LengthMasks(standard, s, e, hi), LengthMask(k, standard))
         == Some(Charsets(DigitRange(1, 9, standard), standard))
  {
    var m1 := Put([], LengthMask(|s|, standard), Charsets(DigitRange(DigitValue(s[0]), 9, standard), standard));
    var m2 := LengthRun(m1, |s| + 1, |e|, standard);
    LengthMaskIsBlock(k, standard);
    LengthMaskIsBlock(|e|, standard);
    LengthRunHas(m1, |s| + 1, |e|, standard, k);
    PutGet(m2, LengthMask(|e|, standard), Charsets(DigitRange(1, hi, standard), standard), LengthMask(k, standard));
  }

  /** The mask for the end's length has first digit 1..hi. */
  lemma LengthMasksEnd(standard: bool, s: string, e: string, hi: nat)
    requires IsDigitString(s) && 1 <= |s| < |e| && hi <= 9
    ensures Get(LengthMasks(standard, s, e, hi), LengthMask(|e|, standard))
         == Some(Charsets(DigitRange(1, hi, standard), standard))
  {
    var m1 := Put([], LengthMask(|s|, standard), Charsets(DigitRange(DigitValue(s[0]), 9, standard), standard));
    var m2 := LengthRun(m1, |s| + 1, |e|, standard);
    PutGet(m2, LengthMask(|e|, standard), Charsets(DigitRange(1, hi, standard), standard), LengthMask(|e|, standard));
  }

  // ---------------------------------------------------------------------
  // The range's masks

  lemma Covers(standard: bool, r: UidRange, corrected: bool, n: nat)
    requires 0 <= r.start <= n <= r.end && (corrected || !MiddleGap(r))
    ensures Generates(Compile(standard, r, corrected), standard, Preimage(n, standard))
  {
    StrLengthMonotone(r.start, r.end);
    if |Str(r.start)| < |Str(r.end)| {
      LengthCoverage(standard, r, n, corrected);
    } else if LayoutOf(r).suffixLen > 0 {
      PivotCoverage(standard, r, corrected, n);
    } else {
      LastDigitCoverage(standard, r, n, corrected);
    }
  }

  /** Outside the middle gap, the preimage of every UID of the range is
      generated by a mask `get_masks_and_charsets` returns, `start == end`
      included. */
  lemma AsWrittenCoverage(standard: bool, r: UidRange, n: nat)
    requires 0 <= r.start <= n <= r.end && !MiddleGap(r)
    ensures Generates(MasksAndCharsets(standard, r), standard, Preimage(n, standard))
  {
    Covers(standard, r, false, n);
  }

  /** With the corrected middle guard every UID of every range is generated. */
  lemma CorrectedCoverage(standard: bool, r: UidRange, n: nat)
    requires 0 <= r.start <= n <= r.end
    ensures Generates(MasksAndCharsetsCorrected(standard, r), standard, Preimage(n, standard))
  {
    Covers(standard, r, true, n);
  }

  /** The masks `get_masks_and_charsets` returns are empty exactly for the
      ranges of the middle gap, and then not even the start is generated. */
  lemma EmptyIffGap(standard: bool, r: UidRange)
    requires 0 <= r.start
    ensures MasksAndCharsets(standard, r) == [] <==> MiddleGap(r)
    ensures MiddleGap(r) ==> !Generates(MasksAndCharsets(standard, r), standard, Preimage(r.start, standard))
  {
    if MiddleGap(r) {
      GapLayoutEmpty(standard, LayoutOf(r));
    } else {
      AsWrittenCoverage(standard, r, r.start);
    }
  }

  lemma GapLayoutEmpty(standard: bool, l: Layout)
    requires ValidLayout(l) && LayoutGap(l)
    ensures CompileLayout(standard, l, false) == []
  {
    assert !MiddleEmitted(l.lo, l.hi, l.s[l.index + 1], l.e[l.index + 1], false);
  }

  /** The corrected masks are never empty. */
  lemma CorrectedNeverEmpty(standard: bool, r: UidRange)
    requires 0 <= r.start
    ensures MasksAndCharsetsCorrected(standard, r) != []
  {
    CorrectedCoverage(standard, r, r.start);
  }

  /** `[10, 29]` is in the middle gap: the compiler returns no mask at all,
      so no UID of the range, 15 say, is generated. */
  lemma GapExample(standard: bool)
    ensures MiddleGap(Span(10, 29))
    ensures MasksAndCharsets(standard, Span(10, 29)) == []
    ensures !Generates(MasksAndCharsets(standard, Span(10, 29)), standard, Preimage(15, standard))
  {
    GapExampleLayout();
    EmptyIffGap(standard, Span(10, 29));
  }

  lemma GapExampleLayout()
    ensures LayoutOf(Span(10, 29)) == Layout("10", "29", 0, 1, 2, 1)
  {
    assert Str(1) == "1" && Str(2) == "2";
    assert Str(10) == "10" && Str(29) == "29";
    assert PaddedStart(Span(10, 29)) == "10";
    FirstDifferenceUnique("10", "29", 0);
  }
}
