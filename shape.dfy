/** The shape of what `get_masks_and_charsets` returns: every mask once,
    with one charset in the standard mode and the hex digit charset plus one
    with hex charsets; how many masks there are; the common prefix every
    candidate of same-length ends begins with; and no leading zero from the
    masks for the lengths between the ends'. */
module MaskShape {
  import opened PyResults
  import opened Text
  import opened Decimal
  import opened UidRanges
  import opened Utils
  import opened OrderedDicts
  import opened Masks
  import opened MaskCompiler
  import opened MaskCoverage

  /** The charsets of one mask: `[bounded]`, or `[hex_charset, bounded]`. */
  predicate ValueShape(v: seq<string>, standard: bool) {
    if standard then |v| == 1 else |v| == 2 && v[0] == HexDigitCharset()
  }

  /** Distinct keys, and every value shaped. */
  predicate WellFormed(m: MaskMap, standard: bool) {
    UniqueKeys(m) && forall i :: 0 <= i < |m| ==> ValueShape(m[i].value, standard)
  }

  /** Every key begins with `c`. */
  predicate KeysStartWith(m: MaskMap, c: string) {
    forall i :: 0 <= i < |m| ==> StartsWith(m[i].key, c)
  }

  // ---------------------------------------------------------------------
  // Values and keys

  lemma PutWellFormed(m: MaskMap, k: string, bounded: string, standard: bool)
    requires WellFormed(m, standard)
    ensures WellFormed(Put(m, k, Charsets(bounded, standard)), standard)
  {
    PutShape(m, k, Charsets(bounded, standard));
    PutUnique(m, k, Charsets(bounded, standard));
  }

  lemma PutKeysStartWith(m: MaskMap, k: string, v: seq<string>, c: string)
    requires KeysStartWith(m, c) && StartsWith(k, c)
    ensures KeysStartWith(Put(m, k, v), c)
  {
    PutShape(m, k, v);
  }

  lemma {:induction false} LengthRunWellFormed(m: MaskMap, from: nat, limit: nat, standard: bool)
    requires from >= 1 && WellFormed(m, standard)
    ensures WellFormed(LengthRun(m, from, limit, standard), standard)
    decreases limit
  {
    if from < limit {
      LengthRunWellFormed(m, from, limit - 1, standard);
      PutWellFormed(LengthRun(m, from, limit - 1, standard), LengthMask(limit - 1, standard), DigitRange(1, 9, standard), standard);
    }
  }

  lemma PivotWellFormed(standard: bool, prefix: string, k: nat, a: char, c: char, lo: nat, hi: nat, corrected: bool)
    requires IsDigitString(prefix) && k >= 1 && IsDigit(a) && IsDigit(c) && lo <= 9 && hi <= 9
    ensures WellFormed(PivotMasks(standard, prefix, k, a, c, lo, hi, corrected), standard)
  {
    var m1 := PutIf([], a != '0', EdgeMask(prefix, lo, k - 1, standard), Charsets(DigitRange(DigitValue(a), 9, standard), standard));
    var m2 := PutIf(m1, MiddleEmitted(lo, hi, a, c, corrected),
      BlockMask(prefix, k, standard), Charsets(MiddleCharset(lo, hi, a, c, standard), standard));
    PutWellFormed([], EdgeMask(prefix, lo, k - 1, standard), DigitRange(DigitValue(a), 9, standard), standard);
    PutWellFormed(m1, BlockMask(prefix, k, standard), MiddleCharset(lo, hi, a, c, standard), standard);
    PutWellFormed(m2, EdgeMask(prefix, hi, k - 1, standard), DigitRange(0, DigitValue(c), standard), standard);
  }

  lemma LengthMasksWellFormed(standard: bool, s: string, e: string, hi: nat)
    requires IsDigitString(s) && 1 <= |s| < |e| && hi <= 9
    ensures WellFormed(LengthMasks(standard, s, e, hi), standard)
  {
    var m1 := Put([], LengthMask(|s|, standard), Charsets(DigitRange(DigitValue(s[0]), 9, standard), standard));
    PutWellFormed([], LengthMask(|s|, standard), DigitRange(DigitValue(s[0]), 9, standard), standard);
    LengthRunWellFormed(m1, |s| + 1, |e|, standard);
    PutWellFormed(LengthRun(m1, |s| + 1, |e|, standard), LengthMask(|e|, standard), DigitRange(1, hi, standard), standard);
  }

  lemma LayoutWellFormed(standard: bool, l: Layout, corrected: bool)
    requires ValidLayout(l)
    ensures WellFormed(CompileLayout(standard, l, corrected), standard)
  {
    if |l.s| == |l.e| {
      if l.suffixLen > 0 {
        PivotWellFormed(standard, l.e[..l.index], l.suffixLen, l.s[l.index + 1], l.e[l.index + 1], l.lo, l.hi, corrected);
      } else {
        PutWellFormed([], BlockMask(l.e[..l.index], l.suffixLen, standard), DigitRange(l.lo, l.hi, standard), standard);
      }
    } else {
      LengthMasksWellFormed(standard, l.s, l.e, l.hi);
    }
  }

  /** Every mask appears once; its value is a list of one charset in the
      standard mode, and of two whose first is `00010203040506070809` with
      hex charsets. */
  lemma CompileWellFormed(standard: bool, r: UidRange, corrected: bool)
    requires 0 <= r.start
    ensures WellFormed(Compile(standard, r, corrected), standard)
  {
    LayoutWellFormed(standard, LayoutOf(r), corrected);
  }

  // ---------------------------------------------------------------------
  // How many masks

  /** Each length mask of a run is new, so the run adds one entry per length. */
  lemma {:induction false} LengthRunSize(m: MaskMap, from: nat, limit: nat, standard: bool)
    requires 1 <= from <= limit
    requires forall i :: 0 <= i < |m| ==> |m[i].key| < 2 * from
    ensures |LengthRun(m, from, limit, standard)| == |m| + limit - from
    decreases limit
  {
    if from < limit {
      LengthRunSize(m, from, limit - 1, standard);
      var key := LengthMask(limit - 1, standard);
      var run := LengthRun(m, from, limit - 1, standard);
      LengthMaskIsBlock(limit - 1, standard);
      LengthRunKeeps(m, from, limit - 1, standard, key);
      assert !HasKey(m, key);
      PutSize(run, key, Charsets(DigitRange(1, 9, standard), standard));
    }
  }

  /** Ends of different lengths get one mask per length from the start's to
      the end's. */
  lemma LengthMasksCount(standard: bool, s: string, e: string, hi: nat)
    requires IsDigitString(s) && 1 <= |s| < |e| && hi <= 9
    ensures |LengthMasks(standard, s, e, hi)| == |e| - |s| + 1
  {
    var key1, v1 := LengthMask(|s|, standard), Charsets(DigitRange(DigitValue(s[0]), 9, standard), standard);
    var m1 := Put([], key1, v1);
    var m2 := LengthRun(m1, |s| + 1, |e|, standard);
    var key := LengthMask(|e|, standard);
    assert m1 == [Entry(key1, v1)];
    assert |key1| == 2 * |s| && |key| == 2 * |e| by {
      LengthMaskIsBlock(|s|, standard);
      LengthMaskIsBlock(|e|, standard);
    }
    LengthRunSize(m1, |s| + 1, |e|, standard);
    assert !HasKey(m2, key) by {
      LengthRunKeeps(m1, |s| + 1, |e|, standard, key);
      assert !HasKey(m1, key);
    }
    PutSize(m2, key, Charsets(DigitRange(1, hi, standard), standard));
  }

  lemma PivotCount(standard: bool, prefix: string, k: nat, a: char, c: char, lo: nat, hi: nat, corrected: bool)
    requires IsDigitString(prefix) && k >= 1 && IsDigit(a) && IsDigit(c) && lo <= 9 && hi <= 9
    ensures |PivotMasks(standard, prefix, k, a, c, lo, hi, corrected)| <= 3
  {
    var v1 := Charsets(DigitRange(DigitValue(a), 9, standard), standard);
    var v2 := Charsets(MiddleCharset(lo, hi, a, c, standard), standard);
    var v3 := Charsets(DigitRange(0, DigitValue(c), standard), standard);
    var m1 := PutIf([], a != '0', EdgeMask(prefix, lo, k - 1, standard), v1);
    var m2 := PutIf(m1, MiddleEmitted(lo, hi, a, c, corrected), BlockMask(prefix, k, standard), v2);
    PutShape([], EdgeMask(prefix, lo, k - 1, standard), v1);
    PutShape(m1, BlockMask(prefix, k, standard), v2);
    PutShape(m2, EdgeMask(prefix, hi, k - 1, standard), v3);
  }

  lemma LayoutCount(standard: bool, l: Layout, corrected: bool)
    requires ValidLayout(l)
    ensures |l.s| == |l.e| ==> |CompileLayout(standard, l, corrected)| <= 3
    ensures |l.s| == |l.e| && l.suffixLen == 0 ==> |CompileLayout(standard, l, corrected)| == 1
    ensures |l.s| < |l.e| ==> |CompileLayout(standard, l, corrected)| == |l.e| - |l.s| + 1
  {
    if |l.s| == |l.e| {
      if l.suffixLen > 0 {
        PivotCount(standard, l.e[..l.index], l.suffixLen, l.s[l.index + 1], l.e[l.index + 1], l.lo, l.hi, corrected);
      } else {
        PutSize([], BlockMask(l.e[..l.index], l.suffixLen, standard), Charsets(DigitRange(l.lo, l.hi, standard), standard));
      }
    } else {
      LengthMasksCount(standard, l.s, l.e, l.hi);
    }
  }

  /** At most three masks for ends of one length, exactly one when the pivot
      is the last digit, and one per length from `len(start)` to `len(end)`
      otherwise. */
  lemma CompileCount(standard: bool, r: UidRange, corrected: bool)
    requires 0 <= r.start
    ensures |Str(r.start)| == |Str(r.end)| ==> |Compile(standard, r, corrected)| <= 3
    ensures |Str(r.start)| == |Str(r.end)| && LayoutOf(r).suffixLen == 0 ==> |Compile(standard, r, corrected)| == 1
    ensures |Str(r.start)| < |Str(r.end)| ==> |Compile(standard, r, corrected)| == |Str(r.end)| - |Str(r.start)| + 1
  {
    LayoutCount(standard, LayoutOf(r), corrected);
  }

  /** A pivot at the last digit gives the single mask `prefix + "?1"` (or
      the codes of the prefix and `?2`) over the pivot digits `lo..hi`. */
  lemma LastDigitEntry(standard: bool, r: UidRange, corrected: bool)
    requires 0 <= r.start && |Str(r.start)| == |Str(r.end)| && LayoutOf(r).suffixLen == 0
    ensures var l := LayoutOf(r);
      Compile(standard, r, corrected)
      == [Entry(Codes(Str(r.end)[..l.index], standard) + BoundedToken(standard), Charsets(DigitRange(l.lo, l.hi, standard), standard))]
  {
    var l := LayoutOf(r);
    LastDigitLayoutEntry(standard, l, corrected);
  }

  lemma LastDigitLayoutEntry(standard: bool, l: Layout, corrected: bool)
    requires ValidLayout(l) && |l.s| == |l.e| && l.suffixLen == 0
    ensures CompileLayout(standard, l, corrected)
         == [Entry(Codes(l.e[..l.index], standard) + BoundedToken(standard), Charsets(DigitRange(l.lo, l.hi, standard), standard))]
  {
    var key := BlockMask(l.e[..l.index], 0, standard);
    assert key == Codes(l.e[..l.index], standard) + BoundedToken(standard);
    PutShape([], key, Charsets(DigitRange(l.lo, l.hi, standard), standard));
  }

  // ---------------------------------------------------------------------
  // The common prefix

  lemma EdgeMaskStartsWith(prefix: string, d: nat, k: nat, standard: bool)
    requires IsDigitString(prefix) && d < 10
    ensures StartsWith(EdgeMask(prefix, d, k, standard), Codes(prefix, standard))
  {
    var c := Codes(prefix, standard);
    assert EdgeMask(prefix, d, k, standard) == c + (Code(d, standard) + BoundedToken(standard) + Repeat(AnyDigitToken(standard), k));
  }

  lemma BlockMaskStartsWith(prefix: string, k: nat, standard: bool)
    requires IsDigitString(prefix)
    ensures StartsWith(BlockMask(prefix, k, standard), Codes(prefix, standard))
  {
    var c := Codes(prefix, standard);
    assert BlockMask(prefix, k, standard) == c + (BoundedToken(standard) + Repeat(AnyDigitToken(standard), k));
  }

  lemma PivotKeysStartWith(standard: bool, prefix: string, k: nat, a: char, c: char, lo: nat, hi: nat, corrected: bool)
    requires IsDigitString(prefix) && k >= 1 && IsDigit(a) && IsDigit(c) && lo <= 9 && hi <= 9
    ensures KeysStartWith(PivotMasks(standard, prefix, k, a, c, lo, hi, corrected), Codes(prefix, standard))
  {
    var p := Codes(prefix, standard);
    var v1 := Charsets(DigitRange(DigitValue(a), 9, standard), standard);
    var v2 := Charsets(MiddleCharset(lo, hi, a, c, standard), standard);
    var v3 := Charsets(DigitRange(0, DigitValue(c), standard), standard);
    var m1 := PutIf([], a != '0', EdgeMask(prefix, lo, k - 1, standard), v1);
    var m2 := PutIf(m1, MiddleEmitted(lo, hi, a, c, corrected), BlockMask(prefix, k, standard), v2);
    EdgeMaskStartsWith(prefix, lo, k - 1, standard);
    EdgeMaskStartsWith(prefix, hi, k - 1, standard);
    BlockMaskStartsWith(prefix, k, standard);
    PutKeysStartWith([], EdgeMask(prefix, lo, k - 1, standard), v1, p);
    PutKeysStartWith(m1, BlockMask(prefix, k, standard), v2, p);
    PutKeysStartWith(m2, EdgeMask(prefix, hi, k - 1, standard), v3, p);
  }

  /** A mask that begins with the codes of `p` generates only candidates
      that begin with the bytes of `p`. */
  lemma MatchesStartsWith(mask: string, p: string, charsets: seq<string>, standard: bool, w: seq<Byte>)
    requires IsDigitString(p) && StartsWith(mask, Codes(p, standard)) && Matches(mask, charsets, standard, w)
    ensures |w| >= |p| && w[..|p|] == Encode(p, standard)
  {
    var c := Codes(p, standard);
    PrefixSplit(mask, c);
    MatchesCodesPrefix(p, mask[|c|..], charsets, standard, w);
  }

  lemma PrefixSplit(s: string, prefix: string)
    requires StartsWith(s, prefix)
    ensures s == prefix + s[|prefix|..]
  {
  }

  lemma LayoutKeysStartWith(standard: bool, l: Layout, corrected: bool)
    requires ValidLayout(l) && |l.s| == |l.e|
    ensures KeysStartWith(CompileLayout(standard, l, corrected), Codes(l.e[..l.index], standard))
  {
    var prefix := l.e[..l.index];
    assert IsDigitString(prefix);
    if l.suffixLen > 0 {
      var a, c := l.s[l.index + 1], l.e[l.index + 1];
      assert IsDigit(a) && IsDigit(c);
      PivotKeysStartWith(standard, prefix, l.suffixLen, a, c, l.lo, l.hi, corrected);
    } else {
      var key, v := BlockMask(prefix, l.suffixLen, standard), Charsets(DigitRange(l.lo, l.hi, standard), standard);
      assert CompileLayout(standard, l, corrected) == Put([], key, v);
      BlockMaskStartsWith(prefix, l.suffixLen, standard);
      PutKeysStartWith([], key, v, Codes(prefix, standard));
    }
  }

  /** Every candidate a mask for ends of one length generates begins with
      the bytes of the digits the ends share, `end_uid[:boundary_index]`. */
  lemma CandidatesKeepPrefix(standard: bool, r: UidRange, corrected: bool, i: nat, w: seq<Byte>)
    requires 0 <= r.start && |Str(r.start)| == |Str(r.end)|
    requires var m := Compile(standard, r, corrected); i < |m| && Matches(m[i].key, m[i].value, standard, w)
    ensures var l := LayoutOf(r); l.s[..l.index] == l.e[..l.index]
    ensures var l := LayoutOf(r); |w| >= l.index && w[..l.index] == Encode(l.e[..l.index], standard)
  {
    SameLengthLayout(r);
    LayoutCandidatesKeepPrefix(standard, LayoutOf(r), corrected, i, w);
  }

  lemma LayoutCandidatesKeepPrefix(standard: bool, l: Layout, corrected: bool, i: nat, w: seq<Byte>)
    requires ValidLayout(l) && |l.s| == |l.e|
    requires var m := CompileLayout(standard, l, corrected); i < |m| && Matches(m[i].key, m[i].value, standard, w)
    ensures |w| >= l.index && w[..l.index] == Encode(l.e[..l.index], standard)
  {
    var m := CompileLayout(standard, l, corrected);
    LayoutKeysStartWith(standard, l, corrected);
    MatchesStartsWith(m[i].key, l.e[..l.index], m[i].value, standard, w);
  }

  // ---------------------------------------------------------------------
  // Lengths between the ends'

  /** A length mask over first digits 1..9 never generates a leading zero. */
  lemma NoLeadingZero(k: nat, standard: bool, w: seq<Byte>)
    requires k >= 1 && Matches(LengthMask(k, standard), Charsets(DigitRange(1, 9, standard), standard), standard, w)
    ensures w != [] && w[0] != DigitByte(0, standard)
  {
    BoundedFirstByte(Repeat(AnyDigitToken(standard), k - 1), 1, 9, standard, w);
  }

  /** Every length strictly between the ends' has its mask over first digits
      `123456789`, so none of its candidates has a leading zero. */
  lemma IntermediateLengths(standard: bool, r: UidRange, corrected: bool, k: nat)
    requires 0 <= r.start && |Str(r.start)| < k < |Str(r.end)|
    ensures Get(Compile(standard, r, corrected), LengthMask(k, standard)) == Some(Charsets(DigitRange(1, 9, standard), standard))
    ensures forall w :: (Matches(LengthMask(k, standard), Charsets(DigitRange(1, 9, standard), standard), standard, w)
                         ==> w != [] && w[0] != DigitByte(0, standard))
  {
    var l := LayoutOf(r);
    LengthMasksBetween(standard, l.s, l.e, l.hi, k);
    forall w | Matches(LengthMask(k, standard), Charsets(DigitRange(1, 9, standard), standard), standard, w)
      ensures w != [] && w[0] != DigitByte(0, standard)
    {
      NoLeadingZero(k, standard, w);
    }
  }
}
