/** `get_masks_and_charsets`: the compiler from a UID range to hashcat masks
    with custom charsets. The start UID is padded with zeros to the end UID's
    length; the first position where the two differ is the pivot; digits left
    of the pivot are a literal prefix, the pivot digit is bounded by a custom
    charset, and digits right of it are free. One extra digit of look-ahead
    past the pivot trims the first and last pivot values, and ends of
    different lengths get one mask per length. */
module MaskCompiler {
  import opened Text
  import opened Decimal
  import opened UidRanges
  import opened Utils
  import opened OrderedDicts
  import opened Masks

  /** Masks mapped to their custom charsets, in insertion order. */
  type MaskMap = Dict<seq<string>>

  /** `prefixed_start`: the start UID padded on the left with zeros to the
      end UID's length. */
  function PaddedStart(r: UidRange): (p: string)
    requires 0 <= r.start
    ensures |p| == |Str(r.end)| && IsDigitString(p)
    ensures |Str(r.start)| < |Str(r.end)| ==> p[0] == '0'
    ensures |Str(r.start)| == |Str(r.end)| ==> p == Str(r.start)
  {
    StrLengthMonotone(r.start, r.end);
    var zeros := Repeat("0", |Str(r.end)| - |Str(r.start)|);
    RepeatChar('0', |Str(r.end)| - |Str(r.start)|);
    assert |Str(r.start)| == |Str(r.end)| ==> zeros == [];
    zeros + Str(r.start)
  }

  /** The padded start is zeros followed by `str(start)`. */
  lemma PaddedStartZeros(r: UidRange)
    requires 0 <= r.start
    ensures |Str(r.start)| <= |PaddedStart(r)|
    ensures PaddedStart(r)[|PaddedStart(r)| - |Str(r.start)|..] == Str(r.start)
    ensures forall i :: 0 <= i < |PaddedStart(r)| - |Str(r.start)| ==> PaddedStart(r)[i] == '0'
  {
    StrLengthMonotone(r.start, r.end);
    var k := |Str(r.end)| - |Str(r.start)|;
    var zeros := Repeat("0", k);
    RepeatChar('0', k);
    assert PaddedStart(r) == zeros + Str(r.start);
  }

  /** The first position where two equal-length strings differ; 0 when they
      are equal. */
  function FirstDifference(p: string, e: string): (b: nat)
    requires |p| == |e|
    ensures p != e ==> b < |e| && p[..b] == e[..b] && p[b] != e[b]
    ensures p == e ==> b == 0
  {
    FirstDifferenceFrom(p, e, 0)
  }

  function FirstDifferenceFrom(p: string, e: string, i: nat): (b: nat)
    requires |p| == |e| && i <= |e| && p[..i] == e[..i]
    ensures p != e ==> i <= b < |e| && p[..b] == e[..b] && p[b] != e[b]
    ensures p == e ==> b == 0
    decreases |e| - i
  {
    if i == |e| then
      assert p == p[..i] && e == e[..i];
      0
    else if p[i] != e[i] then i
    else
      assert p[..i + 1] == p[..i] + [p[i]] && e[..i + 1] == e[..i] + [e[i]];
      FirstDifferenceFrom(p, e, i + 1)
  }

  /** The first difference is the only position with a common prefix and
      different characters. */
  lemma FirstDifferenceUnique(p: string, e: string, b: nat)
    requires |p| == |e| && b < |e| && p[..b] == e[..b] && p[b] != e[b]
    ensures FirstDifference(p, e) == b
  {
  }

  /** What the compiler derives from the range before it writes any mask. */
  datatype Layout = Layout(
    s: string,       // str(start)
    e: string,       // str(end)
    index: nat,      // the pivot position
    lo: nat,         // the least pivot digit
    hi: nat,         // the greatest pivot digit
    suffixLen: nat)  // the digits right of the pivot

  /** The facts every layout the compiler derives satisfies. */
  predicate ValidLayout(l: Layout) {
    IsCanonical(l.s) && IsCanonical(l.e) && |l.s| <= |l.e|
    && l.index < |l.e| && l.suffixLen == |l.e| - l.index - 1
    && l.lo <= 9 && l.hi <= 9
    && (|l.s| == |l.e| ==> l.lo == DigitValue(l.s[l.index]))
    && l.hi == DigitValue(l.e[l.index])
  }

  function LayoutOf(r: UidRange): (l: Layout)
    requires 0 <= r.start
    ensures ValidLayout(l)
    ensures l.s == Str(r.start) && l.e == Str(r.end)
  {
    var s, e := Str(r.start), Str(r.end);
    StrLengthMonotone(r.start, r.end);
    var b := FirstDifference(PaddedStart(r), e);
    Layout(s, e, b, if |s| == |e| then DigitValue(s[b]) else 1, DigitValue(e[b]), |e| - b - 1)
  }

  /** `f"{prefix}{d}?1{'?d' * k}"`: a literal prefix, the fixed pivot digit
      `d`, the bounded position, `k` free digits. */
  function EdgeMask(prefix: string, d: nat, k: nat, standard: bool): string
    requires IsDigitString(prefix) && d < 10
  {
    Codes(prefix, standard) + Code(d, standard) + BoundedToken(standard) + Repeat(AnyDigitToken(standard), k)
  }

  /** `f"{prefix}?1{'?d' * k}"`: a literal prefix, the bounded position,
      `k` free digits. */
  function BlockMask(prefix: string, k: nat, standard: bool): string
    requires IsDigitString(prefix)
  {
    Codes(prefix, standard) + BoundedToken(standard) + Repeat(AnyDigitToken(standard), k)
  }

  /** `f"?1{'?d' * (n - 1)}"`: every UID of `n` digits whose first digit is
      in the bounded charset. */
  function LengthMask(n: nat, standard: bool): string
    requires n >= 1
  {
    BoundedToken(standard) + Repeat(AnyDigitToken(standard), n - 1)
  }

  /** The pivot digits the middle mask stands for run from `MiddleLo` to
      `MiddleHi`: the edge masks take over `lo` when the start's next digit
      is not 0 and `hi` when the end's next digit is not 9. */
  function MiddleLo(lo: nat, a: char): nat {
    if a != '0' then lo + 1 else lo
  }

  function MiddleHi(hi: nat, c: char): int {
    if c != '9' then hi - 1 else hi
  }

  function MiddleCharset(lo: nat, hi: nat, a: char, c: char, standard: bool): string
    requires lo <= 9 && hi <= 9
  {
    DigitRange(MiddleLo(lo, a), MiddleHi(hi, c), standard)
  }

  /** Whether the middle mask is written: `corrected` selects the guard
      "the middle charset is not empty" instead of the one the compiler has. */
  predicate MiddleEmitted(lo: nat, hi: nat, a: char, c: char, corrected: bool) {
    if corrected then MiddleLo(lo, a) <= MiddleHi(hi, c)
    else hi - lo > 1 || a != '0' || c != '9'
  }

  /** One mask per length `from .. limit - 1`, every one with first digit 1..9. */
  function LengthRun(m: MaskMap, from: nat, limit: nat, standard: bool): MaskMap
    requires from >= 1
  {
    if limit <= from then m
    else Put(LengthRun(m, from, limit - 1, standard), LengthMask(limit - 1, standard), Charsets(DigitRange(1, 9, standard), standard))
  }

  /** Equal-length ends with digits right of the pivot, given the literal
      prefix, the number `k` of digits right of the pivot and the start's and
      end's digits `a` and `c` next to it: the start edge, the middle and the
      end edge, each when its guard holds. */
  function PivotMasks(standard: bool, prefix: string, k: nat, a: char, c: char, lo: nat, hi: nat, corrected: bool): MaskMap
    requires IsDigitString(prefix) && k >= 1 && IsDigit(a) && IsDigit(c) && lo <= 9 && hi <= 9
  {
    var m1 := PutIf([], a != '0', EdgeMask(prefix, lo, k - 1, standard), Charsets(DigitRange(DigitValue(a), 9, standard), standard));
    var m2 := PutIf(m1, MiddleEmitted(lo, hi, a, c, corrected),
      BlockMask(prefix, k, standard), Charsets(MiddleCharset(lo, hi, a, c, standard), standard));
    PutIf(m2, c != '9', EdgeMask(prefix, hi, k - 1, standard), Charsets(DigitRange(0, DigitValue(c), standard), standard))
  }

  /** Equal-length ends whose pivot is the last digit: one mask. */
  function LastDigitMasks(standard: bool, e: string, index: nat, lo: nat, hi: nat): MaskMap
    requires IsDigitString(e) && index < |e| && lo <= 9 && hi <= 9
  {
    Put([], BlockMask(e[..index], |e| - index - 1, standard), Charsets(DigitRange(lo, hi, standard), standard))
  }

  /** Ends of different lengths: one mask per length. */
  function LengthMasks(standard: bool, s: string, e: string, hi: nat): MaskMap
    requires IsDigitString(s) && 1 <= |s| < |e| && hi <= 9
  {
    var m1 := Put([], LengthMask(|s|, standard), Charsets(DigitRange(DigitValue(s[0]), 9, standard), standard));
    var m2 := LengthRun(m1, |s| + 1, |e|, standard);
    Put(m2, LengthMask(|e|, standard), Charsets(DigitRange(1, hi, standard), standard))
  }

  /** The masks for a layout: by pivot when the ends have one length, by
      length otherwise. */
  function CompileLayout(standard: bool, l: Layout, corrected: bool): MaskMap
    requires ValidLayout(l)
  {
    if |l.s| == |l.e| then
      if l.suffixLen > 0 then PivotMasks(standard, l.e[..l.index], l.suffixLen, l.s[l.index + 1], l.e[l.index + 1], l.lo, l.hi, corrected)
      else LastDigitMasks(standard, l.e, l.index, l.lo, l.hi)
    else LengthMasks(standard, l.s, l.e, l.hi)
  }

  function Compile(standard: bool, r: UidRange, corrected: bool): MaskMap
    requires 0 <= r.start
  {
    CompileLayout(standard, LayoutOf(r), corrected)
  }

  /** The masks and charsets `get_masks_and_charsets` returns. */
  function MasksAndCharsets(standard: bool, r: UidRange): MaskMap
    requires 0 <= r.start
  {
    Compile(standard, r, false)
  }

  /** The same with the middle mask written exactly when its charset is not
      empty. */
  function MasksAndCharsetsCorrected(standard: bool, r: UidRange): MaskMap
    requires 0 <= r.start
  {
    Compile(standard, r, true)
  }

  method GetMasksAndCharsets(isStandardMd5: bool, uidRange: UidRange) returns (masksAndCharsets: MaskMap)
    requires 0 <= uidRange.start
    ensures masksAndCharsets == MasksAndCharsets(isStandardMd5, uidRange)
  {
    ghost var l := LayoutOf(uidRange);
    var startUid := Str(uidRange.start);
    var endUid := Str(uidRange.end);
    StrLengthMonotone(uidRange.start, uidRange.end);

    var prefixedStart := Repeat("0", |endUid| - |startUid|) + startUid;
    assert prefixedStart == PaddedStart(uidRange);
    var boundaryIndex := FindBoundaryIndex(prefixedStart, endUid);
    assert boundaryIndex == l.index;

    var prefix := endUid[..boundaryIndex];
    var boundaryMaskStart := if |startUid| == |endUid| then DigitValue(startUid[boundaryIndex]) else 1;
    var boundaryMaskEnd := DigitValue(endUid[boundaryIndex]);
    var boundaryCharset := DigitRange(boundaryMaskStart, boundaryMaskEnd, isStandardMd5);
    var suffixLen := |endUid| - |prefix| - 1;
    assert Layout(startUid, endUid, boundaryIndex, boundaryMaskStart, boundaryMaskEnd, suffixLen) == l;

    masksAndCharsets := WriteMasks(isStandardMd5, startUid, endUid, boundaryIndex, boundaryMaskStart, boundaryMaskEnd, suffixLen);
  }

  /** The writes of `get_masks_and_charsets` once the pivot is known. */
  method WriteMasks(isStandardMd5: bool, startUid: string, endUid: string, boundaryIndex: nat,
                    boundaryMaskStart: nat, boundaryMaskEnd: nat, suffixLen: nat)
    returns (masksAndCharsets: MaskMap)
    requires ValidLayout(Layout(startUid, endUid, boundaryIndex, boundaryMaskStart, boundaryMaskEnd, suffixLen))
    ensures masksAndCharsets
         == CompileLayout(isStandardMd5, Layout(startUid, endUid, boundaryIndex, boundaryMaskStart, boundaryMaskEnd, suffixLen), false)
  {
    if |startUid| == |endUid| {
      if suffixLen > 0 {
        masksAndCharsets := WritePivotMasks(isStandardMd5, startUid, endUid, boundaryIndex, boundaryMaskStart, boundaryMaskEnd);
      } else {
        var prefix := endUid[..boundaryIndex];
        var boundaryCharset := DigitRange(boundaryMaskStart, boundaryMaskEnd, isStandardMd5);
        var mask := Codes(prefix, isStandardMd5) + BoundedToken(isStandardMd5) + Repeat(AnyDigitToken(isStandardMd5), suffixLen);
        assert mask == BlockMask(prefix, |endUid| - boundaryIndex - 1, isStandardMd5);
        masksAndCharsets := Put([], mask, Charsets(boundaryCharset, isStandardMd5));
      }
    } else {
      masksAndCharsets := WriteLengthMasks(isStandardMd5, startUid, endUid, boundaryMaskEnd);
    }
  }

  /** The pivot search: the first position where the padded start and the
      end differ, 0 when they are equal. */
  method FindBoundaryIndex(prefixedStart: string, endUid: string) returns (boundaryIndex: nat)
    requires |prefixedStart| == |endUid|
    ensures boundaryIndex == FirstDifference(prefixedStart, endUid)
  {
    boundaryIndex := 0;
    var i := 0;
    while i < |endUid|
      invariant i <= |endUid| && prefixedStart[..i] == endUid[..i]
      invariant boundaryIndex == 0
    {
      if prefixedStart[i] != endUid[i] {
        boundaryIndex := i;
        FirstDifferenceUnique(prefixedStart, endUid, i);
        return;
      }
      assert prefixedStart[..i + 1] == prefixedStart[..i] + [prefixedStart[i]];
      assert endUid[..i + 1] == endUid[..i] + [endUid[i]];
      i := i + 1;
    }
    assert prefixedStart == prefixedStart[..i] && endUid == endUid[..i];
  }

  /** Equal-length ends with digits right of the pivot. */
  method WritePivotMasks(isStandardMd5: bool, startUid: string, endUid: string, boundaryIndex: nat,
                         boundaryMaskStart: nat, boundaryMaskEnd: nat)
    returns (masksAndCharsets: MaskMap)
    requires IsDigitString(startUid) && IsDigitString(endUid) && |startUid| == |endUid|
    requires boundaryIndex + 1 < |endUid| && boundaryMaskStart <= 9 && boundaryMaskEnd <= 9
    ensures masksAndCharsets
         == PivotMasks(isStandardMd5, endUid[..boundaryIndex], |endUid| - boundaryIndex - 1, startUid[boundaryIndex + 1],
                       endUid[boundaryIndex + 1], boundaryMaskStart, boundaryMaskEnd, false)
  {
    var prefix := endUid[..boundaryIndex];
    var literalPrefix := Codes(prefix, isStandardMd5);
    var boundaryCharset := DigitRange(boundaryMaskStart, boundaryMaskEnd, isStandardMd5);
    var suffixLen := |endUid| - |prefix| - 1;
    assert suffixLen == |endUid| - boundaryIndex - 1;
    var bounded, anyDigit := BoundedToken(isStandardMd5), AnyDigitToken(isStandardMd5);

    masksAndCharsets := [];
    var digitNearBoundaryOfStartUid := startUid[boundaryIndex + 1];
    if digitNearBoundaryOfStartUid != '0' {
      var charset := DigitRange(DigitValue(digitNearBoundaryOfStartUid), 9, isStandardMd5);
      var mask := literalPrefix + Code(boundaryMaskStart, isStandardMd5) + bounded + Repeat(anyDigit, suffixLen - 1);
      assert mask == EdgeMask(prefix, boundaryMaskStart, suffixLen - 1, isStandardMd5);
      masksAndCharsets := Put(masksAndCharsets, mask, Charsets(charset, isStandardMd5));
    }
    ghost var m1 := masksAndCharsets;
    assert m1 == PutIf([], digitNearBoundaryOfStartUid != '0', EdgeMask(prefix, boundaryMaskStart, suffixLen - 1, isStandardMd5),
      Charsets(DigitRange(DigitValue(digitNearBoundaryOfStartUid), 9, isStandardMd5), isStandardMd5));
    var digitNearBoundaryOfEndUid := endUid[boundaryIndex + 1];
    if boundaryMaskEnd - boundaryMaskStart > 1 || digitNearBoundaryOfStartUid != '0' || digitNearBoundaryOfEndUid != '9' {
      var mask := literalPrefix + bounded + Repeat(anyDigit, suffixLen);
      assert mask == BlockMask(prefix, suffixLen, isStandardMd5);
      var boundaryNewCharset := TrimmedCharset(isStandardMd5, boundaryCharset, boundaryMaskStart, boundaryMaskEnd,
        digitNearBoundaryOfStartUid, digitNearBoundaryOfEndUid);
      masksAndCharsets := Put(masksAndCharsets, mask, Charsets(boundaryNewCharset, isStandardMd5));
    }
    ghost var m2 := masksAndCharsets;
    assert m2 == PutIf(m1, MiddleEmitted(boundaryMaskStart, boundaryMaskEnd, digitNearBoundaryOfStartUid, digitNearBoundaryOfEndUid, false),
      BlockMask(prefix, suffixLen, isStandardMd5),
      Charsets(MiddleCharset(boundaryMaskStart, boundaryMaskEnd, digitNearBoundaryOfStartUid, digitNearBoundaryOfEndUid, isStandardMd5), isStandardMd5));
    if digitNearBoundaryOfEndUid != '9' {
      var charset := DigitRange(0, DigitValue(digitNearBoundaryOfEndUid), isStandardMd5);
      var mask := literalPrefix + Code(boundaryMaskEnd, isStandardMd5) + bounded + Repeat(anyDigit, suffixLen - 1);
      assert mask == EdgeMask(prefix, boundaryMaskEnd, suffixLen - 1, isStandardMd5);
      masksAndCharsets := Put(masksAndCharsets, mask, Charsets(charset, isStandardMd5));
    }
    assert masksAndCharsets == PutIf(m2, digitNearBoundaryOfEndUid != '9', EdgeMask(prefix, boundaryMaskEnd, suffixLen - 1, isStandardMd5),
      Charsets(DigitRange(0, DigitValue(digitNearBoundaryOfEndUid), isStandardMd5), isStandardMd5));
  }

  /** The middle charset: the pivot's charset less its first symbol when the
      start edge covers it and less its last when the end edge does. */
  method TrimmedCharset(isStandardMd5: bool, boundaryCharset: string, boundaryMaskStart: nat, boundaryMaskEnd: nat,
                        digitNearBoundaryOfStartUid: char, digitNearBoundaryOfEndUid: char)
    returns (boundaryNewCharset: string)
    requires boundaryMaskStart <= 9 && boundaryMaskEnd <= 9
    requires boundaryCharset == DigitRange(boundaryMaskStart, boundaryMaskEnd, isStandardMd5)
    ensures boundaryNewCharset == MiddleCharset(boundaryMaskStart, boundaryMaskEnd,
      digitNearBoundaryOfStartUid, digitNearBoundaryOfEndUid, isStandardMd5)
  {
    boundaryNewCharset := boundaryCharset;
    DropFirstDigitRange(boundaryMaskStart, boundaryMaskEnd, isStandardMd5);
    if digitNearBoundaryOfStartUid != '0' {
      boundaryNewCharset := DropFirst(boundaryNewCharset, Width(isStandardMd5));
    }
    DropLastDigitRange(if digitNearBoundaryOfStartUid != '0' then boundaryMaskStart + 1 else boundaryMaskStart,
      boundaryMaskEnd, isStandardMd5);
    if digitNearBoundaryOfEndUid != '9' {
      boundaryNewCharset := DropLast(boundaryNewCharset, Width(isStandardMd5));
    }
  }

  /** Ends of different lengths: the start's length, every length between,
      the end's length. */
  method WriteLengthMasks(isStandardMd5: bool, startUid: string, endUid: string, boundaryMaskEnd: nat)
    returns (masksAndCharsets: MaskMap)
    requires IsDigitString(startUid) && 1 <= |startUid| < |endUid| && boundaryMaskEnd <= 9
    ensures masksAndCharsets == LengthMasks(isStandardMd5, startUid, endUid, boundaryMaskEnd)
  {
    var boundaryCharset := DigitRange(1, boundaryMaskEnd, isStandardMd5);
    var bounded, anyDigit := BoundedToken(isStandardMd5), AnyDigitToken(isStandardMd5);
    var charset := DigitRange(DigitValue(startUid[0]), 9, isStandardMd5);
    masksAndCharsets := Put([], bounded + Repeat(anyDigit, |startUid| - 1), Charsets(charset, isStandardMd5));
    ghost var first := masksAndCharsets;
    assert first == Put([], LengthMask(|startUid|, isStandardMd5), Charsets(charset, isStandardMd5));
    var charsetOfFirstDigitOfGeneratedUid := DigitRange(1, 9, isStandardMd5);
    if |endUid| - |startUid| > 1 {
      for maskLen := |startUid| + 1 to |endUid|
        invariant masksAndCharsets == LengthRun(first, |startUid| + 1, maskLen, isStandardMd5)
      {
        var mask := bounded + Repeat(anyDigit, maskLen - 1);
        assert mask == LengthMask(maskLen, isStandardMd5);
        masksAndCharsets := Put(masksAndCharsets, mask, Charsets(charsetOfFirstDigitOfGeneratedUid, isStandardMd5));
      }
    }
    assert masksAndCharsets == LengthRun(first, |startUid| + 1, |endUid|, isStandardMd5);
    var mask := bounded + Repeat(anyDigit, |endUid| - 1);
    assert mask == LengthMask(|endUid|, isStandardMd5);
    masksAndCharsets := Put(masksAndCharsets, mask, Charsets(boundaryCharset, isStandardMd5));
  }
}
