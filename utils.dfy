/** bili_uid_crack/utils.py: the MD5 text check, the two byte preimages of
    a UID (the digest itself is not modelled) and the merge of UID ranges. */
module Utils {
  import opened Decimal
  import opened UidRanges

  type Byte = x: int | 0 <= x < 256

  // ---------------------------------------------------------------------
  // check_md5

  predicate IsHexDigit(c: char) {
    '0' <= c <= '9' || 'a' <= c <= 'f' || 'A' <= c <= 'F'
  }

  /** `str.lower()` on ASCII letters; other characters are kept. */
  function Lower(s: string): (r: string)
    ensures |r| == |s|
  {
    seq(|s|, i requires 0 <= i < |s| => if 'A' <= s[i] <= 'Z' then (s[i] as int + 32) as char else s[i])
  }

  /** `re.match('^[a-f\d]{32}$', s)`: 32 characters from `[a-f0-9]`; as
      Python's `$` also matches just before a final newline, a 33rd
      character is allowed when it is `'\n'`. */
  predicate MatchesMd5Pattern(s: string) {
    (|s| == 32 || (|s| == 33 && s[32] == '\n'))
    && forall i :: 0 <= i < 32 ==> '0' <= s[i] <= '9' || 'a' <= s[i] <= 'f'
  }

  /** `check_md5(md5)`. */
  function CheckMd5(md5: string): (ok: bool)
    ensures ok <==> (|md5| == 32 || (|md5| == 33 && md5[32] == '\n'))
                    && forall i :: 0 <= i < 32 ==> IsHexDigit(md5[i])
  {
    var t := Lower(md5);
    assert forall i :: 0 <= i < |md5| ==> (IsHexDigit(md5[i]) <==> '0' <= t[i] <= '9' || 'a' <= t[i] <= 'f');
    MatchesMd5Pattern(t)
  }

  // ---------------------------------------------------------------------
  // The byte strings hashed by uid_to_md5

  /** The byte that stands for digit `d`: its ASCII code in the standard
      encoding, the digit's own value in the non-standard one. */
  function DigitByte(d: nat, standard: bool): (b: Byte)
    requires d < 10
    ensures b % 16 == d
  {
    if standard then 0x30 + d else d
  }

  /** One byte per digit of a digit string. */
  function Encode(s: string, standard: bool): (b: seq<Byte>)
    requires IsDigitString(s)
    ensures |b| == |s|
    ensures forall i :: 0 <= i < |s| ==> b[i] == DigitByte(DigitValue(s[i]), standard)
  {
    seq(|s|, i requires 0 <= i < |s| => DigitByte(DigitValue(s[i]), standard))
  }

  lemma EncodeAppend(x: string, y: string, standard: bool)
    requires IsDigitString(x) && IsDigitString(y)
    ensures IsDigitString(x + y)
    ensures Encode(x + y, standard) == Encode(x, standard) + Encode(y, standard)
  {
  }

  /** The preimage `uid_to_md5` hashes: `str(uid).encode('ascii')` when
      `standard`, `bytes([int(x) for x in str(uid)])` otherwise. */
  function Preimage(uid: nat, standard: bool): (b: seq<Byte>)
    ensures |b| == |Str(uid)|
    ensures forall i :: 0 <= i < |b| ==> b[i] % 16 == DigitValue(Str(uid)[i])
    ensures forall i :: 0 <= i < |b| ==> b[i] - b[i] % 16 == if standard then 0x30 else 0
  {
    Encode(Str(uid), standard)
  }

  /** The low nibbles of a preimage spell the UID, so different UIDs never
      share a preimage. */
  lemma PreimageInjective(a: nat, b: nat, standard: bool)
    requires Preimage(a, standard) == Preimage(b, standard)
    ensures a == b
  {
    var sa, sb := Str(a), Str(b);
    assert |sa| == |sb|;
    forall i | 0 <= i < |sa| ensures sa[i] == sb[i] {
      assert Preimage(a, standard)[i] % 16 == Preimage(b, standard)[i] % 16;
    }
    assert sa == sb;
  }

  // ---------------------------------------------------------------------
  // merge_uid_ranges

  predicate SortedByStart(s: seq<UidRange>) {
    forall i, j :: 0 <= i < j < |s| ==> s[i].start <= s[j].start
  }

  /** Each range ends strictly before the next one starts. */
  predicate Separated(s: seq<UidRange>) {
    forall i :: 0 <= i < |s| - 1 ==> s[i].end < s[i + 1].start
  }

  /** Some range of `s` contains `x`. */
  predicate CoveredBy(s: seq<UidRange>, x: int) {
    exists i :: 0 <= i < |s| && Contains(s[i], x)
  }

  function Insert(r: UidRange, s: seq<UidRange>): (t: seq<UidRange>)
    ensures multiset(t) == multiset(s) + multiset{r}
    ensures |t| == |s| + 1 && (t[0] == r || (s != [] && t[0] == s[0]))
  {
    if s == [] || r.start <= s[0].start then [r] + s
    else
      assert s == [s[0]] + s[1..];
      [s[0]] + Insert(r, s[1..])
  }

  lemma {:induction false} InsertSorted(r: UidRange, s: seq<UidRange>)
    requires SortedByStart(s)
    ensures SortedByStart(Insert(r, s))
  {
    if s != [] && r.start > s[0].start {
      var u := Insert(r, s[1..]);
      InsertSorted(r, s[1..]);
      assert s[0].start <= u[0].start;
      assert forall j :: 0 < j < |u| ==> u[0].start <= u[j].start;
    }
  }

  /** `sorted(uid_ranges, key=lambda x: x.start)`: a stable insertion sort. */
  function SortByStart(s: seq<UidRange>): (t: seq<UidRange>)
    ensures |t| == |s|
  {
    if s == [] then [] else Insert(s[0], SortByStart(s[1..]))
  }

  lemma MultisetCons(s: seq<UidRange>)
    requires s != []
    ensures multiset(s) == multiset{s[0]} + multiset(s[1..])
  {
    assert s == [s[0]] + s[1..];
  }

  lemma {:induction false} SortByStartPermutes(s: seq<UidRange>)
    ensures multiset(SortByStart(s)) == multiset(s)
  {
    if s != [] {
      SortByStartPermutes(s[1..]);
      MultisetCons(s);
    }
  }

  /** The sort returns the same ranges, ordered by start. */
  lemma {:induction false} SortByStartSorts(s: seq<UidRange>)
    ensures SortedByStart(SortByStart(s))
    ensures multiset(SortByStart(s)) == multiset(s)
  {
    SortByStartPermutes(s);
    if s != [] {
      SortByStartSorts(s[1..]);
      InsertSorted(s[0], SortByStart(s[1..]));
    }
  }

  /** One iteration of the merge loop: widen the last range when the next
      one starts at or before its end, otherwise append the next one. */
  function Step(merged: seq<UidRange>, current: UidRange): (r: seq<UidRange>)
    requires merged != []
    ensures r != []
  {
    var last := merged[|merged| - 1];
    if current.start <= last.end then
      var newEnd := if last.end >= current.end then last.end else current.end;
      merged[|merged| - 1 := Span(last.start, newEnd)]
    else merged + [current]
  }

  /** The merge loop run over a non-empty sequence. */
  function Coalesce(s: seq<UidRange>): (r: seq<UidRange>)
    requires s != []
    ensures r != []
  {
    if |s| == 1 then [s[0]] else Step(Coalesce(s[..|s| - 1]), s[|s| - 1])
  }

  /** What `merge_uid_ranges(uid_ranges)` returns. */
  function MergedUidRanges(uidRanges: seq<UidRange>): seq<UidRange> {
    if |uidRanges| < 1 then [] else Coalesce(SortByStart(uidRanges))
  }

  lemma CoalesceSnoc(s: seq<UidRange>, i: nat)
    requires 1 <= i < |s|
    ensures Coalesce(s[..i + 1]) == Step(Coalesce(s[..i]), s[i])
  {
    assert s[..i + 1][..i] == s[..i];
  }

  /** `merge_uid_ranges`: sort by start, then fold overlapping or
      touching-at-an-endpoint ranges into their predecessor. */
  method MergeUidRanges(uidRanges: seq<UidRange>) returns (merged: seq<UidRange>)
    ensures merged == MergedUidRanges(uidRanges)
    ensures SortedByStart(merged) && Separated(merged)
    ensures forall x :: CoveredBy(merged, x) <==> CoveredBy(uidRanges, x)
    ensures |merged| <= |uidRanges|
  {
    if |uidRanges| < 1 {
      return [];
    }
    var sortedRanges := SortByStart(uidRanges);
    merged := [sortedRanges[0]];
    for i := 1 to |sortedRanges|
      invariant merged == Coalesce(sortedRanges[..i])
    {
      var current := sortedRanges[i];
      CoalesceSnoc(sortedRanges, i);
      var last := merged[|merged| - 1];
      if current.start <= last.end {
        var newEnd := if last.end >= current.end then last.end else current.end;
        var widened: UidRange := Span(last.start, newEnd);
        merged := merged[|merged| - 1 := widened];
      } else {
        var next: UidRange := Span(current.start, current.end);
        merged := merged + [next];
      }
    }
    assert sortedRanges[..|sortedRanges|] == sortedRanges;
    MergedProperties(uidRanges);
  }

  lemma SeparatedIsSorted(s: seq<UidRange>)
    requires Separated(s)
    ensures SortedByStart(s)
  {
    forall i, j | 0 <= i < j < |s| ensures s[i].start <= s[j].start {
      SeparatedStep(s, i, j);
    }
  }

  lemma {:induction false} SeparatedStep(s: seq<UidRange>, i: nat, j: nat)
    requires Separated(s) && i < j < |s|
    ensures s[i].end < s[j].start
    decreases j - i
  {
    if i + 1 < j { SeparatedStep(s, i + 1, j); }
  }

  /** One merge step on a sorted input keeps the output separated and
      covers what it covered plus the new range. */
  lemma StepProperties(merged: seq<UidRange>, current: UidRange)
    requires merged != [] && Separated(merged)
    requires merged[|merged| - 1].start <= current.start
    ensures Separated(Step(merged, current))
    ensures forall x :: CoveredBy(Step(merged, current), x) <==> CoveredBy(merged, x) || Contains(current, x)
    ensures Step(merged, current)[|Step(merged, current)| - 1].start <= current.start
    ensures |Step(merged, current)| <= |merged| + 1
  {
    var k := |merged| - 1;
    var t := Step(merged, current);
    forall x ensures CoveredBy(t, x) <==> CoveredBy(merged, x) || Contains(current, x) {
      if CoveredBy(t, x) {
        var i :| 0 <= i < |t| && Contains(t[i], x);
        if i < k || (i == k && t[k] == merged[k]) {
          assert Contains(merged[i], x);
        }
      }
      if CoveredBy(merged, x) {
        var i :| 0 <= i < |merged| && Contains(merged[i], x);
        assert Contains(t[i], x);
      }
      if Contains(current, x) {
        assert Contains(t[|t| - 1], x);
      }
    }
  }

  /** The merge loop over a sorted input: a separated output covering
      exactly the input, never longer than it, that starts where the input
      starts. */
  lemma {:induction false} CoalesceProperties(s: seq<UidRange>)
    requires s != [] && SortedByStart(s)
    ensures Separated(Coalesce(s))
    ensures forall x :: CoveredBy(Coalesce(s), x) <==> CoveredBy(s, x)
    ensures Coalesce(s) != [] && Coalesce(s)[|Coalesce(s)| - 1].start <= s[|s| - 1].start
    ensures |Coalesce(s)| <= |s|
  {
    if |s| > 1 {
      var p := s[..|s| - 1];
      CoalesceProperties(p);
      StepProperties(Coalesce(p), s[|s| - 1]);
      forall x ensures CoveredBy(s, x) <==> CoveredBy(p, x) || Contains(s[|s| - 1], x) {
        if CoveredBy(s, x) {
          var i :| 0 <= i < |s| && Contains(s[i], x);
          if i < |s| - 1 { assert Contains(p[i], x); }
        }
        if CoveredBy(p, x) {
          var i :| 0 <= i < |p| && Contains(p[i], x);
          assert Contains(s[i], x);
        }
      }
    } else {
      forall x | Contains(s[0], x) ensures CoveredBy(Coalesce(s), x) && CoveredBy(s, x) {
        assert Coalesce(s)[0] == s[0];
      }
    }
  }

  lemma MultisetCovers(a: seq<UidRange>, b: seq<UidRange>)
    requires multiset(a) == multiset(b)
    ensures forall x :: CoveredBy(a, x) <==> CoveredBy(b, x)
  {
    forall x | CoveredBy(a, x) ensures CoveredBy(b, x) {
      var i :| 0 <= i < |a| && Contains(a[i], x);
      assert a[i] in multiset(b);
      var j :| 0 <= j < |b| && b[j] == a[i];
    }
    forall x | CoveredBy(b, x) ensures CoveredBy(a, x) {
      var i :| 0 <= i < |b| && Contains(b[i], x);
      assert b[i] in multiset(a);
      var j :| 0 <= j < |a| && a[j] == b[i];
    }
  }

  /** What merge_uid_ranges promises: sorted by start, each range ending
      strictly before the next begins, the same UIDs covered, and never more
      ranges than it was given. */
  lemma MergedProperties(uidRanges: seq<UidRange>)
    ensures SortedByStart(MergedUidRanges(uidRanges)) && Separated(MergedUidRanges(uidRanges))
    ensures forall x :: CoveredBy(MergedUidRanges(uidRanges), x) <==> CoveredBy(uidRanges, x)
    ensures |MergedUidRanges(uidRanges)| <= |uidRanges|
  {
    if |uidRanges| >= 1 {
      var sorted := SortByStart(uidRanges);
      SortByStartSorts(uidRanges);
      CoalesceProperties(sorted);
      MultisetCovers(sorted, uidRanges);
      SeparatedIsSorted(MergedUidRanges(uidRanges));
    }
  }

  lemma {:induction false} SortKeepsSorted(s: seq<UidRange>)
    requires SortedByStart(s)
    ensures SortByStart(s) == s
  {
    if s != [] {
      SortKeepsSorted(s[1..]);
      assert s == [s[0]] + s[1..];
    }
  }

  lemma {:induction false} CoalesceKeepsSeparated(s: seq<UidRange>)
    requires s != [] && Separated(s)
    ensures Coalesce(s) == s
  {
    if |s| > 1 {
      var p := s[..|s| - 1];
      CoalesceKeepsSeparated(p);
      assert s == p + [s[|s| - 1]];
    }
  }

  /** Merging twice is merging once. */
  lemma MergeIdempotent(uidRanges: seq<UidRange>)
    ensures MergedUidRanges(MergedUidRanges(uidRanges)) == MergedUidRanges(uidRanges)
  {
    var m := MergedUidRanges(uidRanges);
    MergedProperties(uidRanges);
    if m != [] {
      SortKeepsSorted(m);
      CoalesceKeepsSeparated(m);
    }
  }

  /** Ranges sharing an endpoint merge: `[1,5]` and `[3,10]` give `[1,10]`. */
  lemma MergeSharedEndpoint()
    ensures MergedUidRanges([Span(1, 5), Span(3, 10)]) == [Span(1, 10)]
  {
    var a: seq<UidRange> := [Span(1, 5), Span(3, 10)];
    var one: seq<UidRange> := [Span(1, 5)];
    assert SortedByStart(a);
    SortKeepsSorted(a);
    assert a[..1] == one;
    calc {
      MergedUidRanges(a);
      Coalesce(SortByStart(a));
      Coalesce(a);
      Step(Coalesce(one), Span(3, 10));
      Step(one, Span(3, 10));
      [Span(1, 10)];
    }
  }

  /** Merely adjacent ranges stay apart: `[1,2]` and `[3,4]` are kept. */
  lemma MergeAdjacentStaySeparate()
    ensures MergedUidRanges([Span(1, 2), Span(3, 4)]) == [Span(1, 2), Span(3, 4)]
  {
    var b: seq<UidRange> := [Span(1, 2), Span(3, 4)];
    assert SortedByStart(b) && Separated(b);
    SortKeepsSorted(b);
    CoalesceKeepsSeparated(b);
  }

  /** The output is put in order of start: `[4,5]`, `[1,2]` give `[1,2]`, `[4,5]`. */
  lemma MergeOrdersByStart()
    ensures MergedUidRanges([Span(4, 5), Span(1, 2)]) == [Span(1, 2), Span(4, 5)]
  {
    var c: seq<UidRange> := [Span(4, 5), Span(1, 2)];
    var d: seq<UidRange> := [Span(1, 2), Span(4, 5)];
    assert c[1..] == [Span(1, 2)];
    assert SortByStart(c) == d by {
      assert SortByStart([Span(1, 2)]) == [Span(1, 2)];
    }
    assert SortedByStart(d) && Separated(d);
    CoalesceKeepsSeparated(d);
  }
}
