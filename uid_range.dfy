/** The closed UID interval `UidRange` (bili_uid_crack/uid_range.py): an
    immutable pair `start <= end` with membership, overlap and merge. */
module UidRanges {
  import opened PyResults

  /** The two fields of a range; `UidRange` adds the class's invariant. */
  datatype Span = Span(start: int, end: int)

  /** A constructed `UidRange`: the constructor refuses `start > end`, so
      every value of this type has `start <= end`. */
  type UidRange = r: Span | r.start <= r.end witness Span(0, 0)

  /** `UidRange(start, end)`: raises `ValueError` when `start > end`. */
  function NewUidRange(start: int, end: int): (r: Outcome<UidRange>)
    ensures r.Err? <==> start > end
    ensures r.Err? ==> r.error == ValueError
    ensures r.Ok? ==> r.value.start == start && r.value.end == end
  {
    if start > end then Err(ValueError) else Ok(Span(start, end))
  }

  /** `item in r`. */
  predicate Contains(r: UidRange, item: int) {
    r.start <= item <= r.end
  }

  /** `a.overlaps(b)`. */
  predicate Overlaps(a: UidRange, b: UidRange) {
    a.start <= b.end && a.end >= b.start
  }

  /** `a.merge(b)`: raises `ValueError` unless the ranges overlap. */
  function Merge(a: UidRange, b: UidRange): (r: Outcome<UidRange>)
    ensures r.Err? <==> !Overlaps(a, b)
    ensures r.Ok? ==> forall x :: Contains(r.value, x) <==> Contains(a, x) || Contains(b, x)
  {
    if !Overlaps(a, b) then Err(ValueError)
    else
      var m: UidRange := Span(if a.start <= b.start then a.start else b.start,
                              if a.end >= b.end then a.end else b.end);
      Ok(m)
  }

  /** `r[index]`: index 0 is `start`, index 1 is `end`, anything else
      raises `IndexError`. */
  function GetItem(r: UidRange, index: int): (v: Outcome<int>)
    ensures v.Ok? <==> 0 <= index < Len(r)
    ensures index == 0 ==> v == Ok(r.start)
    ensures index == 1 ==> v == Ok(r.end)
    ensures v.Err? ==> v.error == IndexError
  {
    if index == 0 then Ok(r.start)
    else if index == 1 then Ok(r.end)
    else Err(IndexError)
  }

  /** `len(r)`. */
  function Len(r: UidRange): nat {
    2
  }

  /** `list(r)`: iteration yields `start`, then `end`. */
  function Iter(r: UidRange): (s: seq<int>)
    ensures |s| == Len(r)
    ensures s == [r.start, r.end]
  {
    [r.start, r.end]
  }

  /** `a == b` between two ranges. */
  predicate Equal(a: UidRange, b: UidRange) {
    a.start == b.start && a.end == b.end
  }

  /** Indexing, `len` and iteration agree: `r[i]` is the i-th value
      iteration yields, for every index `len` allows, and nothing else. */
  lemma SequenceProtocol(r: UidRange, i: int)
    ensures GetItem(r, i).Ok? <==> 0 <= i < |Iter(r)|
    ensures 0 <= i < |Iter(r)| ==> GetItem(r, i).value == Iter(r)[i]
  {
  }

  /** `in` is membership of the closed interval between the two values
      iteration yields: both ends belong, nothing outside them does. */
  lemma ContainsClosed(r: UidRange, x: int)
    ensures Contains(r, r.start) && Contains(r, r.end)
    ensures Contains(r, x) <==> Iter(r)[0] <= x <= Iter(r)[1]
    ensures x < r.start || r.end < x ==> !Contains(r, x)
  {
  }

  /** `len(r)` counts the values iteration yields, and index `len(r)` is the
      first one `r[...]` refuses. */
  lemma LenProtocol(r: UidRange)
    ensures Len(r) == |Iter(r)|
    ensures forall i :: 0 <= i < Len(r) ==> GetItem(r, i).Ok?
    ensures GetItem(r, Len(r)) == Err(IndexError)
  {
  }

  /** Range equality is value equality: two ranges are equal exactly when
      iteration yields the same pair. */
  lemma EqualIsValueEquality(a: UidRange, b: UidRange)
    ensures Equal(a, b) <==> a == b
    ensures Equal(a, b) <==> Iter(a) == Iter(b)
  {
    if Iter(a) == Iter(b) {
      assert Iter(a)[0] == a.start && Iter(a)[1] == a.end;
    }
  }

  /** Overlap means sharing a member, in both directions, and is symmetric. */
  lemma OverlapsIffCommonMember(a: UidRange, b: UidRange)
    ensures Overlaps(a, b) <==> exists x :: Contains(a, x) && Contains(b, x)
    ensures Overlaps(a, b) <==> Overlaps(b, a)
  {
    if Overlaps(a, b) {
      var x := if a.start <= b.start then b.start else a.start;
      assert Contains(a, x) && Contains(b, x);
    }
  }

  /** Merging two overlapping ranges does not depend on their order. */
  lemma MergeCommutes(a: UidRange, b: UidRange)
    ensures Merge(a, b) == Merge(b, a)
  {
  }
}
