/** What the cracker hands to hashcat: the text of the temporary mask file
    (one line per mask, its custom charsets in front, comma-separated), and
    the UID ranges split at 10^10, so that each range lies wholly below or
    wholly above the threshold the cracking loop compares each range's end
    with when it picks hashcat's workload profile. */
module HashcatInput {
  import opened Text
  import opened UidRanges
  import opened Utils
  import opened OrderedDicts
  import opened MaskCompiler

  // ---------------------------------------------------------------------
  // The mask file

  /** One line of the mask file: every charset followed by a comma, then
      the mask, then a newline. */
  function MaskLine(mask: string, charsets: seq<string>): string {
    (if |charsets| > 0 then Join(charsets, ',') + "," else "") + mask + "\n"
  }

  /** The whole mask file: the lines of the entries in the dictionary's order. */
  function MaskFileText(d: MaskMap): string {
    if d == [] then "" else MaskLine(d[0].key, d[0].value) + MaskFileText(d[1..])
  }

  lemma {:induction false} MaskFileTextSnoc(d: MaskMap, e: Entry<seq<string>>)
    ensures MaskFileText(d + [e]) == MaskFileText(d) + MaskLine(e.key, e.value)
  {
    if d != [] {
      assert (d + [e])[1..] == d[1..] + [e];
      MaskFileTextSnoc(d[1..], e);
    }
  }

  /** `__generate_temp_hashcat_mask_file`, without the temporary file: the
      text the loop builds and writes. */
  method GenerateMaskFileText(masksAndCharsets: MaskMap) returns (masksAndCharsetsStr: string)
    ensures masksAndCharsetsStr == MaskFileText(masksAndCharsets)
  {
    masksAndCharsetsStr := "";
    for i := 0 to |masksAndCharsets|
      invariant masksAndCharsetsStr == MaskFileText(masksAndCharsets[..i])
    {
      var mask, charsets := masksAndCharsets[i].key, masksAndCharsets[i].value;
      MaskFileTextSnoc(masksAndCharsets[..i], masksAndCharsets[i]);
      assert masksAndCharsets[..i + 1] == masksAndCharsets[..i] + [masksAndCharsets[i]];
      if |charsets| > 0 {
        masksAndCharsetsStr := masksAndCharsetsStr + Join(charsets, ',') + ",";
      }
      masksAndCharsetsStr := masksAndCharsetsStr + mask + "\n";
    }
    assert masksAndCharsets[..|masksAndCharsets|] == masksAndCharsets;
  }

  /** How hashcat reads one line of a mask file: comma-separated fields, the
      last the mask and those before it the custom charsets. */
  function ParseMaskLine(line: string): Entry<seq<string>> {
    var fields := Split(line, ',');
    Entry(fields[|fields| - 1], fields[..|fields| - 1])
  }

  /** How hashcat reads a mask file: one entry per newline-terminated line. */
  function ParseMaskFile(text: string): (d: MaskMap)
    ensures |d| == |Split(text, '\n')| - 1
  {
    var lines := Split(text, '\n');
    seq(|lines| - 1, i requires 0 <= i < |lines| - 1 => ParseMaskLine(lines[i]))
  }

  /** Text the mask-file syntax can carry in one field. */
  predicate PlainField(s: string) {
    ',' !in s && '\n' !in s
  }

  predicate Writable(d: MaskMap) {
    forall i :: 0 <= i < |d| ==>
      PlainField(d[i].key) && forall j :: 0 <= j < |d[i].value| ==> PlainField(d[i].value[j])
  }

  /** The fields of an entry's line, charsets first. */
  function Fields(e: Entry<seq<string>>): seq<string> {
    e.value + [e.key]
  }

  function Lines(d: MaskMap): (lines: seq<string>)
    ensures |lines| == |d|
  {
    seq(|d|, i requires 0 <= i < |d| => Join(Fields(d[i]), ','))
  }

  lemma {:induction false} JoinSnoc(parts: seq<string>, last: string, sep: char)
    requires |parts| > 0
    ensures Join(parts + [last], sep) == Join(parts, sep) + [sep] + last
  {
    if |parts| > 1 {
      assert (parts + [last])[1..] == parts[1..] + [last];
      JoinSnoc(parts[1..], last, sep);
    }
  }

  lemma {:induction false} JoinAvoids(parts: seq<string>, sep: char, c: char)
    requires c != sep
    requires forall k :: 0 <= k < |parts| ==> c !in parts[k]
    ensures c !in Join(parts, sep)
  {
    if |parts| > 1 {
      JoinAvoids(parts[1..], sep, c);
    }
  }

  lemma MaskLineFields(e: Entry<seq<string>>)
    ensures MaskLine(e.key, e.value) == Join(Fields(e), ',') + "\n"
  {
    if |e.value| > 0 {
      JoinSnoc(e.value, e.key, ',');
    }
  }

  lemma {:induction false} MaskFileLines(d: MaskMap)
    ensures MaskFileText(d) == Join(Lines(d) + [""], '\n')
  {
    if d != [] {
      MaskFileLines(d[1..]);
      MaskLineFields(d[0]);
      assert Lines(d) == [Lines(d)[0]] + Lines(d[1..]);
      assert (Lines(d) + [""])[1..] == Lines(d[1..]) + [""];
    }
  }

  /** Reading back the mask file gives every mask with its charsets, in
      order, provided no mask or charset holds a comma or a newline. */
  lemma MaskFileRoundTrip(d: MaskMap)
    requires Writable(d)
    ensures ParseMaskFile(MaskFileText(d)) == d
  {
    var lines := Lines(d);
    MaskFileLines(d);
    forall i | 0 <= i < |d|
      ensures '\n' !in lines[i] && ParseMaskLine(lines[i]) == d[i]
    {
      var f := Fields(d[i]);
      assert forall k :: 0 <= k < |f| ==> PlainField(f[k]);
      JoinAvoids(f, ',', '\n');
      SplitJoin(f, ',');
    }
    SplitJoin(lines + [""], '\n');
  }

  // ---------------------------------------------------------------------
  // The split at 10^10

  const UidThreshold: int := 10_000_000_000

  /** A range lies on one side of the threshold. */
  predicate OneSide(r: UidRange) {
    r.end < UidThreshold || UidThreshold <= r.start
  }

  /** One step of the loop: a range across the threshold becomes the part
      below it and the part from it on; any other range is kept. */
  function SplitRange(r: UidRange): (s: seq<UidRange>)
    ensures 1 <= |s| <= 2
    ensures OneSide(r) ==> s == [r]
    ensures forall j :: 0 <= j < |s| ==> OneSide(s[j])
  {
    if r.start < UidThreshold && r.end >= UidThreshold then
      [Span(r.start, UidThreshold - 1), Span(UidThreshold, r.end)]
    else [r]
  }

  /** The ranges after the split, in the input's order. */
  function SplitRanges(rs: seq<UidRange>): (s: seq<UidRange>)
    ensures |rs| <= |s| <= 2 * |rs|
    ensures forall j :: 0 <= j < |s| ==> OneSide(s[j])
  {
    if rs == [] then [] else SplitRanges(rs[..|rs| - 1]) + SplitRange(rs[|rs| - 1])
  }

  /** The splitting loop of the nested `hashcat_crack`, which runs before
      its cracking loop. */
  method SplitAtThreshold(uidRanges: seq<UidRange>) returns (splitedUidRanges: seq<UidRange>)
    ensures splitedUidRanges == SplitRanges(uidRanges)
  {
    splitedUidRanges := [];
    for i := 0 to |uidRanges|
      invariant splitedUidRanges == SplitRanges(uidRanges[..i])
    {
      var uidRange := uidRanges[i];
      assert uidRanges[..i + 1][..i] == uidRanges[..i];
      if uidRange.start < UidThreshold && uidRange.end >= UidThreshold {
        splitedUidRanges := splitedUidRanges + [Span(uidRange.start, UidThreshold - 1)];
        splitedUidRanges := splitedUidRanges + [Span(UidThreshold, uidRange.end)];
      } else {
        splitedUidRanges := splitedUidRanges + [uidRange];
      }
    }
    assert uidRanges[..|uidRanges|] == uidRanges;
  }

  lemma CoveredByAppend(a: seq<UidRange>, b: seq<UidRange>, x: int)
    ensures CoveredBy(a + b, x) <==> CoveredBy(a, x) || CoveredBy(b, x)
  {
    if CoveredBy(a + b, x) {
      var i :| 0 <= i < |a + b| && Contains((a + b)[i], x);
      if i >= |a| {
        assert Contains(b[i - |a|], x);
      }
    }
    if CoveredBy(a, x) {
      var i :| 0 <= i < |a| && Contains(a[i], x);
      assert Contains((a + b)[i], x);
    }
    if CoveredBy(b, x) {
      var i :| 0 <= i < |b| && Contains(b[i], x);
      assert Contains((a + b)[|a| + i], x);
    }
  }

  lemma SplitRangeCovers(r: UidRange, x: int)
    ensures CoveredBy(SplitRange(r), x) <==> Contains(r, x)
  {
    var s := SplitRange(r);
    if Contains(r, x) {
      if |s| == 1 {
        assert Contains(s[0], x);
      } else if x < UidThreshold {
        assert Contains(s[0], x);
      } else {
        assert Contains(s[1], x);
      }
    }
  }

  /** The split neither loses nor adds a UID. */
  lemma {:induction false} SplitRangesCover(rs: seq<UidRange>, x: int)
    ensures CoveredBy(SplitRanges(rs), x) <==> CoveredBy(rs, x)
  {
    if rs != [] {
      var init, last := rs[..|rs| - 1], rs[|rs| - 1];
      SplitRangesCover(init, x);
      CoveredByAppend(SplitRanges(init), SplitRange(last), x);
      SplitRangeCovers(last, x);
      assert rs == init + [last];
      CoveredByAppend(init, [last], x);
      assert CoveredBy([last], x) <==> Contains(last, x) by {
        if Contains(last, x) {
          assert Contains([last][0], x);
        }
      }
    }
  }

  /** Ranges already on one side of the threshold pass through unchanged. */
  lemma {:induction false} SplitRangesKeepsOneSided(rs: seq<UidRange>)
    requires forall j :: 0 <= j < |rs| ==> OneSide(rs[j])
    ensures SplitRanges(rs) == rs
  {
    if rs != [] {
      SplitRangesKeepsOneSided(rs[..|rs| - 1]);
      assert rs == rs[..|rs| - 1] + [rs[|rs| - 1]];
    }
  }
}
