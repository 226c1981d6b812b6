/** The Python string operations the modelled code relies on, on ASCII text:
    `strip()`, `startswith`/`endswith`, `split(sep)` and `sep.join(parts)`. */
module Text {

  /** Python's `str.isspace()` restricted to ASCII. */
  predicate IsSpace(c: char) {
    c == ' ' || 9 <= c as int <= 13 || 28 <= c as int <= 31
  }

  function LStrip(s: string): (r: string)
    ensures |r| <= |s| && r == s[|s| - |r|..]
    ensures r != [] ==> !IsSpace(r[0])
    ensures forall i :: 0 <= i < |s| - |r| ==> IsSpace(s[i])
  {
    if s != [] && IsSpace(s[0]) then LStrip(s[1..]) else s
  }

  function RStrip(s: string): (r: string)
    ensures |r| <= |s| && r == s[..|r|]
    ensures r != [] ==> !IsSpace(r[|r| - 1])
    ensures forall i :: |r| <= i < |s| ==> IsSpace(s[i])
  {
    if s != [] && IsSpace(s[|s| - 1]) then RStrip(s[..|s| - 1]) else s
  }

  /** `r` stands at position `i` of `s`, and everything of `s` outside it
      is whitespace. */
  predicate WhitespaceAround(s: string, r: string, i: nat) {
    i + |r| <= |s| && r == s[i..i + |r|]
    && (forall k :: 0 <= k < i ==> IsSpace(s[k]))
    && (forall k :: i + |r| <= k < |s| ==> IsSpace(s[k]))
  }

  /** Python's `s.strip()`: `s` with the whitespace at both ends removed. */
  function Strip(s: string): (r: string)
    ensures r != [] ==> !IsSpace(r[0]) && !IsSpace(r[|r| - 1])
    ensures r == [] <==> forall i :: 0 <= i < |s| ==> IsSpace(s[i])
  {
    var l := LStrip(s);
    var r := RStrip(l);
    assert r != [] ==> r[0] == l[0];
    assert r == [] ==> l == [];
    r
  }

  /** `strip()` takes a slice of the text and drops only whitespace around it. */
  lemma StripTrims(s: string)
    ensures exists i: nat :: WhitespaceAround(s, Strip(s), i)
  {
    var l := LStrip(s);
    var r := RStrip(l);
    assert Strip(s) == r;
    WindowAfterBothStrips(s, l, r);
  }

  /** A left strip followed by a right strip leaves a window of the text
      with whitespace on both sides. */
  lemma WindowAfterBothStrips(s: string, l: string, r: string)
    requires |l| <= |s| && l == s[|s| - |l|..]
    requires forall k :: 0 <= k < |s| - |l| ==> IsSpace(s[k])
    requires |r| <= |l| && r == l[..|r|]
    requires forall k :: |r| <= k < |l| ==> IsSpace(l[k])
    ensures WhitespaceAround(s, r, |s| - |l|)
  {
    var i := |s| - |l|;
    assert r == s[i..i + |r|];
    forall k | i + |r| <= k < |s|
      ensures IsSpace(s[k])
    {
      assert s[k] == l[k - i];
    }
  }

  /** Text that ends in a character other than whitespace loses only its
      leading whitespace. */
  lemma StripKeepsEnd(s: string)
    requires s != [] && !IsSpace(s[|s| - 1])
    ensures Strip(s) == LStrip(s)
  {
    var l := LStrip(s);
    assert l != [] && l[|l| - 1] == s[|s| - 1];
  }

  /** Text that neither starts nor ends with whitespace is left alone. */
  lemma StripUnchanged(s: string)
    requires s != [] ==> !IsSpace(s[0]) && !IsSpace(s[|s| - 1])
    ensures Strip(s) == s
  {
  }

  lemma {:induction false} LStripAppendSpace(s: string, c: char)
    requires IsSpace(c)
    ensures LStrip(s + [c]) == if LStrip(s) == [] then [] else LStrip(s) + [c]
  {
    if s == [] {
      assert LStrip([c]) == LStrip([]);
    } else {
      assert (s + [c])[0] == s[0];
      if IsSpace(s[0]) {
        assert (s + [c])[1..] == s[1..] + [c];
        LStripAppendSpace(s[1..], c);
      }
    }
  }

  lemma RStripAppendSpace(s: string, c: char)
    requires IsSpace(c)
    ensures RStrip(s + [c]) == RStrip(s)
  {
    assert (s + [c])[..|s|] == s;
  }

  /** A trailing newline, as a file's last line has, is stripped away. */
  lemma StripTrailingNewline(s: string)
    ensures Strip(s + "\n") == Strip(s)
  {
    LStripAppendSpace(s, '\n');
    if LStrip(s) != [] {
      RStripAppendSpace(LStrip(s), '\n');
    }
  }

  /** Python's `s * k`. */
  function Repeat(s: string, k: nat): (r: string)
    ensures |r| == |s| * k
  {
    if k == 0 then [] else s + Repeat(s, k - 1)
  }

  lemma {:induction false} RepeatChar(c: char, k: nat)
    ensures forall i :: 0 <= i < |Repeat([c], k)| ==> Repeat([c], k)[i] == c
  {
    if k > 0 {
      RepeatChar(c, k - 1);
      assert Repeat([c], k) == [c] + Repeat([c], k - 1);
    }
  }

  /** Python's `s[n:]` for `n >= 0`. */
  function DropFirst(s: string, n: nat): (r: string)
    ensures |r| == if |s| <= n then 0 else |s| - n
  {
    if |s| <= n then [] else s[n..]
  }

  /** Python's `s[:-n]` for `n >= 1`. */
  function DropLast(s: string, n: nat): (r: string)
    ensures |r| == if |s| <= n then 0 else |s| - n
  {
    if |s| <= n then [] else s[..|s| - n]
  }

  predicate StartsWith(s: string, prefix: string) {
    |prefix| <= |s| && s[..|prefix|] == prefix
  }

  /** A text whose first character differs from the prefix's does not start with it. */
  lemma FirstCharBlocksPrefix(s: string, prefix: string)
    requires prefix != [] && s != [] && s[0] != prefix[0]
    ensures !StartsWith(s, prefix)
  {
    if |prefix| <= |s| {
      assert s[..|prefix|][0] == s[0];
    }
  }

  predicate EndsWith(s: string, suffix: string) {
    |suffix| <= |s| && s[|s| - |suffix|..] == suffix
  }

  /** Python's `sep.join(parts)` for a one-character separator. */
  function Join(parts: seq<string>, sep: char): (r: string)
    ensures |parts| == 1 ==> r == parts[0]
  {
    if parts == [] then ""
    else if |parts| == 1 then parts[0]
    else parts[0] + [sep] + Join(parts[1..], sep)
  }

  /** The position of the first `c` in `s`, or `|s|` when there is none. */
  function Find(s: string, c: char): (i: nat)
    ensures i <= |s|
  {
    if s == [] then 0 else if s[0] == c then 0 else 1 + Find(s[1..], c)
  }

  /** `Find` stops at the first occurrence, and reaches the end only when
      there is none. */
  lemma {:induction false} FindFirst(s: string, c: char)
    ensures Find(s, c) < |s| ==> s[Find(s, c)] == c
    ensures forall j :: 0 <= j < Find(s, c) ==> s[j] != c
  {
    if s != [] && s[0] != c {
      FindFirst(s[1..], c);
    }
  }

  /** A position with `c` there (or the end) and no `c` before it is what
      `Find` returns. */
  lemma {:induction false} FindAt(s: string, c: char, p: nat)
    requires p <= |s| && (p < |s| ==> s[p] == c)
    requires forall j :: 0 <= j < p ==> s[j] != c
    ensures Find(s, c) == p
  {
    if p > 0 {
      FindAt(s[1..], c, p - 1);
    }
  }

  /** Python's `s.split(sep)` for a one-character separator: the pieces
      between consecutive separators, always at least one. */
  function Split(s: string, sep: char): (r: seq<string>)
    ensures |r| >= 1
    decreases |s|
  {
    var i := Find(s, sep);
    if i == |s| then [s] else [s[..i]] + Split(s[i + 1..], sep)
  }

  /** No piece of a split holds the separator, and joining the pieces with
      it gives back the text. */
  lemma SplitProperties(s: string, sep: char)
    ensures forall k :: 0 <= k < |Split(s, sep)| ==> sep !in Split(s, sep)[k]
    ensures Join(Split(s, sep), sep) == s
  {
    SplitFieldsFree(s, sep);
    SplitJoinsBack(s, sep);
  }

  /** The text before the first separator holds no separator. */
  lemma FirstFieldFree(s: string, sep: char)
    ensures sep !in s[..Find(s, sep)]
  {
    FindFirst(s, sep);
    var f := s[..Find(s, sep)];
    forall j | 0 <= j < |f|
      ensures f[j] != sep
    {
      assert f[j] == s[j];
    }
  }

  lemma {:induction false} SplitFieldsFree(s: string, sep: char)
    ensures forall k :: 0 <= k < |Split(s, sep)| ==> sep !in Split(s, sep)[k]
    decreases |s|
  {
    var i := Find(s, sep);
    FirstFieldFree(s, sep);
    if i < |s| {
      var rest := Split(s[i + 1..], sep);
      SplitFieldsFree(s[i + 1..], sep);
      var r := [s[..i]] + rest;
      assert Split(s, sep) == r;
      forall k | 1 <= k < |r|
        ensures sep !in r[k]
      {
        assert r[k] == rest[k - 1];
      }
    }
  }

  lemma {:induction false} SplitJoinsBack(s: string, sep: char)
    ensures Join(Split(s, sep), sep) == s
    decreases |s|
  {
    var i := Find(s, sep);
    FindFirst(s, sep);
    if i < |s| {
      var rest := Split(s[i + 1..], sep);
      SplitJoinsBack(s[i + 1..], sep);
      var r := [s[..i]] + rest;
      assert Split(s, sep) == r;
      assert r[1..] == rest;
      assert Join(r, sep) == s[..i] + [sep] + s[i + 1..];
      assert s == s[..i] + [sep] + s[i + 1..];
    }
  }

  /** Splitting undoes joining when no part contains the separator. */
  lemma {:induction false} SplitJoin(parts: seq<string>, sep: char)
    requires |parts| >= 1
    requires forall k :: 0 <= k < |parts| ==> sep !in parts[k]
    ensures Split(Join(parts, sep), sep) == parts
  {
    var s := Join(parts, sep);
    if |parts| == 1 {
      FindAt(s, sep, |s|);
    } else {
      var tail := Join(parts[1..], sep);
      assert s == parts[0] + [sep] + tail;
      var i := |parts[0]|;
      FindAt(s, sep, i);
      assert s[..i] == parts[0];
      assert s[i + 1..] == tail;
      SplitJoin(parts[1..], sep);
      assert parts == [parts[0]] + parts[1..];
    }
  }

  /** The text after the last separator, Python's `s.split(sep)[-1]`. */
  function LastField(s: string, sep: char): string {
    var fields := Split(s, sep);
    fields[|fields| - 1]
  }

  /** Whatever precedes the last separator, the last field is what follows it. */
  lemma {:induction false} LastFieldAfterSeparator(head: string, sep: char, tail: string)
    requires sep !in tail
    ensures LastField(head + [sep] + tail, sep) == tail
    decreases |head|
  {
    var s := head + [sep] + tail;
    var i := Find(s, sep);
    FindFirst(s, sep);
    assert s[|head|] == sep;
    assert i <= |head|;
    var fields, rest := Split(s, sep), Split(s[i + 1..], sep);
    assert fields == [s[..i]] + rest;
    assert fields[|fields| - 1] == rest[|rest| - 1];
    if i == |head| {
      assert s[i + 1..] == tail;
      FindAt(tail, sep, |tail|);
    } else {
      assert s[i + 1..] == head[i + 1..] + [sep] + tail;
      LastFieldAfterSeparator(head[i + 1..], sep, tail);
    }
  }
}
