/** Hashcat masks and custom charsets, as the compiler writes them, and the
    byte strings a mask generates. A mask is a string of literal symbols and
    placeholders `?d` (a decimal digit character) and `?1`..`?4` (custom
    charset 1..4). In the standard mode a symbol is one character; with
    `--hex-charset` a literal symbol, and each symbol of a custom charset, is
    two hex digits naming one byte. */
module Masks {
  import opened Text
  import opened Decimal
  import opened Utils

  /** The characters one literal symbol takes. */
  function Width(standard: bool): (n: nat)
    ensures 1 <= n <= 2
  {
    if standard then 1 else 2
  }

  function HexValue(c: char): (v: nat)
    requires IsHexDigit(c)
    ensures v < 16
  {
    if '0' <= c <= '9' then c as int - '0' as int
    else if 'a' <= c <= 'f' then c as int - 'a' as int + 10
    else c as int - 'A' as int + 10
  }

  /** The byte the symbol at the head of `s` stands for; -1 when it names none. */
  function SymbolByte(s: string, standard: bool): int
    requires |s| >= Width(standard)
  {
    if standard then (if s[0] as int < 256 then s[0] as int else -1)
    else if IsHexDigit(s[0]) && IsHexDigit(s[1]) then 16 * HexValue(s[0]) + HexValue(s[1])
    else -1
  }

  /** Byte `b` is one of the symbols of a custom charset. */
  predicate InCharset(b: Byte, charset: string, standard: bool)
    decreases |charset|
  {
    |charset| >= Width(standard)
    && (SymbolByte(charset, standard) == b || InCharset(b, charset[Width(standard)..], standard))
  }

  /** Byte `b` is generated by placeholder `?symbol`. */
  predicate InPlaceholder(b: Byte, symbol: char, charsets: seq<string>, standard: bool) {
    if symbol == 'd' then 0x30 <= b <= 0x39
    else
      '1' <= symbol <= '4' && symbol as int - '1' as int < |charsets|
      && InCharset(b, charsets[symbol as int - '1' as int], standard)
  }

  /** Mask `mask` with custom charsets `charsets` generates byte string `w`. */
  predicate Matches(mask: string, charsets: seq<string>, standard: bool, w: seq<Byte>)
    decreases |mask|
  {
    if mask == [] then w == []
    else if mask[0] == '?' then
      |mask| >= 2 && w != [] && InPlaceholder(w[0], mask[1], charsets, standard)
      && Matches(mask[2..], charsets, standard, w[1..])
    else
      |mask| >= Width(standard) && w != [] && SymbolByte(mask, standard) == w[0]
      && Matches(mask[Width(standard)..], charsets, standard, w[1..])
  }

  // ---------------------------------------------------------------------
  // The pieces the compiler builds masks from

  /** Digit `d` as a literal symbol: `str(d)`, or `f'{d:02d}'` with hex charsets. */
  function Code(d: nat, standard: bool): (s: string)
    requires d < 10
    ensures |s| == Width(standard) && s[0] != '?'
  {
    if standard then [DigitChar(d)] else ['0', DigitChar(d)]
  }

  /** A digit string as literal symbols: the string itself, or the
      two-digit code of each digit with hex charsets. */
  function Codes(p: string, standard: bool): (s: string)
    requires IsDigitString(p)
    ensures |s| == if standard then |p| else 2 * |p|
  {
    if p == [] then []
    else
      assert IsDigitString(p[1..]);
      Code(DigitValue(p[0]), standard) + Codes(p[1..], standard)
  }

  /** The digits `lo..hi` as a custom charset; empty when `lo > hi`. */
  function DigitRange(lo: int, hi: int, standard: bool): (s: string)
    requires 0 <= lo && hi <= 9
    ensures |s| == if lo <= hi then Width(standard) * (hi - lo + 1) else 0
    decreases hi - lo
  {
    if lo > hi then [] else Code(lo, standard) + DigitRange(lo + 1, hi, standard)
  }

  /** The custom charset `?1` names with hex charsets: every digit byte. */
  function HexDigitCharset(): string {
    DigitRange(0, 9, false)
  }

  /** The placeholder of the one bounded position. */
  function BoundedToken(standard: bool): string {
    if standard then "?1" else "?2"
  }

  /** The placeholder of a free digit position. */
  function AnyDigitToken(standard: bool): string {
    if standard then "?d" else "?1"
  }

  /** The custom charsets that go with a mask whose bounded position draws
      from `bounded`. */
  function Charsets(bounded: string, standard: bool): (cs: seq<string>)
    ensures |cs| == if standard then 1 else 2
    ensures !standard ==> cs[0] == HexDigitCharset()
  {
    if standard then [bounded] else [HexDigitCharset(), bounded]
  }

  // ---------------------------------------------------------------------
  // What the pieces generate

  lemma {:induction false} MatchesAppend(a: string, b: string, charsets: seq<string>, standard: bool, u: seq<Byte>, v: seq<Byte>)
    requires Matches(a, charsets, standard, u) && Matches(b, charsets, standard, v)
    ensures Matches(a + b, charsets, standard, u + v)
    decreases |a|
  {
    if a == [] {
      assert a + b == b && u + v == v;
    } else {
      var n := if a[0] == '?' then 2 else Width(standard);
      assert n <= |a| && u != [];
      ConcatHeads(a, b, u, v, n);
      MatchesAppend(a[n..], b, charsets, standard, u[1..], v);
    }
  }

  /** The heads and tails of concatenations whose first parts are long enough. */
  lemma ConcatHeads(a: string, b: string, u: seq<Byte>, v: seq<Byte>, n: nat)
    requires 1 <= n <= |a| && u != []
    ensures (a + b)[0] == a[0] && (n >= 2 ==> (a + b)[1] == a[1])
    ensures (a + b)[n..] == a[n..] + b
    ensures (u + v)[0] == u[0] && (u + v)[1..] == u[1..] + v
  {
  }

  /** The symbol a digit's code stands for is the digit's byte. */
  lemma CodeSymbol(d: nat, standard: bool)
    requires d < 10
    ensures SymbolByte(Code(d, standard), standard) == DigitByte(d, standard)
  {
  }

  /** What a mask that opens with a literal symbol generates. */
  lemma MatchesLiteralHead(c: string, rest: string, charsets: seq<string>, standard: bool, w: seq<Byte>)
    requires |c| == Width(standard) && c[0] != '?'
    requires Matches(c + rest, charsets, standard, w)
    ensures w != [] && w[0] == SymbolByte(c, standard) && Matches(rest, charsets, standard, w[1..])
  {
    var m := c + rest;
    assert m[0] == c[0];
    if standard {
      assert m[1..] == rest;
    } else {
      assert m[1] == c[1];
      assert m[2..] == rest;
    }
  }

  lemma EncodeCons(p: string, standard: bool)
    requires IsDigitString(p) && p != []
    ensures IsDigitString(p[1..])
    ensures Encode(p, standard) == [DigitByte(DigitValue(p[0]), standard)] + Encode(p[1..], standard)
  {
    var e, t := Encode(p, standard), Encode(p[1..], standard);
    forall i | 1 <= i < |e|
      ensures e[i] == t[i - 1]
    {
      assert p[1..][i - 1] == p[i];
    }
    assert e == [e[0]] + t;
  }

  /** The first literal digit of a mask generates the digit's byte. */
  lemma MatchesCodesHead(p: string, rest: string, charsets: seq<string>, standard: bool, w: seq<Byte>)
    requires IsDigitString(p) && p != []
    requires Matches(Codes(p, standard) + rest, charsets, standard, w)
    ensures IsDigitString(p[1..])
    ensures w != [] && w[0] == DigitByte(DigitValue(p[0]), standard)
    ensures Matches(Codes(p[1..], standard) + rest, charsets, standard, w[1..])
  {
    var d := DigitValue(p[0]);
    var c := Code(d, standard);
    var tail := Codes(p[1..], standard) + rest;
    assert Codes(p, standard) + rest == c + tail;
    MatchesLiteralHead(c, tail, charsets, standard, w);
    CodeSymbol(d, standard);
  }

  /** The inverse: what a literal prefix of a mask generates. */
  lemma {:induction false} MatchesCodesPrefix(p: string, rest: string, charsets: seq<string>, standard: bool, w: seq<Byte>)
    requires IsDigitString(p)
    requires Matches(Codes(p, standard) + rest, charsets, standard, w)
    ensures |w| >= |p| && w[..|p|] == Encode(p, standard)
    ensures Matches(rest, charsets, standard, w[|p|..])
    decreases |p|
  {
    if p == [] {
      assert Codes(p, standard) + rest == rest;
    } else {
      MatchesCodesHead(p, rest, charsets, standard, w);
      MatchesCodesPrefix(p[1..], rest, charsets, standard, w[1..]);
      SliceAfterHead(w, |p|);
      EncodeCons(p, standard);
    }
  }

  /** Slicing after dropping the first element. */
  lemma SliceAfterHead(w: seq<Byte>, n: nat)
    requires 1 <= n <= |w|
    ensures w[1..][n - 1..] == w[n..]
    ensures w[..n] == [w[0]] + w[1..][..n - 1]
  {
  }

  lemma CodeMatches(d: nat, charsets: seq<string>, standard: bool)
    requires d < 10
    ensures Matches(Code(d, standard), charsets, standard, [DigitByte(d, standard)])
  {
    var c := Code(d, standard);
    assert c[Width(standard)..] == [];
    assert [DigitByte(d, standard)][1..] == [];
  }

  /** A digit string's literal symbols generate exactly its bytes. */
  lemma {:induction false} CodesMatch(p: string, charsets: seq<string>, standard: bool)
    requires IsDigitString(p)
    ensures Matches(Codes(p, standard), charsets, standard, Encode(p, standard))
    decreases |p|
  {
    if p != [] {
      CodeMatches(DigitValue(p[0]), charsets, standard);
      CodesMatch(p[1..], charsets, standard);
      assert Encode(p, standard) == [DigitByte(DigitValue(p[0]), standard)] + Encode(p[1..], standard);
      MatchesAppend(Code(DigitValue(p[0]), standard), Codes(p[1..], standard), charsets, standard,
        [DigitByte(DigitValue(p[0]), standard)], Encode(p[1..], standard));
    }
  }

  lemma {:induction false} CodesAppend(x: string, y: string, standard: bool)
    requires IsDigitString(x) && IsDigitString(y)
    ensures IsDigitString(x + y)
    ensures Codes(x + y, standard) == Codes(x, standard) + Codes(y, standard)
    decreases |x|
  {
    if x == [] {
      assert x + y == y;
    } else {
      ConsAppend(x, y);
      CodesAppend(x[1..], y, standard);
      var c := Code(DigitValue(x[0]), standard);
      calc {
        Codes(x + y, standard);
        c + Codes(x[1..] + y, standard);
        c + (Codes(x[1..], standard) + Codes(y, standard));
        Codes(x, standard) + Codes(y, standard);
      }
    }
  }

  lemma ConsAppend(x: string, y: string)
    requires x != []
    ensures (x + y)[0] == x[0] && (x + y)[1..] == x[1..] + y
  {
  }

  /** A custom charset built by DigitRange holds exactly the bytes of the
      digits `lo..hi`. */
  lemma {:induction false} InDigitRange(b: Byte, lo: int, hi: int, standard: bool)
    requires 0 <= lo && hi <= 9
    ensures InCharset(b, DigitRange(lo, hi, standard), standard)
        <==> exists d: nat :: lo <= d <= hi && b == DigitByte(d, standard)
    decreases hi - lo
  {
    if lo <= hi {
      var s := DigitRange(lo, hi, standard);
      assert s[Width(standard)..] == DigitRange(lo + 1, hi, standard);
      assert SymbolByte(s, standard) == DigitByte(lo, standard);
      InDigitRange(b, lo + 1, hi, standard);
      if b != DigitByte(lo, standard) && exists d: nat :: lo <= d <= hi && b == DigitByte(d, standard) {
        var d: nat :| lo <= d <= hi && b == DigitByte(d, standard);
        assert lo + 1 <= d;
      }
    }
  }

  /** `?d`, or `?1` over the hex digit charset, generates exactly the digit bytes. */
  lemma AnyDigitMatches(d: nat, standard: bool, bounded: string)
    requires d < 10
    ensures Matches(AnyDigitToken(standard), Charsets(bounded, standard), standard, [DigitByte(d, standard)])
  {
    InDigitRange(DigitByte(d, standard), 0, 9, standard);
    assert [DigitByte(d, standard)][1..] == [];
  }

  lemma {:induction false} AnyDigitsMatch(t: string, standard: bool, bounded: string)
    requires IsDigitString(t)
    ensures Matches(Repeat(AnyDigitToken(standard), |t|), Charsets(bounded, standard), standard, Encode(t, standard))
    decreases |t|
  {
    if t != [] {
      AnyDigitMatches(DigitValue(t[0]), standard, bounded);
      AnyDigitsMatch(t[1..], standard, bounded);
      assert Encode(t, standard) == [DigitByte(DigitValue(t[0]), standard)] + Encode(t[1..], standard);
      MatchesAppend(AnyDigitToken(standard), Repeat(AnyDigitToken(standard), |t| - 1), Charsets(bounded, standard), standard,
        [DigitByte(DigitValue(t[0]), standard)], Encode(t[1..], standard));
    }
  }

  /** The bounded placeholder over DigitRange(lo, hi) generates the digits `lo..hi`. */
  lemma BoundedMatches(c: char, lo: int, hi: int, standard: bool)
    requires 0 <= lo && hi <= 9 && IsDigit(c) && lo <= DigitValue(c) <= hi
    ensures Matches(BoundedToken(standard), Charsets(DigitRange(lo, hi, standard), standard), standard,
      [DigitByte(DigitValue(c), standard)])
  {
    InDigitRange(DigitByte(DigitValue(c), standard), lo, hi, standard);
    assert [DigitByte(DigitValue(c), standard)][1..] == [];
  }

  /** Every candidate the bounded placeholder opens with starts with a digit `lo..hi`. */
  lemma BoundedFirstByte(rest: string, lo: int, hi: int, standard: bool, w: seq<Byte>)
    requires 0 <= lo && hi <= 9
    requires Matches(BoundedToken(standard) + rest, Charsets(DigitRange(lo, hi, standard), standard), standard, w)
    ensures w != [] && exists d: nat :: lo <= d <= hi && w[0] == DigitByte(d, standard)
  {
    InDigitRange(w[0], lo, hi, standard);
  }

  /** The mask shape the compiler uses everywhere: literal digits `p`, then the
      bounded position, then free digits. It generates the bytes of `p + [c] + t`
      whenever `c` is within the bounded charset. */
  lemma MatchesBlock(p: string, c: char, t: string, lo: int, hi: int, standard: bool)
    requires IsDigitString(p) && IsDigit(c) && IsDigitString(t)
    requires 0 <= lo && hi <= 9 && lo <= DigitValue(c) <= hi
    ensures IsDigitString(p + [c] + t)
    ensures Matches(Codes(p, standard) + BoundedToken(standard) + Repeat(AnyDigitToken(standard), |t|),
      Charsets(DigitRange(lo, hi, standard), standard), standard, Encode(p + [c] + t, standard))
  {
    var cs := Charsets(DigitRange(lo, hi, standard), standard);
    MatchesBoundedAfter(p, c, lo, hi, standard);
    AnyDigitsMatch(t, standard, DigitRange(lo, hi, standard));
    MatchesAppend(Codes(p, standard) + BoundedToken(standard), Repeat(AnyDigitToken(standard), |t|), cs, standard,
      Encode(p + [c], standard), Encode(t, standard));
    EncodeAppend(p + [c], t, standard);
  }

  lemma MatchesBoundedAfter(p: string, c: char, lo: int, hi: int, standard: bool)
    requires IsDigitString(p) && IsDigit(c)
    requires 0 <= lo && hi <= 9 && lo <= DigitValue(c) <= hi
    ensures IsDigitString(p + [c])
    ensures Matches(Codes(p, standard) + BoundedToken(standard),
      Charsets(DigitRange(lo, hi, standard), standard), standard, Encode(p + [c], standard))
  {
    var cs := Charsets(DigitRange(lo, hi, standard), standard);
    var ec := [DigitByte(DigitValue(c), standard)];
    CodesMatch(p, cs, standard);
    BoundedMatches(c, lo, hi, standard);
    MatchesAppend(Codes(p, standard), BoundedToken(standard), cs, standard, Encode(p, standard), ec);
    EncodeAppend(p, [c], standard);
    assert Encode([c], standard) == ec;
  }

  /** Dropping one symbol from either end of a digit charset narrows its range. */
  lemma DropFirstDigitRange(lo: int, hi: int, standard: bool)
    requires 0 <= lo && hi <= 9
    ensures DropFirst(DigitRange(lo, hi, standard), Width(standard)) == DigitRange(lo + 1, hi, standard)
  {
  }

  lemma {:induction false} DigitRangeSnoc(lo: int, hi: int, standard: bool)
    requires 0 <= lo <= hi <= 9
    ensures DigitRange(lo, hi, standard) == DigitRange(lo, hi - 1, standard) + Code(hi, standard)
    decreases hi - lo
  {
    if lo < hi {
      DigitRangeSnoc(lo + 1, hi, standard);
    }
  }

  lemma DropLastDigitRange(lo: int, hi: int, standard: bool)
    requires 0 <= lo && hi <= 9
    ensures DropLast(DigitRange(lo, hi, standard), Width(standard)) == DigitRange(lo, hi - 1, standard)
  {
    if lo <= hi {
      DigitRangeSnoc(lo, hi, standard);
      var s := DigitRange(lo, hi, standard);
      assert s[..|s| - Width(standard)] == DigitRange(lo, hi - 1, standard);
    }
  }
}
