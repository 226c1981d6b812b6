/** Reading the cracked UID back from what the crackers write: hashcat's
    outfile holds the candidate as plain text or, when it has bytes that are
    not printable, as `$HEX[...]`; John the Ripper's pot file holds lines
    `hash:plain`. Both files are read whole; the text is the input here. */
module CrackerOutput {
  import opened PyResults
  import opened Text
  import opened Decimal
  import opened Utils

  const HexPrefix: string := "$HEX["
  const HexSuffix: string := "]"

  /** `[s[x] for x in range(1, len(s), 2)]`: the characters at odd indices. */
  function OddChars(s: string): (r: string)
    ensures |r| == |s| / 2
    ensures forall i :: 0 <= i < |r| ==> r[i] == s[2 * i + 1]
  {
    if |s| < 2 then [] else [s[1]] + OddChars(s[2..])
  }

  /** `__read_uid_from_hashcat_outfile`: -1 for a blank file; the number
      spelled by the odd-indexed characters of a `$HEX[...]` payload (the
      low hex digit of each byte); `int(text)` otherwise. */
  function ReadUidFromHashcatOutfile(content: string): (uid: Outcome<int>)
    ensures Strip(content) == [] ==> uid == Ok(-1)
  {
    var t := Strip(content);
    if t == [] then Ok(-1)
    else if StartsWith(t, HexPrefix) && EndsWith(t, HexSuffix) then
      assert t[4] == '[' && t[|t| - 1] == ']';
      ParseInt(OddChars(t[|HexPrefix|..|t| - |HexSuffix|]))
    else ParseInt(t)
  }

  /** `__read_uid_from_john_pot_file`: -1 for a blank file, otherwise
      `int(text.split(':')[-1])`. */
  function ReadUidFromJohnPotFile(content: string): (uid: Outcome<int>)
    ensures Strip(content) == [] ==> uid == Ok(-1)
  {
    var t := Strip(content);
    if t == [] then Ok(-1) else ParseInt(LastField(t, ':'))
  }

  // ---------------------------------------------------------------------
  // Round trips

  function HexDigitChar(v: nat): (c: char)
    requires v < 16
    ensures v < 10 ==> c == DigitChar(v)
  {
    if v < 10 then ('0' as int + v) as char else ('a' as int + v - 10) as char
  }

  /** Bytes as two lower-case hex digits each, as inside `$HEX[...]`. */
  function HexOf(b: seq<Byte>): (h: string)
    ensures |h| == 2 * |b|
    ensures forall i :: 0 <= i < |b| ==> h[2 * i] == HexDigitChar(b[i] / 16) && h[2 * i + 1] == HexDigitChar(b[i] % 16)
  {
    if b == [] then []
    else
      var t := HexOf(b[1..]);
      var h := [HexDigitChar(b[0] / 16), HexDigitChar(b[0] % 16)] + t;
      assert forall i :: 1 <= i < |b| ==> h[2 * i] == t[2 * (i - 1)] && h[2 * i + 1] == t[2 * (i - 1) + 1];
      h
  }

  /** The low hex digit of every byte of a preimage spells the UID. */
  lemma OddCharsOfHex(n: nat, standard: bool)
    ensures OddChars(HexOf(Preimage(n, standard))) == Str(n)
  {
    var b, s := Preimage(n, standard), Str(n);
    var r := OddChars(HexOf(b));
    assert |r| == |s|;
    forall i | 0 <= i < |s|
      ensures r[i] == s[i]
    {
      assert r[i] == HexDigitChar(b[i] % 16);
      assert b[i] % 16 == DigitValue(s[i]);
    }
  }

  /** Hashcat's `$HEX[...]` line for either preimage reads back as the UID. */
  lemma HashcatHexRoundTrip(n: nat, standard: bool)
    ensures ReadUidFromHashcatOutfile(HexPrefix + HexOf(Preimage(n, standard)) + HexSuffix + "\n") == Ok(n)
  {
    var h := HexOf(Preimage(n, standard));
    var t := HexPrefix + h + HexSuffix;
    StripTrailingNewline(t);
    StripUnchanged(t);
    assert StartsWith(t, HexPrefix) && EndsWith(t, HexSuffix);
    assert t[|HexPrefix|..|t| - |HexSuffix|] == h;
    OddCharsOfHex(n, standard);
    ParseIntOfStr(n);
  }

  /** Hashcat's plain line for the standard preimage, the UID's own digits,
      reads back as the UID. */
  lemma HashcatPlainRoundTrip(n: nat)
    ensures ReadUidFromHashcatOutfile(Str(n) + "\n") == Ok(n)
  {
    var t := Str(n);
    StripTrailingNewline(t);
    StripCanonical(t);
    assert IsDigit(t[0]);
    FirstCharBlocksPrefix(t, HexPrefix);
    ParseIntOfStr(n);
  }

  /** After `strip()`, the last colon field of `hash:uid` is the UID,
      whatever whitespace or colons the hash holds. */
  lemma PotLineLastField(hash: string, s: string)
    requires s != [] && !IsSpace(s[|s| - 1]) && ':' !in s
    ensures LastField(Strip(hash + ":" + s), ':') == s
  {
    var t := hash + ":" + s;
    assert t[|t| - 1] == s[|s| - 1];
    StripKeepsEnd(t);
    var l := LStrip(t);
    var j := |t| - |l|;
    LeadingSpaceBeforeColon(hash, s, t, l);
    LastFieldAfterSeparator(hash[j..], ':', s);
  }

  /** Leading whitespace removed from `hash:uid` is taken from the hash alone. */
  lemma LeadingSpaceBeforeColon(hash: string, s: string, t: string, l: string)
    requires t == hash + ":" + s
    requires |l| <= |t| && l == t[|t| - |l|..]
    requires forall k :: 0 <= k < |t| - |l| ==> IsSpace(t[k])
    ensures |t| - |l| <= |hash| && l == hash[|t| - |l|..] + [':'] + s
  {
    var j := |t| - |l|;
    assert t[|hash|] == ':';
    assert j <= |hash|;
    assert t[j..] == hash[j..] + [':'] + s;
  }

  /** A pot line `hash:uid` reads back as the UID, whatever the hash text
      holds (whitespace and colons included). */
  lemma JohnPotRoundTrip(hash: string, n: nat)
    ensures ReadUidFromJohnPotFile(hash + ":" + Str(n) + "\n") == Ok(n)
  {
    var s := Str(n);
    StripTrailingNewline(hash + ":" + s);
    assert IsDigit(s[|s| - 1]);
    PotLineLastField(hash, s);
    ParseIntOfStr(n);
  }
}
