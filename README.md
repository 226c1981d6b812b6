# bili-uid-crack, modelled in Dafny

bili-uid-crack recovers a Bilibili user ID (UID) from the MD5 digest that
Bilibili share links carry. The digest is one of two kinds:

- the *standard* one, the MD5 of the UID's decimal text;
- the *non-standard* one, the MD5 of one byte per decimal digit (byte values 0..9).

The program does not invert MD5 itself. It turns each UID range into a set
of hashcat masks with custom charsets. It then runs hashcat or John the
Ripper and reads the cracked UID back from the cracker's output file.

This project models the computational core of that pipeline and proves
what it promises:

- **The mask compiler** (`get_masks_and_charsets`):
  - `MaskCompiler` holds the imperative method, which follows the source's
    branches and dictionary writes.
  - `MaskCompiler.Compile` is the function the method is proved against.
  - `Masks` gives hashcat's mask semantics: which byte strings a mask
    together with its custom charsets generates. In standard mode a mask
    symbol is a character. In the non-standard (`--hex-charset`) mode it is
    a two-digit hex pair.
  - `MaskCoverage` proves that every UID of the range is generated, and
    exhibits the ranges where the source's guard loses UIDs (see Findings).
  - `MaskShape` proves the shape of the produced dictionary: distinct keys,
    one or two charsets per mask, how many masks, the shared prefix of all
    candidates, and no leading zeros for the lengths strictly between the
    two ends.
- **The UID preimages** (`uid_to_md5`): the byte strings that are hashed.
  Each is injective in the UID, and its low nibbles spell the UID's digits.
- **`check_md5`**, **`merge_uid_ranges`** and the **`UidRange`** class.
- **The cracker inputs and outputs**:
  - the mask-file text, which is read back by hashcat's comma/newline syntax;
  - the split of UID ranges at 10^10;
  - the hashcat outfile decoder (plain and `$HEX[...]` lines);
  - the John pot-file decoder.

Python's dictionary is modelled as an insertion-ordered sequence of entries
(`OrderedDicts`). Assigning to a present key overwrites it in place.
Assigning to an absent key appends it. Python's `str(n)`, `int(s)`,
`strip`, `split` and `join` are modelled in `Decimal` and `Text`.

The compiler covers more than the range. Its edge masks look
only one digit past the first differing digit. For example, the range
[123, 456] also generates 120, so the masks also generate some UIDs outside
the range.
Cracking then tries a few extra candidates, which does no harm. The proved
property is therefore coverage (every UID in the range is generated), not
exactness.

## Model

| member | source | states |
|---|---|---|
| UidRanges.NewUidRange | bili_uid_crack/uid_range.py:2-6 | the constructor fails with ValueError exactly when start > end; otherwise it keeps both ends |
| UidRanges.Merge | bili_uid_crack/uid_range.py:52-56 | fails with ValueError exactly when the ranges do not overlap; otherwise the result contains exactly the members of either range |
| UidRanges.GetItem | bili_uid_crack/uid_range.py:16-22 | `r[0]` is the start and `r[1]` the end; indexing succeeds exactly for the indices below `len`, and any other index raises IndexError |
| UidRanges.Iter | bili_uid_crack/uid_range.py:38-40 | iteration yields the start, then the end: as many values as `len` reports |
| UidRanges.LenProtocol | bili_uid_crack/uid_range.py:24-25 | `len(r)` is the number of values iteration yields; every index below it succeeds and index `len(r)` raises IndexError |
| UidRanges.SequenceProtocol | bili_uid_crack/uid_range.py:16-25 | `r[i]` is defined exactly for the positions iteration visits, and it equals the value yielded there |
| UidRanges.ContainsClosed | bili_uid_crack/uid_range.py:42-44 | `in` is membership of the closed interval between the two iterated values: both ends belong and nothing outside them does |
| UidRanges.EqualIsValueEquality | bili_uid_crack/uid_range.py:27-30 | `==` on ranges is equality of the (start, end) pair, and so equality of the iterated pairs |
| UidRanges.OverlapsIffCommonMember | bili_uid_crack/uid_range.py:42-50 | `overlaps` holds exactly when some UID is `in` both ranges, and it is symmetric |
| UidRanges.MergeCommutes | bili_uid_crack/uid_range.py:52-56 | `a.merge(b)` and `b.merge(a)` give the same outcome |
| Utils.CheckMd5 | bili_uid_crack/utils.py:15-24 | accepts exactly 32 hex digits of either case, optionally followed by one newline (the regex's `$` matches before a final newline) |
| Utils.Preimage | bili_uid_crack/utils.py:124-137 | the hashed bytes have one byte per decimal digit of the UID; each byte's low nibble is that digit; the high nibble is 3 for the standard digest and 0 otherwise |
| Utils.PreimageInjective | bili_uid_crack/utils.py:134-137 | two UIDs with the same preimage are equal, in both modes |
| Utils.EncodeAppend | bili_uid_crack/utils.py:137 | the per-digit byte encoding of a concatenation is the concatenation of the encodings |
| Utils.MergeUidRanges | bili_uid_crack/utils.py:139-162 | the loop's result is sorted by start, each range ends before the next starts, exactly the input's UIDs are covered, and it is no longer than the input |
| Utils.SortByStartSorts | bili_uid_crack/utils.py:151 | sorting by start gives a start-ordered permutation of the input |
| Utils.CoalesceProperties | bili_uid_crack/utils.py:152-160 | folding a start-sorted list gives separated ranges that cover the same UIDs, no more of them |
| Utils.MergedProperties | bili_uid_crack/utils.py:139-162 | the merged list is sorted and separated, covers exactly the input's UIDs, and is no longer than the input |
| Utils.MergeIdempotent | bili_uid_crack/utils.py:139-162 | merging an already merged list changes nothing |
| Utils.MergeSharedEndpoint | bili_uid_crack/utils.py:156-158 | ranges that share a UID are fused: [1,5] and [3,10] give [1,10] |
| Utils.MergeAdjacentStaySeparate | bili_uid_crack/utils.py:156-160 | ranges that touch without sharing a UID stay apart: [1,2] and [3,4] are kept |
| Utils.MergeOrdersByStart | bili_uid_crack/utils.py:151 | the output is in start order whatever the input order |
| OrderedDicts.Get | bili_uid_crack/core.py:135 | a lookup succeeds exactly for present keys and returns a stored entry's value |
| OrderedDicts.PutShape | bili_uid_crack/core.py:145 | `d[k] = v` overwrites a present key at its position and appends an absent one; other entries stay where they were |
| OrderedDicts.PutGet | bili_uid_crack/core.py:145 | after `d[k] = v`, `k` maps to `v` and every other key keeps its value |
| OrderedDicts.PutUnique | bili_uid_crack/core.py:145 | assignment never duplicates a key |
| Decimal.Str | bili_uid_crack/core.py:104-105 | `str(n)` is canonical decimal text (no leading zero) whose value is `n` |
| Decimal.StrLengthMonotone | bili_uid_crack/core.py:104-111 | a smaller UID never has more digits, so the zero padding of the start is never negative |
| Decimal.FirstDifferenceDecides | bili_uid_crack/core.py:107-115 | for equal-length digit strings the first differing digit decides the order |
| Decimal.ParseInt | bili_uid_crack/core.py:281-283 | `int(text)` succeeds exactly when the stripped text is digits with an optional sign, and then gives their value, negated after `-`; otherwise it raises ValueError |
| Decimal.ParseIntOfStr | bili_uid_crack/core.py:283 | `int(str(n)) == n` |
| Decimal.ParseIntOfSignedStr | bili_uid_crack/core.py:283 | `int('-' + str(n)) == -n` and `int('+' + str(n)) == n` |
| Text.Strip | bili_uid_crack/core.py:275 | neither end of `strip()`'s result is whitespace, and the result is empty exactly when the text is all whitespace |
| Text.StripTrims | bili_uid_crack/core.py:275 | `strip()` returns a slice of the text with only whitespace outside it |
| Text.StripTrailingNewline | bili_uid_crack/core.py:275 | a file's final newline does not change the stripped text |
| Text.SplitProperties | bili_uid_crack/core.py:331 | no field of `split(sep)` contains the separator, and joining the fields with it gives back the text |
| Text.SplitJoin | bili_uid_crack/core.py:256-258 | splitting undoes joining when no part contains the separator |
| Text.LastFieldAfterSeparator | bili_uid_crack/core.py:331 | `split(sep)[-1]` is the text after the last separator, whatever precedes it |
| MaskCompiler.PaddedStart | bili_uid_crack/core.py:111 | the zero-padded start has the end's length: it starts with '0' when the start is shorter and equals the start otherwise |
| MaskCompiler.PaddedStartZeros | bili_uid_crack/core.py:111 | the zero-padded start is zeros followed by `str(start)` |
| MaskCompiler.FindBoundaryIndex | bili_uid_crack/core.py:110-115 | the loop finds the first index where the padded start and the end differ, and 0 when they are equal |
| MaskCompiler.FirstDifferenceUnique | bili_uid_crack/core.py:112-115 | any index with equal digits before it and different digits at it is the boundary index |
| MaskCompiler.LayoutOf | bili_uid_crack/core.py:104-130 | the boundary data of a range (boundary index, boundary digit bounds, suffix length) satisfy the layout invariant |
| MaskCompiler.GetMasksAndCharsets | bili_uid_crack/core.py:94-240 | the method computes exactly the mapping `MasksAndCharsets` specifies, in both modes |
| MaskCompiler.WriteMasks | bili_uid_crack/core.py:136-238 | the three-way branch (same length with a digit after the boundary, same length ending at the boundary, different lengths) writes the mapping of the layout |
| MaskCompiler.WritePivotMasks | bili_uid_crack/core.py:138-168 | start-edge, middle and end-edge masks are written under the source's conditions (and their hex twins at 190-220) |
| MaskCompiler.TrimmedCharset | bili_uid_crack/core.py:154-160 | the middle charset drops its first digit when the start's next digit is not 0, and its last when the end's next digit is not 9 (the hex twin drops two characters, 206-212) |
| MaskCompiler.WriteLengthMasks | bili_uid_crack/core.py:174-186 | one mask per length from the start's to the end's, with the first-digit charsets of the source (and the hex twin at 226-238) |
| MaskCoverage.AsWrittenCoverage | bili_uid_crack/core.py:94-240 | for every range outside the gap of the Findings, the preimage of every UID in the range is generated by some mask of the source's mapping |
| MaskCoverage.CorrectedCoverage | bili_uid_crack/core.py:150-152 | with the middle mask written whenever its charset is non-empty, the preimage of every UID of every range is generated |
| MaskCoverage.Covers | bili_uid_crack/core.py:136-238 | coverage in each of the three branches, as written outside the gap and corrected everywhere |
| MaskCoverage.PivotCoverage | bili_uid_crack/core.py:138-168 | the edge and middle masks of a same-length range generate every UID in it |
| MaskCoverage.LastDigitCoverage | bili_uid_crack/core.py:170-172 | when the boundary is the last digit, the single mask generates every UID in the range |
| MaskCoverage.LengthCoverage | bili_uid_crack/core.py:174-186 | for ends of different lengths, the per-length masks generate every UID in the range |
| MaskCoverage.EmptyIffGap | bili_uid_crack/core.py:150-152 | the source's mapping is empty exactly for the gap ranges, and then even the range's start is not generated |
| MaskCoverage.CorrectedNeverEmpty | bili_uid_crack/core.py:150-152 | with the corrected guard no range compiles to an empty mapping |
| MaskCoverage.GapExample | bili_uid_crack/core.py:150-152 | [10, 29] compiles to no mask at all, so UID 15 is never tried |
| MaskCoverage.GapExampleLayout | bili_uid_crack/core.py:104-130 | for [10, 29] the boundary is index 0, its digit bounds are 1 and 2, and one digit follows |
| MaskShape.CompileWellFormed | bili_uid_crack/core.py:135-238 | the mapping has distinct masks; every value is one charset in standard mode, and two in hex mode with the 00..09 charset first |
| MaskShape.CompileCount | bili_uid_crack/core.py:136-238 | a same-length range gets at most three masks and exactly one when the boundary is the last digit; otherwise one mask per length from the start's to the end's |
| MaskShape.LastDigitEntry | bili_uid_crack/core.py:170-172 | when the boundary is the last digit, the mapping is the single mask `prefix?1` with the charset of the boundary digits |
| MaskShape.CandidatesKeepPrefix | bili_uid_crack/core.py:117-119 | every candidate of a same-length range begins with the encoding of the common prefix of start and end |
| MaskShape.IntermediateLengths | bili_uid_crack/core.py:179-183 | every length strictly between the two ends gets the 1..9 first-digit charset, so no candidate of that length has a leading zero |
| MaskShape.LengthMasksCount | bili_uid_crack/core.py:174-186 | the different-length branch writes exactly one mask per length |
| CrackerOutput.OddChars | bili_uid_crack/core.py:281 | the odd-index selection has half the length and takes characters 1, 3, 5, ... |
| CrackerOutput.ReadUidFromHashcatOutfile | bili_uid_crack/core.py:264-285 | a blank outfile reads as -1 |
| CrackerOutput.OddCharsOfHex | bili_uid_crack/core.py:281 | the odd-index characters of a preimage's hex spelling are the UID's digits, in both modes |
| CrackerOutput.HashcatHexRoundTrip | bili_uid_crack/core.py:274-281 | the `$HEX[...]` line of either preimage, with its newline, reads back as the UID |
| CrackerOutput.HashcatPlainRoundTrip | bili_uid_crack/core.py:274-283 | the plain line of the standard preimage reads back as the UID |
| CrackerOutput.ReadUidFromJohnPotFile | bili_uid_crack/core.py:316-331 | a blank pot file reads as -1 |
| CrackerOutput.JohnPotRoundTrip | bili_uid_crack/core.py:326-331 | a pot line `hash:uid` reads back as the UID for any hash text, leading whitespace and colons included |
| CrackerOutput.PotLineLastField | bili_uid_crack/core.py:326-331 | after `strip()`, `split(':')[-1]` of `hash:uid` is the UID, whatever whitespace or colons the hash holds |
| HashcatInput.GenerateMaskFileText | bili_uid_crack/core.py:255-259 | the loop builds the mask-file text of the mapping, one line per entry in insertion order |
| HashcatInput.MaskFileRoundTrip | bili_uid_crack/core.py:255-259 | reading the file back by hashcat's comma and newline syntax gives every mask with its charsets, in order, when no field holds a comma or newline |
| HashcatInput.MaskFileTextSnoc | bili_uid_crack/core.py:255-259 | one more entry appends exactly its line to the text |
| HashcatInput.SplitRange | bili_uid_crack/core.py:364-370 | a range across 10^10 becomes its part below and its part from 10^10 on; any other range is kept |
| HashcatInput.SplitRanges | bili_uid_crack/core.py:362-370 | after the split no range crosses 10^10, and there are between one and two ranges per input range |
| HashcatInput.SplitAtThreshold | bili_uid_crack/core.py:362-370 | the loop computes exactly the split |
| HashcatInput.SplitRangesCover | bili_uid_crack/core.py:362-370 | the split covers exactly the UIDs of the input ranges |
| HashcatInput.SplitRangesKeepsOneSided | bili_uid_crack/core.py:364-370 | ranges that do not cross 10^10 pass through unchanged |

## Left out

- Files, temporary files and subprocesses are not modelled: writing the mask file, reading the outfile and pot file, and running hashcat or John. The text written or read is the model's input or output.
- The MD5 digest itself is left out. The model stops at the preimage bytes that are hashed. Hashing and the crackers' search are foreign code.
- The Bilibili URL handling, network queries, locating the executables, the command line, and the loop over ranges in `crack_from_md5` are not modelled. They are I/O or process control.
- Negative UIDs are left out. The compiler's contracts require `0 <= start`, as Bilibili UIDs are non-negative. The source would index `str(-5)` digit by digit.
- Decimal.ParseInt: Python's `int()` also accepts underscores between digits and non-ASCII decimal digits. The model accepts only ASCII digits with an optional sign.
- Utils.CheckMd5: the regex's `\d` and `str.lower()` act on Unicode in Python. The model treats ASCII only.
- Utils.CheckMd5: the parameter is typed `Optional[str]`, and `None` raises AttributeError at `md5.lower()`. The model takes a string only, so that error path is not modelled.
- Text.Strip: whitespace is ASCII whitespace. Unicode spaces that Python's `strip()` also removes are not modelled.
- CrackerOutput.ReadUidFromHashcatOutfile: the outfile may hold several cracked lines. The model reads the whole text as the source does, and its round trips cover a one-line outfile.
- MaskCompiler.GetMasksAndCharsets: coverage is proved, not exactness. The edge masks look one digit past the boundary, so the masks may generate some UIDs just outside the range (for [123, 456] also 120).
- MaskCompiler.WritePivotMasks: whenever the trimmed middle charset is empty, the source still writes the middle mask with an empty charset. This happens when the boundary digits are one apart and both edges are written (for example [15, 25]), and for every range of two or more digits with start == end (for [10, 10] the source writes `{"?1?d": [""], "1?1": ["0"]}`). The model keeps that entry. How hashcat treats an empty custom charset is not modelled.
- Masks.Matches models a hashcat mask with custom charsets `?1`/`?2` and `?d`. Hashcat's other built-in charsets are not modelled because the compiler never emits them.

## Findings

| source | as written | input that shows it | evidently intended | confidence | as-written member | corrected member |
|---|---|---|---|---|---|---|
| bili_uid_crack/core.py:150-152 (and 202-204) | the middle mask is written only if the boundary digits differ by more than one, or the start's next digit is not 0, or the end's next digit is not 9 | [10, 29]: bounds 1 and 2, next digits 0 and 9, so no mask is written at all and UIDs 10..29 are never tried; likewise [100, 299] | write the middle mask whenever its trimmed charset is non-empty; here that is "12", which covers 10..29 | not executed | MaskCoverage.EmptyIffGap, MaskCoverage.GapExample | MaskCoverage.CorrectedCoverage |
