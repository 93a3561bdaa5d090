# AXI file test vectors, modelled in Dafny

This project models the test-vector generator and the fixture corruption of the
`fpga_cores` build script (`run.py`). The script prepares the files that the AXI
file reader and AXI file compare testbenches read in simulation.

- `swapBits(value, width)` reverses the bit order of a word within `width` bits.
  It refuses a value whose binary form is longer than `width` ("input is too big").
- `generateAxiFileReaderTestFile` runs `length` cycles of a shift register. When
  the register is empty, it draws a random word below `2 ** data_width` and keeps it.
  Then it loads the bit-swapped word. Each cycle shifts out the register's lowest
  bit, so the drawn word goes out most significant bit first. Every eight bits
  become one byte of the input file. A partial byte at the end is an error.
  The reference file gets one `"%.{n}x"` hex record per drawn word, with
  `n = (data_width + 3) // 4`, each record followed by a newline. The function
  returns the drawn words.
- `addAxiFileCompareTests` builds two corrupted copies of a 256-word, 32-bit
  reference file. It splits the file at its newlines. One copy drops piece 7 and
  duplicates piece 8. The other also drops piece 16 and duplicates piece 17. The
  slicing drops one piece for each piece it duplicates, so each copy keeps the
  original number of pieces. Each copy is then joined with newlines again.

The model is organised as follows:

| file | module | contents |
|---|---|---|
| `wrappers.dfy` | `Wrappers` | `Option` and `Result` |
| `numerals.dfy` | `Numerals` | Python's `bin(v)[2:]`, `"%x" % v`, `int(s, base)`, left zero padding and `s[::-1]` on positional numerals, plus bit extraction |
| `lines.dfy` | `Lines` | `s.split(sep)`, `sep.join(parts)`, and the text written by a loop that writes each line followed by `sep` |
| `bit_swap.dfy` | `BitSwap` | `swapBits` |
| `test_vectors.dfy` | `TestVectors` | the generator as an imperative method with loop invariants, proved against a functional specification (`Generated`) |
| `fixtures.dfy` | `FixtureCorruption` | the two corrupted reference files |

The generator is a `method` with the source's own state: `buffer_length`,
`buffer_data`, `byte`, `packed_data` and `unpacked_bytes`. Ghost state tracks
the bits already emitted and the bits still pending in the buffer. Its contract
covers three cases:
- `data_width == 0` with `length > 0` fails like `swapBits`;
- a length that is not a multiple of eight fails on the partial byte;
- otherwise the call returns exactly `Generated(draws, data_width, length)`.

Lemmas about `Generated` state what the files mean:
- input bit `8k + t` is bit `data_width - 1 - r` of word `q`, where the stream
  index is `q * data_width + r`;
- each input byte holds its eight stream bits, first bit most significant;
- the reference file reads back as the returned words;
- every record has exactly `(data_width + 3) // 4` hex digits.

### Behaviour of `run.py` worth knowing

- The code never checks that the last word was fully shifted out. A length that
  is not a multiple of `data_width` simply truncates the last word. Only the
  partial-byte check exists.
- The single-error corruption keeps the number of pieces: it drops piece 7 and
  duplicates piece 8. It does not add a record. It needs only nine pieces, since
  it indexes piece 8. The two-error corruption needs eighteen pieces.
- Because the reference file ends with a newline, splitting it gives one more
  piece than there are records. The last piece is empty. With exactly eight
  records, the single-error copy would therefore duplicate that empty trailing
  piece. Every caller writes 256 records.

## Model

| member | source | states |
|---|---|---|
| Numerals.ToBase | run.py:215 | the digits of `bin(v)[2:]` / `"%x" % v` are base digits, at least one, and read back (`int(s, base)`) as v |
| Numerals.ToBaseFits | run.py:217 | the numeral of v has at most n digits iff n >= 1 and v < base^n (the "input is too big" test) |
| Numerals.ParseBase | run.py:220 | `int(s, base)` of an n-digit numeral is below base^n |
| Numerals.NumeralAppend | run.py:250 | proof helper: appending a digit keeps a numeral and gives base * old value + digit |
| Numerals.Zeros | run.py:219 | `"0" * k` has k characters, all '0' |
| Numerals.PadLeft | run.py:219 | padding gives max(n, len(s)) characters |
| Numerals.ParseZerosPrefix | run.py:219 | leading zeros keep a numeral and its value |
| Numerals.PadLeftValue | run.py:219 | left padding to any width keeps a numeral and its value |
| Numerals.Reverse | run.py:220 | `s[::-1]` has the same length, and character i is character len-1-i of s |
| Numerals.DigitChar | run.py:243 | the digit printed for d is a digit character whose value is d |
| Numerals.BitOfParse | run.py:250 | bit i of `int(s, 2)` is the i-th digit of s from the right |
| Numerals.LsbShift | run.py:243-245 | for bits stored lowest first, `& 1` gives the first stored bit and `>> 1` leaves the value of the rest |
| Numerals.LsbBit | run.py:243-245 | bit j of a value stored lowest first is the j-th stored digit |
| Numerals.Digits | run.py:219 | the zero-padded w-bit binary of v, most significant bit first: w binary digits (DigitsAt gives each digit) |
| Numerals.DigitsAt | run.py:219-220 | digit j of the w-bit binary of v is bit w-1-j of v |
| Numerals.PowSixteen | run.py:264 | 16^n == 2^(4n): one hex digit per four bits |
| BitSwap.SwapBits | run.py:213-220 | fails exactly when width is 0 or value >= 2^width; otherwise the result is below 2^width and bit i of the result is bit width-1-i of value |
| BitSwap.ReversedBits | run.py:220 | reading a binary numeral backwards reverses the bit order of its value |
| BitSwap.SwapBitsInvolution | run.py:213-220 | swapping twice gives the value back |
| BitSwap.SwapBitsLsb | run.py:240-245 | the swapped word, read lowest bit first, is the word's binary most significant bit first |
| Lines.Split | run.py:151 | `split(b"\n")` gives at least one piece, and no piece holds the separator |
| Lines.Join | run.py:156 | `b"\n".join(pieces)`: the inverse of Split for separator-free pieces (JoinSplit, SplitJoin) |
| Lines.JoinSeparators | run.py:156 | joining n separator-free pieces puts exactly n - 1 separators into the text, one between each two pieces |
| Lines.JoinSplit | run.py:151-156 | joining the pieces of a split gives the text back |
| Lines.SplitJoin | run.py:156 | splitting a join of separator-free pieces gives the pieces back |
| Lines.Terminated | run.py:266-267 | the text a loop writing each line followed by a newline produces; TerminatedAppend, TerminatedAsJoin and TerminatedSplit state its properties |
| Lines.TerminatedAppend | run.py:266-267 | writing one more line appends it and its newline |
| Lines.TerminatedAsJoin | run.py:266-267 | lines each followed by a newline are the lines plus one empty piece, joined by newlines |
| Lines.TerminatedSplit | run.py:151 | splitting newline-terminated lines gives the lines and one empty trailing piece |
| TestVectors.DrawCount | run.py:233-241 | no cycles draw no words, and a positive number of cycles draws at least one |
| TestVectors.DrawCountBounds | run.py:233-241 | the drawn words cover `length` bits, with less than one word to spare |
| TestVectors.DrawCountUnique | run.py:233-241 | that covering property determines the number of draws |
| TestVectors.Stream | run.py:236-246 | the bits the shift register emits for the drawn words, a binary string; StreamLength, StreamPrefix and StreamAt fix its length and every bit |
| TestVectors.StreamLength | run.py:236-246 | the stream of k words has k * data_width bits |
| TestVectors.StreamAppend | run.py:236-246 | proof helper: drawing one more word appends its data_width-bit binary to the stream |
| TestVectors.StreamPrefix | run.py:236-246 | the stream of the first k words is a prefix of the whole stream |
| TestVectors.StreamAt | run.py:236-246 | stream bit q * data_width + r is bit data_width-1-r of word q: words go out in draw order, most significant bit first |
| TestVectors.Emitted | run.py:233 | `length` cycles emit exactly `length` bits |
| TestVectors.PackBytes | run.py:249-251 | one byte per eight bits, each below 256 |
| TestVectors.PackBytesAppend | run.py:249-251 | proof helper: eight more bits append one byte, `int(byte, 2)` |
| TestVectors.PackBytesChunk | run.py:249-251 | byte k is `int` of bits 8k to 8k+7 |
| TestVectors.PackBytesAt | run.py:249-251 | bit t of a group of eight becomes bit 7-t of its byte |
| TestVectors.InputBytes | run.py:258-260 | the input file has length / 8 bytes |
| TestVectors.InputBitAt | run.py:243-260 | bit 7-t of input byte k is stream bit 8k+t |
| TestVectors.RecordValue | run.py:264-267 | a record is a newline-free lowercase hex numeral whose value is the word, with (data_width + 3) // 4 digits when the word fits data_width |
| TestVectors.RecordFits | run.py:262-264 | a word below 2^data_width needs at most (data_width + 3) // 4 hex digits |
| TestVectors.Record | run.py:264-267 | `fmt % word` without its newline: never empty; RecordValue gives its digits, its value and its width |
| TestVectors.ReferenceText | run.py:264-267 | the reference file's text; WriteReference is proved to produce it, and ReferenceLines and ReferenceRoundTrip show it splits into the records and reads back as the words |
| TestVectors.Records | run.py:266-267 | one record per word, in order |
| TestVectors.ReferenceLines | run.py:265-267 | splitting the reference text at newlines gives the records and one empty trailing piece |
| TestVectors.ParseRecordsOf | run.py:265-267 | the records read back as the words |
| TestVectors.ReferenceRoundTrip | run.py:265-267 | the reference text reads back as the drawn words, in draw order |
| TestVectors.Generated | run.py:223-269 | the functional reference of a successful call: it returns DrawCount words, and the bits in the input file are covered by those words with less than one word to spare |
| TestVectors.DrawStep | run.py:236-241 | with the buffer empty, a draw is left, `swapBits` fails only for width 0, and the buffer then holds the new word's bits |
| TestVectors.ShiftStep | run.py:243-246 | `byte += str(buffer_data & 1)` takes the next stream bit, and the shift keeps the buffer invariant |
| TestVectors.ByteStep | run.py:243-251 | an emitted bit joins the partial byte, and eight bits become byte `int(byte, 2)` of the packed emitted bits |
| TestVectors.CollectedEnd | run.py:253-256 | the partial byte is empty iff the bit count is a multiple of 8, and then the bytes pack every emitted bit |
| TestVectors.DrawBound | run.py:236-238 | a draw with cycles left stays within the DrawCount words the call needs |
| TestVectors.DrawsUsed | run.py:233-246 | at the end exactly DrawCount words were drawn |
| TestVectors.Finish | run.py:233-269 | at loop end, the state matches Generated: the bytes, the reference text and the drawn words |
| TestVectors.GenerateTestFiles | run.py:223-269 | width 0 with cycles fails as "input is too big"; a length that is not a multiple of 8 fails on the partial byte; otherwise the result is Generated (the first DrawCount draws, their stream packed into bytes, and their records) |
| TestVectors.WriteReference | run.py:264-267 | the write loop produces each word's record followed by a newline, in order |
| TestVectors.GeneratedShape | run.py:223-269 | a successful call returns the first DrawCount draws, writes length / 8 bytes and one (data_width + 3) // 4-digit record per word, and its reference file reads back as the returned words |
| TestVectors.CallerConfigurations | run.py:136-141 | length = 256 * data_width is byte aligned and draws exactly 256 words |
| FixtureCorruption.SingleError | run.py:151-156 | defined iff there are at least 9 pieces; keeps the length; piece 7 becomes piece 8 and all others are unchanged |
| FixtureCorruption.SingleErrorUpdate | run.py:155 | the result is the list with piece 7 overwritten by piece 8: one copy of piece 7 fewer and one copy of piece 8 more |
| FixtureCorruption.TwoErrors | run.py:159-170 | defined iff there are at least 18 pieces; keeps the length; piece 7 becomes piece 8, piece 16 becomes piece 17, and all others are unchanged |
| FixtureCorruption.TwoErrorsUpdate | run.py:163-169 | the result is the list with pieces 7 and 16 overwritten by pieces 8 and 17 |
| FixtureCorruption.SingleErrorFile | run.py:150-156 | the corruption succeeds iff the reference splits into at least 9 pieces, and the written text splits into the corrupted pieces |
| FixtureCorruption.TwoErrorsFile | run.py:158-170 | the corruption succeeds iff the reference splits into at least 18 pieces, and the written text splits into the corrupted pieces |
| FixtureCorruption.SingleErrorReference | run.py:150-156 | corrupting a reference file of at least 9 words gives the reference file of the word list with word 7 replaced by word 8, which reads back as that list |
| FixtureCorruption.TwoErrorsReference | run.py:158-170 | corrupting a reference file of at least 18 words twice gives the reference file with words 7 and 16 replaced by words 8 and 17 |
| FixtureCorruption.CompareFixtures | run.py:130-170 | for the compare testbench (256 words of 32 bits), both corruptions succeed and give the reference files of the corrupted word lists |

## Left out

- Randomness: `random.randrange(0, 2 ** data_width)` becomes the parameter `draws`. It must hold the values the calls would return, in order, each below 2^data_width, and at least as many as the call uses. The shared generator's state and seeding are not modelled.
- File I/O: the two `open(...).write` loops become the `input` and `reference` fields of the result. `struct.pack(">B", byte)` becomes the byte value itself. The `p.exists` checks that skip regeneration are not modelled.
- Bytes: the reference file is written in text mode and read back with `"rb"`. Both are modelled as strings of characters, and `b"\n"` as `'\n'`. The model assumes a platform whose line separator is `"\n"`: where text mode writes `"\r\n"`, every piece split at `b"\n"` would end in `"\r"`, and ReferenceText, ReferenceLines and the corruption lemmas would not describe the file.
- Negative `length` (an empty `range`) and a negative `data_width` are excluded by the `nat` parameter types.
- Python exceptions are modelled as `Failure` results (`InputTooBig`, `PartialByte`). The one exception here is the `IndexError` of the corruption slicing, which is modelled as `None`.
- `addAxiFileCompareTests` and `addAxiFileReaderTests` register VUnit configurations. The registration, the file-name handling and the loop over data widths are not part of this model. Only the lengths they pass and the corruption are modelled.
- The rest of `run.py` is not part of this model: the other `add*Tests` helpers, the GHDL pragma handler and the VUnit project setup.
- FixtureCorruption.SingleErrorFile and FixtureCorruption.TwoErrorsFile: the source opens the output file for writing before it slices, so a slice that fails with `IndexError` leaves an empty file behind, which the `p.exists` checks then never rebuild. The model returns `None` and does not capture that empty file.
- BitSwap.SwapBits: the width is always passed, so the source's default `width=8` is not modelled, and the value is a `nat`. A negative value, for which `bin` gives a `-0b` prefix and `int(..., 2)` raises `ValueError`, is excluded by the type. The only caller passes an explicit width and a value from `randrange(0, 2 ** data_width)`.
- FixtureCorruption.SingleErrorReference and FixtureCorruption.TwoErrorsReference are stated for reference files written by the generator, not for arbitrary files. `SingleErrorFile` and `TwoErrorsFile` cover arbitrary files.
