# Decimal-to-hexadecimal H3 record converter, modelled in Dafny

The program converts a CSV of `ulong_id,density` records into a CSV of
`h3code,density` records: each identifier, written in decimal, is re-written
as lowercase hexadecimal without the `0x` prefix, and the density text is
passed through untouched. It writes the header `h3code,density` first, then
one line per record it could convert, in input order, and counts them.
Blank lines are skipped silently; a line without exactly two comma-separated
fields, or whose first field is not an integer, is skipped with a warning.

The model follows `convert_ulong_to_hex.py` (function
`convert_ulong_to_hex_csv`) in four modules:

- `Wrappers` (`wrappers.dfy`): `Option`.
- `Text` (`text.dfy`): trimming a character class off both ends of a text
  (`Trim`, built from `TrimStart` and `TrimEnd`, for any predicate on
  characters); `str.strip()` (`Strip`) is `Trim` with Python's `str.isspace`
  character set (`IsSpace`); and `str.split(',')` (`Split`, with `Commas`
  and its inverse `JoinCommas`).
- `Numerals` (`numerals.dfy`): `int(text)` in base 10 (`ParseInt`, which
  trims the narrower set of whitespace `int()` skips, `IsIntSpace`), `hex(n)`
  (`Hex`) and the slice `hex(n)[2:]` (`HexField`), on unbounded integers (the
  digit-count limit recent Python versions put on `int(text)` is not modelled,
  see below), with
  the base-16 reading `HexValue` and the canonical digits `HexDigits` as
  their partners; `DecimalDigits` is `str(n)`, used to state round trips.
- `Converter` (`converter.dfy`): the outcome of one line (`ConvertLine`,
  one of `Blank`, `Malformed`, `BadId`, `Converted`), the record line written
  for it (`Record`), the specification of a whole run over the outcomes
  (`DataLines`, `Warnings`, the counts), and the converter itself as an
  imperative loop: `ConvertCsv` writes the header and runs `HandleLine` on
  each input line, accumulating the written lines, the record counter
  `lineCount` and the warnings.

The input file is a sequence of lines (each may still carry its line
terminator, which the strip removes). The output file is the sequence of
strings handed to `write`, header first, each ending in `\n` (which a
text-mode file may translate to the platform's line separator when writing). The warnings printed on the console are a sequence of
`Warning` values carrying the stripped line.

Points where the behaviour of the code is easy to misread, and which the
model follows as written:

- A first field with spaces around the digits is not rejected: `int()`
  ignores whitespace around its argument, so a line such as `12 ,0.5` is
  converted (to `c,0.5`). Spaces inside the digits (`1 2`) are rejected.
  `ParseIntSpec` states exactly what `ParseInt` accepts (see "## Left out"
  for the parts of `int()` it does not cover).
- `int()` skips fewer characters than `str.strip()`: the ASCII separators
  U+001C to U+001F count as whitespace for `str.strip()` but not for
  `int()`. A line `5<U+001C>,0.5` keeps the separator inside the line, and its
  first field is rejected by `int()` (`SeparatorNotSkipped`,
  `SeparatorInField`).
- A signed identifier is not rejected: `int()` accepts `+` and `-`, and a
  negative identifier is written as `hex(-5)[2:]`, which is `x5`
  (`HexFieldSpec`, `HexFieldNegative`, `HexFieldExamples`). `-0` is
  converted to `0`.

## Model

| member | source | states |
|---|---|---|
| `Text.Strip` | convert_ulong_to_hex.py:20 | `line.strip()`, trimming the `str.isspace` characters; its contract is stated by `Text.StripShape`, `Text.TrimAt` and `Text.TrimPadded` |
| `Text.TrimStartShape` | convert_ulong_to_hex.py:20 | the leading part the trim removes is all characters of the trimmed class, and what remains does not start with one |
| `Text.TrimEndShape` | convert_ulong_to_hex.py:20 | the trailing part the trim removes is all characters of the trimmed class, and what remains does not end with one |
| `Text.StripShape` | convert_ulong_to_hex.py:20-21 | the stripped line is an infix of the raw line, with only whitespace cut off on either side; it neither starts nor ends with whitespace; it is empty exactly when the raw line is all whitespace |
| `Text.TrimAt` | convert_ulong_to_hex.py:20 | gives the position where the trimmed text starts, with only characters of the trimmed class before and after it |
| `Text.TrimPadded` | convert_ulong_to_hex.py:20 | trimming a text whose ends are outside the trimmed class, padded with characters of that class, gives back exactly that text |
| `Text.Split` | convert_ulong_to_hex.py:25 | `split(',')` gives one part more than there are commas; no part holds a comma; joining the parts with commas gives back the line |
| `Text.SplitNoComma` | convert_ulong_to_hex.py:25 | a comma-free text splits into itself alone |
| `Text.SplitTwo` | convert_ulong_to_hex.py:25-26 | two comma-free fields around one comma split into exactly those two fields |
| `Text.SplitInTwo` | convert_ulong_to_hex.py:25-26 | a split into exactly two parts means exactly one comma, with the line being the first part, a comma and the second part |
| `Numerals.DecimalDigits` | convert_ulong_to_hex.py:30 | the decimal spelling of a natural number is one or more ASCII digits |
| `Numerals.DecimalRoundTrip` | convert_ulong_to_hex.py:30 | reading the decimal spelling of `n` in base 10 gives `n` |
| `Numerals.ParseInt` | convert_ulong_to_hex.py:30 | `int(parts[0])`, with `None` for the `ValueError` case; it skips only the whitespace `int()` skips (ASCII space and tab to carriage return, and non-ASCII `isspace` characters); its contract is stated by `Numerals.ParseIntSpec` and the lemmas around it |
| `Numerals.ParsedText` | convert_ulong_to_hex.py:30 | a text `int` accepts is, once stripped, one digit or sign followed only by digits, and a negative result has a leading minus |
| `Numerals.ParseIntAccepts` | convert_ulong_to_hex.py:30 | `int` accepts only texts made of digits, signs and the whitespace it skips, with at least one digit; a negative result needs a minus sign |
| `Numerals.ParseIntOf` | convert_ulong_to_hex.py:30 | whitespace that `int()` skips (`IsIntSpace`), an optional `+` or `-`, one or more digits (leading zeros allowed) and whitespace are accepted, with the digits' value under that sign |
| `Numerals.ParseIntParts` | convert_ulong_to_hex.py:30 | conversely, every accepted text splits into `IsIntSpace` whitespace, an optional sign, digits and whitespace, and its value is the digits' value under that sign |
| `Numerals.ParseIntSpec` | convert_ulong_to_hex.py:30 | `int(s) == v` if and only if `s` is `IsIntSpace` whitespace, an optional sign, one or more ASCII digits and `IsIntSpace` whitespace, and `v` is the digits' value under that sign |
| `Numerals.SeparatorNotSkipped` | convert_ulong_to_hex.py:20-30 | `str.strip()` removes a trailing U+001C from `5<U+001C>` but `int()` rejects that text |
| `Numerals.SignedSpellings` | convert_ulong_to_hex.py:30 | `int` reads `+007` as 7 and ` -007 ` as -7 |
| `Numerals.ParseDecimal` | convert_ulong_to_hex.py:30 | `int` of the decimal spelling of `n`, with any whitespace that `int()` skips around it, is `n` (the model puts no bound on the number of digits) |
| `Numerals.ParseNegative` | convert_ulong_to_hex.py:30 | `int` accepts a minus sign: `-` followed by the spelling of `n` gives `-n` |
| `Numerals.HexDigits` | convert_ulong_to_hex.py:34 | the hex digits of `n` are non-empty lowercase `0-9a-f` with no leading zero; they start with `0` exactly for `n == 0`, and are then `"0"` |
| `Numerals.HexRoundTrip` | convert_ulong_to_hex.py:34 | reading the hex digits of `n` in base 16 gives `n`, with no width bound |
| `Numerals.HexValuePositive` | convert_ulong_to_hex.py:34 | a hex string without a leading zero is worth more than zero |
| `Numerals.HexCanonicalRoundTrip` | convert_ulong_to_hex.py:34 | every canonical hex string is the hex spelling of its own value, so the spelling of a number is unique and minimal |
| `Numerals.Hex` | convert_ulong_to_hex.py:34 | `hex(n)`: at least three characters, starting with `0x` for `n >= 0` and with `-0x` for `n < 0`; what follows the first two characters is stated by `Numerals.HexFieldSpec` |
| `Numerals.HexField` | convert_ulong_to_hex.py:34 | `hex(n)[2:]`; its contract is stated by `Numerals.HexFieldSpec` |
| `Numerals.HexFieldSpec` | convert_ulong_to_hex.py:34 | `hex(n)[2:]` of a non-negative `n` is its canonical hex spelling, without prefix, and reads back to `n`; for a negative `n` it is `x` followed by the digits of `-n`, which is not a hex string |
| `Numerals.HexFieldNegative` | convert_ulong_to_hex.py:34 | the field written for `-n` is the field written for `n` behind an `x` |
| `Numerals.HexFieldExamples` | convert_ulong_to_hex.py:34 | 100 is written `64`, 200 `c8`, and -5 `x5` |
| `Converter.Record` | convert_ulong_to_hex.py:34-36 | the line written for a record: the hex field, a comma, the density and a newline; read back by `Converter.RecordReadsBack` |
| `Converter.ConvertLine` | convert_ulong_to_hex.py:20-41 | what one loop turn makes of a line (skipped, invalid, unparseable or converted); its contract is stated by `Converter.ConvertLineSkips`, `Converter.ConvertLineFields` and `Converter.ConvertedFields` |
| `Converter.ConvertLineSkips` | convert_ulong_to_hex.py:20-28 | a line is skipped silently exactly when it is all whitespace; it is rejected as invalid, carrying the stripped line, exactly when it is not blank and its stripped text does not hold exactly one comma |
| `Converter.ConvertLineFields` | convert_ulong_to_hex.py:25-41 | a stripped line made of two comma-free fields is rejected when `int` rejects the first field, and otherwise becomes a record of the parsed identifier and the second field verbatim |
| `Converter.ConvertRoundTrip` | convert_ulong_to_hex.py:20-31 | a line holding the decimal spelling of any `n >= 0`, a comma and a density (with any trailing whitespace or line terminator) is converted with id `n` and the density unchanged |
| `Converter.DecimalLineToHex` | convert_ulong_to_hex.py:20-36 | such a line converts, and the id field written for it is canonical lowercase hex that reads back to `n` in base 16; the line written is `<hex digits of n>,<density>` and a newline |
| `Converter.ConvertedFields` | convert_ulong_to_hex.py:25-36 | a converted line is, once stripped, two comma-free fields around one comma, the first parsing to the written identifier and the second being the density |
| `Converter.StripFields` | convert_ulong_to_hex.py:20 | a line of two fields whose ends are not whitespace, followed by a terminator, strips to the two fields and the comma |
| `Converter.HexFieldText` | convert_ulong_to_hex.py:34 | the written identifier field is non-empty, comma-free and does not start with whitespace |
| `Converter.FieldsReadBack` | convert_ulong_to_hex.py:36 | a written line with such fields, stripped and split again, gives back its two fields |
| `Converter.RecordReadsBack` | convert_ulong_to_hex.py:31-36 | every record line written, read again with the same strip and split, yields exactly the hex field and the density that were written |
| `Converter.Outcomes` | convert_ulong_to_hex.py:19-41 | the outcome of every input line in input order; its contract is stated by `Converter.OutcomesAt` and `Converter.OutcomesSnoc` |
| `Converter.OutcomesAt` | convert_ulong_to_hex.py:19 | there is one outcome per input line, in input order |
| `Converter.Tally` | convert_ulong_to_hex.py:18-41 | the non-blank lines are exactly the invalid, the unparseable and the converted ones; one data line is written per converted line and one warning per rejected line |
| `Converter.DataLines` | convert_ulong_to_hex.py:19-37 | the data lines written for a run of outcomes; its contract is stated by `Converter.DataLineAt`, `Converter.DataLineOrigin`, `Converter.DataLinesAppend` and `Converter.Tally` |
| `Converter.DataLinesAppend` | convert_ulong_to_hex.py:19-41 | converting two stretches of input one after the other writes, warns and counts exactly what converting them together does |
| `Converter.DataLineAt` | convert_ulong_to_hex.py:19-37 | the record of a converted line is the data line at the position given by the number of lines converted before it |
| `Converter.DataLineOrigin` | convert_ulong_to_hex.py:19-37 | every data line is the record of a converted input line, the one with exactly that many converted lines before it |
| `Converter.OutcomesSnoc` | convert_ulong_to_hex.py:19 | reading one more line adds that line's outcome at the end |
| `Converter.LoopStep` | convert_ulong_to_hex.py:19-41 | handling one more outcome keeps the written lines equal to the header followed by the data lines so far, the counter equal to the number of converted lines, and the warnings equal to those of the rejected lines |
| `Converter.HandleLine` | convert_ulong_to_hex.py:20-41 | one turn of the loop writes the line's record and adds one to the counter when it converts, adds the matching warning when it is invalid or unparseable, and otherwise changes nothing |
| `Converter.Account` | convert_ulong_to_hex.py:16-43 | once all lines are handled, the output begins with the header and the counter equals both the number of data lines and the non-blank lines minus the invalid and unparseable ones |
| `Converter.ConvertCsv` | convert_ulong_to_hex.py:14-43 | the output starts with the header `h3code,density`, even for empty input, followed by the data lines of all input lines in input order; the counter equals the number of data lines, and equals the non-blank lines minus the invalid and the unparseable ones; the warnings are those of every rejected line in order |
| `Converter.ZeroRecord` | convert_ulong_to_hex.py:30-36 | `0,0.0` is written as `0,0.0`: zero becomes the single digit `0` |
| `Converter.BlankLine` | convert_ulong_to_hex.py:20-22 | a line holding only its terminator is skipped silently |
| `Converter.UnparseableLine` | convert_ulong_to_hex.py:30-41 | `abc,0.5` is rejected because its identifier does not parse |
| `Converter.NotAnInteger` | convert_ulong_to_hex.py:30 | `int` rejects `abc` |
| `Converter.SeparatorInField` | convert_ulong_to_hex.py:20-41 | the line `5<U+001C>,0.5` is rejected as unparseable, carrying the stripped line, because the separator stays in the first field |
| `Converter.ThreeFieldLine` | convert_ulong_to_hex.py:25-28 | `1,2,3` is rejected as invalid because it has three fields |

## Left out

- Opening, reading, writing and closing the files (convert_ulong_to_hex.py:14): the input is given as its sequence of lines, and the output is returned as the sequence of written strings. How Python splits a file into lines and translates line endings, on reading (universal newlines) and on writing (`\n` becomes the platform's line separator), is not modelled.
- The command line, the usage message and the exit status (convert_ulong_to_hex.py:46-55).
- The wording of the console messages (convert_ulong_to_hex.py:27, 40, 43-44): a warning is modelled as its kind and the stripped line; the `ValueError` text and the final summary are not modelled, the counter is returned instead.
- ParseInt: accepts an optional `+` or `-` and ASCII digits, with whitespace around them; the `_` digit separators and the non-ASCII decimal digits that Python's `int()` also accepts are not modelled, so such a field is treated as unparseable here.
- ParseInt: follows the unbounded reading of `int()`; the limit on the number of digits that recent Python versions enforce (`sys.int_max_str_digits`, 4300 by default, leading zeros included) is not modelled, so a first field longer than that, which the program skips with a warning at convert_ulong_to_hex.py:39-41, is converted here. `hex()` has no such limit.
- Failures of the underlying writes or reads (I/O errors) are not modelled; they abort the run in the program.
