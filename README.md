# File processing lab: verified model of the reader, writer and text transformer

This project models the core of a small interactive file-processing utility
(`index.py`). It covers three pieces:

- **The text transformer `FileProcessor.process_text`.** It is pure. From decoded
  text and an operation name it builds a report:
  - `word_count`: line, word, character and non-space character counts, then
    the original text verbatim.
  - `line_numbers`: each line prefixed with its 1-based number, right-aligned
    in three columns.
  - `reverse_lines`: the lines, last first.
  - `uppercase`: the text upper-cased.
  - Any other name: the text, unchanged, under a header naming the operation.
- **The reader and writer `FileProcessor.read_file` and `write_file`.** They are
  modelled as a class holding the two session logs, `processedFiles` and
  `errors`, which the methods append to. The filesystem and the codecs are an
  oracle passed in by the caller:
  - whether the path exists, is a regular file and is readable;
  - for each encoding, whether reading decodes, fails to decode or raises
    another exception;
  - whether the write succeeds or raises.
- **The operation menu of `main`.** Choices "1" to "4" select the four
  operations; any other choice selects `word_count`.

Modules, one per component:

- `Strings`: character counting.
- `Lines`: `str.splitlines()` with Python's full set of line boundaries, and
  `"\n".join`.
- `Words`: `str.split()` with Python's full whitespace set.
- `Format`: `str(n)`, the `{:3d}` alignment, ASCII `upper`/`lower`, and
  `replace(' ', '')`.
- `Transform`: `process_text`.
- `Processor`: `read_file`, `write_file` and the session logs.
- `Menu`: the operation selector.

Points where the model departs from the code, or adds to it:

- `read_file` returns `(success, content, message)`. It reports the encoding
  that worked only on the console (index.py:54-55). The model's `ReadOk`
  carries that encoding so that the first-decode property can be stated.
- The exception handlers of `read_file` and `write_file` tell apart
  PermissionError, other OSError and any other exception (index.py:64-75,
  105-116). The model keeps the three as `Fault` values.
- `read_file` opens in text mode with universal newlines (index.py:52), so the text it returns never holds "\r". The model's `Decoded(text)` puts no such limit on the text, which over-approximates. The "\r" and "\r\n" lemmas of `Lines` matter when `process_text` is given text from elsewhere.
- Upper-casing uses the ASCII case mapping only, where Python's `str.upper`
  (index.py:151) maps all of Unicode (see Left out).

## Model

| member | source | states |
|---|---|---|
| `Strings.Count` | index.py:135 | The number of occurrences of a character is at most the length, and it is zero exactly when the character does not occur. |
| `Strings.CountAppend` | index.py:135 | Occurrences in a concatenation are the sum of the occurrences in its parts. |
| `Lines.IsLineBreak` | index.py:124 | The line boundaries of `splitlines()`: "\n", "\r", vertical tab, form feed, the file, group and record separators, NEL, and the line and paragraph separators; `SplitLines`, `SplitLinesBreak` and `LineCount` state the splitting against it. |
| `Lines.LineEnd` | index.py:124 | The first line boundary: no boundary before it, and a boundary at it unless it is the end of the text. |
| `Lines.BreakLength` | index.py:124 | A boundary is one character, except "\r\n", which is one boundary of two characters. |
| `Lines.SplitLines` | index.py:124 | `splitlines()` gives lines that contain no boundary character, and gives no lines exactly for empty text. |
| `Lines.LineEndBefore` | index.py:124 | In front of a boundary-free line, the first boundary is the one that follows it, read whole ("\r\n" as two characters). |
| `Lines.SplitLinesBreak` | index.py:124 | A boundary-free line followed by any boundary ("\r\n", a lone "\r", "\n" or any other boundary character) is the first line of the text; the lines after it are the lines of the rest. |
| `Lines.CrLfBetween` | index.py:124 | "\r\n" between two lines is one boundary: the text splits into exactly those two lines. |
| `Lines.CrCrBetween` | index.py:124 | "\r\r" between two lines is two boundaries, with an empty line between them. |
| `Lines.LoneCr` | index.py:124 | A lone "\r" before a line is a boundary: an empty line, then that line. |
| `Lines.Join` | index.py:144-148 | `"\n".join(...)` of the two line reports; stated by `SplitLinesJoin` (lines to text to lines), `JoinSplit` (text to lines to text) and `JoinEmptyLast`. |
| `Lines.SplitTerminated` | index.py:124 | Splitting lines that each end in "\n" gives exactly those lines back. |
| `Lines.JoinEmptyLast` | index.py:144 | Joining lines with "\n" when the last one is empty gives every other line followed by its own "\n". |
| `Lines.SplitLinesJoin` | index.py:144 | Splitting the "\n"-join of boundary-free lines gives them back when the last line is not empty. |
| `Lines.JoinSplit` | index.py:124 | For text whose only boundaries are "\n": rejoining its lines with "\n", plus the final "\n" if there was one, gives the text back. |
| `Lines.BoundariesSkipLine` | index.py:128 | A boundary-free stretch of text adds no boundary to the count. |
| `Lines.BoundariesBreak` | index.py:128 | Every boundary adds exactly one to the count, "\r\n" included. |
| `Lines.BoundariesLine` | index.py:128 | A line and the boundary after it add exactly one to the count. |
| `Lines.FirstBoundary` | index.py:124 | Text holding a boundary splits into a boundary-free first line, that boundary, and the rest, whose lines follow the first. |
| `Lines.LineCount` | index.py:128 | For all text, the line count is the number of boundaries ("\r\n" counted once, by an independent count over positions), plus one when text follows the last boundary. |
| `Lines.FirstLine` | index.py:124 | The first line is empty exactly when the text starts with a boundary. |
| `Words.IsSpace` | index.py:127 | The whitespace of `split()`, every character for which `isspace()` holds; `Split` and `SplitCount` state the splitting against it. |
| `Words.RunLength` | index.py:127 | The non-whitespace prefix has no whitespace and is followed by whitespace or by the end. |
| `Words.Split` | index.py:127 | Every word `split()` returns is non-empty and contains no whitespace. |
| `Words.SplitCount` | index.py:127 | The number of words equals the number of positions where a non-whitespace character starts the text or follows whitespace. |
| `Words.SplitWord` | index.py:127 | A word followed by whitespace or by the end is the first word `split()` returns, and the words after it are those of the rest. |
| `Words.SplitJoinedWords` | index.py:127 | Splitting words joined by single spaces gives the words back. |
| `Format.DigitValue` | index.py:132-135 | A digit character's value is below ten and maps back to that character. |
| `Format.NatToString` | index.py:132-135 | `str(n)` is a non-empty string of decimal digits with no leading zero unless `n == 0`. |
| `Format.ParseNatToString` | index.py:132-135 | Reading back the digits of `str(n)` gives `n`. |
| `Format.PadLeft` | index.py:143 | Right alignment: the result has length `max(width, len)`, ends with the text, and is spaces before it. |
| `Format.StripLeadingSpaces` | index.py:143 | Specification inverse of the alignment, not called by the source: stripping leading spaces gives a suffix that does not start with a space. |
| `Format.StripPadLeft` | index.py:143 | Stripping the leading spaces undoes right alignment for text that does not start with a space. |
| `Format.Upper` | index.py:151 | `upper()` keeps the length and leaves no lower-case letter. |
| `Format.Lower` | index.py:151 | Specification reference, not called by the source: ASCII lower-casing keeps the length and leaves no upper-case letter; `UpperKeepsText` states what upper-casing keeps against it. |
| `Format.UpperIdempotent` | index.py:151 | Upper-casing twice equals upper-casing once. |
| `Format.UpperKeepsText` | index.py:151 | Upper-casing changes only letter case: the upper-cased text has the same lower-case form. |
| `Format.UpperFixesNonLetters` | index.py:151 | Upper-casing leaves every character that is not a lower-case letter in place. |
| `Format.RemoveAll` | index.py:135 | `replace(' ', '')` leaves no ' ', and its length is the original length minus the number of ' '. |
| `Format.RemoveAllKeepsOthers` | index.py:135 | Removing ' ' keeps every other character as many times as it occurred. |
| `Transform.ProcessText` | index.py:118-157 | `process_text`: splits the content into lines and dispatches on the operation name; its five branches are stated by `WordCountReport`, `LineNumbersLines`, `ReverseLinesRoundTrip` with `ReverseLinesLeadingBlank`, `UppercaseReport` and `UnknownPassThrough`, and pinned on sample inputs by the three examples. |
| `Transform.ComputeStatistics` | index.py:124-135 | Words equal the word-start count, characters equal the length, and the no-space figure is the length minus the number of ' ' and at most the character count. Lines are zero only for empty text. |
| `Transform.StatisticsReport` | index.py:131-139 | The word_count f-string: the figures, then the original content between its header and a final "\n"; stated by `WordCountReport`. |
| `Transform.Figures` | index.py:131-136 | The four figure lines in decimal under the statistics header, ending in a blank line; stated by `WordCountReport` and `StatisticsExample`. |
| `Transform.WordCountReport` | index.py:126-140 | The word_count report gives the four figures in decimal, then the original content verbatim after its header and before a final "\n". |
| `Transform.NumberedLine` | index.py:143 | Entry `f"{i+1:3d}: {line}"`; stated by `NumberedLineParts` (field, separator, line) and `NumberedLineNoBreaks`. |
| `Transform.NumberLines` | index.py:143 | The comprehension over `enumerate(lines)`: one entry per line, in order; stated by `LineNumbersLines`. |
| `Transform.LineNumbersLines` | index.py:142-144 | Split back into lines, the line_numbers body has one entry per line of the content. Entry i is `i+1` right-aligned in three columns, then ": ", then line i. |
| `Transform.NumberedLineParts` | index.py:143 | Each entry splits into an aligned number field that strips to `str(i+1)`, then ": ", then the line. The field is three columns wide while `i+1 <= 999`. |
| `Transform.Reverse` | index.py:147 | The slice `lines[::-1]`; stated by `ReverseReverse` (involution) and `ReversePermutes` (same lines, as a multiset). |
| `Transform.ReverseReverse` | index.py:147 | Reversing the line sequence twice gives the original sequence. |
| `Transform.ReversePermutes` | index.py:147 | The reversed line sequence is a permutation of the lines: no line is dropped, added or changed. |
| `Transform.ReverseLinesRoundTrip` | index.py:146-148 | Unless the content starts with an empty line, splitting the body gives the reversed lines, and reversing them gives the content's lines back. |
| `Transform.ReverseLinesLeadingBlank` | index.py:146-148 | When the content starts with a boundary, its first line is empty, and splitting the body gives the reversed lines without that last empty one. |
| `Transform.UppercaseReport` | index.py:150-151 | The uppercase body has the content's length and lower-case form, and upper-casing it again reproduces the same report. |
| `Transform.UnknownPassThrough` | index.py:153-154 | For any other operation, the header names the operation and is followed by the content unmodified. |
| `Transform.StatisticsExample` | index.py:124-135 | "a b\nc\n" has 2 lines, 3 words, 6 characters and 5 non-space characters. |
| `Transform.LineNumbersExample` | index.py:142-144 | "x\ny\n" becomes the entries "  1: x" and "  2: y". |
| `Transform.ReverseLinesExample` | index.py:146-148 | "1\n2\n3" becomes "3\n2\n1". |
| `Processor.ReadSpec` | index.py:29-62 | What `read_file` returns: the existence, file-type and permission checks in that order, then the encoding loop; stated by `ReadCheckOrder`, `ReadSucceeds`, `ReadUndecodable` and `Cp1252OnlyAfterLatin1`, and met by `FileProcessor.ReadFile`. |
| `Processor.TryEncodings` | index.py:47-62 | The loop succeeds only with a listed encoding whose decode gave that text. It fails only with the undecodable error or an escaping exception, both naming the file. |
| `Processor.FirstSettled` | index.py:50-57 | Index of the first attempt that does not fail to decode: every earlier attempt failed to decode. |
| `Processor.SkipFailed` | index.py:50-57 | Encodings that failed to decode have no effect on the result. |
| `Processor.TryEncodingsOk` | index.py:47-57 | The loop returns a text and an encoding exactly when that encoding decodes to that text and every earlier one failed to decode. |
| `Processor.ReadCheckOrder` | index.py:29-45 | The missing, not-a-file and permission errors arise exactly when the existence, regular-file and readability checks, taken in that order, first fail. |
| `Processor.ReadSucceeds` | index.py:29-57 | `read_file` succeeds exactly when all checks pass and the result is the first decode in the order utf-8, utf-16, latin-1, cp1252. |
| `Processor.ReadUndecodable` | index.py:47-62 | The undecodable error arises exactly when the checks pass and all four encodings fail to decode. |
| `Processor.Cp1252OnlyAfterLatin1` | index.py:48-55 | A file is read as cp1252 only if latin-1 failed to decode it. |
| `Processor.WriteSpec` | index.py:102-116 | What `write_file` returns: `(True, "")` when the write succeeds, otherwise `(False, msg)` naming the file and the exception class; met by `FileProcessor.WriteFile`. |
| `Processor.FileProcessor.constructor` | index.py:16-18 | Both session logs start empty. |
| `Processor.FileProcessor.ReadFile` | index.py:20-75 | Returns the read specification. It appends exactly one message to `errors` on failure and none on success, and leaves `processedFiles` unchanged. |
| `Processor.FileProcessor.WriteFile` | index.py:77-116 | On success it appends the filename to `processedFiles` once and leaves `errors` unchanged. On failure it appends one message to `errors` and leaves `processedFiles` unchanged. |
| `Menu.SelectOperation` | index.py:205-220 | "2" selects line_numbers, "3" reverse_lines, "4" uppercase, as the menu announces; "1" and every other choice select word_count. |
| `Menu.MenuCoversOperations` | index.py:213-220 | Each of the four operations is selected by one of the choices "1" to "4". |
| `Menu.MenuChoicesDistinct` | index.py:213-220 | Distinct choices among "1" to "4" select distinct operations. |

## Left out

- Filesystem calls are not modelled: `Path.exists`, `is_file`, `os.access`, `open`, `mkdir` and `write_text`. Their answers come from the `FileProbe` and `WriteOutcome` oracles.
- The codecs utf-8, utf-16, latin-1 and cp1252 are not modelled. Each encoding's attempt is given as decodes, fails to decode, or raises.
- Backup creation in `write_file` is not modelled. An exception while copying the file to its backup (index.py:88-92) only prints a warning. The `backup` parameter is kept, but the model gives it no effect of its own.
- Exceptions from the backup test `file_path.exists()` and from building the backup path with `with_suffix` (index.py:86-87) are outside the inner `try` and are fatal: for the path "." or "/", `with_suffix` raises `ValueError` and the write fails as an unexpected error. The model folds these, like every other failure of `write_file`, into the `WriteRaised` outcome.
- Processor.FileProcessor.WriteFile: the text written is not modelled, because the filesystem is outside the model. Only the outcome of the write is.
- Exceptions raised by the existence, file-type and permission checks themselves are not modelled. Only exceptions raised while opening or reading under an encoding are, as `Raised`.
- The catch-all `except` of `process_text` is not modelled. Nothing in the modelled operations raises.
- Console output and the exact message wording, emoji included, are not modelled. Messages are the `ErrorMessage` tags, carrying the file name and the exception class.
- Format.Upper: ASCII case mapping only. Python's full Unicode `str.upper`, where some characters expand (ß to SS), is not modelled.
- `get_user_input` and the interactive loop of `main` are not modelled, including the summary view, `KeyboardInterrupt` and `sys.exit`. The sample file with its `datetime.now()` timestamp is also left out.
