# weave.py, modelled in Dafny

`weave.py` turns a literate source file into AsciiDoc. Every line of the file
is either documentation (DOC) or code (CODE). A line is DOC when its stripped
form is the marker `#-` alone, or starts with the marker and a space (`#- `).
The script makes one pass over the lines and keeps a single flag, `in_code`:

- A DOC line is printed as its prose payload, which is the stripped line
  without its first three characters.
- A CODE line is written verbatim.
- Each run of CODE lines is wrapped in a source block: `[source,nim]`, then
  `----`, the code, and `----` again.
- The script opens a block before the first line when that line is CODE. It
  closes a block when DOC follows CODE. It opens one, after a blank line, when
  CODE follows DOC. It closes one after the last line when that line is CODE.

The model has three modules:

- `Strings`: Python's `str.strip()` and the slice `s[n:]`. Characters count as
  whitespace when Python's `str.isspace()` holds for them; the list is written
  out explicitly. The module proves how strip behaves: what it removes, what it
  keeps, and that padding does not change its result.
- `Weaver`: the script itself. Standard output is described in two ways. The
  first is a log with one `Write` per `print` or `sys.stdout.write` call. The
  second is `Render`, the text those calls put on the stream.
  - The loop is the pure functions `Start`, `Emitted`, `Step`, `Run`, `Finish`
    and `Weave`.
  - `WeaveLines` is the imperative form of the script. It has the `in_code`
    flag, the output accumulator and the `for` loop, with the same branches in
    the same order. It is proved to produce exactly `Weave(lines)`.
- `WeaveLaws`: what the output is guaranteed to be.
  - A reference description of the output that never mentions the mode.
  - The mode invariant.
  - The counts of opened and closed blocks, and that blocks are well nested.
  - That the input's text can be recovered from the output, and that weaving
    the recovered text again gives the same output.
  - The all-DOC and all-CODE boundary cases.
  - How the output begins and ends.
  - Worked scenarios.

## Model

| member | source | states |
|---|---|---|
| Strings.Drop | weave.py:25 | `s[n:]` is what follows the first `n` characters, and the empty string once `n` is past the end |
| Strings.IsSpace | weave.py:19 | the characters `str.strip()` removes: those for which Python's `str.isspace()` holds; StripEnds and StripBlank state how Strip uses it |
| Strings.TrimStart | weave.py:19 | the leading half of `str.strip()`; TrimStartSuffix and TrimStartAfterSpace characterise it in both directions |
| Strings.TrimEnd | weave.py:19 | the trailing half of `str.strip()`; TrimEndPrefix and TrimEndBeforeSpace characterise it in both directions |
| Strings.Strip | weave.py:19 | `line.strip()`; StripEnds, StripSlice, StripFramed, StripIgnoresPadding and StripBlank state its properties |
| Strings.TrimStartSuffix | weave.py:19 | lstrip keeps a suffix of the line; everything it drops is whitespace; what is left does not start with whitespace |
| Strings.TrimEndPrefix | weave.py:19 | rstrip keeps a prefix of the line; everything it drops is whitespace; what is left does not end with whitespace |
| Strings.StripEnds | weave.py:19 | a stripped line neither starts nor ends with whitespace |
| Strings.StripSlice | weave.py:19 | a stripped line is a contiguous slice of the line, and only whitespace lies outside that slice |
| Strings.TrimStartAfterSpace | weave.py:19 | lstrip removes exactly a whitespace prefix that is followed by a non-space |
| Strings.TrimEndBeforeSpace | weave.py:19 | rstrip removes exactly a whitespace suffix that is preceded by a non-space |
| Strings.StripFramed | weave.py:19 | stripping text framed by whitespace gives back exactly that text, when the text has no whitespace at either end |
| Strings.StripIgnoresPadding | weave.py:19 | adding whitespace around a line does not change what strip gives |
| Strings.StripBlank | weave.py:19 | a line of whitespace alone strips to the empty string |
| Weaver.IsDoc | weave.py:19-20 | the test of weave.py:9 and weave.py:20: the stripped line starts with `#- ` or is `#-`; BlankLineIsCode, PaddingIgnored, MarkedLine, BareLine and PlainLine state its consequences |
| Weaver.Payload | weave.py:25-27 | `clork[3:]`; PayloadShape states that it is what follows `#- `, or empty for a bare `#-` |
| Weaver.Content | weave.py:25-34 | the write carrying a line's own text: the payload for DOC, the raw line for CODE; Contents, UnframedEmitted and DelimitersRemovedGiveContents state where it appears |
| Weaver.Print | weave.py:15-38 | Python's `print(s)`: `s` followed by one newline; Output's `Doc` case and the four delimiter texts are built from it, and DelimiterTexts and BareMarkerPrintsEmptyLine spell out the results |
| Weaver.Render | weave.py:14-38 | the standard output stream: the writes' texts concatenated in call order; RenderSnoc and RenderAppend state that rendering a concatenation of logs concatenates their texts |
| Weaver.Output | weave.py:14-38 | `print` adds a newline and `sys.stdout.write` writes as is; DelimiterTexts spells out the four delimiters and BareMarkerPrintsEmptyLine the empty payload |
| Weaver.Start | weave.py:8-15 | the initial mode and the opening; FirstLineNoTransition, StartCounts and StartNested state its properties |
| Weaver.Finish | weave.py:37-38 | the final close when the mode is CODE; FinishCounts and ClosesIffLastLineCode state its properties |
| Weaver.WeaveLog | weave.py:7-38 | every write of the script; WeaveLogIsReference, CodeBlocksMatchCodeRuns, WeaveLogNested and DelimitersRemovedGiveContents state its properties |
| Weaver.Weave | weave.py:7-38 | the text on standard output; WeaveLines is proved to produce it, and AllCodeFile, AllDocFile, ReweaveRoundTrip and the worked examples state its value |
| Weaver.Emitted | weave.py:20-34 | one iteration writes one or two items and always ends with the line's content; it writes a delimiter exactly when the line's class differs from the mode: a close in code mode, an opening in prose mode |
| Weaver.NextMode | weave.py:21-35 | whatever branch is taken, `in_code` after the loop body is true exactly when the line is CODE |
| Weaver.Step | weave.py:18-35 | after one iteration the mode is the class of the line, and the log is the old log followed by exactly the writes fixed by Emitted's contract: one or two of them, the last being the line's content |
| Weaver.Run | weave.py:18-35 | after the loop the mode is the class of the last line; every line adds at least one write; the last write is the last line's content; an empty loop changes nothing |
| Weaver.StepText | weave.py:20-34 | the text one iteration appends in each of the four branches: `----` and the payload on CODE -> DOC, the payload alone in DOC, the raw line alone in CODE, a blank line, the opening and the raw line on DOC -> CODE |
| Weaver.RunExtends | weave.py:18-35 | the loop only appends: the log written before it is kept unchanged at the front of the log after it |
| Weaver.WeaveLines | weave.py:7-38 | the script's own control flow (the initial mode, the opening, the four branches of the loop, the final close) produces exactly `Weave(lines)` |
| WeaveLaws.BlankLineIsCode | weave.py:19-20 | a blank line is CODE and is written verbatim |
| WeaveLaws.PaddingIgnored | weave.py:19-20 | indentation and trailing whitespace do not change a line's class or its payload |
| WeaveLaws.PayloadShape | weave.py:19-25 | the stripped DOC line is the marker, a space and the payload, or the bare marker with an empty payload; the payload never ends in whitespace |
| WeaveLaws.BareMarkerPrintsEmptyLine | weave.py:20-27 | a bare `#-` line is DOC with an empty payload, printed as a lone newline |
| WeaveLaws.FirstLineNoTransition | weave.py:9-12 | the initial mode is the class of the first line, so the first iteration writes only that line's content and takes neither transition branch |
| WeaveLaws.EmittedIsDelimited | weave.py:20-35 | an iteration writes the delimiter that its mode and the line's class call for (a close, an opening or nothing), then the content |
| WeaveLaws.DelimiterText | weave.py:24-33 | the delimiter between lines of two classes puts `----` on the stream for CODE to DOC, the blank line and opening for DOC to CODE, and nothing otherwise |
| WeaveLaws.EmittedText | weave.py:20-34 | on a CODE to DOC transition, `----` comes immediately before the printed payload; on a DOC to CODE transition, the blank line and opening come immediately before the raw line; otherwise only the payload line or the raw line is written |
| WeaveLaws.Body | weave.py:18-35 | the reference writes include at least one write per line, and the first of them is the first line's content |
| WeaveLaws.RunFromStart | weave.py:9-35 | the loop's writes from the initial state are the mode-free reference: for each line, the delimiter fixed by its class and its predecessor's class, then its content |
| WeaveLaws.WeaveLogIsReference | weave.py:9-38 | the whole output is an opening if the first line is CODE, the per-line segments, and a close if the last line is CODE |
| WeaveLaws.EmittedCounts | weave.py:21-35 | an iteration writes a close only on a CODE to DOC transition and an opening only on a DOC to CODE transition; it never writes the initial opening or the final close |
| WeaveLaws.StartCounts | weave.py:14-15 | an opening is written before the loop exactly when the first line is CODE |
| WeaveLaws.RunCounts | weave.py:14-35 | after the loop, the openings written equal the number of maximal CODE runs (the initial opening only when the file starts with CODE), the closes equal the DOC runs not at the start, and no final close has been written yet |
| WeaveLaws.CodeRunsVersusDocRuns | weave.py:20 | DOC runs and CODE runs alternate, so their numbers differ only by the runs at the two ends |
| WeaveLaws.FinishCounts | weave.py:37-38 | the end of the script adds exactly one final close when the last line is CODE, and nothing else |
| WeaveLaws.CodeBlocksMatchCodeRuns | weave.py:14-38 | the number of block openings and the number of block closes both equal the number of maximal CODE runs; the unprefixed opening appears only when the file starts with CODE, and the final close only when it ends with CODE |
| WeaveLaws.DocRunsFollowCloses | weave.py:21-25 | every DOC run not at the start of the file is introduced by exactly one close |
| WeaveLaws.NestedSnoc | weave.py:14-38 | a write legal at the current depth keeps the output well nested and moves the depth by its own shift |
| WeaveLaws.NestedEmitted | weave.py:20-35 | an iteration keeps the output well nested and leaves a block open exactly after a CODE line |
| WeaveLaws.StartNested | weave.py:14-15 | the state before the loop is well nested, with a block open exactly when the mode is CODE |
| WeaveLaws.RunNested | weave.py:18-35 | after the loop the output is well nested, and a block is open exactly when the last line is CODE |
| WeaveLaws.WeaveLogNested | weave.py:14-38 | openings and closes alternate; code is written only inside a block and prose only outside one; no block is left open at the end |
| WeaveLaws.UnframedEmitted | weave.py:20-34 | leaving out delimiters, an iteration writes just the line's content |
| WeaveLaws.Contents | weave.py:25-34 | one content per line, in input order: the payload of a DOC line, or a CODE line itself |
| WeaveLaws.RunUnframed | weave.py:18-35 | leaving out delimiters, the loop writes the lines' contents in order |
| WeaveLaws.DelimitersRemovedGiveContents | weave.py:18-38 | removing the inserted delimiters from the output leaves, in input order with nothing dropped or repeated, every DOC payload and every CODE line verbatim |
| WeaveLaws.EmittedSameClass | weave.py:26-30 | a line of the mode's own class is written without a delimiter |
| WeaveLaws.RunUniform | weave.py:18-35 | for a file whose lines are all DOC or all CODE, the loop writes only the lines' contents |
| WeaveLaws.AllDocFile | weave.py:18-38 | a file of DOC lines only is woven to its payloads, one printed line each, with no delimiter |
| WeaveLaws.RenderCodeLines | weave.py:30 | the contents of CODE lines put exactly the concatenated lines on the stream |
| WeaveLaws.OpeningThenRest | weave.py:15 | the opening puts `[source,nim]` and `----` on the stream before whatever follows |
| WeaveLaws.FramedText | weave.py:14-38 | a block around some writes is `[source,nim]`, `----`, their text, a blank line and `----` |
| WeaveLaws.ClosingText | weave.py:38 | the final close appends a blank line and `----` |
| WeaveLaws.AllCodeFile | weave.py:14-38 | a file of CODE lines only is one block: the opening, every line verbatim, a blank line and the close |
| WeaveLaws.OpensIffFirstLineCode | weave.py:9-15 | the first write is the opening exactly when the first line is CODE, and the text then starts with `[source,nim]` and `----` |
| WeaveLaws.ClosesIffLastLineCode | weave.py:37-38 | the last write is the final close exactly when the last line is CODE, and the text then ends with a blank line and `----` |
| WeaveLaws.DelimiterTexts | weave.py:14-38 | the four delimiters spelled out as the script prints them, each `print` adding its newline |
| WeaveLaws.MarkedLine | weave.py:19-25 | `#- text` followed by a newline is DOC with payload `text` whenever `text` does not end in whitespace: empty, or starting with whitespace, included |
| WeaveLaws.BareLine | weave.py:19-25 | `#-` followed by a newline is DOC with an empty payload |
| WeaveLaws.PlainLine | weave.py:19-34 | any line whose stripped text is not marked (indented code and lines with trailing whitespace included), with its terminator, is CODE and is written verbatim |
| WeaveLaws.WeaveDocDoc | weave.py:18-38 | two DOC lines are woven to their two payloads as printed lines |
| WeaveLaws.DocLinesCanSpellTheOpening | weave.py:9-27 | a file that starts with DOC can still produce text equal to the opening, so the text alone does not show the first line's class |
| WeaveLaws.DocLinesCanSpellTheClose | weave.py:25-38 | a file that ends with DOC can still produce text equal to the final close |
| WeaveLaws.CanonicalLine | weave.py:19-25 | the normal form of a line (`#- payload` for DOC, the line itself for CODE) has the same class and the same content |
| WeaveLaws.UnweaveIgnoresDelimiters | weave.py:24-33 | reading the output back does not depend on its delimiters |
| WeaveLaws.UnweaveContents | weave.py:25-34 | reading back the contents of the lines gives one line per input line, each in its normal form |
| WeaveLaws.EmittedCongruent | weave.py:20-34 | an iteration depends on its line only through the line's class and content |
| WeaveLaws.RunCongruent | weave.py:9-35 | files whose lines agree one by one in class and content reach the same final state |
| WeaveLaws.ReweaveRoundTrip | weave.py:7-38 | writing each payload back behind a marker, and each code line as it was, gives a file line by line in normal form that weaves to exactly the same output |
| WeaveLaws.WeaveDocCodeDoc | weave.py:18-38 | DOC, CODE, DOC gives the prose, a blank line, the opening, the code line, the close and the prose |
| WeaveLaws.WeaveCodeDocCode | weave.py:9-38 | CODE, DOC, CODE gives a block with the first code line, the prose, then a second block with the last code line, closed after a blank line |
| WeaveLaws.ScenarioTitleCodeRemark | weave.py:7-38 | `#- Title`, `let x = 1`, `#- done` gives `Title`, a blank line, `[source,nim]`, `----`, `let x = 1`, `----`, `done` |
| WeaveLaws.ScenarioCodeCommentCode | weave.py:7-38 | `let x = 1`, `#- comment`, `let y = 2` gives two blocks around `comment`, the second closed after a blank line |
| WeaveLaws.ScenarioBareMarker | weave.py:7-38 | a file made of one bare `#-` line gives a single newline and no delimiters |

## Left out

- The command line and file reading (weave.py:1-5) are not modelled. The input is a non-empty sequence of lines, each keeping its terminator as `readlines` returns it. How a file is split into lines is not modelled.
- Standard output is an accumulated string, described further as a log of writes. Buffering, encoding, flushing and the exit status are not modelled.
- Python's exceptions are not modelled. A missing file is outside the model. An empty file is a precondition (`requires |lines| > 0`), because the script reads `lines[0]` and fails there.
- The initial `in_code = None` (weave.py:8) is not modelled. It is overwritten before it is read.
- The whitespace set is the characters for which Python's `str.isspace()` holds, listed explicitly. It follows that predicate, not the Unicode database it is derived from.
- WeaveLaws.OpensIffFirstLineCode: the "exactly when" is proved for the first write, but for the text only from CODE to the opening. DOC payloads can spell `[source,nim]` and `----`, as DocLinesCanSpellTheOpening shows, so the other direction does not hold for the text.
- WeaveLaws.ClosesIffLastLineCode: the "exactly when" is proved for the last write, but for the text only from CODE to the close. A bare marker followed by `#- ----` ends the text the same way, as DocLinesCanSpellTheClose shows.
