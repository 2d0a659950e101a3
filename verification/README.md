# cosc101text build filters, modelled in Dafny

The textbook's build runs three small Python 2 filters, and each one is a
find-and-replace loop over text:

- **suckcharts.py** reads Markdown on standard input. It turns every inline
  TeX span `$x$` into an image link `![x](tpimg/eqn_NN.png)` after the chart
  service has rendered `x` into that file. `NN` is a counter that runs
  across all lines. The script then runs a pass for `$$x$$` spans, but the
  `$x$` pass has already rewritten them. A `$$x$$` span therefore ends up as
  a link inside a link, with two downloads (see "## Findings").
- **patchebookfigs.py** rewrites an EPUB archive. In every entry whose name
  contains `.xhtml`, each quoted chart-service URL is fetched, and the image
  is stored as a new archive entry `images/eqn_NN.png`. The URL in the page
  is replaced by that entry's quoted name. Every other entry is copied as it
  is.
- **prepandoc.py** prepares the LaTeX sources for pandoc:
  - `\input{name}` lines are replaced by the file `name.tex`;
  - `\label{..}` lines become a blank;
  - `\includegraphics{X.eps}}` lines become `<img src="X.png">`;
  - `{\bf`, `{\tt` and `{\em` are rewritten to `\textbf{`, `\texttt{` and
    `\textit{`.

The model has one module per script, over four shared modules:

- `Text` covers Python's `str.find`, `str.strip`, `str.replace`, `%02d`, line
  splitting and character counts.
- `Scanner` is a leftmost, greedy scanner for the one regular-expression
  shape all three scripts use: a literal head (where `.` matches any
  character but a newline), a greedy run of one character class (`\S` or
  `[^$]`), and a literal tail. Its specification is declarative:
  - a match is `IsLeftmostGreedy` when no match starts earlier and no longer
    run ends at a tail;
  - `Search` is proved to return that match, or nothing exactly when the
    pattern has no match.
- `Fetches` records downloads as `Fetch(url, counter)` and proves that the
  counters run 0, 1, 2, … in order.
- `UrlClean` covers `&amp;` unescaping and Python 2.7's `urllib.unquote_plus`,
  each with its inverse.

Each loop of the scripts is an imperative method with loop invariants. The
method is proved against a recursive specification function, for example
`ProcessLine` against `Rewrite`. The properties the scripts promise are
proved as lemmas about those functions:

- termination;
- no match left behind;
- unchanged lines;
- distinct file names;
- the exact splice;
- the routing of archive entries;
- worked examples.

The network, the zip files, standard input and the files read by
`spitinput` are parameters:

- a fetch function `string -> string`;
- a sequence of `(name, bytes)` entries;
- a string;
- a map from file names to contents.

## Model

| member | source | states |
|---|---|---|
| Text.Find | prepandoc.py:44 | `str.find(f, from)`: -1, or an index at or after `from` where `f` occurs |
| Text.FindSpec | prepandoc.py:44-46 | -1 means `f` occurs nowhere at or after `from`; otherwise no occurrence lies between `from` and the index returned |
| Text.Strip | suckcharts.py:26 | `line.strip()`: the result is `line` with whitespace-only ends cut off, and it neither starts nor ends with whitespace |
| Text.SplitLines | patchebookfigs.py:33 | `for line in fp`: the lines concatenate back to the text, each ends at its first newline, and every line but the last ends with one |
| Text.Format02 | suckcharts.py:16 | `%02d`: decimal digits whose value is `n`; exactly two, the first `0`, below 10; no leading zero from 10 on |
| Text.Decimal | suckcharts.py:16 | `str(n)`: decimal digits with no leading zero, and at least two from 10 on |
| Text.DecimalValue | suckcharts.py:16 | the decimal digits of `n` read back as `n` |
| Text.Contains | patchebookfigs.py:29 | `sub in s` holds exactly when `sub` occurs somewhere in `s` |
| Text.Replace | patchebookfigs.py:40 | `str.replace`: every occurrence, found left to right without overlap, is replaced; its meaning is stated by `ReplaceAbsent` and `AmpRoundTrip` |
| Text.ReplaceAbsent | patchebookfigs.py:40 | `str.replace` leaves a string without the pattern unchanged |
| Text.CountSplice | suckcharts.py:21 | counting a character across a splice: what the removed slice held is lost and what the inserted text holds is added |
| Scanner.Search | suckcharts.py:11 | `re.search` for one pattern: the match returned is the leftmost one with the longest run; none is returned exactly when the pattern matches nowhere |
| Scanner.SearchFromSpec | suckcharts.py:11 | the scan from position `p` finds the leftmost greedy match at or after `p`, or reports that none starts there or later |
| Scanner.LeftmostGreedyUnique | suckcharts.py:11 | two leftmost greedy matches of the same pattern in the same string are equal |
| Scanner.SearchFindsSpan | suckcharts.py:11 | for the `$` patterns, whose tail's first character `$` cannot continue the `[^$]` run: a match with nothing earlier is the one `re.search` returns |
| Scanner.FoundAlone | prepandoc.py:26 | `head` + body + `tail`, with the body non-empty and space-free, whitespace or the end of the line after it, and no earlier match, is the match found, and the group is the body |
| Scanner.NoHeadNoMatch | prepandoc.py:26 | a pattern whose head ends with a character absent from the line has no match in it |
| Fetches.NumberedDistinct | suckcharts.py:19 | downloads numbered consecutively from `n` carry pairwise different counters |
| Fetches.NumberedAt | suckcharts.py:16-19 | the k-th download of a run numbered from `n` carries counter `n + k` |
| Fetches.NumberedAppend | suckcharts.py:19-28 | two consecutive numbered runs form one numbered run, so the counter threads on across calls and lines |
| UrlClean.UnquotePlus | patchebookfigs.py:41 | `urllib.unquote_plus`: `+` becomes a space, then `%XX` is decoded; its inverse is proved by `QuoteRoundTrip` |
| UrlClean.CleanUrl | patchebookfigs.py:39-41 | the captured URL with `&amp;` unescaped and then `unquote_plus` applied; it inverts quoting and escaping by `CleanUrlRoundTrip` |
| UrlClean.AmpRoundTrip | patchebookfigs.py:40 | `replace('&amp;','&')` undoes HTML escaping of `&` |
| UrlClean.Unquote | patchebookfigs.py:41 | `urllib.unquote`: never longer than its input |
| UrlClean.UnquotePlusPlain | patchebookfigs.py:41 | `unquote_plus` leaves a string without `%` or `+` as it is |
| UrlClean.UnquoteNoPercent | patchebookfigs.py:41 | `unquote` leaves a string without `%` as it is |
| UrlClean.UnquoteKeepSpace | patchebookfigs.py:41 | `unquote` inverts percent-encoding of every byte outside the safe set |
| UrlClean.QuoteRoundTrip | patchebookfigs.py:41 | `unquote_plus(quote_plus(s)) == s` for every byte string |
| UrlClean.CleanUrlRoundTrip | patchebookfigs.py:39-41 | a URL quoted and HTML-escaped into the page is fetched exactly as it was before quoting |
| SuckCharts.EqnFileInjective | suckcharts.py:16 | `tpimg/eqn_%02d.png` names are equal exactly when their counters are |
| SuckCharts.MatchDollars | suckcharts.py:27-28 | a `$x$` or `$$x$$` match has `slice` dollars at each end, and its inside is non-empty and `$`-free |
| SuckCharts.InnerTex | suckcharts.py:14 | `groups()[0][slice:-slice]`; `InnerTexIsRun` proves it is the run between the fences |
| SuckCharts.Spliced | suckcharts.py:20-21 | `line[:start] + imglink + line[end:]` for the file of counter `n`; `SpliceStep` proves it drops `2 * slice` dollars |
| SuckCharts.InnerTexIsRun | suckcharts.py:14 | `groups()[0][slice:-slice]` is exactly the run between the dollar fences |
| SuckCharts.SpliceStep | suckcharts.py:20-21 | one replacement removes exactly `2 * slice` dollar signs, so the loop terminates |
| SuckCharts.Rewrite | suckcharts.py:9-22 | what `process_line` returns: the counter rises by the number of downloads, the downloads are numbered from `n`, and there are at most half as many as the line has `$` |
| SuckCharts.RewriteClean | suckcharts.py:10-22 | on return the pattern matches nowhere; a download happens exactly when the line held a match; a line without one comes back unchanged |
| SuckCharts.RewriteStep | suckcharts.py:11-21 | one turn: the leftmost match is replaced by `![tex](file)`, `BASE_URL + tex` is fetched under counter `n`, and the rest is rewritten from `n + 1` |
| SuckCharts.RewriteDone | suckcharts.py:11-13 | when `re.search` finds nothing the loop stops, with the line and counter unchanged and no download |
| SuckCharts.NoDollarNoMatch | suckcharts.py:11-13 | a line without `$` has no match of either pattern |
| SuckCharts.ProcessLine | suckcharts.py:9-22 | the `while True` loop returns the line, counter and downloads that `Rewrite` defines |
| SuckCharts.NoDollarUnchanged | suckcharts.py:10-22 | a line without `$` is returned unchanged, with the counter unchanged |
| SuckCharts.SpanRewrite | suckcharts.py:14-21 | the first span found: its text is fetched under `n`, the line becomes `pre + ![x](eqn_n) + post`, and the loop continues from `n + 1` |
| SuckCharts.SpanAlone | suckcharts.py:10-22 | a line whose only `$` signs are one span's becomes `pre + ![x](file) + post`, with one download of `BASE_URL + x` |
| SuckCharts.WorkedExample | suckcharts.py:16-27 | at counter 0, `The value is $x+1$ units.` becomes `The value is ![x+1](tpimg/eqn_00.png) units.`, with one fetch and counter 1 |
| SuckCharts.DisplayPassInert | suckcharts.py:27-28 | wherever `$$x$$` matches, `$x$` matches too |
| SuckCharts.TwoPasses | suckcharts.py:27-28 | two passes thread the counter, number the downloads consecutively, and leave no match of the second pattern |
| SuckCharts.SuckLineAsWritten | suckcharts.py:26-28 | as written, the `$$x$$` pass changes nothing: the line's result is the `$x$` pass's alone |
| SuckCharts.SuckLine | suckcharts.py:26-28 | in the intended order, the counter threads through, downloads are numbered, and neither pattern matches the result |
| SuckCharts.DisplaySpanAsWritten | suckcharts.py:27-28 | as written, `$$x$$` becomes a link inside a link, `![![x](f_n)](f_n+1)`, at the cost of two downloads |
| SuckCharts.DisplaySpanIntended | suckcharts.py:27-28 | in the intended order, `$$x$$` becomes `![x](f_n)` with the single download `BASE_URL + x` |
| SuckCharts.AsWrittenPasses | suckcharts.py:27-28 | the line's result as written is the `$x$` pass followed by the `$$x$$` pass, with the downloads of both in order |
| SuckCharts.LineIn | suckcharts.py:26-28 | one stripped line in either order of the passes: the counter threads through, the downloads are numbered, and neither pattern matches the result |
| SuckCharts.SuckAll | suckcharts.py:25-29 | the filter over the input in a given order (`AsWritten` is the script): one output line per input line, the counter starting at 0, and the downloads numbered 0, 1, 2, … |
| SuckCharts.SuckAllStep | suckcharts.py:25-29 | each input line appends its rewritten line and its downloads, starting from the counter the previous lines left |
| SuckCharts.SuckAllClean | suckcharts.py:25-29 | in either order, and so in what the script prints, no printed line holds a `$x$` or `$$x$$` span |
| SuckCharts.DisplayStream | suckcharts.py:25-29 | on the input line `$$x$$` the script prints `![![x](tpimg/eqn_00.png)](tpimg/eqn_01.png)` after two downloads; the intended order prints `![x](tpimg/eqn_00.png)` after one |
| SuckCharts.DistinctFiles | suckcharts.py:7-19 | no two downloads of a run write the same file |
| SuckCharts.SuckCharts | suckcharts.py:25-29 | the stdin loop, with the `$x$` pass before the `$$x$$` pass as written, prints what `SuckAll(input, AsWritten)` defines, and its downloads go to pairwise different files |
| PatchEbookFigs.ImageNameInjective | patchebookfigs.py:44 | `images/eqn_%02d.png` names are equal exactly when their counters are |
| PatchEbookFigs.NoHInName | patchebookfigs.py:44-48 | the quoted image name holds no `h` |
| PatchEbookFigs.MatchHasTwoH | patchebookfigs.py:35 | every chart-URL match holds at least two `h` (those of `http` and `chart`) |
| PatchEbookFigs.PatchStep | patchebookfigs.py:35-48 | each replacement removes at least two `h` and adds none, so the loop terminates |
| PatchEbookFigs.ChartRewrite | patchebookfigs.py:34-49 | the loop on one line: the counter rises by the number of downloads, which are numbered from `n` |
| PatchEbookFigs.ChartRewriteClean | patchebookfigs.py:34-50 | no chart URL is left; a download happens exactly when the line held one; a line without one is appended unchanged |
| PatchEbookFigs.ChartDone | patchebookfigs.py:35-37 | with no chart URL the loop stops, with the line and counter unchanged |
| PatchEbookFigs.ChartStep | patchebookfigs.py:35-49 | one turn: the cleaned captured URL is fetched under `n`, and the rest of the line is rewritten from `n + 1` |
| PatchEbookFigs.Captured | patchebookfigs.py:39 | `mobj.groups()[0]`: the match without its two quotes |
| PatchEbookFigs.Patched | patchebookfigs.py:48 | the match, quotes included, replaced by the quoted image name; `PatchedPrefix` and `PatchStep` state what it keeps and removes |
| PatchEbookFigs.PatchedPrefix | patchebookfigs.py:48 | the text before the match is kept, and the quoted image name follows it |
| PatchEbookFigs.ChartFound | patchebookfigs.py:35 | in a line with no quote before the URL, whose path is space-free and which continues with whitespace or the end, `re.search` finds exactly the quoted URL |
| PatchEbookFigs.ChartPatched | patchebookfigs.py:39-48 | for that line, the captured URL is the chart prefix followed by the path, and the splice gives `pre + "images/eqn_NN.png" + post` |
| PatchEbookFigs.PatchedClean | patchebookfigs.py:35-37 | after that splice no chart URL is left, so the loop stops |
| PatchEbookFigs.ChartAlone | patchebookfigs.py:35-49 | a line whose only quotes are around one chart URL becomes `pre + "images/eqn_NN.png" + post`, with one fetch of the cleaned URL |
| PatchEbookFigs.ImagesAt | patchebookfigs.py:44-46 | the k-th image entry is named by the k-th download's counter and holds the fetch of its URL |
| PatchEbookFigs.ZipOut.WriteStr | patchebookfigs.py:20 | `writestr` appends one entry and changes nothing else |
| PatchEbookFigs.WriteFile | patchebookfigs.py:19-20 | `writefile` appends one entry with the given name and bytes |
| PatchEbookFigs.ZipRead | patchebookfigs.py:16 | `read(name)`: nothing exactly when no entry has that name; otherwise the bytes of an entry with that name (the last one) |
| PatchEbookFigs.CopyFile | patchebookfigs.py:15-16 | `copyfile` appends the entry with its own name and bytes |
| PatchEbookFigs.PatchFirst | patchebookfigs.py:35-48 | one turn: found exactly when the pattern matches; then one image entry named by the counter holds the fetch of the cleaned URL, and the match is replaced by that name in quotes; otherwise nothing changes |
| PatchEbookFigs.PatchLine | patchebookfigs.py:34-49 | the loop returns what `ChartRewrite` defines and writes one image entry per download, in order |
| PatchEbookFigs.PatchLines | patchebookfigs.py:33-50 | one result line per line, with the counter threaded and the downloads numbered |
| PatchEbookFigs.PatchLinesStep | patchebookfigs.py:33-50 | each line appends its rewritten text and its downloads, starting from the counter the previous lines left |
| PatchEbookFigs.PatchDocument | patchebookfigs.py:32-50 | a document's lines are rewritten in order, its contents are their concatenation, and the image entries are appended in download order |
| PatchEbookFigs.IsDocument | patchebookfigs.py:29 | an entry is rewritten exactly when `.xhtml` occurs in its name (through `Contains`) |
| PatchEbookFigs.PatchAll | patchebookfigs.py:28-54 | after the first `upto` names: downloads numbered 0, 1, … and one output entry per input entry plus one per download |
| PatchEbookFigs.PatchEbook | patchebookfigs.py:23-56 | `main` writes exactly the entries `PatchAll` defines, in that order |
| PatchEbookFigs.DistinctImageNames | patchebookfigs.py:24-49 | no two image entries of a run get the same name |
| PatchEbookFigs.ZipReadUnique | patchebookfigs.py:16 | in an archive with distinct names, reading an entry's name gives its own bytes |
| PatchEbookFigs.CopiedEntry | patchebookfigs.py:28-54 | with distinct names, any entry that is not a document is appended with its own name and bytes after what the entries before it wrote, and nothing is downloaded for it |
| PatchEbookFigs.PatchedEntry | patchebookfigs.py:28-54 | with distinct names, a document is read from its own bytes; its image entries follow what the entries before wrote, then the rewritten document under its own name, with the counter carried on |
| PatchEbookFigs.CopiedThrough | patchebookfigs.py:28-54 | an archive with distinct names and no `.xhtml` entry is copied entry for entry, in order, with no download |
| PrePandoc.SpitInput | prepandoc.py:15-23 | `spitinput(name)`: the contents of `name.tex` exactly when that file exists |
| PrePandoc.CheckInput | prepandoc.py:25-39 | `checkinput`: an `input{` match gives what `spitinput` gives for its name; else a `label{` match gives a space; else an `includegraphics{` match gives its tag; no match gives `None` |
| PrePandoc.CheckInputCases | prepandoc.py:26-35 | a leftmost greedy match of a directive pattern is the one `re.search` returns |
| PrePandoc.FilterLine | prepandoc.py:59-63 | the replacement when it is a non-empty string; the line itself when it is `None` or empty |
| PrePandoc.NoBraceNoDirective | prepandoc.py:25-63 | a line without `{` matches no directive and is kept as it is |
| PrePandoc.PatternShapes | prepandoc.py:26-35 | the three directive heads end with a `{` found nowhere earlier in them, and the tails `}` and `.eps}}` stop the `\S+` run |
| PrePandoc.DirectiveFound | prepandoc.py:26-35 | a directive with no `{` before it, a non-empty space-free name and whitespace or the end after it is found, and its group is the name |
| PrePandoc.InputLine | prepandoc.py:26-63 | an `input{name}` line yields what `spitinput` yields; the line is replaced by the file when it exists and is non-empty, and kept otherwise |
| PrePandoc.LabelLine | prepandoc.py:31-61 | a `label{..}` line that has no `input{` match becomes a single space, newline dropped |
| PrePandoc.GraphicsLine | prepandoc.py:35-61 | an `includegraphics{X.eps}}` line that has neither of the earlier matches becomes `<img src="X.png">` and a newline |
| PrePandoc.Replaced | prepandoc.py:41-48 | what `findreplace` returns, defined by recursion on the text after each occurrence; its meaning is stated by `ReplacedAbsent`, `ReplacedAtStart`, `ReplacedShift` and `ReplacedClean` |
| PrePandoc.ReplacedAbsent | prepandoc.py:43-48 | `findreplace` returns a string without `fstr` unchanged |
| PrePandoc.ReplacedAtStart | prepandoc.py:44-47 | at an occurrence, `repl` replaces `fstr` and the one character after it, and the search goes on from the same index |
| PrePandoc.ReplacedShift | prepandoc.py:44-47 | a prefix in which no occurrence starts stays in front of the result unchanged |
| PrePandoc.TurnPieces | prepandoc.py:44-47 | one turn `fullstr[:i] + repl + fullstr[i+len(fstr)+1:]` keeps everything before `i`, and the remaining suffix shrinks |
| PrePandoc.FindReplaceTurn | prepandoc.py:43-47 | one turn of the loop keeps its invariant: the final result is the unchanged prefix followed by `findreplace` of the rest |
| PrePandoc.FindReplace | prepandoc.py:41-48 | the `while True` loop returns the value of the recursive definition `Replaced` |
| PrePandoc.FindReplaceDone | prepandoc.py:45-48 | when `find` returns -1 the current string is the result |
| PrePandoc.ReplacedClean | prepandoc.py:41-48 | for a pair whose `repl` cannot recreate `fstr`, no occurrence of `fstr` is left in the result |
| PrePandoc.PairsClean | prepandoc.py:51-53 | the three pairs of `cleanotherstuff` are such pairs, and each loop terminates |
| PrePandoc.PassesClean | prepandoc.py:51-52 | after the `{\bf` pass no `{\bf` is left, and after the `{\tt` pass no `{\tt` is left |
| PrePandoc.CleanedSpec | prepandoc.py:50-54 | after the three passes no `{\em` is left, and text without `{` comes through unchanged |
| PrePandoc.Cleaned | prepandoc.py:50-54 | the three `findreplace` passes in order; `CleanedSpec` and `PassesClean` state what they leave |
| PrePandoc.CleanOtherStuff | prepandoc.py:50-54 | the three `findreplace` calls in order |
| PrePandoc.BoldExample | prepandoc.py:47-51 | `{\bf foo}` becomes `\textbf{foo}`: the space after `{\bf` is dropped |
| PrePandoc.Gathered | prepandoc.py:58-63 | the concatenation of `FilterLine` over the lines; `GatheredStep` and `GatheredPlain` state its meaning |
| PrePandoc.GatheredStep | prepandoc.py:58-63 | each line appends its replacement, or the line itself when the replacement is `None` or empty |
| PrePandoc.Run | prepandoc.py:56-65 | `main` prints the cleaned concatenation of the filtered lines, followed by a newline |
| PrePandoc.GatheredPlain | prepandoc.py:58-63 | lines without `{` are gathered unchanged |
| PrePandoc.PlainInput | prepandoc.py:56-65 | an input without `{` is printed as it is, plus the newline that `print` adds |

## Left out

- Network access is not modelled. `urllib.urlretrieve` (suckcharts.py:18) is recorded as a `Fetch` of the URL under its counter. `get_img_object` (patchebookfigs.py:8-12) is the function parameter `fetch`. Neither script handles errors or retries, and neither does the model.
- Zip I/O is reduced to entry sequences. Opening the archives, `tmp.zip`, `close`, `os.unlink` and `os.rename` (patchebookfigs.py:25-26,31,51,56,59-66) are not modelled. The input archive is a sequence of `(name, bytes)` entries, and `ZipOut` holds the entries written so far.
- Compression (`ZIP_DEFLATED`) is not modelled.
- Standard input and standard output are strings or sequences of lines. The progress messages printed to standard error are left out.
- In `spitinput`, the file `open` and its `except` branch (prepandoc.py:18-22) are a lookup in a map from file names to contents. A missing file gives `None`.
- Strings are modelled as Unicode characters, not Python 2 byte strings. `Unquote` decodes `%XX` to the character with that code, and `QuoteRoundTrip` is stated for strings of code points below 256.
- `SuckCharts.ProcessLine`, `PatchEbookFigs.PatchLine`: termination is proved by the count of `$` (suckcharts) and of `h` (patchebookfigs), not by line length. A chart match holds two `h` and the image name none. The length argument would need a bound on the counter's digit count.
- `PrePandoc.FindReplace`: requires `SafePair`: `fstr` has at least two characters, `repl` is not empty, and `fstr`'s first character does not occur in `repl` except possibly as its last character. The source's loop runs for any arguments, but it need not terminate; for example `findreplace("a", "ba", "a")` loops forever. The three pairs of `cleanotherstuff` meet the condition (`PairsClean`).
- `PrePandoc.CleanedSpec`: states "no occurrence left" only for `{\em`, the last pass. A later pass can create an earlier pass's pattern. For example, `{\tt \bf` becomes `\texttt{\bf`.
- A missing or empty include file leaves the directive line in the output as it is, because `None` and `''` are both false (prepandoc.py:60-63). `InputLine` states this.
- book.js, wobble.py and test.py are not part of this model: they are browser UI and turtle-graphics demos.

## Findings

| source | as written | input that shows it | evidently intended | confidence | as-written member | corrected member |
|---|---|---|---|---|---|---|
| suckcharts.py:27-28 | the `$x$` pass runs before the `$$x$$` pass; every `$$x$$` holds a `$x$` match one character in, so the second pass never fires | the line `$$x$$` becomes `![![x](tpimg/eqn_00.png)](tpimg/eqn_01.png)`, with two downloads, the second of the TeX `![x](tpimg/eqn_00.png)` | run the `$$x$$` pass first, so `$$x$$` becomes `![x](tpimg/eqn_00.png)` with one download | not executed | SuckCharts.DisplaySpanAsWritten | SuckCharts.DisplaySpanIntended |

The stream driver `SuckCharts.SuckCharts` models the order as written. `SuckAll(input, Intended)` is the corrected stream, and `DisplayStream` compares the two.
