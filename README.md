# MSG to PDF converter: a verified model of its text handling

The application takes a ZIP archive of Outlook `.msg` files, turns each message
into a one-column PDF and offers a ZIP of the PDFs for download. Apart from calls
into the message library, the PDF renderer, the zip library and the web UI, its
logic is three pieces of string and path handling in `app.py`, and those are what
this project models and proves things about:

1. **Header assembly** (`msg_to_pdf_bytes`). Every field the message library
   reports (sender, to, cc, subject, date, body) falls back to `""` when it is
   falsy. The header lines are `Subject:`, `From:` and `To:`, always and in that
   order, then `CC:` and `Date:` only for non-empty fields.
2. **Body wrapping.** The body is split into paragraphs with `str.splitlines`. Each
   paragraph is cut by a `while` loop into chunks of at most 110 characters: while
   more than 110 remain, the first 110 are drawn and dropped, then the rest is
   drawn, so an empty paragraph still draws one empty line.
3. **Archive loop.** Directory members and members whose lower-cased name does not
   end in `.msg` are skipped; the rest are counted (`msg_count`), converted, and
   written as `splitext(basename(name))[0] + ".pdf"`. When the count is 0 the run
   ends with a warning instead of a download.

The observable result of `msg_to_pdf_bytes` is taken to be the sequence of strings
it passes to `drawString`; the observable result of the archive loop is how the run
ends (error, warning, or download) together with the names and drawn text of the
files written.

Modules, one file each:

- `wrappers.dfy` — `Option`, for attributes that may be `None`.
- `text.dfy` — joining strings, prefix/suffix tests, lower-casing.
- `lines.dfy` — Python's `str.splitlines`.
- `wrapping.dfy` — the chunking of one paragraph (`Wrap`) and of all of them (`WrapAll`).
- `paths.dfy` — `str.rfind`, `os.path.basename`, `os.path.splitext` and the output name.
- `render.dfy` — field defaulting, header lines, the body loop, and the whole drawn text of a message.
- `archive.dfy` — the filter, the count, the read by name, the output files and the outcome of a run.

The source's loops that build results are methods with loops: `Render.DrawBody`
(the paragraph loop with the inner `while`, proved equal to `BodyLines`, which wraps
each paragraph with the recursive `Wrap`) and `Archive.ConvertArchive` (the member
loop with its two `continue` filters and the counter; `Archive.ConvertMember` is its
body for one member that passes them). `Render.BuildHeaderLines` builds the list
and then appends, as the source does. The loop that draws the header lines one by
one (`for line in header_lines`, app.py:69-71) only calls the renderer for each
line in turn; it is modelled as the concatenation of `HeaderLines` into the drawn
text in `Render.PdfText`, not as a loop of its own.

Modelling decisions:

- `str.splitlines` is modelled with Python's full set of line boundaries: `\n`,
  `\r`, `\r\n` (one boundary), `\v`, `\f`, `\x1c`, `\x1d`, `\x1e`, `\x85`, U+2028
  and U+2029. As in Python, there is no trailing empty line after a final boundary,
  and the empty text has no lines.
- `str.lower` is modelled on ASCII letters only. No character outside ASCII
  lower-cases to a string ending in `.`, `m`, `s` or `g`, so the `.msg` test decides
  the same either way; the model relies on that.
- `os.path.basename` and `os.path.splitext` are those of `posixpath`: `/` is the
  only separator, and the extension is the text from the last `.` of the last
  component, unless only dots come before that `.` in the component (`.msg`
  has no extension and becomes `.msg.pdf`).
- `msg.date` is represented by its string form, the text the f-string puts after
  `Date: `.
- Characters are Unicode scalar values. This is an assumption: Python's string
  indices are code points, and the two agree only when the text holds no lone
  surrogate code points, which a decoded message body or archive member name is
  assumed not to hold. Under it the 110-character limit counts the same units as
  `len` and slicing.
- Each `ZipEntry` carries what the message library makes of that member's own
  bytes, `None` when it raises. The loop reads a member by its name
  (`input_zip.read(item.filename)`), and the zip library resolves a name to the
  last member listed under it; `Archive.ReadByName` models that lookup, so two
  members with the same name both produce the text of the later one. Because one
  `try` wraps the whole loop, a member whose read yields `None` ends the run as
  `Failed`, whatever was converted before it.

## Model

| member | source | states |
|---|---|---|
| `Render.OrEmpty` | app.py:32-38 | `v or ""`: the value when it is truthy (present and non-empty), the empty string otherwise |
| `Render.Defaulted` | app.py:32-38 | every field, the body included, is empty exactly when the library's value is falsy, and is that value otherwise |
| `Render.HeaderLines` | app.py:59-67 | 3 to 5 lines, the first three always `Subject: ` + subject, `From: ` + sender and `To: ` + to, in that order |
| `Render.BuildHeaderLines` | app.py:59-67 | the list built and then appended to is exactly the reference header `HeaderLines` |
| `Render.HeaderLinesShape` | app.py:59-67 | the header opens with `Subject:`, `From:`, `To:` in that order; it has 3 to 5 lines, one more per non-empty CC or date; with both, CC comes before Date |
| `Render.CcLineIff` | app.py:64-65 | some header line starts with `CC: ` if and only if cc is non-empty, and then the fourth line is `CC: ` + cc |
| `Render.DateLineIff` | app.py:66-67 | some header line starts with `Date: ` if and only if the date is non-empty, and then it is the last line |
| `Render.DrawBody` | app.py:85-99 | the nested paragraph/while loop draws exactly `BodyLines(body)`: each `splitlines` paragraph cut by `Wrap` with width 110 |
| `Render.BodyLinesFaithful` | app.py:88-98 | the drawn body lines joined equal the body without its line boundaries; at least one line per paragraph; every line at most 110 characters and free of boundaries |
| `Render.MsgToPdf` | app.py:52-99 | the strings drawn for a message are the title, the header lines, `Body:` and the wrapped body, in that order |
| `Render.PdfText` | app.py:52-99 | at least five strings: the title `Email Message`, then the subject line, and `Body:` right after the header lines |
| `Render.PdfTextLayout` | app.py:52-99 | in the drawn text the title is first, the header follows from the second line, then `Body:`, and the rest joined is the body without its line boundaries |
| `Wrapping.Wrap` | app.py:89-98 | a paragraph draws at least one chunk, and no chunk is longer than `width` |
| `Wrapping.WrapConcat` | app.py:89-98 | the chunks drawn for a paragraph, joined, are the paragraph: nothing is lost or reordered |
| `Wrapping.WrapChunkLengths` | app.py:85-98 | at least one chunk; every chunk at most `width` long, every chunk but the last exactly `width`; the last is empty only for an empty paragraph |
| `Wrapping.WrapCount` | app.py:88-99 | a paragraph of n > 0 characters draws the k lines with (k-1)·width < n <= k·width, i.e. ceil(n/width); an empty paragraph draws one |
| `Wrapping.WrapCountMaxChars` | app.py:85-99 | with the source's width 110, a paragraph of n characters draws max(1, ceil(n/110)) lines |
| `Wrapping.WrapCharsFromParagraph` | app.py:89-91 | every character of every chunk occurs in the paragraph |
| `Wrapping.WrapAllConcat` | app.py:88-98 | the lines drawn for all paragraphs, joined, are the paragraphs joined |
| `Wrapping.WrapAllLines` | app.py:88-99 | at least one drawn line per paragraph, none longer than `width`, and no line boundary in any when the paragraphs hold none |
| `Lines.SplitLines` | app.py:88 | no paragraph holds a line boundary, and there are no paragraphs exactly when the body is empty |
| `Lines.SplitLinesConcat` | app.py:88 | the paragraphs joined are the text with its line-break characters removed |
| `Lines.SplitLinesTerminated` | app.py:88 | round trip: lines without boundaries, each followed by `\n`, split back into exactly those lines |
| `Lines.SplitLinesTrailingBoundary` | app.py:88 | `"".splitlines()` is empty and `"a\n".splitlines()` is `["a"]` |
| `Lines.FirstBreakAfter` | app.py:88 | a line without boundaries ends at the first boundary that follows it |
| `Lines.SplitLinesAfterLine` | app.py:88 | a line without boundaries followed by a one-character boundary (not the CR of a CR LF) is the first paragraph, and the rest of the text splits on its own |
| `Lines.SplitLinesLeadingBreak` | app.py:88 | a text that starts with a one-character boundary other than CR starts with an empty paragraph |
| `Lines.SplitLinesEmptyLines` | app.py:88 | after any line without boundaries, two consecutive boundaries that are not one CR LF (the second not a CR, which could pair with a following LF) give that line, then an empty paragraph, then the paragraphs of the rest |
| `Lines.SplitLinesCarriageReturn` | app.py:88 | wherever CR LF follows a line without boundaries it is one boundary: that line, then the paragraphs of the rest, with no empty paragraph between |
| `Text.Lower` | app.py:138 | the result has no upper-case ASCII letter left, keeps the length and each character's position, and is the input itself when the input has no upper-case ASCII letter |
| `Text.LowerIdempotent` | app.py:138 | lower-casing an already lower-cased name changes nothing |
| `Paths.RFind` | app.py:146 | `rfind` gives -1 or an index holding the character, with no later occurrence |
| `Paths.Basename` | app.py:144-146 | the basename holds no `/`, and is preceded in the path by a `/` whenever it is shorter than the path |
| `Paths.BasenameIsSuffix` | app.py:146 | the basename is a suffix of the path |
| `Paths.BasenameDropsDirectory` | app.py:146 | `basename(dir + "/" + name) == basename(name)`: no directory prefix survives |
| `Paths.SplitExt` | app.py:146 | root + ext is the path; ext is empty or a `.` followed by text with no `.` and no `/` |
| `Paths.SplitExtWhen` | app.py:146 | an extension is split off only when a non-dot character precedes its dot in the last component; when none is, every dot there has only dots before it |
| `Paths.OutputName` | app.py:146-147 | the output name ends in `.pdf` |
| `Paths.OutputNameFlat` | app.py:146-147 | the output name ends in `.pdf` and holds no `/` |
| `Paths.OutputNameStem` | app.py:146-147 | the output name without `.pdf` is a prefix of the basename, and what was removed is empty or one extension with a single `.` |
| `Paths.SplitExtOfPlain` | app.py:146 | in a name without `/` whose last `.` has some non-dot character before it, the extension starts at that last `.` |
| `Paths.SplitExtOfStem` | app.py:146 | `splitext(stem + "." + ext)` is `(stem, "." + ext)` for any stem without `/` that is not dots only and any ext without `.` or `/` |
| `Paths.OutputNameReplacesExtension` | app.py:146-147 | `dir/stem.ext` is written as `stem.pdf`, whatever dots the stem holds, leading dots included (`dir/.a.msg` gives `.a.pdf`), provided the stem is not dots only, and whatever the case of ext |
| `Paths.OutputNameLeadingDots` | app.py:146-147 | a name made of leading dots and text without dots keeps it whole: `dir/.msg` becomes `.msg.pdf` |
| `Archive.IsMsgEntry` | app.py:136-139 | a member that passes the filter is not a directory and has a name of at least four characters whose fourth from last is `.` |
| `Archive.IsMsgEntryIgnoresCase` | app.py:136-139 | a member is converted iff it is not a directory and its name ends in `.`, then m, s, g in either case (so `X.MSG` is accepted) |
| `Archive.Selected` | app.py:135-141 | every member the loop converts passes the filter |
| `Archive.SelectedMembership` | app.py:135-141 | a member is among those converted iff it is in the archive and passes both filters |
| `Archive.SelectedCount` | app.py:132-141 | the number converted equals the number of archive positions whose member passes the filters |
| `Archive.SelectedEmpty` | app.py:135-150 | nothing is converted iff no member passes the filters |
| `Archive.ReadByName` | app.py:142 | a read that yields a message yields the parse of some member listed under that name |
| `Archive.ReadByNameLast` | app.py:142 | reading a name gives what was parsed from the last member listed under it, whatever members of that name come earlier |
| `Archive.ReadByNameMissing` | app.py:142 | a name no member carries reads nothing (the library raises); the loop never reaches this case, because every name it reads comes from the archive's own listing |
| `Archive.DuplicateNameReadsLast` | app.py:142 | with two members of the same name, reading that name gives the second one |
| `Archive.AllReadCovers` | app.py:135-142 | when every converted member's name reads back a message, so does every member that passes the filter |
| `Archive.ConvertMember` | app.py:142-147 | converting one member fails exactly when reading its name fails, and otherwise gives the file named by `OutputName` holding the text drawn for the message read |
| `Archive.OutputsFlat` | app.py:146-147 | every file written has a name ending in `.pdf` with no `/` |
| `Archive.ConvertArchive` | app.py:127-164 | the run fails iff reading the name of some member passing the filters yields no message; it warns iff no member passes; otherwise `msg_count` is the number selected (> 0) and the files are, in order, each selected member's output name with the text drawn for the message its name reads back |

## Left out

- Message parsing (`extract_msg.Message`, app.py:30): a foreign library; its result is given to the model as a `Message` value, and its failure as `None`.
- Decoding a bytes body with `errors="replace"` (app.py:39-40): library decoding; the body is taken to be text already.
- Font registration at import (app.py:19-20), font selection, the divider line, `showPage`, `save` and the PDF buffer (app.py:43-110): renderer calls with no effect on which strings are drawn.
- Render.MsgToPdf: does not model page geometry or pagination (app.py:45-50, 55, 71-81, 92-104). That arithmetic is floating point (A4 points, millimetres); it only decides where each string lands and when a new page starts after a line drops below the bottom margin, never which strings are drawn or in what order.
- The second argument of `msg_to_pdf_bytes` (app.py:144) only names the in-memory file handed to the library; it does not reach the drawn text.
- The Streamlit UI (app.py:116-126), the success, warning and error messages and the download button (app.py:149-164): UI calls; the model reports which of the three endings a run reaches.
- The timestamped name of the output archive (app.py:153): it reads the clock.
- Opening the input archive and writing the output archive (app.py:129, 134, 147): the members are given as a sequence in listing order, each with its own parse, and the written files are returned as a sequence in write order (two members with the same basename give two files with the same name, as the zip library writes both). The read by name at app.py:142 is modelled (`Archive.ReadByName`); the bytes themselves are not.
- Exceptions other than the message library's (for instance from the renderer or a corrupt archive) are not modelled.
