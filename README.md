# WordPress export to Markdown: the conversion loop

This project models the core of `streamlit_app.py`, a small web tool that
turns a WordPress XML export into Markdown files. The core is
`process_xml` (lines 7-47). For every `<item>` of the export that has a
`wp:post_content` text, it converts the HTML body to Markdown. Then one of two
things happens:

- In individual mode it writes `<sanitized title>.md` with the body
  `# <title>\n\n<markdown>` and records the file name.
- In concatenate mode it appends `# <title>\n\n<markdown>\n\n` to a running
  text. If that text is non-empty at the end, it is written to
  `all_pages.md`.

The file name comes from the title through a sanitizer (line 26). The
sanitizer keeps alphanumerics, spaces, `-` and `_`, then strips the ends.

The model has three modules:

- `Seqs` (seqs.dfy) holds the order-preserving `Filter` and the subsequence
  relation. Two parts of the source are filters: the generator expression of
  line 26, and the loop skipping items without content.
- `Sanitizer` (sanitizer.dfy) holds Python's `str.strip()` over the
  characters of `str.isspace`, and the sanitizer itself.
- `Converter` (converter.dfy) holds the items, the `ProcessXml` method with
  its loop, the specification functions the loop is proved against, and the
  lemmas about a run.

Collaborators the tool calls are parameters of the model:

- `isAlnum: char -> bool` stands for Python's Unicode-aware `str.isalnum`.
  Every property holds for any classification. The concrete scenarios use the
  ASCII instance `AsciiAlnum`.
- `md: string -> string` stands for `markdownify`.

The working directory is a `map<string, string>` from file name to contents.
Each write replaces the entry for its name, so the last write to a name wins.

This revision of `process_xml` does not do any of the following:

- add a suffix to make file names unique;
- filter out items whose Markdown is empty;
- put in an `untitled_<i>` placeholder title;
- read a `content:encoded` field;
- write a `concatenated_markdown.md` file.

The model has none of these either.

The contracts below are stated in terms of these definitions. Each one
models the source lines given with it:

- `Converter.Item` (converter.dfy:16): one `<item>`, its title (line 18) and
  its `wp:post_content` text or `None` (lines 19-20).
- `Converter.HasContent` (converter.dfy:25): the test of lines 22-23.
- `Converter.WithContent` (converter.dfy:30): the items the loop of lines
  17-38 does not skip, in document order.
- `Sanitizer.IsSpace` (sanitizer.dfy:13): the characters `strip()` removes
  at line 26, Python's `str.isspace`.
- `Sanitizer.Keep` and `Sanitizer.Kept` (sanitizer.dfy:21, 26): the test of
  the generator expression at line 26.
- `Converter.FileName` (converter.dfy:35): `filename` at line 27, the
  sanitized title plus `.md`.
- `Converter.FileBody` (converter.dfy:41): the text written at line 37.
- `Converter.Block` (converter.dfy:46): the text appended at line 33.
- `Converter.IndividualNames` (converter.dfy:51): `txt_files` after the
  loop of lines 17-38 in individual mode, built item by item as line 38 does.
- `Converter.IndividualFiles` (converter.dfy:60): the directory after the
  writes of lines 36-37, item by item.
- `Converter.Concatenated` (converter.dfy:71): `concatenated_content` after
  the appends of line 33, item by item.
- `Converter.ConcatenatedName` (converter.dfy:22): the name at line 42.
- `Converter.RunNames` and `Converter.RunDirectory` (converter.dfy:82, 89):
  the returned list and the final directory of a whole call, lines 14-47,
  in either mode.
- `Converter.Blocks` (converter.dfy:400): an independent front-to-back
  definition of the concatenated text over the items with content, which
  `ConcatenatedIsBlocks` proves equal to `Concatenated`.

## Model

| member | source | states |
|---|---|---|
| `Seqs.Filter` | streamlit_app.py:26 | the generator filter keeps only elements passing the test, in order, as a subsequence of the input |
| `Seqs.FilterCounts` | streamlit_app.py:26 | every element passing the test survives the filter as often as it occurs in the input |
| `Sanitizer.TrimLeft` | streamlit_app.py:26 | the result is the longest suffix not starting with whitespace; everything removed is whitespace |
| `Sanitizer.TrimRight` | streamlit_app.py:26 | the result is the longest prefix not ending with whitespace; everything removed is whitespace |
| `Sanitizer.Strip` | streamlit_app.py:26 | `strip()` leaves no whitespace at either end, and leaves a string alone when its ends are not whitespace |
| `Sanitizer.StripSlice` | streamlit_app.py:26 | `strip()` returns a slice `s[i..j]`, and every character outside the slice is whitespace |
| `Sanitizer.StripCounts` | streamlit_app.py:26 | `strip()` keeps every non-whitespace character as often as it occurs |
| `Sanitizer.Sanitize` | streamlit_app.py:26 | every character is alphanumeric, a space, `-` or `_`; no whitespace at either end; a subsequence of the title |
| `Sanitizer.SanitizeSlice` | streamlit_app.py:26 | the sanitized title is a slice of the filtered title, and all it cuts off at either end is whitespace, so inner spaces survive as they are |
| `Sanitizer.SanitizeKeepsInnerSpaces` | streamlit_app.py:26 | with ASCII `isalnum`, `a  b` sanitizes to `a  b`: two inner spaces stay two spaces |
| `Sanitizer.SanitizeKeepsCharacters` | streamlit_app.py:26 | every kept non-whitespace character of the title (alphanumerics, `-`, `_`) survives sanitizing, as often as it occurs |
| `Sanitizer.SanitizeIdempotent` | streamlit_app.py:26 | sanitizing a sanitized title returns it unchanged |
| `Sanitizer.SanitizeDropsPunctuation` | streamlit_app.py:26 | with ASCII `isalnum`, `A!` sanitizes to `A` |
| `Sanitizer.SanitizeDropsQuestionMark` | streamlit_app.py:26 | with ASCII `isalnum`, `A?` sanitizes to `A` |
| `Sanitizer.SanitizeStripsEnds` | streamlit_app.py:26 | with ASCII `isalnum`, ` a b?` sanitizes to `a b`: the inner space stays and the leading one goes |
| `Sanitizer.SanitizeToEmpty` | streamlit_app.py:26 | for every `isalnum`, a title sanitizes to the empty string exactly when each character is either dropped by the filter or whitespace |
| `Converter.PunctuationTitleFileName` | streamlit_app.py:26-27 | a title whose every character is either dropped by the filter (anything but alphanumerics, space, `-` and `_`) or whitespace gets the file name `.md`; a title such as `-_` keeps its characters |
| `Converter.ProcessXml` | streamlit_app.py:7-47 | the returned list equals `RunNames` and the final directory equals `RunDirectory` for the chosen mode; the list is empty exactly when no item has content |
| `Converter.PrefixStep` | streamlit_app.py:17-38 | the loop's step lemma: `IndividualNames`, `IndividualFiles` and `Concatenated` over one more item, as one pass of the loop body changes them |
| `Converter.WithContentLast` | streamlit_app.py:22-23 | the converted items of a run are those before the last item, then the last one if it has content |
| `Converter.IndividualNamesAreFileNames` | streamlit_app.py:26-38 | individual mode lists one name per item with content, in document order, each that item's sanitized title plus `.md`; equal names are kept, not merged or renamed |
| `Converter.IndividualFilesDomain` | streamlit_app.py:36-38 | individual mode's directory holds exactly the old names plus the listed names; unlisted entries are untouched |
| `Converter.LastWriteWins` | streamlit_app.py:36-37 | a listed name's file holds `# <title>\n\n<md(content)>` of the last item producing that name, with the unsanitized title |
| `Converter.IndividualNamesAppend` | streamlit_app.py:17-38 | the list for `a + b` is the list for `a` followed by the list for `b` |
| `Converter.IndividualFilesAppend` | streamlit_app.py:17-37 | the directory after `a + b` is the run over `b` started from the directory after `a` |
| `Converter.ConcatenatedAppend` | streamlit_app.py:17-33 | the concatenated text of `a + b` is that of `a` followed by that of `b` |
| `Converter.ConcatenatedEmptyIff` | streamlit_app.py:32-40 | the concatenated text is empty exactly when no item has content |
| `Converter.ConcatenatedIsBlocks` | streamlit_app.py:32-33 | the concatenated text is the in-order concatenation of `# <title>\n\n<md(content)>\n\n` over the items with content |
| `Converter.AbsentAddsNoName` | streamlit_app.py:20-23 | an item without content adds no file name, wherever it stands |
| `Converter.AbsentWritesNoFile` | streamlit_app.py:20-23 | an item without content writes no file, wherever it stands |
| `Converter.AbsentAddsNoText` | streamlit_app.py:20-23 | an item without content adds no text to the concatenation |
| `Converter.AbsentContributesNothing` | streamlit_app.py:20-23 | in either mode, removing an item without content changes neither the result list nor the directory |
| `Converter.ConcatenateMode` | streamlit_app.py:40-45 | concatenate mode returns `["all_pages.md"]` and writes only that file, holding the concatenated text, when some item has content; otherwise it returns `[]` and writes nothing |
| `Converter.RunEmptyIff` | streamlit_app.py:40-47 | in either mode the result is empty exactly when no item has content, the caller's "No valid content" condition |
| `Converter.DuplicateTitlesIndividual` | streamlit_app.py:26-38 | with titles `A!` and `A?` around an item without content, individual mode lists `A.md` twice, and the file holds the second item's body under its own title |
| `Converter.DuplicateTitlesConcatenated` | streamlit_app.py:32-45 | the same run in concatenate mode writes both blocks, in order, to `all_pages.md` and nothing else |

## Left out

- The Streamlit page (lines 50-74) is presentation: the title, the uploader, the checkbox, the download button and the error message.
- The zip archive, reading `output.zip` and the `os.remove` clean-up (lines 60-72) are library I/O. As written, zipping a name listed twice would fail the second time, since the first pass already removed the file.
- XML parsing (`ET.parse`, `findall("./channel/item")`, the `wp:post_content` lookup, lines 9-20) is a library call. Its result is the input `seq<Item>`. `content` is `None` when the element is missing or has no text, which is when ElementTree gives `None`.
- A missing `<title>` element makes line 18 raise for every item. A `<title>` with no text gives `title = None` at line 18 without raising. Line 26 then raises only when that item has content, because lines 22-23 skip items without content first. `Item.title` is a `string`, so the model does not cover the raising cases. An item with a text-less title and no content is skipped silently; the model expresses it as `Item("", None)`, whose title is never used (`AbsentContributesNothing`).
- `markdownify` (line 30) is the uninterpreted parameter `md`.
- Python's `str.isalnum` is the uninterpreted parameter `isAlnum`. `str.isspace`, which `strip()` uses, is written out as its fixed list of code points.
- The directory compares names exactly: case-sensitive, with no Unicode normalisation. On a case-insensitive file system, titles `A` and `a` give two list entries but one file, so `IndividualFilesDomain` and `LastWriteWins` then describe names, not files on disk. `open(filename, "w")` in text mode writes the platform newline; the `"\n\n"` in `FileBody` and `Block` is the file content only where that newline is `\n`.
- Failures of `open` or `write` (an invalid or over-long file name, permissions) and the UTF-8 encoding of the files are not modelled. The directory is a map from name to text.
