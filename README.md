# m3utool: a verified model of the M3U parser, the selective exporter and the viewer helpers

m3utool loads an extended-M3U playlist, shows its channels in a table, lets the user edit
and select rows, and downloads a new playlist that holds only the selected channels. This
project models the two backend operations that do the work and the pure helpers of the
React viewer around them, and proves what they promise.

- `parse` (backend/main.py:28-66) walks the lines of the playlist text. An `#EXTINF:` line
  opens a pending channel, and its attributes are extracted then. The next line starting
  with `http` completes the channel and gives it the next consecutive index. Blank lines
  and other lines are skipped.
- `export_selection` (backend/main.py:68-84) writes an `#EXTM3U` header. It then copies every
  `#EXTINF` line whose ordinal is in the requested index list, together with the line that
  follows it.
- The viewer (frontend/src/components/M3UViewer.jsx):
  - normalises the export filename;
  - refuses an empty selection;
  - sends the `index` fields of the selected rows;
  - lists the distinct non-empty groups in sorted order;
  - applies a row edit to the table and to the map of edits.

Modules:

- `Text`: the Python and JavaScript string built-ins the code relies on: `split`, `'\n'.join`,
  `strip`, `startswith`, `endswith`, substring search and `toLowerCase`.
- `Backend`:
  - the `Channel` record;
  - attribute extraction, with a model of the `key="([^"]*)"` regular-expression match;
  - `parse` as a step function folded over the lines (`Step`, `Run`);
  - `export_selection` as a function over the lines (`ExportFrom`);
  - the `M3UParser` class, whose `Parse` and `ExportSelection` methods keep the source's loops
    and are proved against those functions.
- `ParseReference`: an independent definition of parsing. It classifies the lines, pairs each
  `#EXTINF` line with the URL line right after it and numbers the pairs. It then proves that
  `parse` equals this definition, and derives the numbering, origin and count properties from it.
- `ExportProperties`: the shape of the exported text, and the round trip from `parse` to
  `export_selection` on well-formed playlists.
- `Arrays`: JavaScript `indexOf` and the default `sort` on strings.
- `Viewer`: the viewer helpers, and the `ChannelTable` class for `onRowEditComplete`.
- `Findings`: two inputs on which `export_selection` and `parse` disagree, and the corrected
  export.

## Model

| member | source | states |
|---|---|---|
| Backend.M3UParser.constructor | backend/main.py:25-26 | a new parser holds no channels |
| Backend.M3UParser.Parse | backend/main.py:28-66 | the channels of `content` are appended to the object's list, which is returned whole; the loop is proved against the line-by-line specification `Run` |
| Backend.M3UParser.ExportSelection | backend/main.py:68-84 | the returned text is the header and the picked lines joined with `\n`, proved for the source's `while` loop over the line index and the `#EXTINF` ordinal |
| Backend.RunStep | backend/main.py:33-64 | one loop iteration is one `Step` of the line-by-line specification |
| Backend.ExportFromStep | backend/main.py:74-82 | one loop iteration copies the `#EXTINF` line and its next stripped line when the ordinal is selected, and advances the ordinal on every `#EXTINF` line |
| Backend.AttributeIsCapture | backend/main.py:41-44 | the extracted value equals the capture of the leftmost `key="…"` match whenever there is one; a non-empty extracted value is such a capture |
| Backend.Attribute | backend/main.py:41-54 | an extracted attribute never contains `"` |
| Backend.LeftmostIsFirst | backend/main.py:41-44 | the leftmost regular-expression match captures the text between the first `key="` and the next `"` |
| Backend.CaptureEndsAtNextQuote | backend/main.py:41-44 | a match starting at a given position captures exactly the text up to the next `"` |
| Backend.NoCloseNoMatch | backend/main.py:41-54 | with no `"` after the first `key="`, the pattern matches nowhere |
| Backend.InfoEntry | backend/main.py:40-57 | the pending entry an `#EXTINF` line opens keeps that line as `raw_info` and the running index |
| Backend.InfoEntryFields | backend/main.py:41-55 | each of `group`, `tvg_id`, `tvg_name`, `tvg_logo` is the capture of the leftmost `key="…"` match, or `""` when the pattern matches nowhere; the name has no comma and is what follows the last comma, or `""` without a comma |
| Backend.DisplayName | backend/main.py:47 | the name has no comma and is what follows the last comma of the line, or `""` when the line has no comma |
| ParseReference.ParseMatchesReference | backend/main.py:33-64 | `parse` gives exactly the pairs of an `#EXTINF` line with the URL line right after it, among the non-blank `#EXTINF` and URL lines, numbered from 0 |
| ParseReference.StepByClass | backend/main.py:34-64 | a blank line or any other line leaves the state unchanged, an `#EXTINF` line replaces the pending entry, and a URL line completes a pending entry or is ignored |
| ParseReference.PairsDropsReplaced | backend/main.py:38-57 | a pending `#EXTINF` is lost when another `#EXTINF` comes before any URL |
| ParseReference.PairsDropsOrphan | backend/main.py:59-60 | a URL line with no pending `#EXTINF` yields nothing |
| ParseReference.PairsCompletes | backend/main.py:59-64 | an `#EXTINF` line followed by a URL line yields one channel |
| ParseReference.ParsedIndicesConsecutive | backend/main.py:31-64 | the parsed channel at position `k` has index `k` |
| ParseReference.ParsedChannelOrigin | backend/main.py:38-62 | every channel comes from a stripped `#EXTINF` line followed, among significant lines, by a stripped `http` line; its fields are those extracted from the `#EXTINF` line and its URL is that line |
| ParseReference.EveryCompletedEntryParsed | backend/main.py:59-64 | conversely, every `#EXTINF` line directly followed, among significant lines, by a URL line yields a channel with that line and that URL |
| ParseReference.SignificantTokensStripped | backend/main.py:34-38 | the lines the parser acts on are stripped and carry their prefix |
| ParseReference.ChannelCountBounded | backend/main.py:38-64 | there are at most as many channels as `#EXTINF` lines, and at most as many as `http` lines |
| ParseReference.PairsBounded | backend/main.py:38-64 | the pairing yields at most one channel per `#EXTINF` token and one per URL token |
| ParseReference.SignificantCounts | backend/main.py:34-38 | the number of significant `#EXTINF` and URL tokens equals the number of lines of each kind |
| ExportProperties.ExportedTextLines | backend/main.py:70-84 | splitting the exported text at `\n` gives back exactly the exported lines, of which the first is `#EXTM3U`; no line break is added at the end |
| ExportProperties.ExportStartsWithHeader | backend/main.py:70 | the text always starts with `#EXTM3U` |
| ExportProperties.ExportEmptySelection | backend/main.py:70-84 | an empty index list exports exactly `#EXTM3U` |
| ExportProperties.ExportDependsOnlyOnSelectedOrdinals | backend/main.py:76-77 | the order, the repetitions and the out-of-range values of `indices` make no difference |
| ExportProperties.ExportFromBounded | backend/main.py:74-82 | at most two lines per `#EXTINF` line are exported |
| ExportProperties.ExportFromHasNoBreaks | backend/main.py:75-80 | no exported line contains a line break |
| ExportProperties.ExportRoundTrip | backend/main.py:28-84 | on a playlist where every `#EXTINF` line is directly followed by its URL line, exporting `indices` writes the header, then the `#EXTINF` line and URL of exactly the parsed channels whose index is in `indices`, in index order |
| ExportProperties.RunExportsSelected | backend/main.py:33-82 | parsing and exporting from matching states pick the same lines, on well-formed playlists |
| Text.Split | backend/main.py:29 | `split('\n')` gives at least one piece, no piece holds `\n`, and a text without `\n` is one piece |
| Text.JoinSplit | backend/main.py:29-84 | joining the pieces of a split gives the text back |
| Text.SplitJoin | backend/main.py:29-84 | splitting a join of pieces without `\n` gives the pieces back |
| Text.Strip | backend/main.py:34 | the stripped line is never longer than the line; StripTrims and StripUnique pin it |
| Text.StripTrims | backend/main.py:34 | `strip()` removes exactly the leading and trailing whitespace |
| Text.StripUnique | backend/main.py:34 | any trimmed middle of the line with no outer whitespace is the result of `strip()` |
| Text.StripIdempotent | backend/main.py:34-75 | stripping twice is stripping once |
| Text.LastPieceFollowsLastSeparator | backend/main.py:47 | the last piece of a split is the text after the last separator |
| Text.Lower | frontend/src/components/M3UViewer.jsx:121 | `toLowerCase` keeps the length, lower-cases each ASCII letter and leaves no upper-case ASCII letter |
| Arrays.IndexOf | frontend/src/components/M3UViewer.jsx:163 | `indexOf` gives the first position of the value, or -1 exactly when it is absent |
| Arrays.SortAscending | frontend/src/components/M3UViewer.jsx:164 | sorting distinct strings lists them in strictly ascending order |
| Arrays.Sort | frontend/src/components/M3UViewer.jsx:164 | sorting permutes the array |
| Arrays.AscendingUnique | frontend/src/components/M3UViewer.jsx:164 | two ascending listings of the same strings are equal |
| Viewer.NormalizeFilename | frontend/src/components/M3UViewer.jsx:121-123 | the filename ends with `.m3u` in any letter case and starts with the given name; it is unchanged exactly when the name already ends that way, and otherwise it is the name followed by exactly `.m3u` |
| Viewer.NormalizeIdempotent | frontend/src/components/M3UViewer.jsx:121-123 | normalising twice is normalising once |
| Viewer.ExportIndices | frontend/src/components/M3UViewer.jsx:107 | the indices sent are the `index` fields of the selected rows, in selection order |
| Viewer.HandleExport | frontend/src/components/M3UViewer.jsx:95-110 | an empty selection warns and sends nothing, and exactly then; otherwise the request carries the selection's indices, the original text and the edits, and the download name is the normalised export filename |
| Viewer.IndexSelectsChannel | frontend/src/components/M3UViewer.jsx:107 | for rows taken from the parse, a parsed channel's index is sent exactly when that channel is selected |
| Viewer.ExportOfSelectedChannels | frontend/src/components/M3UViewer.jsx:94-123 | end to end on a well-formed playlist: a non-empty selection, edited rows included, downloads under the normalised filename the header and the `#EXTINF` lines and URLs of exactly the parsed channels whose index some selected row carries, in file order; no other field of the rows and nothing in the edit map reaches the text |
| Viewer.FirstOccurrencesMember | frontend/src/components/M3UViewer.jsx:163 | the filter keeps a value exactly when it is non-empty and is kept at its first position |
| Viewer.FirstOccurrencesDistinct | frontend/src/components/M3UViewer.jsx:163 | the filtered values are pairwise different |
| Viewer.Groups | frontend/src/components/M3UViewer.jsx:162 | the mapped groups are the rows' groups, position by position |
| Viewer.UniqueGroups | frontend/src/components/M3UViewer.jsx:161-165 | each option's label equals its value; the labels are strictly ascending; a label occurs exactly when it is a non-empty group of some row |
| Viewer.UniqueGroupsCanonical | frontend/src/components/M3UViewer.jsx:161-165 | any strictly ascending listing of the non-empty groups is the list of labels |
| Viewer.ChannelTable.constructor | frontend/src/components/M3UViewer.jsx:17-24 | the table starts with no rows and no edits |
| Viewer.ChannelTable.OnRowEditComplete | frontend/src/components/M3UViewer.jsx:47-57 | row `index` becomes the new data and the edit map records it under `index`, overwriting an earlier edit; the length, every other row and every other edit are unchanged; if every recorded edit matched its row before, it still does |
| Findings.UrlLostAfterBlankLine | backend/main.py:28-84 | on `#EXTINF:a`, blank, `httpx`, channel 0 has URL `httpx`, but exporting index 0 writes `#EXTINF:a` and the blank line |
| Findings.OrphanInfoShiftsSelection | backend/main.py:28-84 | on `#EXTINF:a`, `#EXTINF:b`, `httpx`, channel 0 is `#EXTINF:b`, but exporting index 0 writes `#EXTINF:a` and `#EXTINF:b` and no URL |
| Findings.CorrectedExportsEachChannel | backend/main.py:68-84 | with the corrected export, selecting any parsed channel's index writes the header, its `#EXTINF` line and its URL, on every playlist |
| Findings.CorrectedAgreesWhenWellFormed | backend/main.py:68-84 | on well-formed playlists the corrected export writes the same text as `export_selection` |
| Findings.CorrectedExportOfSelectedChannels | frontend/src/components/M3UViewer.jsx:107 | end to end with the corrected export, on every playlist: the selected parsed rows are exported, each with its URL, in playlist order |

## Left out

- The FastAPI application, the CORS middleware, the `/parse` and `/export` endpoints, file upload,
  UTF-8 decoding, the temporary file and the file response (backend/main.py:86-126): I/O around
  the core.
- The `re` engine itself: `key="([^"]*)"` is modelled by `MatchesAt` and `Captures`, which
  describe the leftmost match, and the extraction is proved equal to its capture.
- Edits during export: the viewer sends `modified_channels`, but `ExportRequest`
  (backend/main.py:20-22) declares only `indices` and `original_content`, so the backend drops
  the edits. The model follows the code: the edits never reach the exported text.
- React rendering and PrimeReact (DataTable filtering, sorting, paging and editing, Dialog,
  Toast), the filter state handlers, `fetch`, `FileReader`, the Blob download and the ordering
  of asynchronous work: library and browser behaviour not visible in the source.
- `handleFileUpload` (M3UViewer.jsx:61-92) is not modelled. So the model does not capture
  that a new upload replaces the rows but keeps the old `modifiedChannels`. This breaks the
  agreement between edits and rows that `ChannelTable.Valid` states; the model proves that
  agreement only from the initial state through row edits.
- frontend/src/App.jsx is not part of this model: it holds layout only.
- Text.Lower: `toLowerCase` is modelled on ASCII letters only. Other characters are left as they
  are, so the `.m3u` check is exact for ASCII names.
- Arrays.Sort: JavaScript compares UTF-16 code units, and the model compares code points. The two
  orders differ only between characters above U+FFFF and characters in U+E000-U+FFFF.
- Viewer.FirstOccurrences: JavaScript truthiness of non-string `group` values (`null`,
  `undefined`) is not modelled; a group is a string and only `""` is dropped.
- Viewer.ChannelTable.OnRowEditComplete: it requires an index inside the table, because the table
  only reports rows it shows. JavaScript would leave holes in the array for an index past its end.
- Backend.M3UParser.Parse: the returned list is the object's own list in Python. The model returns
  its value, so aliasing between the result and later calls is not captured.
- The attribute order of `Channel` as a Pydantic model, its defaults and its validation are
  not modelled: the parser always fills every field.

## Findings

| source | as written | input that shows it | evidently intended | confidence | as-written member | corrected member |
|---|---|---|---|---|---|---|
| backend/main.py:79-80 | the line after an `#EXTINF` line is exported whatever it is, while `parse` skips blank lines and takes the next `http` line as the URL | `#EXTINF:a\n\nhttpx` with index 0: `parse` gives channel 0 URL `httpx`, and the export is `#EXTM3U`, `#EXTINF:a`, an empty line | export the URL of the channel that `parse` built | not executed | Findings.UrlLostAfterBlankLine | Findings.CorrectedExportsEachChannel |
| backend/main.py:76-81 | export counts every `#EXTINF` line, while `parse` numbers only the channels it completes, so an `#EXTINF` line with no URL shifts every later index | `#EXTINF:a\n#EXTINF:b\nhttpx` with index 0: `parse` gives channel 0 as `#EXTINF:b`, and the export is `#EXTM3U`, `#EXTINF:a`, `#EXTINF:b` | index `k` exports the channel `parse` numbered `k` | not executed | Findings.OrphanInfoShiftsSelection | Findings.CorrectedExportOfSelectedChannels |
