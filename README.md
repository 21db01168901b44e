# ILCert2TM IOC extraction, modelled in Dafny

`prepTM.py` turns a mail message (`.eml` or Outlook `.msg`) into the rows of
a Trend Micro "suspicious objects" import. Each row has three fields: `Type`,
`Object` and `Description`. The processing runs in five steps:

1. Dispatch on the lower-cased file extension (`parse_message`).
2. Take the CSV table of the first CSV attachment (`extract_csv_from_message`).
3. Scan the HTML body for URLs and re-fang `hxxp` to `http`
   (`extract_urls_from_message`).
4. Strip defanging brackets and whitespace from every value (`clean_values`).
5. Emit one row per value, grouped in the fixed order of `TEMPLATE_TYPES`
   (`format_som_entries`).

`extract_som_entries` chains these steps together.

## Modules

| file | module | models |
|---|---|---|
| `wrappers.dfy` | `Wrappers` | `Option` and `Result` |
| `strings.dfy` | `Strings` | Python `str` primitives: `isspace`, `strip`, `lower`, `endswith`, `replace` of one character, `a or b` |
| `loader.dfy` | `MessageLoader` | the message records, `os.path.splitext`, `parse_message` |
| `attachments.dfy` | `AttachmentExtractor` | `extract_csv_from_message`, a method with the source's two loops and their early returns |
| `urls.dfy` | `UrlExtractor` | a hand-written matcher for the pattern `h(?:xx)?tp[s]?://[^\s"<>]+`, the `re.findall` scan, the `hxxp` replacement |
| `cleaner.dfy` | `ValueCleaner` | `clean_values` |
| `formatter.dfy` | `RowFormatter` | `TEMPLATE_TYPES`, the `extracted` dictionary, `format_som_entries`, a method with the source's nested loop |
| `pipeline.dfy` | `Pipeline` | `extract_som_entries`, a method calling the two methods above |

### How the model represents the source

- **Messages.** A parsed message is a record, with one variant per format:
  - `.eml`: the parts in `walk` order, each with its content disposition, its
    file name and its decoded CSV table, plus the HTML body if there is one.
  - `.msg`: the attachments, each with its long and short file names and its
    decoded CSV table, plus the HTML body if there is one.
- **Parser output.** `ParseMessage` takes as parameters what the e-mail
  parser or the `.msg` library would produce for the file. It also takes a
  flag saying whether `extract_msg` is installed.
- **Errors.** Each error `parse_message` raises is a `ParseError` value:
  - `ValueError("Unsupported file type: …")` becomes `UnsupportedFileType(ext)`.
  - The `RuntimeError` for `.msg` without the library becomes `MsgLibraryMissing`.
- **Tables.** A CSV table is a sequence of maps from column name to cell.
- **Today's date.** `date.today().isoformat()` is the parameter `today`.
- **Ghost predicates.** What the loops and the scan promise is stated
  against functions and ghost predicates:
  - `SelectedTable` says which table is selected.
  - `FormatSpec` says what the formatter returns.
  - `IsLeftmostScan`, `InPattern` and `RefangedFrom` describe the URL scan.

### Where the code and its documentation differ

The model follows the code at each of these points:

- **URL pattern.** The pattern at prepTM.py:75 needs the letters `tp` right
  after `h` or `hxx`.
  - It matches the schemes `htp://`, `htps://`, `hxxtp://` and `hxxtps://`.
  - It does not match `http://`, `https://`, `hxxp://` or `hxxps://`. See
    `PlainHttpNotMatched` and `DefangedHxxpNotMatched`.
  - None of the four matching schemes contains `hxxp`, so the replacement on
    line 76 never changes a scheme. It only changes an `hxxp` later in the
    URL (see `SchemeHasNoHxxpX`).
  - As a result, a body that only links `http://a.com` gives no URL rows.
- **IP rows.**
  - `TEMPLATE_TYPES` has two `"ip"` slots (prepTM.py:23-24, commented IPv4 and
    IPv6). Both slots read the same list, so every IP value is emitted twice
    (`FormatObjectsByKind`, `FormatLength`).
  - `extracted["ip"]` is filled from the CSV column `IP`, upper case
    (prepTM.py:89). The other columns are read under their lower-case type
    names.
- **Default description.** It is `"cert "` followed by the date, with a space
  (prepTM.py:85). main.py:13 documents it as `cert+<today>`.

## Model

| member | source | states |
|---|---|---|
| Strings.OrElse | prepTM.py:59 | Python `a or b` on an optional string: the result is `a`'s text when that is present and non-empty, and `b` in every other case |
| Strings.RemoveChar | prepTM.py:80 | `replace(c, '')`; no contract of its own: `RemoveCharMembers`, `RemoveCharConcat` and `RemoveCharAbsent` state what it does |
| Strings.RemoveCharMembers | prepTM.py:80 | `replace(c, '')` removes every `c` and keeps every other character; it never lengthens the string |
| Strings.RemoveCharConcat | prepTM.py:80 | `replace(c, '')` works piece by piece over a concatenation |
| Strings.RemoveCharAbsent | prepTM.py:80 | a string without `c` is left unchanged |
| Strings.Strip | prepTM.py:80 | `strip()` gives a string with no whitespace at either end, no longer than the input |
| Strings.StripMembers | prepTM.py:80 | every character `strip()` keeps comes from the input |
| Strings.LeadingSpacesAreSpaces | prepTM.py:80 | what `strip()` drops at the front is all whitespace |
| Strings.TrailingCutAreSpaces | prepTM.py:80 | what `strip()` drops at the back is all whitespace |
| Strings.StripUnique | prepTM.py:80 | whitespace, then a stripped middle, then whitespace: `strip()` returns exactly the middle |
| Strings.StripStripped | prepTM.py:80 | `strip()` leaves an already stripped string unchanged |
| Strings.Lower | prepTM.py:32 | `lower()` on ASCII letters; no contract of its own: `LowerCharIs` and `IsCsvNameCaseInsensitive` state what it does |
| Strings.EndsWith | prepTM.py:52 | `endswith(suffix)`; no contract of its own: the suffix test is stated through `IsCsvNameCaseInsensitive` and `Extension` |
| ValueCleaner.CleanValue | prepTM.py:80 | a cleaned value has no `[`, no `]` and no surrounding whitespace, and is no longer than the input |
| ValueCleaner.CleanValues | prepTM.py:79-80 | `clean_values` keeps the number of values |
| ValueCleaner.CleanValuesClean | prepTM.py:79-80 | each value `clean_values` returns is clean and no longer than the value it came from |
| ValueCleaner.CleanValuesLocal | prepTM.py:80 | equal input values clean to equal results wherever they stand in either list |
| ValueCleaner.CleanValuesConcat | prepTM.py:80 | `clean_values` distributes over concatenation, so it keeps order |
| ValueCleaner.CleanValueOfClean | prepTM.py:80 | a value that is already clean is unchanged |
| ValueCleaner.CleanValueIdempotent | prepTM.py:80 | cleaning twice is the same as cleaning once |
| ValueCleaner.CleanValuesIdempotent | prepTM.py:79-80 | `clean_values` applied twice is the same as applied once |
| ValueCleaner.CleanValueCharacterised | prepTM.py:80 | when the text without brackets is whitespace, a stripped middle and whitespace, the cleaned value is that middle |
| ValueCleaner.UnbracketConcat | prepTM.py:80 | brackets are removed wherever they stand in the value |
| ValueCleaner.CleanValueBracketedDomain | prepTM.py:80 | `"[b.com]"` cleans to `"b.com"` |
| ValueCleaner.CleanValuePlainDomain | prepTM.py:80 | `"a.com"` cleans to itself |
| ValueCleaner.CleanValueBracketsOnly | prepTM.py:80 | `"[]"` cleans to the empty string |
| MessageLoader.Extension | prepTM.py:32 | `splitext` gives either nothing or a suffix of the path that starts with its only dot and holds no `/` |
| MessageLoader.ExtensionOfName | prepTM.py:32 | the extension of `base.e` is `.e` when `base` has a stem and `e` has no dot or slash |
| MessageLoader.LowerCharIs | prepTM.py:32 | lower-casing maps a character to `l` exactly when it is `l` or the upper-case form of `l` |
| MessageLoader.ParseMessageOutcomes | prepTM.py:31-43 | `.eml` parses as an internet message; `.msg` parses as a `.msg` container when the library is installed and fails when it is not; any other extension fails with that extension; each outcome happens exactly when its condition holds |
| MessageLoader.DispatchByFileName | prepTM.py:32-43 | for a file `base.e`, the outcome depends only on `e` lower-cased: `eml`, `msg` or anything else |
| MessageLoader.ParseMessage | prepTM.py:31-43 | `parse_message`; no contract of its own: `ParseMessageOutcomes`, `DispatchByFileName`, `NoExtensionIsUnsupported` and `HiddenFileIsUnsupported` state what it does |
| MessageLoader.NoExtensionIsUnsupported | prepTM.py:32-43 | any path that `splitext` gives no extension is rejected with an empty extension |
| MessageLoader.NoExtensionIff | prepTM.py:32 | a path has no extension exactly when nothing but dots precedes the last dot of its last component; with no dot there, it has none |
| MessageLoader.HiddenFileIsUnsupported | prepTM.py:32-43 | a hidden file such as `.eml`, bare or in a directory, has no extension and is rejected |
| MessageLoader.UpperCaseEmlExample | prepTM.py:32-35 | `X.EML` is read as an internet message |
| MessageLoader.TextFileExample | prepTM.py:42-43 | `X.txt` is rejected as unsupported type `.txt` |
| MessageLoader.MsgWithoutLibraryExample | prepTM.py:36-38 | `X.msg` fails when `extract_msg` is not installed |
| AttachmentExtractor.ExtractCsvFromMessage | prepTM.py:46-64 | the loops return the table of the first matching part or attachment, and no rows when nothing matches |
| AttachmentExtractor.IsCsvPart | prepTM.py:51-52 | the test a part must pass; no contract of its own: `PartNeedsAttachmentAndName` and `IsCsvNameCaseInsensitive` state it |
| AttachmentExtractor.AttachmentFileName | prepTM.py:59 | the name tried for a `.msg` attachment; no contract of its own: `AttachmentNameRule` states it |
| AttachmentExtractor.SelectedTable | prepTM.py:46-64 | the table `extract_csv_from_message` returns; no contract of its own: `ExtractCsvFromMessage` computes it, and `FirstCsvPartWins`, `NoCsvPartNoRows`, `LaterPartsIgnored`, `FirstCsvAttachmentWins` and `NoCsvAttachmentNoRows` state it |
| AttachmentExtractor.FirstCsvPartWins | prepTM.py:50-55 | the first CSV part gives the table, whatever comes after it |
| AttachmentExtractor.NoCsvPartNoRows | prepTM.py:49-64 | with no CSV part there are no rows; any rows returned are the table of some CSV part |
| AttachmentExtractor.LaterPartsIgnored | prepTM.py:50-55 | once a CSV part has been seen, appending parts changes nothing |
| AttachmentExtractor.FirstCsvAttachmentWins | prepTM.py:57-63 | the first `.msg` attachment with a CSV name gives the table |
| AttachmentExtractor.NoCsvAttachmentNoRows | prepTM.py:57-64 | with no CSV attachment there are no rows |
| AttachmentExtractor.IsCsvNameCaseInsensitive | prepTM.py:52 | a name is a CSV name exactly when it ends in `.csv` in any mix of upper and lower case |
| AttachmentExtractor.AttachmentNameRule | prepTM.py:59 | the long file name decides unless it is missing or empty; then the short name decides; with neither, the name is empty |
| AttachmentExtractor.PartNeedsAttachmentAndName | prepTM.py:51-52 | a part needs both an `attachment` disposition and a CSV file name |
| UrlExtractor.RunEndSpans | prepTM.py:75 | `[^\s"<>]+` consumes the longest run of URL characters |
| UrlExtractor.SchemeEnd | prepTM.py:75 | a match of `h(?:xx)?tp[s]?://` at a position ends after it and within the text; `SchemeEndSound` and `SchemeEndComplete` state which words it accepts |
| UrlExtractor.MatchAt | prepTM.py:75 | a match of the whole pattern at a position ends after it and within the text; `MatchAtSound` and `MatchAtComplete` state what it matches |
| UrlExtractor.SchemeEndSound | prepTM.py:75 | the scheme matcher only accepts one of the four scheme words |
| UrlExtractor.SchemeEndComplete | prepTM.py:75 | the scheme matcher finds any scheme word present at the position |
| UrlExtractor.MatchAtSound | prepTM.py:75 | a match is a word of the pattern, and the character after it is not a URL character |
| UrlExtractor.MatchAtComplete | prepTM.py:75 | wherever a word of the pattern starts, there is a match, and it is at least as long (greedy) |
| UrlExtractor.PlainHttpNotMatched | prepTM.py:75 | no match starts at `http://` |
| UrlExtractor.DefangedHxxpNotMatched | prepTM.py:75 | no match starts at `hxxp://` |
| UrlExtractor.Scan | prepTM.py:75 | `findall`'s scan; no contract of its own: `ScanSpans`, `ScanIsLeftmost`, `LeftmostIsScan` and `ScanUnique` state what it computes |
| UrlExtractor.ScanSpans | prepTM.py:75 | the scan's spans are matches, in document order, and do not overlap |
| UrlExtractor.ScanIsLeftmost | prepTM.py:75 | the scan satisfies the definition of a leftmost, non-overlapping scan |
| UrlExtractor.LeftmostIsScan | prepTM.py:75 | any leftmost, non-overlapping scan is the one the function computes |
| UrlExtractor.ScanUnique | prepTM.py:75 | a sequence of spans is a leftmost scan exactly when it is the computed scan |
| UrlExtractor.FindAll | prepTM.py:75 | `findall` returns one string per match of the scan |
| UrlExtractor.Refang | prepTM.py:76 | the replacement keeps the length, because `hxxp` and `http` have the same size |
| UrlExtractor.RefangSpec | prepTM.py:76 | each character is kept, except the two `x` of each `hxxp` occurrence, which become `t` |
| UrlExtractor.RefangRemovesHxxp | prepTM.py:76 | no `hxxp` is left afterwards |
| UrlExtractor.RefangReplacesEach | prepTM.py:76 | each `hxxp` occurrence becomes `http` in place |
| UrlExtractor.RefangIdempotent | prepTM.py:76 | replacing a second time changes nothing |
| UrlExtractor.SchemeHasNoHxxpX | prepTM.py:75-76 | none of the four matching schemes contains `hxxp` |
| UrlExtractor.RefangKeepsPattern | prepTM.py:75-76 | a refanged match is still a word of the pattern |
| UrlExtractor.ExtractUrls | prepTM.py:75-76 | one URL per match |
| UrlExtractor.ExtractUrlsSpec | prepTM.py:67-76 | the URLs are the leftmost-scan matches in document order, each refanged, each still a word of the pattern and free of `hxxp` |
| UrlExtractor.HtmlBody | prepTM.py:68-74 | the HTML body the regular expression reads, `""` when there is none; no contract of its own: `NoBodyNoUrls` states the empty case |
| UrlExtractor.ExtractUrlsFromMessage | prepTM.py:67-76 | `extract_urls_from_message`; no contract of its own: it is `ExtractUrls` of the body, stated by `ExtractUrlsSpec` and `NoBodyNoUrls` |
| UrlExtractor.NoBodyNoUrls | prepTM.py:68-74 | a message without an HTML body yields no URLs |
| RowFormatter.TemplateTypes | prepTM.py:20-28 | the seven template slots; a constant: `TemplateGroups` and `TemplateValues` state what its order and its two `ip` slots do |
| RowFormatter.ColumnValues | prepTM.py:88-92 | the filtered column; no contract of its own: the `ColumnValues…` lemmas below state it |
| RowFormatter.Extracted | prepTM.py:87-94 | the `extracted` dictionary; no contract of its own: `ExtractedLookups` states it |
| RowFormatter.Description | prepTM.py:84-85 | the shared description; no contract of its own: `DefaultDescription` states the default |
| RowFormatter.FormatSpec | prepTM.py:83-104 | what `format_som_entries` returns; no contract of its own: `FormatSomEntries` computes it, and `FormatGrouped`, `FormatLength`, `FormatEmptyIff`, `FormatRowsWellFormed`, `FormatOrdered` and `FormatObjectsByKind` state it |
| RowFormatter.FormatSomEntries | prepTM.py:83-104 | the nested loop builds exactly the template rows `FormatSpec` describes |
| RowFormatter.ColumnValuesConcat | prepTM.py:88-92 | a column's values split the way the table splits, so table order is kept |
| RowFormatter.ColumnValuesAreCells | prepTM.py:88-92 | each value is a non-empty cell of that column; there are no more values than rows |
| RowFormatter.ColumnValuesPerCell | prepTM.py:88-92 | the filter looks only at the cell in that column, never at the rest of the row |
| RowFormatter.ColumnValuesFull | prepTM.py:88-92 | a column filled in every row gives every cell, in order |
| RowFormatter.ColumnValuesAbsent | prepTM.py:88-92 | a column missing or empty in every row gives no value and no error |
| RowFormatter.ColumnValuesHit | prepTM.py:88-92 | one non-empty cell is enough for the column to give a value |
| RowFormatter.ExtractedLookups | prepTM.py:87-94 | each type reads its own column (`ip` reads `IP`), and URLs are cleaned but never filtered |
| RowFormatter.EmitRowsObjects | prepTM.py:96-104 | the rows of a kind carry the values of the slots of that kind, in slot order |
| RowFormatter.EmitRowsShape | prepTM.py:96-104 | every row has a slot's tag, a value from that slot's list and the shared description |
| RowFormatter.EmitRowsOrdered | prepTM.py:96-104 | slots in rank order give rows in rank order |
| RowFormatter.TemplateGroups | prepTM.py:96-104 | the template emits seven groups in turn: domain, url, ip, ip, sha1, sha256, email_sender |
| RowFormatter.TemplateValues | prepTM.py:20-28 | each tag's list is emitted once, except `ip`, which is emitted twice; other keys are never emitted |
| RowFormatter.TemplateRowsClean | prepTM.py:96-104 | when every template list is clean, every row is clean |
| RowFormatter.FormatGrouped | prepTM.py:83-104 | the output consists of the seven groups, built from the cleaned column values and URLs |
| RowFormatter.FormatLength | prepTM.py:87-104 | the number of rows is domains + URLs + 2 × IPs + SHA-1 + SHA-256 + senders |
| RowFormatter.FormatEmptyIff | prepTM.py:87-104 | there are no rows exactly when there are no URLs and no row has a value in any of the five columns |
| RowFormatter.FormatRowsWellFormed | prepTM.py:84-104 | every row has a template tag, the single shared description, and a clean object from the list of its type |
| RowFormatter.FormatOrdered | prepTM.py:96-104 | rows are grouped in template order |
| RowFormatter.FormatObjectsByKind | prepTM.py:87-104 | each type's rows carry its cleaned values in table order; IPs appear twice; all URLs are kept |
| RowFormatter.DefaultDescription | prepTM.py:84-85 | without a prefix, every row is described as `cert ` followed by the date |
| RowFormatter.FormatOnlyDomains | prepTM.py:87-104 | a table with only domain values and no URLs gives one domain row per non-empty domain cell |
| RowFormatter.FormatTwoDomains | prepTM.py:87-104 | cells `a.com` and `[b.com]` with no URLs give exactly two domain rows, `a.com` then `b.com`, with one description |
| RowFormatter.FormatKeepsEmptiedCell | prepTM.py:88-93 | a cell `[]` is non-empty, so it gives a row even though it cleans to `""` |
| Pipeline.PipelineSpec | prepTM.py:107-111 | what `extract_som_entries` returns or raises; no contract of its own: `ExtractSomEntries` computes it, and `PipelineErrors`, `PipelineRows` and `BareEmlGivesNoRows` state it |
| Pipeline.ExtractSomEntries | prepTM.py:107-111 | parsing, then CSV selection, URL extraction and formatting, with a parse error passed on unchanged |
| Pipeline.PipelineErrors | prepTM.py:107-111 | the pipeline fails exactly when parsing fails, with the same error; an unsupported extension or a `.msg` without the library gives no rows |
| Pipeline.PipelineRows | prepTM.py:107-111 | on success, each type's rows are the cleaned values of the selected table's column, and the URL rows are the cleaned URLs of the body |
| Pipeline.BareEmlGivesNoRows | prepTM.py:107-111 | an `.eml` with no CSV attachment and no HTML body gives an empty result, not an error |

## Left out

- **`main.py`.** Argument parsing, writing the output file and printing are I/O. `main.py` is not part of this model.
- **MIME and `.msg` parsing.** This is library code: `BytesParser` with `policy.default`, `walk`, `get_content_disposition`, `get_filename`, `get_body(preferencelist=('html',))`, `get_content`, and `extract_msg.Message` with `convert`. The message is a record of what they produce: the parts in `walk` order and the HTML body chosen by `get_body`.
- **Container parts.** `walk` also yields multipart containers and attached messages. `get_content_disposition()` and `get_filename()` read their headers like any other part's, so such a part can pass the CSV test. Its `get_payload(decode=True)` is then `None`, and the source raises `AttributeError` when decoding it. The model does not represent this error: every part carries a table, and a selected container part gives its table.
- **CSV decoding.** `csv.DictReader` parsing and UTF-8 decoding with `errors='replace'` are library behaviour, so each attachment's table is given decoded.
  - A short row's missing cells, which `DictReader` fills with `None`, are absent keys in the model. Both are falsy for `r.get(col)`.
  - Surplus cells, which `DictReader` stores under the key `None`, are not represented, because no column lookup reads them.
- **A `.msg` attachment that is itself a message.** For such an attachment, `att.data` is not bytes. This is not modelled.
- **A `.msg` HTML body given as bytes.** `extract_msg` can return the HTML body as bytes; `re.findall` with a text pattern would then raise `TypeError`. The model takes the body as text.
- **Outer-format detection.** The `hasattr(msg, 'walk')`, `hasattr(msg, 'get_body')` and `isinstance` checks are modelled with a two-variant message type. An `.eml` message takes the internet-message branches and a `.msg` message the `extract_msg` branches. An `.eml` without a CSV part falls through to `[]`, as in the source.
- **Files, clock and exceptions.** File opening and reading errors are not modelled, nor are malformed MIME or `.msg` files. `date.today()` is the parameter `today`. Exception message texts are not modelled beyond the extension carried by `UnsupportedFileType`.
- **`os.path.splitext`.** It is modelled with POSIX rules only: the last `/` separates the directory, and leading dots of the file name do not start an extension. Windows drive letters and `\` separators are not modelled.
- **`lower()`.** It is modelled on ASCII letters only; other case mappings are left out. Python maps only two non-ASCII characters to ASCII letters: KELVIN SIGN becomes `k`, and LATIN CAPITAL LETTER I WITH DOT ABOVE becomes `i` plus a combining dot. Neither gives a letter of `.eml`, `.msg` or `.csv`, so the extension and CSV-name decisions are the same as Python's.
- **Whitespace.** `str.isspace` and the regular expression class `\s` are both modelled as CPython's set of whitespace code points. The model does not show that the two sets coincide.
- **Output rows.** The output dictionaries with keys `Type`, `Object` and `Description` are the `SomEntry` datatype. Their key order, which matters only when they are written out, is not modelled.
