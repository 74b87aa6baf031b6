# Catalog extractor, modelled in Dafny

This project models the catalog extractor of `extract_products.py`: the
program that reads saved product-listing pages, pulls the JSON product
object embedded in each product item, turns each into a fixed 16-column
record, keeps the first record seen for each product id across all files,
and picks the CSV header's columns.

The model follows the code's own layers, one module each:

- `Strings` (`strings.dfy`): the Python string operations the code relies on
  (`str.strip`, `sep.join`, ASCII `str.lower`, `str.replace(' ', '_')`, the
  decimal rendering of an integer).
- `Sections` (`sections.dfy`): `parse_product_details`, the section parser.
  The HTML parse is an input: a `Fragment` holds the raw description text
  (only its emptiness matters), the first `<p>` anywhere in it, and every
  `<details>` element with its first `<summary>`, that summary's headline
  span and the elements of its first `div.indent-content`, each element as a
  tag name and its text nodes in document order. BeautifulSoup's
  `get_text(separator=sep, strip=True)` is modelled exactly as "strip every
  text node, drop the blank ones, join the rest with `sep`".
- `Records` (`records.dfy`): the per-item field mapping. A decoded JSON
  object is a `Payload` whose fields are `Absent`, `Null` or `Present(v)`,
  so that `obj.get(k)` and `obj.get(k, default)` differ as they do in Python.
- `Extractor` (`extractor.dfy`): `parse_html_file`'s item loop.
- `Catalog` (`catalog.dfy`): `main`'s loop over the files, the dedup inner
  loop and the column filter.

Behaviour as coded:

- A record whose JSON has no `id` is kept, with `None` as its id; `None` then
  deduplicates like any other id.
- The leading `description` entry is the first `<p>` anywhere, also one inside
  a `<details>`; a section whose headline is `description` overwrites it.
- Only single spaces become underscores: "A  B" gives `a__b`; runs are not collapsed.
- The item handler catches only JSON decode errors and `AttributeError`. A
  JSON `null` price or tag list, or a data script whose `.string` is `None`,
  raises a `TypeError` that escapes `parse_html_file`; `main`'s
  `except Exception` then drops every record of that file, not only that
  item. JSON that is valid but not an object raises `AttributeError` on
  `.get` and skips just that item.
- A missing `handle` renders as the text `None` at the end of the URL.
- A missing price counts as 0 cents ("0.00"); a missing `available` flag, or
  `null`, counts as false ("Sold Out").

## Model

| member | source | states |
|---|---|---|
| `Strings.Strip` | extract_products.py:36 | the result has no whitespace (Python's `str.isspace` set) at either end, is empty exactly when the input is all whitespace, and is the input itself when that is already stripped |
| `Strings.StripSlice` | extract_products.py:36 | the stripped string is a contiguous slice of the input with only whitespace cut from either end |
| `Strings.StripPadded` | extract_products.py:36 | stripping whitespace padding off a stripped string gives that string back |
| `Strings.Join` | extract_products.py:36 | joining no parts gives `""` and joining one part gives that part |
| `Strings.JoinAppend` | extract_products.py:77 | joining two non-empty runs of parts is joining each and putting one separator between them, so each part appears in order with a separator between neighbours |
| `Strings.JoinLength` | extract_products.py:77 | the length of `sep.join(parts)` is the parts' total length plus `len(parts) - 1` separator lengths |
| `Strings.StripJoin` | extract_products.py:36 | stripping the whitespace-joined stripped texts equals joining them with the empty texts at both ends removed; inner empty texts stay |
| `Strings.Lower` | extract_products.py:30 | `str.lower` keeps the length and lowercases each character in place |
| `Strings.SpacesToUnderscores` | extract_products.py:30 | `replace(' ', '_')` keeps the length, turns each space into `_` and leaves every other character alone |
| `Sections.GetText` | extract_products.py:35 | `get_text(separator, strip=True)` never starts or ends with whitespace and is empty exactly when every text node is blank |
| `Sections.StrippedStringsClean` | extract_products.py:35 | every text node kept by `get_text(strip=True)` is non-empty and has no whitespace at either end |
| `Sections.StrippedStringsEmpty` | extract_products.py:35 | nothing is kept exactly when every text node is whitespace only |
| `Sections.StrippedStringsAppend` | extract_products.py:35 | the kept text nodes of two runs of nodes are those of the first run followed by those of the second |
| `Sections.GetTextSingle` | extract_products.py:35 | the text of a single text node is that node stripped |
| `Sections.GetTextAppend` | extract_products.py:35 | the text of two runs of nodes: a blank run adds nothing, otherwise the two texts joined by the separator |
| `Sections.HeadlineKey` | extract_products.py:29-30 | without a headline span the key is `general_details`; otherwise it is the headline's text character by character, each space replaced by `_` and every other character lowercased, so the key never contains a space or an ASCII capital |
| `Sections.SingleNodeHeadline` | extract_products.py:30 | a headline of one text node with no surrounding whitespace gives that text lowercased with its spaces turned into `_` |
| `Sections.HowToUseKey` | extract_products.py:30 | the headline "How To Use" gives the key `how_to_use` |
| `Sections.ContentTexts` | extract_products.py:35 | there is at most one text per element of the content div |
| `Sections.ContentTextsSingle` | extract_products.py:35 | one element contributes its `get_text(' ', strip=True)` exactly when its tag is `p`, `li` or `h3`–`h6`, and nothing otherwise |
| `Sections.ContentTextsAppend` | extract_products.py:35 | the texts of two runs of elements are those of the first run followed by those of the second, so the list holds every matching element's text in document order |
| `Sections.ContentTextsStripped` | extract_products.py:35 | every element text in a section has no whitespace at either end |
| `Sections.ContentTextsEmpty` | extract_products.py:35 | a section's text list is empty exactly when no element in the content div is a `p`, `li` or `h3`–`h6` |
| `Sections.SectionOf` | extract_products.py:24-36 | a `<details>` adds a section exactly when it has both a summary and a content div; its key is the headline key; its text is the newline-join of the element texts with the empty texts at both ends dropped (inner empty texts kept as blank lines), which is stripped, empty when no text element exists, and the plain newline-join when no text is empty |
| `Sections.LeadText` | extract_products.py:19-20 | the leading paragraph's text is stripped, and empty when there is no `<p>` (its value for a `<p>` is `GetText`, described by `GetTextSingle` and `GetTextAppend`) |
| `Sections.Apply` | extract_products.py:23-36 | one `<details>`: without a section the map is unchanged; with one, its key is added with its text and every other key keeps its value |
| `Sections.Fill` | extract_products.py:23-36 | the loop over the `<details>` elements never removes a key |
| `Sections.FillKeys` | extract_products.py:23-36 | after the loop a key is present exactly when it was before or some `<details>` defines it |
| `Sections.FillKeeps` | extract_products.py:23-36 | a key no `<details>` defines keeps its earlier value |
| `Sections.FillLastWins` | extract_products.py:36 | the last `<details>` defining a key decides its value |
| `Sections.SectionMap` | extract_products.py:12-38 | the map is empty exactly when the description is `None` or empty, and otherwise always holds `description` |
| `Sections.ParseProductDetails` | extract_products.py:7-38 | the loop that fills the dict returns exactly `SectionMap(desc)` |
| `Sections.SectionKeys` | extract_products.py:16-36 | a key is in the map exactly when it is `description` or some `<details>` with summary and content div has that key |
| `Sections.SectionLastWins` | extract_products.py:36 | when several sections share a key, the last one's text is the value |
| `Sections.DescriptionFromFirstParagraph` | extract_products.py:19-20 | unless a section is keyed `description`, that entry is the first `<p>`'s text, or `''` when there is no `<p>` |
| `Records.Get` | extract_products.py:59-61 | `obj.get(k)` is a value exactly when the key holds one, and then it is that value |
| `Records.GetOr` | extract_products.py:63 | `obj.get(k, default)` is the default for a missing key, `None` exactly for `null`, and the value otherwise |
| `Records.HandleText` | extract_products.py:62 | the f-string renders a handle as itself and a missing one as `None` |
| `Records.FormatPrice` | extract_products.py:63 | the price string is `-` exactly for negative cents, then whole dollars as digits with no leading zero, then `.` and two digits |
| `Records.AmountText` | extract_products.py:63 | a non-negative amount is digits with no leading zero, `.` and two digits |
| `Records.AmountRoundTrip` | extract_products.py:63 | reading a non-negative amount back gives its cents |
| `Records.PriceRoundTrip` | extract_products.py:63 | reading the formatted price back gives the cents: dollars, point and two-digit cents lose nothing |
| `Records.PriceExamples` | extract_products.py:73 | 2550 cents gives "25.50", 0 gives "0.00", -5 gives "-0.05" |
| `Records.StockStatus` | extract_products.py:64 | the status is "In Stock" exactly when `available` is `true`, and "Sold Out" otherwise (missing or `null` included) |
| `Records.ProductUrl` | extract_products.py:62 | the URL is the fixed prefix followed by the handle, or by `None` when there is no handle |
| `Records.FirstPresentIndex` | extract_products.py:80 | the index is that of the first alias that is a key, all earlier aliases are absent, and it is the list's length when none is a key |
| `Records.FirstPresent` | extract_products.py:82 | alias lookup gives `None` exactly when no alias is a key of the map |
| `Records.FirstPresentPair` | extract_products.py:80 | of two aliases, the first is used whenever it is a key (even with an empty value), the second only otherwise, and `None` when neither is a key |
| `Records.FirstPresentSingle` | extract_products.py:78-79 | a one-alias field is `m.get(alias)` |
| `Records.Normalize` | extract_products.py:63-77 | the mapping fails exactly when the price or the tag list is `null` (dividing or joining `None` raises) |
| `Records.NormalizeFields` | extract_products.py:59-87 | otherwise id, title, type, vendor and image are copied with `None` for missing; the price is the cents formatted (0 if missing); stock is "In Stock" iff `available` is `true`; the tags are the tag list joined by `", "` (no or empty tags give `""`, one tag gives itself); each narrative field is the first present alias's value or `None`; the URL is the prefix plus the handle |
| `Extractor.ObjectOutcome` | extract_products.py:59-88 | a decoded object yields a record unless its price or tag list is `null`, and is never skipped silently |
| `Extractor.Outcome` | extract_products.py:50-92 | an item without a script is skipped, a script without a single string raises, a decode error or a non-object is skipped, and an object yields a record unless price or tags is `null` |
| `Extractor.Contribution` | extract_products.py:88 | an item adds at most one record, and adds one exactly when it yields one |
| `Extractor.RecordsOf` | extract_products.py:49-92 | there are never more records than items |
| `Extractor.ExtractItems` | extract_products.py:41-94 | a file's result is `None` exactly when some item raises, and otherwise has at most one record per item |
| `Extractor.ExtractItem` | extract_products.py:50-88 | the loop body, running the section parser method, yields exactly the item's outcome |
| `Extractor.OutcomesAt` | extract_products.py:49 | the items are visited in document order: entry `i` of the outcome list is item `i`'s outcome |
| `Extractor.OutcomesAll` | extract_products.py:49 | the same for every position at once |
| `Extractor.ParseHtmlFile` | extract_products.py:41-94 | the loop returns the records of the items' outcomes in order, or `None` when some item raises |
| `Extractor.OutcomeSnoc` | extract_products.py:49-92 | one more item raises when it or an earlier one raises, and appends its own record, if any, after the earlier ones |
| `Extractor.RecordsAppend` | extract_products.py:49-92 | the records of a split run of items are the records of the first part followed by those of the second |
| `Extractor.SkipContributesNothing` | extract_products.py:51-52 | a skipped item adds nothing and does not stop the items after it |
| `Extractor.OneRecordPerItem` | extract_products.py:44-94 | there is exactly one record per item that yields one, and item `i`'s record is at the position given by the number of such items before it |
| `Catalog.FileProducts` | extract_products.py:108-123 | an unreadable file adds nothing, a file in which some item raises adds nothing, and a file adds at most one record per item |
| `Catalog.CollectedAppend` | extract_products.py:108-123 | files are collected one after another in processing order: collecting two runs of files is collecting the first, then the second |
| `Catalog.CollectedSingle` | extract_products.py:108-123 | collecting one file gives that file's records |
| `Catalog.FirstIndex` | extract_products.py:116-119 | the position of an id's first occurrence holds that id and no earlier position does |
| `Catalog.Dedup` | extract_products.py:116-119 | kept records have pairwise distinct ids and exactly the ids of all records seen |
| `Catalog.DedupSnoc` | extract_products.py:117-119 | a record is appended exactly when its id was not seen before |
| `Catalog.DedupKeepsFirstSeen` | extract_products.py:116-119 | each kept record is the first record with its id |
| `Catalog.DedupFirstSeenOrder` | extract_products.py:116-119 | the kept records are in the order their ids were first seen |
| `Catalog.DedupSeenIds` | extract_products.py:116-119 | records whose ids were all seen already leave the kept list unchanged |
| `Catalog.Reprocessing` | extract_products.py:108-119 | processing the same file's records a second time adds nothing |
| `Catalog.MergeFile` | extract_products.py:116-119 | the inner loop extends the kept list as deduplication of everything processed so far, and the seen set stays equal to the kept ids |
| `Catalog.RunExtraction` | extract_products.py:104-140 | the catalog is the deduplication of every readable file's records in processing order, with distinct ids covering every id seen; the header is absent exactly when nothing was kept and otherwise the full column order |
| `Catalog.PresentColumnsKeys` | extract_products.py:130 | the table's columns, the union of the records' dict keys, are every key of the record dict when there is a record and none otherwise |
| `Catalog.SameColumns` | extract_products.py:71-86 | the record dict's sixteen keys and the fixed column order (lines 133-138) name the same columns; only `care_instructions` and `inclusions` trade places |
| `Catalog.PresentColumnsOrder` | extract_products.py:130-140 | so with at least one record every column of the fixed order is present, and none without |
| `Catalog.SelectColumns` | extract_products.py:140 | a column is selected exactly when it is in the order and present, and the selection keeps the order |
| `Catalog.SelectAllPresent` | extract_products.py:140 | when every column is present the selection is the whole order |
| `Catalog.FullHeader` | extract_products.py:130-140 | with at least one record the header, the fixed order filtered by the records' keys, is the full fixed column order |

## Left out

- HTML tokenising and tree search: the parse tree's relevant parts are inputs, as described above. Text nodes of nested tags, `class_` matching and the `data-product-data` attribute test are BeautifulSoup's.
- `json.loads`: its outcome is an input (a decode error, a non-object, or an object with typed fields). JSON values of unexpected types (a string price, a non-string tag) are not modelled.
- `Strings.Lower`: only ASCII letters are lowercased; Unicode case mapping is not modelled.
- `Records.FormatPrice`: works on integer cents; the float division and `.2f` rounding agree with it only while the cents are below about 2^52, and a price given as a JSON float is not modelled.
- File opening, reading and their errors: each source is already read, or `Unreadable`.
- Product ids are integers or `None`; an unhashable id (a JSON list) that would raise inside the dedup loop is not modelled.
- pandas DataFrame construction, CSV quoting and writing, and the success and error messages: only the header's column selection is modelled.
- All `print` logging.
- `app.py` (the transcription UI) is not part of this model.
