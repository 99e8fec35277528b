# Substation inventory back end, modelled in Dafny

The Flask back end `app.py` keeps an inventory of substations. Each substation holds machines placed on a grid, and each machine has a name, free-text information and an optional photo. The back end stores these in two SQLite tables, `substations` and `machines`. It also reads machine nameplates from photos with EasyOCR. This project models the logic of that file and proves what it promises.

- **Inventory tables** (`tables.dfy`, `inventory.dfy`). Module `Tables` holds the rules of the two tables as functions on rows, in rowid order, with AUTOINCREMENT ids. The rules are: unique non-empty substation names, at most one machine per `(substation_id, position_x, position_y)` cell, the upsert, the update by id, and the reads. Class `Inventory.Store` holds the two tables and their id counters. Its methods are the handlers `create_substation`, `get_substations`, `get_machines`, `get_machine`, `create_or_update_machine` and `update_machine`, and they change the tables as the handlers do. Every state-changing method keeps the class invariant `Valid()`. That invariant is the two tables' well-formedness: ids ascending and fresh, names unique and non-empty, at most one machine per cell. Each such method also states its new state in terms of the `Tables` functions.
- **OCR post-processing** (`ocr.dfy`). This covers what `ocr_recognize` does with the detections the reader returns. It filters out detections with confidence 0.3 or lower, strips the rest, and sorts them stably by confidence, highest first. It picks the machine name by keyword-group priority, falling back to the first line of at most 30 characters and then to the first line. The machine information is formed from the remaining lines.
- **Data-URL prefix strip** (`data_url.dfy`). This is `data.split(',')[1] if ',' in data else data`, applied to every uploaded image.
- **Python string semantics** (`strings.dfy`). It covers `str.strip()` with Python's whitespace set, the substring test `k in s`, `split` and `join`, and the text order of SQLite's BINARY collation.

The uniqueness rules are stated as the code implements them. Names are compared exactly and never trimmed (`app.py:49`, `app.py:94`). SQLite does not enforce the `FOREIGN KEY` at `app.py:63`, so a machine's `substationId` is any integer. Nothing in the model assumes that it names an existing substation.

I/O is passed in as parameters:
- The image save (base64 decoding plus the file write under `uploads/`) is a function `save: string -> SaveOutcome`. It is applied to the payload that remains after the data-URL prefix is stripped.
- The OCR step (base64 decoding, opening the image, and the EasyOCR call) is a function `recognize: string -> Recognition`.
- Whether the reader is available is a boolean, `readerReady`.

## Model

| member | source | states |
|---|---|---|
| `Strings.IsSpace` | app.py:281 | the characters Python's `str.isspace()` accepts, the set `strip()` removes |
| `Strings.LexLess` | app.py:78 | the order of `ORDER BY name` under SQLite's BINARY collation: code-point order, with a proper prefix first |
| `Strings.Strip` | app.py:281 | `str.strip()`: the string without its leading and trailing Python whitespace |
| `Strings.Contains` | app.py:313 | the substring test `keyword in line` |
| `Strings.Join` | app.py:291 | `sep.join(parts)`: the parts with one separator between neighbours |
| `Strings.TrimStartShape` | app.py:281 | `lstrip` leaves the suffix after a run of whitespace that is as long as possible: the result is empty or starts with a non-space character |
| `Strings.TrimEndShape` | app.py:281 | `rstrip` leaves the prefix before a run of whitespace that is as long as possible: the result is empty or ends with a non-space character |
| `Strings.StripShape` | app.py:281 | `strip()` returns a slice of the string with all-whitespace margins, and that slice neither starts nor ends with whitespace |
| `Strings.StripEmptyIff` | app.py:281 | a string strips to `''` exactly when all its characters are whitespace |
| `Strings.StripIdempotent` | app.py:314 | stripping twice is stripping once, so `line.strip()` on an already-stripped line changes nothing |
| `Strings.ContainsIff` | app.py:313 | `keyword in line` holds exactly when the keyword occurs at some position of the line |
| `Strings.IndexOf` | app.py:140 | the position of the first comma |
| `Strings.Split` | app.py:140 | `split(sep)` always gives at least one piece |
| `Strings.SplitPieces` | app.py:140 | no piece of a split contains the separator, and there are two or more pieces exactly when the separator occurs |
| `Strings.JoinSplit` | app.py:140 | joining the pieces of a split with the separator gives back the original string |
| `Strings.SplitJoin` | app.py:291 | splitting a join of separator-free pieces gives back the pieces |
| `Strings.SplitHead` | app.py:140 | the first piece of a split is the longest separator-free prefix |
| `Strings.SplitAtFirst` | app.py:140 | the split is the text before the first separator, followed by the split of what comes after it |
| `Strings.LexLessTotal` | app.py:78 | under BINARY collation, any two different names are ordered one way or the other |
| `Strings.LexLessTransitive` | app.py:78 | BINARY collation order is transitive |
| `Strings.LexLessAsymmetric` | app.py:78 | BINARY collation order is asymmetric |
| `Strings.LexLessIrreflexive` | app.py:78 | no name sorts before itself |
| `DataUrl.StripDataUrlPrefix` | app.py:140 | a string without a comma is kept as it is; otherwise the result contains no comma |
| `DataUrl.PayloadAfterFirstComma` | app.py:234 | with a comma present, the payload is the text after the first comma, up to the second comma or the end |
| `DataUrl.DataUrlRoundTrip` | app.py:270 | `header,payload` with comma-free parts yields exactly `payload`, and a bare payload yields itself |
| `Ocr.ItemOf` | app.py:281 | the text item `(text.strip(), confidence)` of one detection |
| `Ocr.Confident` | app.py:278-281 | `text_items`: the stripped text and confidence of each detection above 0.3, in detection order |
| `Ocr.SortByConfidence` | app.py:286 | `text_items.sort(key=confidence, reverse=True)` as an insertion sort that puts each item before the items of lower or equal confidence that follow it |
| `Ocr.Lines` | app.py:284-289 | `all_text`: the texts of the sorted items, `[]` when no item is kept |
| `Ocr.ConfidentMembers` | app.py:279-281 | the kept items are exactly the stripped detections with confidence above 0.3 |
| `Ocr.CollectTextItems` | app.py:278-281 | the filtering loop builds `text_items` in detection order |
| `Ocr.InsertByConfidencePermutation` | app.py:286 | inserting an item adds exactly that item |
| `Ocr.SortByConfidencePermutation` | app.py:286 | the sorted items are a permutation of `text_items` |
| `Ocr.InsertByConfidenceOrdered` | app.py:286 | inserting into an ordered list keeps it in non-increasing confidence order |
| `Ocr.SortByConfidenceOrdered` | app.py:286 | the sorted items are in non-increasing confidence order |
| `Ocr.InsertWithConfidence` | app.py:286 | insertion puts the new item before the existing items of equal confidence |
| `Ocr.SortByConfidenceStable` | app.py:286 | the sort is stable (`sort(reverse=True)` keeps the original order of equal keys): for every confidence value, the items with that value appear in their original order |
| `Ocr.LinesStripped` | app.py:281-287 | every line of `all_text` is already stripped |
| `Ocr.FullTextSplitsIntoLines` | app.py:291 | if no line contains a newline, `full_text` splits back into `all_text` |
| `Ocr.MatchesGroup` | app.py:313 | `any(keyword in line for keyword in keywords)` |
| `Ocr.ShortLines` | app.py:322 | `short_lines`: the lines of at most 30 characters, in order |
| `Ocr.KeywordName` | app.py:310-317 | the name the keyword loops leave: for the groups in priority order, the stripped first matching line of the first group whose match does not strip to `''`, else `''` |
| `Ocr.FallbackName` | app.py:319-326 | the first line of at most 30 characters, else the first line |
| `Ocr.MachineName` | app.py:294-326 | `machine_name`: `''` with no lines, else the keyword name, else the fallback name |
| `Ocr.Without` | app.py:330 | `remaining`: the lines different from the name, in their order |
| `Ocr.MachineInfo` | app.py:328-336 | `machine_info`: with a non-empty name that is a line, the other lines joined and stripped (or `full_text` when none remain); otherwise all but the first line joined and stripped, or `full_text` for a single line |
| `Ocr.ReportOf` | app.py:291-344 | the success response: `full_text` is the lines joined by `'\n'`, with the machine name, info and confidence computed from them |
| `Ocr.FirstMatching` | app.py:312-315 | returns the first line containing a keyword of the group, or reports that none does |
| `Ocr.FindMatchingLine` | app.py:312-315 | the inner loop stops at the first line containing a keyword of the group, or runs off the end when no line does |
| `Ocr.FirstMatchingAt` | app.py:312-315 | a line that matches, with no earlier line matching, is the first match; no match anywhere means none |
| `Ocr.KeywordNameStep` | app.py:311-317 | one round of the outer loop: the group settles the name exactly when its first matching line strips to something non-empty, and otherwise the next group decides |
| `Ocr.ChooseMachineName` | app.py:294-326 | the outer keyword loop with `break` over the inner search, followed by the fallback, computes `machine_name` |
| `Ocr.MatchKeepsLine` | app.py:314-316 | a line that matches a keyword never strips to `''`, so a match always ends the outer loop |
| `Ocr.KeywordNameFirstGroup` | app.py:310-317 | for any keyword table whose keywords start with a visible character, the loops pick the first matching line of the first group that has a match |
| `Ocr.KeywordNameNoMatch` | app.py:310-317 | when no line matches any group, the loops leave the name `''` |
| `Ocr.MachineNameByKeyword` | app.py:299-317 | the name is the stripped first line, in confidence order, that contains a keyword of the highest-priority group with any match, and it is non-empty |
| `Ocr.SomeKeywordMatches` | app.py:310-317 | if any line contains any keyword, such a first group and first line exist, and the name is that line stripped and non-empty |
| `Ocr.MachineNameFallback` | app.py:319-326 | when no keyword matches, the name is the first line of length at most 30, else the first line, else `''` |
| `Ocr.ShortLinesFirst` | app.py:322-324 | the first short line is the earliest line of at most 30 characters |
| `Ocr.ShortLinesEmptyIff` | app.py:322-326 | there is no short line exactly when every line is longer than 30 characters |
| `Ocr.KeywordNameIsStrippedLine` | app.py:314 | a non-empty keyword name is the stripped form of one of the lines |
| `Ocr.ShortLinesSubset` | app.py:322 | the short lines are lines of at most 30 characters |
| `Ocr.MachineNameIsLine` | app.py:311-326 | on stripped lines, the chosen name is `''` or one of the lines |
| `Ocr.WithoutMembers` | app.py:330 | the remaining lines are exactly the lines that differ from the name, each as many times as in `all_text`; there are fewer of them when the name is a line, and they are all the lines when it is not |
| `Ocr.WithoutAppend` | app.py:330 | the filter keeps the order of the lines: filtering a concatenation filters each part in turn |
| `Ocr.NamedReportInfo` | app.py:328-336 | a non-empty name is one of the lines, so the info is the other lines joined by `'\n'` and stripped, or `full_text` when none remain; the `else` branch is reached only with an empty name |
| `Ocr.ReportWithoutLines` | app.py:288-297 | with no detection above the threshold, `full_text`, `machine_name` and `machine_info` are all `''` |
| `Ocr.MinConfidence` | app.py:343 | the reported confidence is at most 0.5 and at most every detection's confidence, and equals 0.5 or one of them |
| `Ocr.Recognize` | app.py:255-344 | reports a missing reader, then a missing image, then a recognition failure; otherwise it returns the report built from the detections of the stripped payload |
| `Tables.Truthy` | app.py:88 | Python truthiness of an optional text (`not name`, `if image_data`, `if image_path`): present and non-empty |
| `Tables.OrEmpty` | app.py:115-117 | `value or ''` on a text column |
| `Tables.NameTaken` | app.py:49 | the `UNIQUE` constraint on `name`: some row already has exactly this name |
| `Tables.AddSubstation` | app.py:86-101 | the outcome of `create_substation` on the table: the empty-name error, the duplicate-name error from the `UNIQUE` constraint, or the new row under the next AUTOINCREMENT id |
| `Tables.SortByName` | app.py:78 | `ORDER BY name` as an insertion sort under BINARY collation |
| `Tables.AddSubstationOutcome` | app.py:84-101 | an empty or missing name gives the empty-name error; a name equal to an existing one gives the duplicate error; any other name is inserted under the next id, and the table stays well formed |
| `Tables.DistinctNamesBothCreated` | app.py:93-98 | two different fresh names can both be created, one after the other |
| `Tables.SameNameTwiceRejected` | app.py:99-101 | creating the same name a second time fails with the duplicate-name error |
| `Tables.InsertByNamePermutation` | app.py:78 | inserting a row adds exactly that row |
| `Tables.SortByNamePermutation` | app.py:78-79 | `ORDER BY name` returns every substation exactly once |
| `Tables.InsertByNameOrdered` | app.py:78 | inserting into an ordered list keeps it in ascending name order |
| `Tables.SortByNameOrdered` | app.py:78 | `ORDER BY name` returns the substations in ascending name order |
| `Tables.AtCell` | app.py:153-155 | the `WHERE substation_id = ? AND position_x = ? AND position_y = ?` condition on one row |
| `Tables.FindAtCell` | app.py:153-156 | the cell lookup finds the first row at the cell, or reports that no row is there |
| `Tables.FindById` | app.py:193-195 | the id lookup finds a row with that id, or reports that no row has it |
| `Tables.UpsertMachine` | app.py:152-174 | the database step of `create_or_update_machine`: the `UPDATE` of the row at the cell (keeping its path unless a new one is given), or the `INSERT` of a new row under the next id |
| `Tables.UpsertOccupiedCell` | app.py:158-168 | at an occupied cell the upsert keeps the row's id and the row count, overwrites name and info, replaces the image path only when a new one is given, and leaves every other row unchanged |
| `Tables.UpsertFreeCell` | app.py:169-174 | at a free cell the upsert appends exactly one row, under an id no existing row has |
| `Tables.UpsertKeepsWellFormed` | app.py:152-174 | after any upsert the row count grows by at most one, there is still at most one machine per cell, and ids stay ascending and fresh |
| `Tables.UpsertedCell` | app.py:152-174 | after any upsert, the row at the cell carries the reported id and the new name and info, and the new image path when one was given |
| `Tables.UpsertSameCellTwice` | app.py:152-168 | two upserts at the same cell report the same id and leave the same number of rows; repeating an identical upsert changes nothing |
| `Tables.ApplyMachineUpdate` | app.py:221-247 | the database step of `update_machine`: not found, or the row with the id given the new name, info and path (the old path when no image was saved) |
| `Tables.UpdateMachineOutcome` | app.py:221-247 | an unknown id is not found; a known id gets its name and info overwritten, keeps its old image path when no image is given, keeps its id and cell, and every other row is unchanged |
| `Tables.MachinesOf` | app.py:107-118 | the rows of the substation, in table order, as response objects with NULL text read as `''` |
| `Tables.SummaryOf` | app.py:111-118 | the response object of `get_machines` for one row, with NULL or empty text read as `''` |
| `Tables.DetailOf` | app.py:201-209 | the response object of `get_machine` for the row, with NULL or empty text read as `''` |
| `Tables.MachinesOfMembers` | app.py:107-118 | `get_machines` lists exactly the machines of that substation, with NULL or empty text read as `''` |
| `Tables.MachinesOfAscending` | app.py:107-110 | in the model's scan order, `get_machines` lists rows in ascending id order |
| `Inventory.SaveImage` | app.py:136-147 | no path exactly when no image or an empty image is sent; otherwise the stripped payload is saved, a successful save gives its path, and the result is the image-save error exactly when the save fails |
| `Inventory.Store.constructor` | app.py:42-66 | a fresh database has empty tables and AUTOINCREMENT starting at 1 |
| `Inventory.Store.CreateSubstation` | app.py:83-101 | the result is the table rule's; on an error no table or counter changes; on success exactly one row is appended |
| `Inventory.Store.GetSubstations` | app.py:74-81 | returns every substation, in ascending name order |
| `Inventory.Store.GetMachines` | app.py:103-120 | the loop over the selected rows returns exactly the machines of the substation, in rowid order |
| `Inventory.Store.GetMachine` | app.py:189-209 | not found exactly when no row has the id; otherwise returns that row with NULL text read as `''` |
| `Inventory.Store.CreateOrUpdateMachine` | app.py:122-187 | checks missing coordinates first, then a failed image save, and neither changes anything; otherwise the tables are the upsert's result, the id counter grows only on insert, and the response carries the row's id and the new image path or None |
| `Inventory.Store.UpdateMachine` | app.py:211-252 | checks an unknown id first, then a failed image save, and neither changes anything; otherwise the table is the update rule's result and no id counter changes |

## Left out

- Flask routing, `request.json` parsing, `jsonify` and HTTP status codes are left out. Request fields are parameters: a key that is missing or JSON `null` is `None`, and the defaults of `data.get(key, '')` are applied by the caller. Non-string JSON values for names and images are not modelled.
- The SQLite connections, cursors and commits are left out. The tables are the state of `Inventory.Store`, and each handler is one atomic step.
- Concurrency is left out. The read-then-write sequence of `create_or_update_machine` is modelled as atomic, so the race between two concurrent requests at the same cell is not modelled.
- The timestamp columns `created_at` and `updated_at` are left out. `CURRENT_TIMESTAMP` is the database clock, which the model cannot see.
- The image file writes, `os.makedirs`, the upload file name built from `datetime.now()` and base64 decoding are I/O. They are folded into the `save` parameter.
- The PIL image opening, the EasyOCR reader and its lazy initialisation in `init_ocr` are foreign libraries; they are the `recognize` and `readerReady` parameters. A detection's bounding box is not used after recognition, so it is dropped.
- `Ocr.MinConfidence`: confidences are Dafny `real` values, not IEEE doubles, so the 0.3 threshold and the 0.5 cap are exact decimals.
- `Ocr.ConfidentMembers`: it states which items are kept, not how many times each one occurs. The exact sequence is fixed by `Ocr.CollectTextItems`.
- `Tables.MachinesOf`: the query at `app.py:107-108` has no `ORDER BY`, so SQL fixes no order. The model lists rows in rowid order, which is what SQLite's full-table scan gives for this schema with no index on `substation_id`. `Tables.MachinesOfAscending` and `Inventory.Store.GetMachines` state that order, which the source does not promise.
- `Inventory.Store.CreateOrUpdateMachine`: ids and coordinates are unbounded integers in the model. Python's `sqlite3` binds an integer as a 64-bit value and raises `OverflowError` for one outside [-2^63, 2^63). No handler catches that error, so the source answers HTTP 500 and leaves the tables unchanged, after the image file is already written. The model instead upserts the row. Non-integer JSON values for `substation_id`, `position_x` and `position_y` (floats, strings, booleans) are not modelled.
- `Inventory.Store.GetMachines`: for a `substation_id` outside the 64-bit range the source fails with HTTP 500 at the query (`app.py:107-108`); the model returns the empty list.
- `Inventory.Store.GetMachine`: for a machine id outside the 64-bit range the source fails with HTTP 500 at the query (`app.py:193-194`); the model answers not found.
- `Inventory.Store.UpdateMachine`: for a machine id outside the 64-bit range the source fails with HTTP 500 at the lookup (`app.py:222`); the model answers not found.
- `Strings.LexLessTotal` assumes that SQLite's BINARY collation on UTF-8 text orders strings by code point; UTF-8 byte order is the same as code-point order.
- The exception paths of `ocr_recognize` that come from a missing JSON body, and the `except Exception` around code that cannot raise in the model, are left out. A failure inside the `try` block that the `recognize` parameter stands for (base64 decoding, `Image.open` and the reader call) is modelled as `Raised`, and it becomes the recognition-failure error.
- `app.run` with the ad-hoc SSL context, the `index` route and `uploaded_file` are server wiring and are left out.
