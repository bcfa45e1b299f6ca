# Business contact search: a Dafny model

This project models the core of a small business-contact harvester:

- **Contact extraction.** `extract_email` returns the first email-looking substring of a page. `extract_phone` tries five phone patterns in a fixed order and returns the first hit.
- **File names.** `sanitize_filename` turns a search term into a file name.
- **The search driver.** `search_businesses` keeps a set of seen domains. It seeds that set from an existing result file and runs ten searches, each excluding every domain seen so far. Each result is appended as a `URL,Email,Phone` row.
- **The single-search script.** `business_search.py` does one such search and appends `URL,Email` rows to `results.csv`.
- **The two mergers.** `merge_and_clean_results` and `merge_clean_stakeholders.py` read every `.csv` file of a folder. They keep rows whose stripped email fully matches the validation pattern and drop every later row with the same email up to ASCII case. The output file is written from scratch.

Modules:

- **Text.** ASCII character classes, `str.lower` and `str.strip`.
- **Regex.** The fragment of Python's `re` these patterns use: sequences of character classes, each repeated greedily between a minimum and an optional maximum. Its backtracking matcher follows Python's order of trying counts, longest first. It is proved sound and complete against the language of the pattern. `re.search` is the first start at which the matcher succeeds; `^…$` is an anchored match.
- **Extract.** The email and phone patterns, `extract_email` and `extract_phone`. Also a plain-conditions reading of the email pattern, proved equal to the anchored regex.
- **Sanitize.** `sanitize_filename`.
- **Csv.** Files as sequences of rows of fields, read the way `csv.DictReader` reads them:
  - the first row is the header;
  - blank rows are skipped;
  - a repeated column name resolves to its last column;
  - a row too short for a column gives `None`.

  `CsvFile` is a class whose rows are appended to (mode `"a"`) or replaced (mode `"w"`).
- **SearchDriver.** `search_businesses` with its seen-domain set:
  - the search service is a function from the full query, including a call counter, to the results;
  - `urlparse(url).netloc` is a function from URL to host.
- **SingleSearch.** The script `business_search.py`.
- **Merge.** The shared merge loop, both output formats, and what re-merging an output gives.

## Model

| member | source | states |
|---|---|---|
| Extract.ValidEmailShape | business_search_complete.py:102 | The anchored email regex accepts a string exactly when it has one `@`; before it, a non-empty run of `[A-Za-z0-9._%+-]`; after it, a last `.` preceded by a non-empty run of `[A-Za-z0-9.-]` and followed by at least two ASCII letters. |
| Extract.ExtractEmailLeftmost | business_search_complete.py:9-14 | Missing or empty text gives None. A returned email occurs in the text, passes the anchored validation regex, and no valid email starts earlier. When nothing is returned for a non-empty text, no substring is a valid email. `extract_email` of business_search.py:11-15 is the same function. |
| Extract.ExtractedEmailPassesMerge | business_search_complete.py:13-14 | An extracted email is non-empty, unchanged by `strip`, and accepted by the mergers' regex at line 102. |
| Extract.SentinelIsNotEmail | business_search_complete.py:85 | The placeholder "No email found" written for a missing email never passes the mergers' email check. |
| Extract.FirstPatternMatchSpec | business_search_complete.py:29-33 | For any pattern list, the reported pattern is the first one that matches anywhere in the text. Every earlier pattern matches nowhere, and the span is the leftmost match of that pattern. When nothing is reported, no pattern matches anywhere. |
| Extract.FirstMatchedTextSpec | business_search_complete.py:29-33 | The returned text occurs in the input and is matched by the first pattern that matches anywhere. No earlier start matches that pattern. None means no pattern matches anywhere. |
| Extract.ExtractPhoneFirstPattern | business_search_complete.py:16-33 | `extract_phone` gives None for missing or empty text. A returned phone occurs in the text and matches one of the five patterns; every earlier pattern matches nowhere, and no earlier start matches that pattern. When it returns None, none of the five patterns matches anywhere. |
| Extract.ExtractEmail | business_search_complete.py:9-14 | `extract_email`: None for missing or empty text. The rest of its contract is carried by ExtractEmailLeftmost and ExtractedEmailPassesMerge. |
| Extract.ExtractPhone | business_search_complete.py:16-33 | `extract_phone`: None for missing or empty text. The rest of its contract is carried by ExtractPhoneFirstPattern. |
| Regex.FullMatchIff | business_search_complete.py:102 | A pattern between `^` and `$` accepts exactly the strings of the pattern's language. |
| Regex.SearchLeftmost | business_search_complete.py:13 | `re.search` reports a match, and no match starts earlier. When it reports none, no substring matches. |
| Regex.SearchFromFound | business_search_complete.py:30 | The same as SearchLeftmost, for a search starting at any position. |
| Sanitize.RemoveDisallowed | business_search_complete.py:37 | `re.sub(r'[^\w\s-]', '', …)` keeps only word characters, whitespace and `-`, never lengthens the text, and leaves text made only of those characters unchanged. |
| Sanitize.RemoveDisallowedAppend | business_search_complete.py:37 | `re.sub(r'[^\w\s-]', '', …)` of a concatenation is the concatenation of its parts' results, so every allowed character is kept and in order. |
| Sanitize.RemoveDisallowedChar | business_search_complete.py:37 | A single character is kept exactly when it is a word character, whitespace or `-`. |
| Sanitize.SanitizeAppend | business_search_complete.py:35-37 | The sanitised name of a concatenation is the concatenation of the sanitised names. |
| Sanitize.SanitizeChar | business_search_complete.py:35-37 | A single character is dropped when disallowed, and otherwise a space becomes `_` and the character is lower-cased. |
| Sanitize.SanitizeFilename | business_search_complete.py:35-37 | `sanitize_filename`. Its contract is carried by SanitizeAppend and SanitizeChar (what each character becomes), SanitizedChars, SanitizeNoLonger and SanitizeIdempotent. |
| Sanitize.SanitizedChars | business_search_complete.py:35-37 | A sanitised name holds only word characters, whitespace other than the space, and `-`. It never holds a space or an upper-case ASCII letter. |
| Sanitize.SanitizeNoLonger | business_search_complete.py:35-37 | A sanitised name is no longer than the term. |
| Sanitize.SafeTextUnchanged | business_search_complete.py:35-37 | Text made only of safe characters is its own sanitised name. |
| Sanitize.SanitizeIdempotent | business_search_complete.py:35-37 | Sanitising twice is the same as sanitising once. |
| SearchDriver.ResultFileName | business_search_complete.py:43 | The result file name ends in ".csv", and everything before that suffix is made of safe characters. |
| SearchDriver.LoadSeenDomains | business_search_complete.py:44-55 | The seed is empty when the file is absent. Otherwise it is exactly the non-empty hosts of the non-empty URL cells of the file's records. The seeding loop of business_search.py:18-27 is the same loop. |
| SearchDriver.SearchBusinesses | business_search_complete.py:39-86 | The file written is the one named by ResultFileName of the term. Ten queries are sent. Query i excludes exactly the domains seen before iteration i. The final seen set is the seed grown by ten iterations. The file ends up as its old rows, then the header if the file was empty, then the rows of every response in order. |
| SearchDriver.RunIterations | business_search_complete.py:57-86 | The ten-iteration loop: the same queries, seen set and file contents as SearchBusinesses, from a given seed. |
| SearchDriver.Iteration | business_search_complete.py:61-85 | One iteration sends the query that excludes the domains seen so far. It moves the seen set one step forward and appends the header when the file is empty, then one row per result. |
| SearchDriver.WriteResults | business_search_complete.py:69-85 | The header `URL,Email,Phone` is written only when the file is empty at open. Each result appends one row, in order, and earlier rows are untouched. The seen set grows by exactly the non-empty hosts of the non-empty result URLs. |
| SearchDriver.SeenGrows | business_search_complete.py:44-66 | The seen set only grows, so every later exclusion list contains every earlier one. |
| SearchDriver.SeenAfterExact | business_search_complete.py:80-83 | A host is in the seen set after n iterations exactly when it was in the seed or is the host of some result of one of the first n responses. |
| SearchDriver.EmailCellMergeable | business_search_complete.py:85 | The Email cell is "No email found" exactly when no email was extracted. Otherwise it is a stripped email that passes the mergers' check. |
| SearchDriver.ResultRowsShape | business_search_complete.py:74-85 | One row per result, in order, with as many cells as the header. Its URL cell is the URL, or "" when missing. Its Email cell is the placeholder exactly when no email was found, otherwise a valid email. Its Phone cell is the phone found, or "No phone found" when none was. |
| SearchDriver.RowsAfterShape | business_search_complete.py:57-85 | Every row appended over the iterations has three cells and a placeholder or valid email. |
| SearchDriver.ResultRowsHosts | business_search_complete.py:50-55 | Reading back the URL column of a response's rows gives exactly the hosts the loop added for that response. |
| SearchDriver.RowsAfterHosts | business_search_complete.py:47-83 | The seed plus the hosts in the URL column of every appended row is the final seen set. |
| SearchDriver.NextRunSeed | business_search_complete.py:44-83 | When the file was absent, empty, or written by the driver, the next run on the same file seeds exactly the final seen set of this run. |
| SingleSearch.RunScript | business_search.py:17-48 | The one query excludes exactly the seeded domains, asks for 3 results with raw content, and adds no domain afterwards. The file ends up as its old rows, then `URL,Email` if it was empty, then one row per result. |
| SingleSearch.AppendEmailRows | business_search.py:37-47 | The header is written only when the file is empty at open. Each result appends one row, in result order, and earlier rows are untouched. |
| SingleSearch.EmailRowsShape | business_search.py:43-47 | One two-cell row per result, in order. Its URL cell is the URL, or "" when missing. Its Email cell is "No email found" exactly when extraction gives None, otherwise a stripped valid email. |
| Text.Lower | business_search_complete.py:122 | `str.lower` keeps the length and lower-cases each ASCII upper-case letter, leaving every other character alone. |
| Text.Strip | business_search_complete.py:115 | `str.strip()`. Its contract is carried by StripEdges, StripUnchanged, TrimmedIffStripped and StripIdempotent. |
| Text.StripEdges | business_search_complete.py:115 | The stripped text has no whitespace at either end. |
| Text.StripUnchanged | business_search_complete.py:115 | Text without whitespace at either end is left alone. |
| Csv.NonBlank | business_search_complete.py:113-114 | The rows `csv.DictReader` yields: only non-empty rows, all taken from the input. When no row is blank, all of them. |
| Csv.NonBlankAppend | business_search_complete.py:113-114 | Skipping blank rows commutes with appending rows, so rows appended to a file are read after the old ones. |
| Csv.Records | business_search_complete.py:113-114 | The records of a file: NonBlank of every row after the header row. Its contract is carried by NonBlank and NonBlankAppend. |
| Csv.Field | business_search_complete.py:115-117 | `record.get(name)`. Its contract is carried by FieldLastColumn. |
| Csv.FieldLastColumn | business_search_complete.py:51 | A record's value for a name is the cell under the last header column of that name. There is none exactly when the header lacks the name or the row is too short for a column of that name. |
| Csv.CsvFile.Append | business_search_complete.py:85 | `writer.writerow` on a file opened in mode "a": the file exists afterwards and the row is added after the old rows. |
| Csv.CsvFile.Overwrite | business_search_complete.py:135-138 | Writing a file opened in mode "w": the file exists afterwards and holds exactly the new rows. |
| Text.TrimmedIffStripped | business_search_complete.py:115 | `strip` leaves a string alone exactly when it is empty or has no whitespace at either end. |
| Text.StripIdempotent | business_search_complete.py:115 | Stripping twice is the same as stripping once. |
| Merge.CellAsWritten | business_search_complete.py:115-117 | `row.get(name, "").strip()` gives "" when the header has no such column. It fails (None) exactly when the column exists but the row is too short to have that cell. |
| Merge.ShortRowRaises | merge_clean_stakeholders.py:27 | With header `URL,Email` and the row `https://example.com`, reading the Email cell fails. |
| Merge.Cell | business_search_complete.py:115-117 | The merge reads every cell stripped. |
| Merge.CellCorrectsShortRows | merge_clean_stakeholders.py:27-28 | Where the source's read succeeds, Cell agrees with it. Where it fails on a short row, Cell reads "". |
| Merge.CleanContacts | merge_clean_stakeholders.py:17-42 | The nested loop over files and rows builds exactly the cleaned contacts of every `.csv` input, in listing then row order. |
| Merge.CleanFile | business_search_complete.py:112-132 | The row loop of one file carries `seen_emails` and `cleaned_rows` forward over all of that file's records. |
| Merge.CleanRow | business_search_complete.py:114-132 | One row is skipped when its email is missing, invalid or already seen, and otherwise recorded, with its lower-cased email marked seen. |
| Merge.CleanedValid | business_search_complete.py:119-120 | Every output email is non-empty and fully matches the validation regex. |
| Merge.CleanedKeys | business_search_complete.py:122-126 | No two output rows share an email up to ASCII case. The output's lower-cased emails are exactly those of the valid input rows, one row each. |
| Merge.Origins | merge_clean_stakeholders.py:33-37 | The indices of the rows that are the first valid row with their email, in increasing order, and no other indices. |
| Merge.CleanedFirstOccurrences | merge_clean_stakeholders.py:21-42 | Output row k comes from the k-th first occurrence in file-then-row order. Its URL, email and source are copied and its phone is mapped. |
| Merge.CandidatesFromCsv | business_search_complete.py:109-111 | Every candidate is one of the rows read from an input whose name ends in ".csv", and carries that input's name as its source; inputs with other names contribute nothing. |
| Merge.FileCandidatesSource | merge_clean_stakeholders.py:41 | Every row read from a file is tagged with that file's name. |
| Merge.Candidates | merge_clean_stakeholders.py:21-28 | The rows of every `.csv` input, file after file, each read as its stripped URL, Email and Phone cells. Its contract is carried by CandidatesFromCsv, FileCandidatesSource and CandidatesStripped. |
| Merge.Cleaned | merge_clean_stakeholders.py:30-42 | The kept rows of a candidate sequence. Its contract is carried by CleanedValid, CleanedKeys, CleanedFirstOccurrences and CleanedAllKept. |
| Merge.CandidatesStripped | business_search_complete.py:115-117 | Every cell read has no whitespace at either end. |
| Merge.CleanedCells | business_search_complete.py:127-132 | Output cells are stripped, and an output phone is never "No phone found". |
| Merge.MergeWellFormed | business_search_complete.py:102-132 | Any merge output has valid emails, distinct up to case, and clean cells. |
| Merge.CleanedAllKept | merge_clean_stakeholders.py:30-42 | Rows that are all valid with distinct lower-cased emails are all kept, in order. |
| Merge.MergeAndCleanResults | business_search_complete.py:91-141 | The output file `merged_cleaned_results.csv` is overwritten with the header `URL,Email,Phone,SourceFile` and the cleaned contacts. |
| Merge.MergeCleanStakeholders | merge_clean_stakeholders.py:44-48 | The output file `merged_cleaned_stakeholders.csv` is overwritten with the header `URL,Email,SourceFile` and the cleaned contacts. |
| Merge.ResultsRowCount | business_search_complete.py:134-140 | Either output has a header plus one row per distinct lower-cased valid email of the inputs. |
| Merge.ReadResultsTable | business_search_complete.py:112-117 | Reading a written results file back gives its contacts in order, with the file's own name as source. |
| Merge.ReadStakeholdersTable | merge_clean_stakeholders.py:24-28 | Reading a written stakeholders file back gives its contacts in order, without phones, with the file's own name as source. |
| Merge.RemergeResults | business_search_complete.py:108-138 | Merging a results output again, as the only input, keeps every row in order and unchanged except for the source name. |
| Merge.RemergeStakeholders | merge_clean_stakeholders.py:17-48 | Merging a stakeholders output again, as the only input, keeps every row in order with the same URL and email. |

## Left out

- web_app.py is not part of this model. It is a web front end built on background threads, subprocesses and timestamps.
- The search service (`tavily.search`) is a function parameter from the query to its results, so its behaviour is not modelled. The query carries a call number so that equal queries may get different answers. The API key and the client's construction are left out.
- `urlparse(url).netloc` is a function parameter, not a model of URI parsing.
- Both foreign calls are total functions, so the model describes only runs in which every call returns. Their failures are not modelled:
  - `urlparse` raises `ValueError` on a URL whose host has an unbalanced bracket (`http://[::1/x`). In the seeding loops (business_search_complete.py:53, business_search.py:25) that aborts the run before any search. Inside an iteration (business_search_complete.py:81) it aborts after the header and the earlier rows of that response are written, and before the row of that result.
  - A `tavily.search` call that raises (business_search_complete.py:61-66, business_search.py:30-35) aborts the run and all remaining iterations.
  - SearchDriver.SearchBusinesses, SearchDriver.NextRunSeed and SingleSearch.RunScript therefore say nothing about a run cut short by either.
- `exclude_domains=list(seen_domains)`: the query carries the set itself. The order Python gives the list is not modelled.
- The file system is reduced to files as row sequences and the folder listing to a given sequence of (name, rows) pairs. Left out: `os.path.exists` beyond presence, `os.makedirs`, the path joins (only the output file name is returned), CSV quoting and escaping, and text encoding.
- `argparse`, `main`, the commented-out delay, and all printing.
- Python's Unicode semantics for `\s`, `\d`, `\w`, `str.lower` and `str.strip` are not modelled; the model is ASCII-only. `$` also matching before a trailing newline is not modelled. The mergers only test stripped values, so it cannot arise there.
- The stakeholders script never reads the Phone column. The shared loop reads it and the stakeholders output drops it, so the written rows are the same.
- Merge.Cell: reads a cell missing from a short row as "", where the source raises. The row is then skipped for lack of an email, or kept with an empty URL or phone. See Findings.
- Not in these files, so not modelled: an email false-positive filter (image extensions, `@2x.`, numeric first domain label), keeping phone-only rows in the merge, and a term-by-location merge.

## Findings

| source | as written | input that shows it | evidently intended | confidence | as-written member | corrected member |
|---|---|---|---|---|---|---|
| merge_clean_stakeholders.py:27 | `row.get("Email", "").strip()` calls `.strip()` on the `None` that `csv.DictReader` gives for a cell missing from a short row (the same at business_search_complete.py:115-117), so the whole merge stops | a file with header `URL,Email` and the data row `https://example.com` | a missing cell reads as "", so the row is skipped for lack of an email | not executed | Merge.ShortRowRaises | Merge.CellCorrectsShortRows |
