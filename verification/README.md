# HN Hiring Lens — a Dafny model of the filter engine and the saved-jobs store

HN Hiring Lens is a browser extension for Hacker News "Who is hiring?"
threads. Its content script (`content.js`) reads the thread's comments in
document order. It tags each comment with boolean flags (remote, onsite,
salary, US-only) and facet tag lists (stacks, employment types,
seniorities, role types). It links each reply to its top-level ancestor by
indentation. It then decides which comments stay visible under the
filter settings: include/exclude terms, toggles and facet selections.
Visible comments can be exported as CSV, and the e-mail addresses in them
collected without duplicates.

The side panel (`sidepanel.js`) keeps a map from comment id to saved job.
It counts the jobs, removes them, marks them applied and clears the map.
It lists them newest first in an "unapplied" list and an "applied" list,
and exports them as CSV.

The model is written in pure functions over sequences, sets and maps. A
few methods model the source's loops. The modules are:

| module | file | what it holds |
|---|---|---|
| `Wrappers` | wrappers.dfy | `Option` |
| `Text` | text.dfy | JavaScript `trim`, `split`/`join`, ASCII `toLowerCase`, `includes` |
| `Csv` | csv.dfy | quote doubling, quoted cells, a reader for one line of cells (the field rules of section 2 of RFC 4180), row/line joining |
| `Seqs` | seqs.dfy | subsequence and no-duplicates predicates |
| `Classify` | classify.dfy | the matcher keys, the facet catalogue, `getIndent`, `commentObj` |
| `ThreadIndex` | thread_index.dfy | `buildIndex` and its top-ancestor cursor |
| `Filter` | filter.dfy | the filter settings, `parseList`, `matchTopLevel` |
| `Visibility` | visibility.dfy | the two passes of `applyFilters` and the `matched/total` counter |
| `Highlight` | highlight.dfy | the regular-expression escaper of `highlightMatches` |
| `ThreadExport` | thread_export.dfy | `exportCSV` and `copyEmails` of the content script |
| `SavedJobs` | saved_jobs.dfy | the saved-jobs map and every side-panel operation on it |

Modelling choices:
- **Regex table.** The `RE` regular-expression table is a parameter `m: (Key, string) -> bool`. A key is a flag or a facet value. The model assumes only that the matcher is a deterministic function of the key and the body.
- **E-mail extraction.** The e-mail pattern is a parameter `extract: string -> seq<string>` that returns the matches in order.
- **Comment rows.** A page row is a `Row` with an optional indent attribute. `None` stands for a missing indent cell, a non-numeric attribute, or one whose parse is not finite (too long for a double, so `parseInt` gives Infinity). `getIndent` turns all of these into 0.
- **Filter settings.** The settings come from the `prefs` record (content.js:370-382). They are passed in explicitly instead of being read from the form.
- **Saved-job times.** `savedAt` is an integer time stamp. `toLocaleString` is a parameter `formatDate`.
- **Key order.** The order in which `Object.values` lists the map is a parameter `order`. It lists each key exactly once.
- **Reading the CSV back.** The exporters only write. To say what a written row means, the model reads a line back with the field rules of section 2 of RFC 4180, which is how a spreadsheet opens the file. A cell starting with a quote is a quoted cell; any other cell runs to the next comma.
- **Show/hide results.** "Hidden" is the `hnf-hide` class, and the model returns it as a `seq<bool>` of show decisions.

## Model

| member | source | states |
|---|---|---|
| Text.Trim | content.js:299 | the trimmed piece has no leading or trailing whitespace, is never longer, and is empty exactly when the input is all whitespace |
| Text.TrimIsInfix | content.js:299 | trimming keeps one contiguous stretch of the input with only whitespace cut off on either side |
| Text.Split | content.js:299 | splitting gives at least one piece, no piece holds the separator, and joining the pieces with the separator gives back the input |
| Text.SplitJoin | content.js:299 | splitting a join of separator-free pieces gives back exactly those pieces |
| Text.Lower | content.js:267 | lower-casing keeps the length and maps every character through the ASCII lower-case map |
| Text.LowerIdempotent | content.js:267 | lower-casing twice is lower-casing once |
| Text.Includes | content.js:340-341 | `includes` holds exactly when the term occurs at some position of the text |
| Classify.NamesDistinct | content.js:204-238 | each facet catalogue lists its values without repetition |
| Classify.FacetOf | content.js:277-280 | a facet's tag list holds exactly the catalogue values whose matcher accepts the body, in catalogue order and without duplicates |
| Classify.ClassifyBody | content.js:272-281 | each boolean flag is its matcher's verdict on the body, and each facet list is exactly the accepted values of that facet, in catalogue order, without duplicates |
| Classify.GetIndent | content.js:249-254 | the indent is 0 iff the attribute is missing, non-numeric or 0. Otherwise it is the attribute's value |
| Classify.CommentObj | content.js:249-283 | the record copies id, author, age and body. Its text is the lower-cased body and its flags are the body's classification. It is top-level iff the indent attribute is missing, non-numeric or 0. No top-level id is set yet |
| Classify.ClassifyDeterministic | content.js:267-281 | two rows with the same body get the same flags and the same text |
| ThreadIndex.AssignTopIds | content.js:289-294 | the cursor pass changes only `topId`. Each comment gets the id of the nearest top-level comment at or before it, or null when there is none. A top-level comment gets its own id |
| ThreadIndex.BuildIndex | content.js:287-295 | the index has one comment per row in document order. Each is that row's record apart from `topId`, and every `topId` names the nearest preceding-or-self top-level comment |
| Filter.Compact | content.js:299 | the kept pieces are non-empty and trimmed, are exactly the non-empty trimmed input pieces, and keep the input order. There is one per non-empty piece, so repeats are kept |
| Filter.CompactPicks | content.js:299 | position by position: the k-th kept piece is the trimmed form of the k-th non-empty input piece, and there are no others |
| Filter.ParseList | content.js:298-300 | the terms are non-empty and trimmed, are exactly the non-empty trimmed comma-separated pieces, and keep their order. There is one term per non-empty piece, so a repeated term stays repeated |
| Filter.TermCharacters | content.js:298-300 | every character of a parsed term comes from the input and is not a comma |
| Filter.BlankParsesEmpty | content.js:298-300 | an input of only commas and whitespace gives no terms |
| Filter.CompactKeeps | content.js:299 | already trimmed non-empty pieces pass through unchanged |
| Filter.ParseJoin | content.js:298-300 | joining trimmed, non-empty, comma-free terms with commas and parsing the result gives back the same terms |
| Filter.AnySelected | content.js:318 | `some(... includes ...)` holds iff some selected value is among the tags |
| Filter.AllIncluded | content.js:340 | `every(includes)` holds iff every term occurs in the text |
| Filter.AnyIncluded | content.js:341 | `some(includes)` holds iff some term occurs in the text |
| Filter.MatchTopLevel | content.js:302-344 | a passing comment carries the flag of every toggle that is on (no US-only flag when Hide US-only is on) |
| Filter.MatchTopLevelMeaning | content.js:302-344 | a comment passes iff every toggle that is on agrees with its flag, with Hide US-only inverted. Each non-empty facet selection must meet the comment's tags. Every include term must occur in the lower-cased text (AND), and no exclude term may (OR) |
| Filter.FacetsCases | content.js:316-338 | the four facet checks together are the per-facet rule applied to every facet |
| Filter.VacuousFilterPasses | content.js:302-344 | with all toggles off, no facet selected and blank queries, every comment passes |
| Filter.TermsAreLowerCase | content.js:304-305 | every include and exclude term is already lower case, so matching against the lower-cased text ignores case |
| Filter.LooserFilterKeeps | content.js:311-341 | a comment that passes a stricter setting also passes any looser one: fewer toggles, a superset of each non-empty facet selection, a subset of the include terms and of the exclude terms |
| Highlight.EscapeRegex | content.js:361 | each special character gains one backslash, so the source grows by exactly the number of special characters |
| Highlight.EscapeIsLiteral | content.js:361 | whatever the term holds, its escaped form is a pattern that matches exactly the term as a literal |
| Highlight.HighlightPatterns | content.js:355-363 | there is one pattern per parsed include term, in order, and each is a literal for its term |
| Visibility.IdsWhere | content.js:386-390 | the collected set holds exactly the ids at the marked positions |
| Visibility.VisibleTop | content.js:386-390 | `visibleTop` holds exactly the ids of top-level comments that match |
| Visibility.CollectVisibleTop | content.js:386-390 | the first loop builds exactly `visibleTop` and counts exactly the top-level comments |
| Visibility.Shown | content.js:395-404 | with top-level-only on, only top-level comments whose id is in `visibleTop` are shown. A shown reply has a `topId` in `visibleTop`. Nothing is shown when `visibleTop` is empty |
| Visibility.DecideAll | content.js:394-406 | a top-level comment is shown iff its id is in `visibleTop`. A reply is shown iff top-level-only is off and its `topId` is in `visibleTop` |
| Visibility.ApplyFilters | content.js:385-408 | as DecideAll, with `visibleTop` taken from the matching top-level comments. The counter reads the size of `visibleTop` over the number of top-level comments, and the first never exceeds the second |
| Visibility.CountBounds | content.js:408 | distinct marked ids ≤ marked positions ≤ top-level positions |
| Visibility.CounterBounds | content.js:408 | matched (distinct ids) ≤ matching top-level comments ≤ top-level comments |
| Visibility.CountExact | content.js:408 | with distinct ids at the marked positions, the set has as many ids as there are marks |
| Visibility.CounterExact | content.js:408 | when top-level ids are distinct, the numerator is exactly the number of matching top-level comments |
| Visibility.TopShownIffMatches | content.js:397-399 | when top-level ids are distinct, a top-level comment is shown iff it matches |
| Visibility.ReplyGated | content.js:400-404 | for any thread, a reply is shown iff top-level-only is off and its nearest top-level ancestor is shown. When top-level ids are distinct, that is iff the ancestor matches. A reply with no top-level comment before it is hidden |
| Visibility.VacuousShowsAll | content.js:385-408 | with the vacuous filter and top-level-only off, every comment that follows some top-level comment is shown |
| ThreadExport.VisibleComments | content.js:476 | the exported comments are the shown ones, in thread order: the k-th exported comment is the k-th shown one, with one entry per shown position. None are exported iff none are shown |
| ThreadExport.ThreadRow | content.js:486-500 | a row has the twelve header columns. It copies id, author and age. Each flag cell is "Yes" iff the flag holds. The comment cell reads back as exactly the body |
| ThreadExport.ThreadRowCells | content.js:490-497 | each flag cell is exactly "Yes" or "No" by its flag, and each of the four tag cells is that facet's tags joined by `;` |
| ThreadExport.ThreadTable | content.js:483-501 | the table is the header row, then row k + 1 is exactly the thread row of the k-th visible comment: its id, author and age, Yes iff each flag, its four `;`-joined tag lists and its quoted body |
| ThreadExport.ExportCsv | content.js:475-503 | the export is refused (None) iff no comment is visible. Otherwise the text's first line is the header |
| ThreadExport.ExportCsvLines | content.js:475-503 | when no shown comment holds a line feed, the text has one line per shown comment after the header, and the comment at a shown position is on the line after its rank among the shown ones, written as its thread row |
| Csv.DoubleQuotes | content.js:499 | doubling adds exactly one character per quote and leaves quote-free text unchanged |
| Csv.Quote | content.js:499 | the cell is wrapped in quotes and is two characters plus one per inner quote longer than the text |
| Csv.QuoteRoundTrip | content.js:499 | a quoted cell, followed by anything that does not start with a quote, reads back as exactly the original text and leaves the rest unread |
| Csv.QuotedReadsBack | content.js:499 | a quoted cell on its own reads back as exactly its text, with nothing left over |
| Csv.RowRoundTrip | content.js:503 | writable cells joined with commas give a line that reads back as exactly their texts. A bare cell is writable when it holds no comma and does not start with a quote; a quoted cell always is |
| Csv.Serialize | content.js:503 | the text's first line is the first row joined with commas. When no row's joined text holds a line feed, splitting the text on line feeds gives back exactly the rows' joined texts |
| Csv.SplitBareCell | sidepanel.js:146 | a bare cell holding a comma is written exactly like the two bare cells on either side of the comma |
| ThreadExport.CatalogueCellsSafe | content.js:204-238 | every catalogue value is non-empty, holds no comma and does not start with a quote |
| ThreadExport.TagCellSafe | content.js:495-498 | a `;`-joined list of catalogue values holds no comma and does not start with a quote, so it can go in a bare cell |
| ThreadExport.ThreadRowReadsBack | content.js:486-503 | a thread row reads back as exactly its twelve values (id, author, age, four Yes/No flags, four `;`-joined tag lists and the body) when id, author and age hold no comma and the tags come from the catalogue |
| ThreadExport.AllMatches | content.js:446-451 | the collected matches are exactly the addresses found in some visible body |
| ThreadExport.FirstIndex | content.js:449 | the first position of a value in the list |
| ThreadExport.Unique | content.js:444-453 | the set of e-mails, in insertion order: no duplicates, the same members as the input, ordered by first occurrence |
| ThreadExport.CopyEmails | content.js:441-458 | the addresses copied are the distinct addresses of the visible comments, joined with line feeds, and splitting the text on line feeds gives them back. Nothing is copied iff there are none |
| SavedJobs.Count | sidepanel.js:26 | the count is 0 iff no id is saved |
| SavedJobs.CountIsLength | sidepanel.js:26 | the count equals the number of jobs `Object.values` lists |
| SavedJobs.Remove | sidepanel.js:98-99 | exactly the removed id leaves the key set, and every other entry is unchanged |
| SavedJobs.CountAfterRemove | sidepanel.js:98-101 | removing a saved id lowers the count by one. Removing an absent id changes nothing |
| SavedJobs.SetApplied | sidepanel.js:109-111 | on a saved id only the `applied` field of that record changes. Keys and other records are untouched, and an absent id is a no-op |
| SavedJobs.SetAppliedLaws | sidepanel.js:109-116 | marking keeps the count. The last mark wins. Restoring the old mark restores the store exactly |
| SavedJobs.ClearAll | sidepanel.js:162-168 | a confirmed clear leaves no job and a count of 0. A declined one changes nothing |
| SavedJobs.Truncate | sidepanel.js:32-35 | text within the limit is unchanged. Longer text becomes its first `maxLen` characters (none for a negative limit) followed by `...`, so it is exactly max(limit, 0) + 3 long |
| SavedJobs.Insert | sidepanel.js:47-49 | inserting into a newest-first list keeps it newest first and adds exactly the one job |
| SavedJobs.SortNewestFirst | sidepanel.js:47-49 | the sorted list is newest first and a permutation of the input |
| SavedJobs.SortIsStable | sidepanel.js:47-49 | jobs saved at the same time keep their relative input order, as with a stable sort |
| SavedJobs.WithApplied | sidepanel.js:51-52 | each filtered list holds exactly the jobs with that `applied` mark, in input order (a subsequence of the input), and stays newest first when its input is |
| SavedJobs.SplitByApplied | sidepanel.js:51-52 | the unapplied and the applied list together are a permutation of all jobs |
| SavedJobs.Values | sidepanel.js:47 | the i-th listed value is the job stored under the i-th key, there is one per key, and every saved job appears |
| SavedJobs.RenderLists | sidepanel.js:47-52 | both lists are newest first. Each saved job is in the unapplied list iff not applied and in the applied list iff applied. Together the lists are a permutation of the saved jobs, and each keeps the order of the sorted list, ties included |
| SavedJobs.SavedRow | sidepanel.js:135-143 | the row as the code writes it: seven cells. It copies id, author, age and URL. Applied is "Yes" when applied and "No" otherwise. The date cell is the formatted date, not quoted. The comment cell reads back as exactly the body |
| SavedJobs.DateCommaSplitsRow | sidepanel.js:135-146 | as written, a date text with a comma in it makes the row read back as eight cells under the seven-column header: the two halves of the date, then URL and body one column late |
| SavedJobs.EnUsDateShiftsColumns | sidepanel.js:140 | a job saved under the en-US date text "10/10/2026, 8:33:05 AM" gives a line that reads back as eight cells, not seven |
| SavedJobs.SavedRowQuoted | sidepanel.js:135-143 | the corrected row: seven cells, as SavedRow (Applied "Yes" or "No"), but the date cell is quoted like the comment cell and reads back as exactly the formatted date |
| SavedJobs.SavedRowReadsBack | sidepanel.js:135-146 | with the date quoted, a row whose id, author, age and URL hold no comma reads back as exactly its seven values, whatever the date text and the body hold |
| SavedJobs.SavedTable | sidepanel.js:131-144 | the table as written: the header row, then row i + 1 is the as-written row (bare date) of the i-th job |
| SavedJobs.SavedTableQuoted | sidepanel.js:131-144 | the corrected table: the header row, then row i + 1 is the quoted-date row of the i-th job |
| SavedJobs.ExportSavedCsv | sidepanel.js:124-146 | the export as written is refused (None) iff the store is empty. Otherwise its first line is the header |
| SavedJobs.ExportSavedLines | sidepanel.js:124-146 | when no field or date text holds a line feed, the as-written export has one line per saved job after the header, and line i + 1 is the i-th job's row with the date cell bare |
| SavedJobs.ExportSavedCsvQuoted | sidepanel.js:124-146 | the corrected export is refused (None) iff the store is empty. Otherwise its first line is the header |
| SavedJobs.ExportSavedQuotedLines | sidepanel.js:124-146 | as ExportSavedLines, for the corrected export: line i + 1 is the i-th job's row with the date cell quoted |
| SavedJobs.SavedExportReadsBack | sidepanel.js:124-146 | end to end, corrected: each line after the header reads back as exactly its job's seven values, when no value holds a line feed and id, author, age and URL are safe to write bare |

## Left out

- DOM access, toolbar injection, event wiring, keyboard shortcuts, tab switching and HTML rendering (`injectBar`, `wireEvents`, `restoreUI`, `switchTab`, `renderJobItem`, `getRows`). They are page glue. Comments arrive as a given sequence of rows.
- Persistence and change notification (`save`, `load`, `loadSavedJobs`, `saveSavedJobs`, `chrome.storage.onChanged`). They are asynchronous browser storage, and each update function returns the new store instead.
- `debounce` and the 50 ms `setTimeout`. They are timing only.
- The regular-expression engine behind the `RE` table and the e-mail pattern. Both are parameters. The `tz` pattern is never consulted by the code, so the model has neither a catalogue key nor a flag for it.
- The `innerHTML` rewrite of `highlightMatches`. It is string surgery on live HTML, and only the escaper and the pattern list are modelled.
- Clipboard, `Blob`, download links and alerts. They are I/O. The exporters return the text they would hand over, or None where the code alerts and stops.
- `Date`, `toLocaleString` and `toISOString`. They depend on locale and clock. `savedAt` is an integer, and date formatting is a parameter.
- Unicode case mapping. `toLowerCase` is modelled on ASCII letters only.
- UTF-16. Strings are sequences of characters, and lengths count characters, not UTF-16 code units.
- background.js and the scripts/ build tools. They only open the side panel, or build and package the extension.
- A contiguous-subtree reply policy. The code has only the ancestor-gated policy, so only that policy is modelled.
- A save/toggle operation on the saved-jobs store. The side panel has none; saving happens elsewhere.
- Visibility.ApplyFilters: the counter's numerator is `visibleTop.size`, the number of distinct passing ids. It equals the number of passing top-level comments only when top-level ids are distinct (CounterExact), so the general bound is stated as ≤.
- Visibility.ReplyGated: a reply that comes before any top-level comment has a null `topId` and is always hidden. The code does this; it does not treat such a reply as a top-level comment.
- Visibility.TopShownIffMatches: a top-level comment is shown iff its id is in `visibleTop`. Two top-level comments sharing an id are both shown when either matches, so "shown iff it matches" is proved only for distinct ids.
- ThreadExport.ThreadRow: its own contract states the flag cells only as "Yes" iff the flag holds. The exact cells 3 to 10 ("Yes"/"No" and the `;`-joined tags) are stated by ThreadRowCells, kept apart so that callers do not carry them.
- ThreadExport.ThreadTable: the header cells are the code's (`US-Only`, `Stacks`, `Comment`). Cells other than the comment are written bare, as the code writes them. A comma in id, author or age would split its cell, so ThreadRowReadsBack is proved only for comma-free values. Tag cells never hold a comma (TagCellSafe).
- ThreadExport.ExportCsvLines: a field, tag or body holding a line feed would break its row over several lines, so the line-by-line statement is proved only for one-line comments. A reader for quoted line feeds (rule 6 of section 2 of RFC 4180) is not part of this model.
- SavedJobs.ExportSavedLines: a field or date text holding a line feed would break its row over several lines, so the line-by-line statement is proved only for one-line values.
- SavedJobs.ExportSavedQuotedLines: as ExportSavedLines, the line-by-line statement for the corrected export is proved only for one-line values.
- SavedJobs.SavedExportReadsBack: the end-to-end read-back is proved only for one-line values, and only when id, author, age and URL can be written bare.
- SavedJobs.SavedRowReadsBack: id, author, age and URL are written bare, as the code writes them. The read-back is proved only when they hold no comma and do not start with a quote.

## Findings

| source | as written | input that shows it | evidently intended | confidence | as-written member | corrected member |
|---|---|---|---|---|---|---|
| sidepanel.js:140 | The "Saved At" cell is `toLocaleString()` output, written without quotes. | A job saved on 10 October 2026 in the en-US locale: the date text is "10/10/2026, 8:33:05 AM", so the row reads back as 8 cells under a 7-column header, with URL and Comment one column late. | Quote the date cell the way the comment cell is quoted, so every row reads back as its 7 values. | not executed; medium, because it depends on the locale (en-US puts a comma in the date, some other locales do not) | SavedJobs.SavedRow, SavedJobs.SavedTable, SavedJobs.ExportSavedCsv, SavedJobs.DateCommaSplitsRow, SavedJobs.EnUsDateShiftsColumns | SavedJobs.SavedRowQuoted, SavedJobs.SavedRowReadsBack, SavedJobs.SavedTableQuoted, SavedJobs.ExportSavedCsvQuoted, SavedJobs.SavedExportReadsBack |
