# Close CRM lead import and state report, modelled in Dafny

`close_script.py` is a three-stage script against the Close CRM API:

1. **Import** (`import_leads_from_csv`): read company/contact rows from a CSV
   file, discard rows with a blank company, an unparseable founding date or
   neither an email nor a phone, group the remaining rows by company in order
   of first appearance, and post one lead per company. The lead takes its
   custom fields (founding date, revenue, US state) from the company's first
   row and gets one contact per row.
2. **Range filter** (`find_leads_in_date_range`): parse two `DD.MM.YYYY`
   bounds and keep the stored leads whose `Company Founded` text lies between
   them, inclusive, by string comparison.
3. **Segmentation** (`segment_leads_by_state`): group the leads that carry a
   state and a revenue by state, in order of first occurrence, sort each group
   by revenue (largest first, stable), and write one report row per state
   with the count, the top lead, the total and the median revenue.

The helpers `parse_date` and `parse_multiline_field` are pure functions here.
The three stages are methods with loops, each proved against a
specification function on the inputs (`Accepted`/`Keys`/`Bucket`, `Select`,
`StateEntries`/`Report`), and the properties the script relies on are lemmas
about those functions.

Modules:

| file | module | models |
|---|---|---|
| `wrappers.dfy` | `Wrappers` | `Option` and `Result` |
| `text.dfy` | `Text` | `str.strip`, `str.isspace`, line-break characters, `str <=` |
| `dates.dfy` | `Dates` | `parse_date`: `strptime("%d.%m.%Y")` and `strftime` |
| `fields.dfy` | `Fields` | `parse_multiline_field` and `str.splitlines` |
| `grouping.dfy` | `Grouping` | a `defaultdict(list)` filled by a loop: keys in first-occurrence order, one bucket per key |
| `import_leads.dfy` | `Import` | validation, grouping by company, lead payloads |
| `leads.dfy` | `Leads` | a stored lead with its optional custom attributes |
| `range_filter.dfy` | `RangeFilter` | the founding-date range filter |
| `statistics.dfy` | `Statistics` | `sum` and `statistics.median` |
| `revenue_sort.dfy` | `RevenueSort` | `list.sort(key=revenue, reverse=True)` |
| `segment.dfy` | `Segment` | the state report |
| `pipeline.dfy` | `Pipeline` | the entry point: filter, then segment |

Where the model departs from the script:

- On a catalog without one of the three field names, the script raises
  `KeyError` at close_script.py:112-114 and stops, since nothing catches it.
  The model returns a per-company `Failure` instead, so that the import stays
  a total operation with a result to state facts about.
  `Import.IncompleteCatalogFails` proves that every company then fails on the
  same name, so no lead is created in either case.
- On a stored lead without `Company Founded`, the script raises `TypeError`
  at close_script.py:166, because `start_date <= None` is not defined. The
  model skips the lead instead, and models the script as written in
  `RangeFilter.SelectAsWritten` (see "## Findings").

`parse_date` is never applied to its own output, and it would reject it:
`Dates.FormattedNotReparsed` proves that the ISO text does not parse.

## Model

| member | source | states |
|---|---|---|
| `Text.Strip` | close_script.py:72-73 | the result has no leading or trailing whitespace |
| `Text.StripSlice` | close_script.py:72-73 | the stripped text is a contiguous slice of the input, and everything outside it is whitespace |
| `Text.StripEmpty` | close_script.py:85 | the stripped text is empty exactly when every character is whitespace (this is `if not company_name`) |
| `Text.IsSpace` | close_script.py:72-73 | Python's `isspace` set, the characters `strip` removes; `StripSlice` and `StripEmpty` prove what `strip` does with it |
| `Text.IsLineBreak` | close_script.py:43 | the characters at which `splitlines` ends a line, with `\r\n` read as one break by `Fields.BreakWidth`; `Fields.SplitLinesNoBreak` proves no returned line holds one |
| `Text.LexLe` | close_script.py:166 | Python's `<=` on strings; `LexLeReflexive`, `LexLeAntisymmetric`, `LexLeTransitive` and `LexLeTotal` prove it a total order, and `LexLeAppend` reduces it to prefixes of equal length |
| `Dates.ParseDate` | close_script.py:24-29 | a successful result is the ISO midnight-UTC text of a valid calendar date |
| `Dates.ParseDateExactly` | close_script.py:24-29 | `parse_date` returns `s` exactly when the stripped text spells a valid date as day.month.year and `s` is that date's ISO text |
| `Dates.ParseDateParts` | close_script.py:26 | the date `strptime` yields, or `None` where it raises; `ParseDatePartsExactly` states which texts it accepts and which date each gives |
| `Dates.Format` | close_script.py:27 | the ISO text is 25 characters long; `FormatOrder` and `FormatInjective` prove it keeps date order and tells dates apart |
| `Dates.ParseDatePartsExactly` | close_script.py:26 | `strptime` accepts a text exactly when its stripped form spells a valid date as day.month.year: 1-2 digit day and month, 4-digit year |
| `Dates.ParseDateOfDotted` | close_script.py:24-29 | a valid date written `DD.MM.YYYY` parses back to itself and normalizes to its ISO text |
| `Dates.FormatOrder` | close_script.py:27 | for valid dates, string order of the ISO texts is chronological order |
| `Dates.FormatInjective` | close_script.py:27 | distinct dates have distinct ISO texts |
| `Dates.ParseDateOrder` | close_script.py:24-29 | comparing two normalized texts compares the dates they came from |
| `Dates.FormattedNotReparsed` | close_script.py:24-29 | `parse_date` of its own ISO output is `None` |
| `Dates.ParseDateExample` | close_script.py:24-29 | `01.03.2020` normalizes to `2020-03-01T00:00:00+00:00` |
| `Fields.ParseMultilineField` | close_script.py:40-43 | `None` and `""` give `[]`; every line returned is non-empty, stripped and free of line breaks |
| `Fields.SplitLines` | close_script.py:43 | `splitlines`; `SplitLinesNoBreak` proves no line holds a break, and `SplitJoin` that the non-empty lines of `a + break + b` are those of `a` followed by those of `b` |
| `Fields.Clean` | close_script.py:43 | the stripped non-blank lines; `CleanElements` proves each is non-empty and stripped, and `CleanAppend` that the filter distributes over concatenation |
| `Fields.SingleLine` | close_script.py:43 | a text without line breaks gives its stripped self, or nothing when it is blank |
| `Fields.ParseMultilineJoin` | close_script.py:43 | joining two texts with a line break concatenates their results |
| `Fields.SplitJoin` | close_script.py:43 | `splitlines` of `a + break + b` is the lines of `a` followed by the lines of `b`, up to empty lines |
| `Grouping.Keys` | close_script.py:94-105 | the key order has no repeats and lists exactly the keys that occur |
| `Grouping.Bucket` | close_script.py:94-101 | a key's bucket is non-empty exactly when the key occurs |
| `Grouping.GroupedStep` | close_script.py:94-101 | one `append` on a `defaultdict(list)` keeps key order and buckets in step with the pairs appended so far |
| `Grouping.BucketFirst` | close_script.py:107 | a bucket's first value is the one appended at the key's first occurrence |
| `Grouping.BucketMember` | close_script.py:94-101 | every value in a bucket was appended under that key |
| `Grouping.KeysInFirstOccurrenceOrder` | close_script.py:94-105 | keys iterate in the order of their first occurrence |
| `Grouping.KeysCount` | close_script.py:103 | `len(d)` is the number of distinct keys |
| `Grouping.BucketsPartition` | close_script.py:94-103 | the bucket sizes add up to the number of appended pairs |
| `Import.ValidateRow` | close_script.py:71-92 | an accepted row has a non-empty stripped company, an email or a phone, and its parsed founding date |
| `Import.ValidateRowAccepts` | close_script.py:84-92 | a row is accepted exactly when its company is not blank, its founding date spells a valid date and it has an email or phone line |
| `Import.HasChannel` | close_script.py:91 | the test `emails or phones`; `ValidateRowAccepts` proves a row is kept only when it holds, and `ContactsOneToOne` that the same test at :121 then drops nothing |
| `Import.Accepted` | close_script.py:71-101 | at most one pair per row; `AcceptedSnoc` proves each row adds its validated pair or nothing, in input order, and `AcceptedValid` that every pair passed the checks |
| `Import.GroupCompanies` | close_script.py:66-101 | the loop builds the company order and the company map equal to `Keys` and `Bucket` of the accepted rows |
| `Import.GroupedCompanies` | close_script.py:94-103 | every company has at least one fragment; the printed count is the number of distinct companies |
| `Import.WrapRoundTrip` | close_script.py:125-126 | wrapping as `{"email": e}` / `{"phone": p}` keeps every string, in order |
| `Import.WrapEmails` | close_script.py:125 | one `{"email": e}` per email; `WrapRoundTrip` proves it keeps every email, in order |
| `Import.WrapPhones` | close_script.py:126 | one `{"phone": p}` per phone; `WrapRoundTrip` proves it keeps every phone, in order |
| `Import.ContactOf` | close_script.py:123-127 | the contact dict of one fragment; `ImportedPayload` proves contact `i` of a company is `ContactOf` its `i`-th accepted fragment |
| `Import.ContactsOneToOne` | close_script.py:120-127 | when every fragment has a channel, there is one contact per fragment, in order |
| `Import.Contacts` | close_script.py:120-127 | at most one contact per fragment; `ContactsOneToOne` proves one per fragment, in order, when every fragment has a channel |
| `Import.BuildContacts` | close_script.py:120-127 | the inner loop builds `Contacts(frags)` |
| `Import.LeadPayloadFor` | close_script.py:107-127 | success exactly when the catalog maps all three names; then the name, the contacts and the three custom ids; otherwise the first missing name in lookup order |
| `Import.BuildLeadPayload` | close_script.py:107-127 | the payload construction computes `LeadPayloadFor` |
| `Import.CustomFromFirst` | close_script.py:109-115 | the custom values are those of the company's first fragment (later display entries win on a shared id) |
| `Import.FirstWins` | close_script.py:105-127 | later fragments of a company change only its contacts, which they extend |
| `Import.AcceptedValid` | close_script.py:84-101 | every accepted pair has a non-empty company name and an email or a phone |
| `Import.PostCompanies` | close_script.py:105-127 | the payload loop builds `Outcomes` of the grouped companies, in their order |
| `Import.Outcomes` | close_script.py:105-127 | one outcome per company name; `ImportOutcome` proves outcome `j` is the payload of the `j`-th company over exactly its fragments |
| `Import.ImportLeads` | close_script.py:61-127 | the count of valid companies, and the outcomes of the companies in first-occurrence order |
| `Import.ImportOutcome` | close_script.py:103-127 | there is one outcome per distinct company, and outcome `j` is `LeadPayloadFor` of the `j`-th company over exactly its accepted fragments |
| `Import.ImportedPayload` | close_script.py:105-127 | with a complete catalog each company's payload succeeds, is named after it, takes custom values from its first accepted row and has one contact per accepted row |
| `Import.IncompleteCatalogFails` | close_script.py:112-114 | with an incomplete catalog every company fails on the same missing name |
| `RangeFilter.FindLeadsInDateRange` | close_script.py:149-167 | `[]` when either bound fails to parse; otherwise the leads `Select` keeps |
| `RangeFilter.Select` | close_script.py:161-167 | every lead kept is an input lead whose founding text lies between the bounds |
| `RangeFilter.InRange` | close_script.py:164-166 | the test `start_date <= founded <= end_date`, false for a lead without a founding date; `InRangeChronological` proves it is the date test on ISO texts, and `OutsideRange` that it fails exactly strictly outside the bounds |
| `RangeFilter.SelectMembership` | close_script.py:163-167 | a lead is kept exactly when it is an input lead within the bounds |
| `RangeFilter.SelectAppend` | close_script.py:163-167 | the filter keeps input order: it distributes over concatenation |
| `RangeFilter.InRangeChronological` | close_script.py:166 | for normalized dates, the string test is the inclusive date test |
| `RangeFilter.ReversedBoundsSelectNothing` | close_script.py:166 | bounds given the wrong way round keep nothing |
| `RangeFilter.OutsideRange` | close_script.py:166 | a lead with a founding text is skipped exactly when the text is strictly before the start or strictly after the end |
| `RangeFilter.SelectAsWritten` | close_script.py:161-167 | the loop as written; `AsWrittenAgreesIffAllFounded` proves it equals `Select` when every lead has a founding date and raises `TypeError` otherwise |
| `RangeFilter.AsWrittenAgreesIffAllFounded` | close_script.py:166 | the loop as written agrees with `Select` when every lead has a founding date, and fails otherwise |
| `RangeFilter.MissingFoundedCounterexample` | close_script.py:166 | one lead without a founding date: `TypeError` as written, nothing kept in the corrected filter |
| `Statistics.SortAsc` | close_script.py:214 | the result is ascending and a permutation of the input |
| `Statistics.SortedAscUnique` | close_script.py:214 | an ascending list is determined by its elements |
| `Statistics.Sum` | close_script.py:213 | `sum`; `SumAppend` proves it adds over concatenation, and `RevenueSort.SumOfSorted` that it does not depend on order |
| `Statistics.SumAppend` | close_script.py:213 | the sum of a concatenation is the sum of the parts |
| `Statistics.Median` | close_script.py:214 | `statistics.median`; `MedianOrderFree`, `MedianBounds` and `MedianOfOddCount` prove it order-free, within the data's bounds, and a data value for an odd count |
| `Statistics.MedianOrderFree` | close_script.py:214 | the median depends only on the multiset of values |
| `Statistics.MedianBounds` | close_script.py:214 | the median lies within any bounds of the data |
| `Statistics.MedianOfOddCount` | close_script.py:214 | for an odd count the median is one of the values |
| `Statistics.MedianExample` | close_script.py:214 | the median of 100, 300, 100 is 100 |
| `Statistics.SumExample` | close_script.py:213 | the sum of 100, 300, 100 is 500 |
| `RevenueSort.SortByRevenueDesc` | close_script.py:207 | the result is in descending revenue order and a permutation of the group |
| `RevenueSort.SortIsStable` | close_script.py:207 | entries of equal revenue keep their input order |
| `RevenueSort.SortCharacterized` | close_script.py:207 | any descending, stable rearrangement is this result: the sort is determined by these two properties |
| `RevenueSort.SortedHead` | close_script.py:207-212 | the first sorted entry is the first entry of largest revenue |
| `RevenueSort.SumOfSorted` | close_script.py:207-213 | sorting does not change the total |
| `RevenueSort.RevenuesOfSorted` | close_script.py:207-214 | sorting keeps the multiset of revenues |
| `RevenueSort.Revenues` | close_script.py:209 | `[e["revenue"] for e in entries]`: one revenue per entry, position by position; `RevenuesOfSorted` proves the sort keeps their multiset |
| `RevenueSort.SortExample` | close_script.py:207 | revenues 100, 300, 100: the 300 entry comes first and the two 100 entries keep their order |
| `Segment.StateEntries` | close_script.py:179-191 | the loop skips leads without a non-empty state or a revenue, and keeps at most one pair per lead |
| `Segment.Kept` | close_script.py:185 | a lead is grouped when it has a non-empty state and a revenue; `StateEntriesSingle` proves a kept lead adds one pair and any other none |
| `Segment.StateEntryFrom` | close_script.py:179-191 | every pair comes from a kept lead with that state, name and revenue |
| `Segment.StateEntriesAppend` | close_script.py:179-191 | the pairs of two lead lists concatenate |
| `Segment.StateRow` | close_script.py:207-222 | one report row; `StateRowSummarizes` and `TopLead` prove its count, total, median and top lead are those of the group |
| `Segment.GroupByState` | close_script.py:177-191 | the loop builds the state order and map equal to `Keys` and `Bucket` of the pairs |
| `Segment.StateRowSummarizes` | close_script.py:207-222 | a row's count, total and median are those of the group's own revenues, in any order |
| `Segment.TopLead` | close_script.py:207-212 | the top lead is the first lead of the group with the largest revenue |
| `Segment.MedianWithinGroup` | close_script.py:214 | the median lies between the group's smallest and largest revenue |
| `Segment.Report` | close_script.py:196-222 | the report is the header (`ReportHeader`: `State`, `Total Leads`, `Top Revenue Lead`, `Total Revenue`, `Median Revenue`) followed by one row per state |
| `Segment.ReportRow` | close_script.py:204-222 | row `j + 1` is the row of the `j`-th state to occur, over that state's kept leads in input order |
| `Segment.Rows` | close_script.py:204-222 | one row per state of `ks`; `RowsIndex` proves row `j` is `StateRow` of the `j`-th state over its non-empty bucket |
| `Segment.StateRows` | close_script.py:204-222 | the second loop builds one row per state, in the grouping's key order |
| `Segment.SegmentLeadsByState` | close_script.py:176-222 | the lines written are `Report(leads)` |
| `Segment.RowsCountKeptLeads` | close_script.py:188-211 | the `Total Leads` column of the report's state rows adds up to the number of kept leads, as do the bucket sizes |
| `Segment.HeaderOnlyReport` | close_script.py:185-202 | without a kept lead the report is the header alone |
| `Segment.StateRowExample` | close_script.py:207-222 | revenues 100, 300, 100 in one state: 3 leads, the 300 lead on top, total 500, median 100 |
| `Pipeline.RangeReport` | close_script.py:232-236 | malformed bounds give a header-only report; otherwise the report of the leads in range |
| `Pipeline.GroupedLeadsInRange` | close_script.py:163-191 | every entry grouped under a state is a stored lead, founded within the range, carrying that state |

## Left out

- The HTTP calls are not modelled: the catalog fetch, the lead POST and the lead GET, together with the base64 header and the API configuration (close_script.py:11-20, 48-55, 130-139, 158-159). The catalog and the stored leads are parameters, and the import's result is the list of payloads it would post.
- The re-fetch of the catalog at close_script.py:108 is left out. It is I/O that returns the same map.
- CSV reading and writing, `open`, `input()` and `print` are left out. Rows are records, the report is a sequence of lines with the header first, and the two bounds are parameters.
- `parse_revenue` is left out: it is never called, and it parses floats.
- Revenues are integers, and the median is a real rather than a float.
- `Import.ImportLeads`: a catalog `KeyError` aborts the whole script. The model gives a per-company failure instead, and `Import.IncompleteCatalogFails` shows every company fails.
- `RangeFilter.FindLeadsInDateRange`: a lead without `Company Founded` is excluded, whereas the script raises `TypeError`. The as-written behaviour is `RangeFilter.SelectAsWritten` (see "## Findings").
- `RevenueSort.SortByRevenueDesc`: `entries.sort` sorts the list in place. It is modelled by the list it produces. The sort is a library call whose result is pinned down by `RevenueSort.SortCharacterized`.
- `Dates.ParseDate`: `\d` in `strptime` also matches non-ASCII digits. Only ASCII digits are modelled.
- `Dates.ParseDateParts`: the same limit: `%d`, `%m` and `%Y` match ASCII digits only.
- `Dates.ParseDatePartsExactly`: the texts it says are accepted are spelled in ASCII digits only.
- `Dates.ParseDateExactly`: the texts it says are accepted are spelled in ASCII digits only, and the output assumes four-digit years as below.
- `Dates.ParseDate`: the model assumes `strftime("%Y")` zero-pads years below 1000 to four digits. Some C libraries print them unpadded.
- `Dates.Format`: the same assumption: years below 1000 are zero-padded to four digits.
- `Import.ValidateRow`: a CSV cell that `DictReader` leaves as `None` (a short row) is not modelled. Every column is a string.
- `Segment.StateEntries`: `lead["name"]` is assumed present. The type of the stored `Company Revenue` value is taken to be a number, and the mapping from field ids on upload to field names on read is the record store's concern.
- Pagination beyond the first page of 100 leads is not in the code.

## Findings

| source | as written | input that shows it | evidently intended | confidence | as-written member | corrected member |
|---|---|---|---|---|---|---|
| close_script.py:164-166 | `custom.get(founded_field)` is `None` for a lead without the attribute, and `start_date <= None` raises `TypeError`, ending the range search | one stored lead with no `Company Founded` value, any valid bounds | such a lead is not in range and is skipped | not executed | `RangeFilter.SelectAsWritten`, `RangeFilter.MissingFoundedCounterexample` | `RangeFilter.Select`, `RangeFilter.SelectMembership` |
