# Pôle Emploi public — a Dafny model of the offer filter

The application is a single Streamlit page, `app.py`. It shows French
public-sector job offers taken from a weekly CSV snapshot of
data.gouv.fr. This project models the logic of that page behind the widgets:

- **Option lists and defaults.** The option list of each multiselect is the
  distinct non-missing values of a column, in order of first appearance. The
  default selections are the options containing "Etat", "Catégorie A" or
  "itulaire", and the locations that mention Paris or an Île-de-France
  department number (module `Options`).
- **The filter engine.** It applies the four `isin` masks and the title
  keyword search. It projects five columns, parses the publication date with
  `%d/%m/%Y` (errors become NaT) and attaches the offer link with its
  clickable copy. Finally it sorts by date, newest first, with undated rows
  last (modules `FilterEngine`, `DateParse`, `Links`, `Records`).
- **The snapshot locator.** This is the pure part of `update_dataframe`. It
  computes the date of the expected weekly file from the current day, then
  finds the file's download URL in the catalogue page text with the regular
  expression of the code (module `Snapshot`). The calendar arithmetic it
  needs (Python's proleptic Gregorian day numbers and weekdays) is in
  `Calendar`.

Supporting modules:

- `Text`: ASCII case folding, substring and alternation search, `str.split`
  and `str.join`, numerals.
- `Seqs`: subsequences and filtering.
- `Wrappers`: `Option`.

Every cell of the offer table is an `Option<string>`, where `None` is a
pandas NaN. The current day and the HTML of the catalogue page are
parameters.

Points where the code is easy to misread:

- **Empty multiselect.** When a multiselect is emptied, `isin([])` is false
  for every row, so the table is empty. It is not "no constraint".
- **Snapshot day.** The snapshot date is the Sunday before the current day
  (`weekday() + 1` days back), not a Monday. This is so even though the
  variable is called `monday` and the button says "lundi".
- **Links.** The link is the search URL
  `https://choisirleservicepublic.gouv.fr/nos-offres/filtres/mot-cles/<reference>/`.
  It is not a slug-based offer URL.
- **Title filter.** The title filter searches only the job title, not the
  organisation.
- **Sort order.** The sort by date is pandas' default unstable quicksort, so
  nothing is promised about the order of rows with equal dates.

## Model

| member | source | states |
|---|---|---|
| Options.UniqueValues | app.py:48-49 | the option list has no duplicates, holds exactly the values that occur non-missing in the column, and lists them in the order of their first occurrence |
| Options.UniqueValuesCharacterised | app.py:48-49 | any list with those three properties is the option list, so they determine it completely |
| Options.OptionsContaining | app.py:70-77 | each of the Versant, Catégorie and Nature defaults (`DefaultVersant`, `DefaultCategorie`, `DefaultNature`, with "Etat", "Catégorie A", "itulaire") is a subsequence of the options and holds exactly the options containing its text, each as often as among the options |
| Options.DefaultLocalisation | app.py:80-81 | the default is a subsequence of the options and holds exactly the options matched by the Paris/91/92/93/94/95/77/78 search, each as often as among the options |
| Options.MentionsIleDeFranceSpec | app.py:81 | a location matches that search exactly when it contains one of the eight markers somewhere |
| FilterEngine.Keywords | app.py:98 | splitting the title input on `&` gives at least one keyword, no keyword contains `&`, and joining them with `&` gives the input back |
| FilterEngine.TitleMatchSpec | app.py:99 | a title passes exactly when it is present and, ignoring ASCII case, contains at least one keyword |
| FilterEngine.EmptyKeywordMatchesAll | app.py:98-99 | an empty input or one ending in `&` yields an empty keyword, so every present title passes |
| FilterEngine.DefaultKeywords | app.py:68 | the starting input splits into "data", "Data", "générative", " IA", "LLM" |
| FilterEngine.DefaultTitleFilter | app.py:68-99 | with the starting input, a title passes exactly when its lower-cased text contains "data", "générative", " ia" (space included) or "llm" |
| FilterEngine.FilterOffers | app.py:90-99 | the kept offers are a subsequence of the input; each passes all four `isin` masks and the title search; every passing offer is kept as often as it occurs; an empty multiselect keeps nothing |
| FilterEngine.SortByDate | app.py:107 | the result is a permutation of its input, with dates non-increasing and every undated row after every dated one |
| FilterEngine.SortKeepsUndatedOrder | app.py:107 | the undated (NaT) rows come out in the order they went in |
| FilterEngine.View | app.py:90-107 | the rows of the final table (`final_df`, shown without its `Lien` column and exported in full) are, as a multiset, the projections of exactly the kept offers; they are sorted newest first with NaT last; each row's link is the offer link and the clickable column equals it; each row comes from an input offer that passes every mask; an empty multiselect leaves it empty |
| FilterEngine.RowsFromKeptOffers | app.py:101-106 | every projected row carries the organisation, title, location and reference of a kept offer, unchanged, together with its parsed date |
| Seqs.Filter | app.py:90-95 | a boolean mask keeps a subsequence whose elements all pass, each passing element as often as in the input |
| Seqs.FilterTwice | app.py:90-99 | applying the category mask and then the title mask is the same as applying their conjunction once |
| Text.ContainsSpec | app.py:71 | the substring test (`in`) holds exactly when the substring occurs at some position |
| Text.SearchAnySpec | app.py:99 | a search for an alternation of literal words succeeds exactly when one of the words occurs |
| Text.JoinSplit | app.py:98 | joining the pieces of `split(sep)` with `sep` restores the text |
| Text.SplitJoin | app.py:98 | splitting a join of separator-free pieces gives the pieces back |
| DateParse.ParseDayMonthYear | app.py:102 | a parsed date is a real calendar date inside the range a pandas Timestamp can hold |
| DateParse.ParseSpellings | app.py:102 | a cell parses to a date exactly when the date is real, inside the Timestamp range, and the cell is one of its spellings (two-digit day and month, or below 10 a bare digit, and for the day also a space and the digit; four-digit year); every other cell, such as `31/02/2020`, is NaT |
| DateParse.ParseFormat | app.py:102 | every date in that range written as dd/mm/yyyy parses back to itself |
| Links.Link | app.py:103 | the link is the fixed search prefix, then the reference text (`nan` for a missing reference), then `/` |
| Links.ReferenceOf | app.py:103 | a link-shaped text is the prefix, the recovered reference and `/` |
| Links.ReferenceRoundTrip | app.py:103 | stripping the prefix and final slash from a link recovers the reference text exactly |
| Links.LinkInjective | app.py:103-106 | offers with different reference texts get different links |
| Calendar.PrevDay | app.py:14 | the previous day has day number one less; there is none before 0001-01-01 |
| Calendar.DaysBack | app.py:14 | going back k days lowers the day number by k, and fails exactly when that would pass 0001-01-01 (Python's OverflowError) |
| Calendar.OrdinalInjective | app.py:14 | different dates have different day numbers, so counting back by day numbers names one date |
| Calendar.BackToSunday | app.py:14 | going back weekday+1 days from any day lands on a Sunday, 1 to 7 days earlier, with no Sunday in between |
| Snapshot.SnapshotDate | app.py:14 | the file date is the last Sunday strictly before today, 1 to 7 days back; none exists only when that would pass 0001-01-01 |
| Snapshot.SnapshotDateAsWritten | app.py:14 | the expression with two clock readings goes back from the first reading by the second reading's weekday plus one, and fails exactly when that would pass 0001-01-01 |
| Snapshot.SingleReadingAgrees | app.py:14 | when both clock readings fall on the same day the expression gives the last Sunday |
| Snapshot.ClockReadTwiceAcrossMidnight | app.py:14 | readings on Sunday 2026-10-04 and Monday 2026-10-05 give Saturday 2026-10-03 |
| Snapshot.Stamp | app.py:14 | `%Y%m%d` of a date is eight digits |
| Snapshot.StampRoundTrip | app.py:14 | reading the eight digits back gives the date, so the file name identifies the snapshot |
| Snapshot.FirstMatch | app.py:25 | the search returns the leftmost position where the pattern matches, and none only when it matches nowhere |
| Snapshot.Search | app.py:25-28 | the captured group is the one of the leftmost match; it is the URL head followed by at least one non-quote character; there is no capture exactly when the pattern matches nowhere |
| Snapshot.ExtractCsvUrl | app.py:24-28 | with the dots of the pattern escaped, a found URL starts with the data.gouv.fr resource prefix, extends it, has no quote, and is the URL of the leftmost entry of the expected file; nothing is found exactly when the page has no such entry, in particular when the file name is absent |
| Snapshot.ExtractAsWritten | app.py:24-28 | with the dots as wildcards, the URL is group 1 of the leftmost match of the whole pattern (the file key, the URL head, a run of non-quote characters, a closing quote); it runs from the end of a wildcard match of the key up to the next `"` and extends a prefix-length head with non-quote characters; nothing is found exactly when the pattern matches nowhere |
| Snapshot.LiteralMatchIsWildcardMatch | app.py:24-25 | wherever the pattern with escaped dots matches, the pattern as written matches too |
| Snapshot.UnescapedDotsMatchOtherText | app.py:24 | with the dots as wildcards, a page lacking the file name yields a URL that does not start with the resource prefix, while the literal pattern finds nothing |
| Snapshot.LocateAsWritten | app.py:13-36 | as written (two clock readings, dots as wildcards): out of range exactly when the two-reading date is; a URL is the leftmost wildcard capture for that date's file; "not found" exactly when the wildcard pattern matches nowhere |
| Snapshot.Locate | app.py:13-36 | the corrected locator (one clock reading, dots escaped): out of range exactly when the snapshot date is; a URL is the one of the leftmost entry for that date's file; "not found" exactly when the page has no such entry |
| Snapshot.AsWrittenFindsWhatLocateFinds | app.py:13-36 | with one clock reading the code as written is out of range exactly when the corrected locator is, and finds a URL whenever the corrected locator does |

## Left out

- User interface: page setup, the banner, widgets and table rendering
  (lines 10, 53-62, 64-66, 110-134). They have no logic beyond what is modelled.
- Export: the CSV and Excel encodings of the table (lines 135-141). These are
  library serialisations of the modelled rows.
- Network and files: `requests.get`, BeautifulSoup, `read_csv`, the local
  `offres.csv`, `st.cache_data` and the call to `load_data` (lines 20-21,
  30-31, 39-45, 63). The page text and the table are parameters instead.
- `astype(str)` at lines 43-44 is not a separate step. In a table loaded from
  the file, a missing text cell is the string "nan", so the model holds it as
  `Some("nan")`: that value appears among the options, can be selected, and
  parses to NaT. `None` is the NaN of a table freshly downloaded at lines
  84-86. A missing reference prints as "nan" in the link either way.
- The refresh button (lines 83-87): replacing the table with the downloaded
  one is plain assignment. Only the locator it calls is modelled.
- Keywords are matched literally. Regular-expression metacharacters typed in
  the title box (`|`, `.`, `(`, …) keep their regex meaning in the code. The
  model does not give them that meaning.
- Case-insensitive matching folds ASCII letters only. The code's
  `re.IGNORECASE` also folds non-ASCII letters such as É/é.
- `%d/%m/%Y` parsing accepts ASCII digits only. The code's `\d` also accepts
  other Unicode decimal digits.
- DateParse.ParseDayMonthYear: does not model the cells "now" and "today".
  pandas' `to_datetime` may turn them into the current timestamp before it
  applies the format; the model treats them like any other non-date, as NaT.
- Timestamp bounds are taken at day granularity. Parsed dates are midnight,
  so this is exact for this format.
- DateParse.ParseDayMonthYear: assumes pandas 2.x. The bounds 1677-09-22 and
  2262-04-11 of `InTimestampRange` are those of its nanosecond timestamps. `app.py` pins no pandas version; a
  pandas that parses into a coarser resolution accepts dates outside this
  range, which the model turns into NaT.
- FilterEngine.SortByDate: does not fix the order of dated rows with equal
  dates. The code uses pandas' unstable default sort, whose tie order is an
  implementation detail. The undated rows do keep their input order
  (`FilterEngine.SortKeepsUndatedOrder`).
- Snapshot.Stamp: models `%Y` as four zero-padded digits. Years below 1000
  cannot occur for a current clock, and the platform `strftime` may not pad
  them.
- The current time of day: `datetime.now()` is modelled by its date, since
  only the date reaches the file name. The two readings are separate
  parameters only in `Snapshot.SnapshotDateAsWritten`.

## Findings

| source | as written | input that shows it | evidently intended | confidence | as-written member | corrected member |
|---|---|---|---|---|---|---|
| app.py:24 | the pattern is built from literal text whose dots (`datagouv-….csv`, `www.data.gouv.fr`) are not escaped, so each `.` matches any character | a page containing `"name": "offres-datagouv-<date>Xcsv", "url": "https://wwwXdataXgouvXfr/fr/datasets/r/x"` yields `https://wwwXdataXgouvXfr/fr/datasets/r/x`, a URL on another host, although the file name is absent | match the dots literally (`re.escape`), so only an entry for the exact file name and a data.gouv.fr URL are accepted | not executed; the regex semantics are standard | Snapshot.ExtractAsWritten, Snapshot.LocateAsWritten, Snapshot.UnescapedDotsMatchOtherText | Snapshot.ExtractCsvUrl, Snapshot.Locate |
| app.py:14 | `datetime.now()` is read twice: once for the date, once for the weekday | first reading Sunday 2026-10-04 23:59:59.999999, second reading Monday 2026-10-05 00:00:00 gives file date Saturday 2026-10-03, a file that does not exist | one reading of the clock, giving the last Sunday | not executed; needs the two calls to straddle midnight | Snapshot.SnapshotDateAsWritten, Snapshot.LocateAsWritten, Snapshot.ClockReadTwiceAcrossMidnight | Snapshot.SnapshotDate, Snapshot.Locate |
