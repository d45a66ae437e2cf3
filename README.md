# kapa query engine in Dafny

kapa is a command-line tool that loads a catalog of programming languages
from `languages.json` and answers one command per run: `list`, `search
<name>`, `year <year>`, `creator <name>` and `stats`. This project models
the part of `src/main.rs` that decides what each command shows:

- `Catalog` — the `Language` record, with the year as a `u32`.
- `Text` — lower-casing (ASCII), substring search as a left-to-right scan,
  `join`, and the decimal rendering of a number.
- `Query` — the `search`, `year` and `creator` filters as one generic
  `Filter` over `seq<Language>`, proved to keep exactly the accepted records,
  with their multiplicities, in catalog order.
- `Statistics` — `min_by_key`/`max_by_key` on the year as the folds Rust
  runs, and the paradigm-counting double loop as a method that updates a
  `map<string, nat>`, proved to count every occurrence of every tag.
- `Loader` — the choice of the first readable candidate path, the parse of
  that one file with no fallback, and the "not found" message listing every
  path.
- `Report` — the cells of each table row and the one-line messages.
- `Kapa` — `main`: loading the catalog, then the `match` on the command,
  returning what is shown, the load failure, or the failure of `stats` on an
  empty catalog.
- `Scenarios` — worked cases over a Rust/Go catalog, and the two tie and
  repeated-tag cases below.

Reading files, parsing JSON and finding the executable's directory and the
user's data directory are inputs: `read` and `parse` are function parameters,
and the two directories are strings. Panics (`unwrap`, `expect`, `panic!`)
are `Failure` values.

Three points where the code does something other than the natural reading
of the tool's behaviour; the model follows the code:

- `stats` reports as latest the **last** record of the greatest year
  (`max_by_key` keeps the later of two equal keys), while the earliest is the
  **first** record of the smallest year (`Scenarios.TieGoesBothWays`). A
  natural reading has the first record win both ties.
- The paradigm counts count every **occurrence** of a tag, so a record that
  lists a tag twice adds two (`Scenarios.RepeatedTagCountedTwice`). A
  natural reading has a count be the number of records that list the tag. The
  two agree when no record repeats a tag (`Statistics.TagCountVersusRecords`).
- A missing data file, malformed data and `stats` on an empty catalog are
  not error values in the code: it panics in all three cases. The model
  returns them as `Failure` values (`DataNotFound`, `MalformedData`,
  `EmptyCatalog`).

## Model

| member | source | states |
|---|---|---|
| `Text.LowerChar` | src/main.rs:120 | the lower-case form of a character is never an ASCII capital; capitals move up by 32 code points to `a`..`z`, every other character is kept |
| `Text.Lower` | src/main.rs:120 | `to_lowercase` keeps the length, leaves no ASCII capital, and at each position holds the lower-case form of the input's character |
| `Text.LowerIdempotent` | src/main.rs:120 | lower-casing a lower-cased string changes nothing |
| `Text.LowerEqualIff` | src/main.rs:120 | two strings lower-case alike exactly when they have the same length and each position holds the same character, or a capital opposite the letter 32 code points above it |
| `Text.ContainsIff` | src/main.rs:120 | the `contains` scan succeeds exactly when the pattern occurs at some position of the text |
| `Text.Contains` | src/main.rs:120 | a pattern that starts the text (the empty one included) is found, and a found pattern is no longer than the text |
| `Text.Join` | src/main.rs:99-100 | the join of no parts is empty; otherwise it starts with the first part and ends with the last |
| `Text.JoinLength` | src/main.rs:99-100 | a join is as long as its parts plus one separator between each pair of neighbours |
| `Text.JoinContainsParts` | src/main.rs:99-100 | each part of a join occurs in the joined text |
| `Text.NatToString` | src/main.rs:98 | the rendered year is a non-empty string of decimal digits with no leading zero, except for `0` itself |
| `Text.DecimalRoundTrip` | src/main.rs:98 | reading the rendered digits back gives the number |
| `Text.NatToStringInjective` | src/main.rs:98 | different years render differently |
| `Query.Filter` | src/main.rs:118-122 | `filter(..).cloned().collect()` is no longer than its input, keeps an element iff the test accepts it, keeps each accepted element as often as the input has it, and keeps the input's order (a subsequence) |
| `Query.FilterKeepsAll` | src/main.rs:118-122 | a test that accepts every element gives back the whole input |
| `Query.FilterIsGreatest` | src/main.rs:118-122 | every order-preserving selection of accepted elements is a subsequence of the filter's result, so nothing acceptable is dropped |
| `Query.Search` | src/main.rs:117-122 | `search` keeps exactly the records whose lower-cased name contains the lower-cased query, with their multiplicities, in catalog order |
| `Query.SearchEmptyQuery` | src/main.rs:118-122 | an empty query returns the whole catalog unchanged |
| `Query.SearchIgnoresQueryCase` | src/main.rs:120 | searching with the lower-cased query gives the same records as the original query |
| `Query.FilterByYear` | src/main.rs:131-136 | `year` keeps exactly the records of that year, in catalog order, and is empty iff no record has that year |
| `Query.AnyCreatorMatches` | src/main.rs:148-152 | `any` over the creators holds iff some creator, lower-cased, contains the lower-cased query |
| `Query.FilterByCreator` | src/main.rs:145-154 | `creator` keeps exactly the records with a matching creator, in catalog order; a record without creators is never kept |
| `Statistics.MinFold` | src/main.rs:165 | the `min_by` fold, started from the winner of a prefix, ends on the first record of minimal year |
| `Statistics.MaxFold` | src/main.rs:166 | the `max_by` fold, started from the winner of a prefix, ends on the last record of maximal year |
| `Statistics.MinByYear` | src/main.rs:165 | `min_by_key` is `None` iff the catalog is empty, and otherwise the first record whose year no record undercuts |
| `Statistics.MaxByYear` | src/main.rs:166 | `max_by_key` is `None` iff the catalog is empty, and otherwise the last record whose year no record exceeds |
| `Statistics.FirstMinUnique` | src/main.rs:165 | only one position is the first of minimal year |
| `Statistics.LastMaxUnique` | src/main.rs:166 | only one position is the last of maximal year |
| `Statistics.TagBagHolds` | src/main.rs:174-177 | a tag is counted iff some record's paradigm list holds it |
| `Statistics.TagCountVersusRecords` | src/main.rs:174-177 | a tag's count is at least the number of records that list it, and equal to it when no record lists the tag twice |
| `Statistics.TallyOne` | src/main.rs:176 | one `entry(tag).or_insert(0) += 1` adds exactly one occurrence of the tag to the counts |
| `Statistics.CountParadigms` | src/main.rs:173-178 | after the double loop the map's keys are exactly the tags some record lists, and each value is the tag's number of occurrences over all lists |
| `Statistics.ComputeStats` | src/main.rs:163-178 | `stats` fails iff the catalog is empty; otherwise the count is the catalog's length, earliest is the first record of minimal year, latest the last record of maximal year, and the counts are those of the loop; the result is the report `StatsOf` specifies |
| `Statistics.StatsOf` | src/main.rs:164-178 | the report of `stats` is a failure iff the catalog is empty, and otherwise has the catalog's length as count, the first record of minimal year, the last record of maximal year and every tag with its number of occurrences |
| `Statistics.DescribesExactly` | src/main.rs:164-178 | those four facts fix the report: a report satisfies them iff it is the one `stats` gives |
| `Statistics.StatsBounds` | src/main.rs:164-178 | on a non-empty catalog the reported earliest and latest are catalog records whose years bound every record's year, and the counted tags are exactly those some record lists |
| `Loader.JoinPath` | src/main.rs:60-68 | joining a relative path onto a directory is the directory followed by the path, with one `/` between them unless the directory is empty or already ends in `/` |
| `Loader.CandidatePaths` | src/main.rs:56-69 | four candidates in fixed order: `languages.json` in the working directory, `languages.json` joined onto the executable's directory, `/usr/local/share/kapa/languages.json`, and `kapa/languages.json` joined onto the user's data directory; each ends in `languages.json` |
| `Loader.FirstReadable` | src/main.rs:71-73 | `find_map` finds nothing iff no candidate is readable, and otherwise the first readable candidate |
| `Loader.NotFoundMessage` | src/main.rs:74-84 | the "not found" message opens with the line naming `languages.json` and closes with the request to put the file in one of the paths |
| `Loader.NotFoundMessageListsPaths` | src/main.rs:74-84 | the "not found" message names every candidate path |
| `Loader.ParseOutcome` | src/main.rs:87 | the parse succeeds with the parsed catalog exactly when the text is a well-formed catalog, and otherwise fails with `MalformedData` |
| `Loader.LoadLanguages` | src/main.rs:71-87 | with no readable candidate the result is the not-found error with that message; otherwise the first readable candidate's parse decides the result, and the result is `MalformedData` iff that parse fails, whatever later candidates hold |
| `Loader.Load` | src/main.rs:55-88 | loading probes the four candidate paths: it fails with the message listing all four exactly when none is readable, the first readable one's parse decides otherwise, and a readable `languages.json` in the working directory always wins |
| `Loader.FirstReadableUnique` | src/main.rs:71-73 | only one candidate is the first readable one |
| `Loader.LaterCandidatesIgnored` | src/main.rs:71-73 | candidates after the first readable one never change the outcome |
| `Report.RowOf` | src/main.rs:95-102 | a record's row has a cell per header column: the name; the year's `Display` form, whose digits read back as the year; the creators and the paradigms each joined with ", ", so each cell contains every element; and the typing |
| `Report.LanguagesTable` | src/main.rs:90-104 | the table is the header followed by one row per record in input order |
| `Report.SearchEmpty` | src/main.rs:125 | the empty-search message opens with "No languages found matching '" followed by the query as typed and then `'` |
| `Report.SearchHeading` | src/main.rs:127 | the search heading opens with "Search results for '" followed by the query as typed and then `':` |
| `Report.YearEmpty` | src/main.rs:139 | the empty-year message opens with "No languages created in " followed by the year's decimal digits; nothing else follows |
| `Report.YearHeading` | src/main.rs:141 | the year heading opens with "Languages created in " followed by the year's decimal digits and then `:` |
| `Report.CreatorEmpty` | src/main.rs:157 | the empty-creator message opens with "No languages found created by '" followed by the query as typed and then `'` |
| `Report.CreatorHeading` | src/main.rs:159 | the creator heading opens with "Languages created by '" followed by the query as typed and then `':` |
| `Report.YearEmptyNamesYear` | src/main.rs:139 | the "No languages created in" message ends with the decimal digits of the year asked for |
| `Kapa.Present` | src/main.rs:124-129 | an empty selection shows the command's message; otherwise its heading over the table of the selected records |
| `Kapa.Run` | src/main.rs:112-188 | only `stats` on an empty catalog fails; `list` tabulates the whole catalog; `search`, `year` and `creator` show their filter's records or their message when there are none; `stats` reports the statistics |
| `Kapa.Execute` | src/main.rs:108-189 | `main` loads before it dispatches: a load failure is the outcome of every command, `list` included; otherwise the outcome is the command's answer over the loaded catalog, whose only failure is `stats` on an empty catalog |
| `Scenarios.SearchRu` | src/main.rs:117-122 | searching "ru" in [Rust, Go] returns [Rust] |
| `Scenarios.Year2009` | src/main.rs:131-136 | the 2009 filter over [Rust 2010, Go 2009] returns [Go] |
| `Scenarios.CreatorAnders` | src/main.rs:145-154 | no creator of Rust or Go contains "Anders", so the creator filter returns nothing |
| `Scenarios.StatsOfRustAndGo` | src/main.rs:164-166 | the statistics of [Rust 2010, Go 2009] count 2 records, with Go earliest and Rust latest |
| `Scenarios.TieGoesBothWays` | src/main.rs:165-166 | with two records of one year, the earliest is the first and the latest is the second |
| `Scenarios.RepeatedTagCountedTwice` | src/main.rs:174-177 | a single record listing "functional" twice gives it a count of 2 although one record lists it |

## Left out

- Command-line parsing (`clap`, src/main.rs:16-52, 109): the parsed `Command` is the model's input.
- Finding the executable's directory and the user's data directory (`env::current_exe`, `dirs::data_local_dir`, src/main.rs:60-68), and the panics when they fail: both directories are parameters.
- Reading files (`fs::read_to_string`) and JSON decoding (`serde_json::from_str`, src/main.rs:73, 87): they are the `read` and `parse` parameters of `Loader.LoadLanguages`; serde's diagnostic text is not kept in `MalformedData`.
- Text.Lower: lower-cases ASCII letters only; Rust's `to_lowercase` follows Unicode, which the model does not include.
- Drawing tables with `prettytable` and printing with `println!`/`printstd`: the model keeps the cells of each row and the message texts, not their layout. The four summary lines of `stats` and its counts table are not rendered; `Kapa.Run` returns the statistics themselves.
- The order in which the `HashMap` of counts is iterated (src/main.rs:183): it is arbitrary, and the model's counts are a `map`.
- Statistics.CountParadigms: counts are unbounded naturals; the source's `i32` counter would overflow past 2147483647 occurrences of one tag.
- `influenced_by` is loaded and never used by any command, so it is only a field of `Language`.
