/** What the program shows (src/main.rs:90-106 and the messages of `main`):
    tables as rows of cells and the one-line messages. The drawing of the
    table by the table library is not modelled, only its cells. */
module Report {
  import opened Text
  import opened Catalog

  /** The header row of a languages table (src/main.rs:93). */
  const Header: seq<string> := ["Name", "Year", "Creators", "Paradigm", "Typing"]

  /** The cells of one record's row (src/main.rs:96-102): the lists of
      creators and paradigms are each joined with ", " into one cell. */
  function RowOf(lang: Language): (row: seq<string>)
    ensures |row| == |Header|
    ensures row[0] == lang.name && row[4] == lang.typing
    ensures row[1] == NatToString(lang.year)
    ensures row[2] == Join(lang.creators, ", ") && row[3] == Join(lang.paradigm, ", ")
    ensures (forall i :: 0 <= i < |row[1]| ==> IsDigit(row[1][i])) && DecimalValue(row[1]) == lang.year
    ensures forall k :: 0 <= k < |lang.creators| ==> Contains(row[2], lang.creators[k])
    ensures forall k :: 0 <= k < |lang.paradigm| ==> Contains(row[3], lang.paradigm[k])
  {
    var row := [lang.name, NatToString(lang.year), Join(lang.creators, ", "), Join(lang.paradigm, ", "), lang.typing];
    DecimalRoundTrip(lang.year);
    forall k | 0 <= k < |lang.creators|
      ensures Contains(row[2], lang.creators[k])
    {
      JoinContainsParts(lang.creators, ", ", k);
    }
    forall k | 0 <= k < |lang.paradigm|
      ensures Contains(row[3], lang.paradigm[k])
    {
      JoinContainsParts(lang.paradigm, ", ", k);
    }
    row
  }

  /** `table` is the header followed by one row per record, in order. */
  ghost predicate Tabulates(table: seq<seq<string>>, languages: seq<Language>) {
    && |table| == |languages| + 1
    && table[0] == Header
    && forall i :: 0 <= i < |languages| ==> table[i + 1] == RowOf(languages[i])
  }

  /** `print_languages_table` (src/main.rs:90-104): add the header, then a
      row for each record. */
  method LanguagesTable(languages: seq<Language>) returns (table: seq<seq<string>>)
    ensures Tabulates(table, languages)
  {
    table := [Header];
    for i := 0 to |languages|
      invariant |table| == i + 1 && table[0] == Header
      invariant forall k :: 0 <= k < i ==> table[k + 1] == RowOf(languages[k])
    {
      table := table + [RowOf(languages[i])];
    }
  }

  /** The heading above the full listing (src/main.rs:114). */
  const ListHeading: string := "Displaying all programming languages:"

  /** The heading above the `search` results (src/main.rs:127): it quotes
      the query as typed. */
  function SearchHeading(name: string): (msg: string)
    ensures "Search results for '" <= msg && Contains(msg, name)
    ensures msg[|"Search results for '"|..] == name + "':"
  {
    ContainsInFrame("Search results for '", name, "':");
    "Search results for '" + name + "':"
  }

  /** The `search` message when nothing matched (src/main.rs:125). */
  function SearchEmpty(name: string): (msg: string)
    ensures "No languages found matching '" <= msg && Contains(msg, name)
    ensures msg[|"No languages found matching '"|..] == name + "'"
  {
    ContainsInFrame("No languages found matching '", name, "'");
    "No languages found matching '" + name + "'"
  }

  /** The heading above the `year` results (src/main.rs:141): the year in
      decimal. */
  function YearHeading(year: U32): (msg: string)
    ensures "Languages created in " <= msg && Contains(msg, NatToString(year))
    ensures msg[|"Languages created in "|..] == NatToString(year) + ":"
  {
    ContainsInFrame("Languages created in ", NatToString(year), ":");
    "Languages created in " + NatToString(year) + ":"
  }

  /** The `year` message when no record has the year (src/main.rs:139). */
  function YearEmpty(year: U32): (msg: string)
    ensures "No languages created in " <= msg && Contains(msg, NatToString(year))
    ensures msg[|"No languages created in "|..] == NatToString(year)
  {
    ContainsInFrame("No languages created in ", NatToString(year), "");
    assert "No languages created in " + NatToString(year) + "" == "No languages created in " + NatToString(year);
    "No languages created in " + NatToString(year)
  }

  /** The heading above the `creator` results (src/main.rs:159). */
  function CreatorHeading(name: string): (msg: string)
    ensures "Languages created by '" <= msg && Contains(msg, name)
    ensures msg[|"Languages created by '"|..] == name + "':"
  {
    ContainsInFrame("Languages created by '", name, "':");
    "Languages created by '" + name + "':"
  }

  /** The `creator` message when no record matched (src/main.rs:157). */
  function CreatorEmpty(name: string): (msg: string)
    ensures "No languages found created by '" <= msg && Contains(msg, name)
    ensures msg[|"No languages found created by '"|..] == name + "'"
  {
    ContainsInFrame("No languages found created by '", name, "'");
    "No languages found created by '" + name + "'"
  }

  /** The year in a `year` message reads back as the year asked for. */
  lemma YearEmptyNamesYear(year: U32)
    ensures var msg := YearEmpty(year);
            |msg| > 24 && msg[..24] == "No languages created in "
            && (forall i :: 24 <= i < |msg| ==> IsDigit(msg[i]))
            && DecimalValue(msg[24..]) == year
  {
    var msg := YearEmpty(year);
    assert msg[24..] == NatToString(year);
    DecimalRoundTrip(year);
  }
}
