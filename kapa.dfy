/** The command dispatch of `main` (src/main.rs:108-189): one command, one
    query over the loaded catalog, one output. Parsing the command line is
    not modelled; the parsed command is the input. */
module Kapa {
  import opened Wrappers
  import opened Catalog
  import Query
  import Statistics
  import opened Report
  import Loader

  /** The subcommands (src/main.rs:27-52). */
  datatype Command =
    | List
    | Search(name: string)
    | Year(year: U32)
    | Creator(name: string)
    | Stats

  /** What a command shows: a heading over a table, a one-line message, or
      the statistics. */
  datatype Output =
    | Table(heading: string, rows: seq<seq<string>>)
    | Message(text: string)
    | Summary(stats: Statistics.Stats)

  /** Why a run ends in a panic: loading the catalog failed, or `stats`
      found no record. */
  datatype KapaError =
    | LoadFailed(loadError: Loader.LoadError)
    | StatsFailed(statsError: Statistics.StatsError)

  /** A selecting command's output: its heading over the table of the
      selected records, or, when none was selected, its message instead. */
  ghost predicate Shows(out: Output, selected: seq<Language>, heading: string, empty: string) {
    if selected == [] then out == Message(empty)
    else out.Table? && out.heading == heading && Tabulates(out.rows, selected)
  }

  /** The tail of each selecting arm (src/main.rs:124-129, 138-143,
      156-161): the message when nothing was selected, else the heading and
      the table of the selection. */
  method Present(selected: seq<Language>, heading: string, empty: string) returns (out: Output)
    ensures Shows(out, selected, heading, empty)
  {
    if selected == [] {
      out := Message(empty);
    } else {
      var rows := LanguagesTable(selected);
      out := Table(heading, rows);
    }
  }

  /** `r` is what `command` gives over the catalog `languages`: only
      `stats` on an empty catalog fails; `list` tabulates every record;
      `search`, `year` and `creator` show their selection or their message;
      `stats` reports the statistics. */
  ghost predicate Answers<E>(command: Command, languages: seq<Language>, r: Result<Output, E>) {
    && (r.Failure? <==> command.Stats? && languages == [])
    && (command.List? ==> r.Success? && r.value.Table? && r.value.heading == ListHeading && Tabulates(r.value.rows, languages))
    && (command.Search? ==> r.Success? && Shows(r.value, Query.Search(languages, command.name), SearchHeading(command.name), SearchEmpty(command.name)))
    && (command.Year? ==> r.Success? && Shows(r.value, Query.FilterByYear(languages, command.year), YearHeading(command.year), YearEmpty(command.year)))
    && (command.Creator? ==> r.Success? && Shows(r.value, Query.FilterByCreator(languages, command.name), CreatorHeading(command.name), CreatorEmpty(command.name)))
    && (command.Stats? && r.Success? ==> r.value.Summary? && Statistics.Describes(r.value.stats, languages))
  }

  /** The `match cli.command` of `main`. Only `stats` on an empty catalog
      fails (the `unwrap` panics); a query that selects nothing is not an
      error. */
  method Run(command: Command, languages: seq<Language>) returns (r: Result<Output, Statistics.StatsError>)
    ensures Answers(command, languages, r)
  {
    match command
    case List =>
      var rows := LanguagesTable(languages);
      r := Success(Table(ListHeading, rows));
    case Search(name) =>
      var filtered := Query.Search(languages, name);
      var out := Present(filtered, SearchHeading(name), SearchEmpty(name));
      r := Success(out);
    case Year(year) =>
      var filtered := Query.FilterByYear(languages, year);
      var out := Present(filtered, YearHeading(year), YearEmpty(year));
      r := Success(out);
    case Creator(name) =>
      var filtered := Query.FilterByCreator(languages, name);
      var out := Present(filtered, CreatorHeading(name), CreatorEmpty(name));
      r := Success(out);
    case Stats =>
      var stats := Statistics.ComputeStats(languages);
      match stats
      case Failure(e) => r := Failure(e);
      case Success(s) => r := Success(Summary(s));
  }

  /** `r` is what `main` ends with after loading gave `loaded`: the load
      failure itself, or the command's answer over the loaded catalog, in
      which only the `stats` failure can occur. */
  ghost predicate Completes(command: Command, loaded: Result<seq<Language>, Loader.LoadError>, r: Result<Output, KapaError>) {
    && (loaded.Failure? ==> r == Failure(LoadFailed(loaded.error)))
    && (loaded.Success? ==> Answers(command, loaded.value, r) && (r.Failure? ==> r.error == StatsFailed(Statistics.EmptyCatalog)))
  }

  /** Re-labelling the `stats` failure as a run failure keeps the answer. */
  lemma AnswersCarry(command: Command, languages: seq<Language>, answer: Result<Output, Statistics.StatsError>,
                     r: Result<Output, KapaError>)
    requires Answers(command, languages, answer)
    requires answer.Success? ==> r == Success(answer.value)
    requires answer.Failure? ==> r == Failure(StatsFailed(answer.error))
    ensures Answers(command, languages, r)
    ensures r.Failure? ==> r.error == StatsFailed(Statistics.EmptyCatalog)
  {
  }

  /** `main` (src/main.rs:108-189): the catalog is loaded before the
      command is looked at, so a load failure ends every command, `list`
      included; otherwise the command runs over the loaded catalog. */
  method Execute(command: Command, exeDir: string, dataLocalDir: string,
                 read: string -> Option<string>, parse: string -> Option<seq<Language>>)
    returns (r: Result<Output, KapaError>)
    ensures Completes(command, Loader.Load(exeDir, dataLocalDir, read, parse), r)
  {
    var loaded := Loader.Load(exeDir, dataLocalDir, read, parse);
    if loaded.Failure? {
      return Failure(LoadFailed(loaded.error));
    }
    var answer := Run(command, loaded.value);
    if answer.Success? {
      r := Success(answer.value);
    } else {
      r := Failure(StatsFailed(answer.error));
    }
    AnswersCarry(command, loaded.value, answer, r);
  }
}
