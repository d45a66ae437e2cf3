/** Choosing and parsing the catalog file (`load_languages`,
    src/main.rs:54-88). Reading a file and parsing JSON are outside the
    model: `read` answers whether a path can be read and with what text,
    and `parse` whether a text is a well-formed catalog. */
module Loader {
  import opened Wrappers
  import opened Text
  import opened Catalog

  /** The two ways loading fails; the program panics with the message. */
  datatype LoadError =
    | DataNotFound(message: string)
    | MalformedData

  /** `PathBuf::join` of a relative path onto a directory, on Unix: a
      separator is added unless the directory is empty or already ends in
      one. */
  function JoinPath(dir: string, rel: string): (p: string)
    ensures dir <= p
    ensures |p| >= |rel| && p[|p| - |rel|..] == rel
    ensures |dir| + |rel| <= |p| <= |dir| + 1 + |rel|
    ensures dir == [] || dir[|dir| - 1] == '/' ==> p == dir + rel
    ensures !(dir == [] || dir[|dir| - 1] == '/') ==> p == dir + "/" + rel
  {
    if dir == [] || dir[|dir| - 1] == '/' then dir + rel else dir + "/" + rel
  }

  /** The four places probed, in order (src/main.rs:56-69): the working
      directory, beside the executable, the system data directory and the
      user's local data directory. The two directories are given, because
      finding them is I/O. */
  function CandidatePaths(exeDir: string, dataLocalDir: string): (paths: seq<string>)
    ensures |paths| == 4
    ensures paths[0] == "languages.json" && paths[2] == "/usr/local/share/kapa/languages.json"
    ensures paths[1] == JoinPath(exeDir, "languages.json") && paths[3] == JoinPath(dataLocalDir, "kapa/languages.json")
    ensures exeDir <= paths[1] && dataLocalDir <= paths[3]
    ensures |paths[3]| >= 19 && paths[3][|paths[3]| - 19..] == "kapa/languages.json"
    ensures forall i :: 0 <= i < 4 ==> |paths[i]| >= 14 && paths[i][|paths[i]| - 14..] == "languages.json"
  {
    var beside := JoinPath(exeDir, "languages.json");
    var user := JoinPath(dataLocalDir, "kapa/languages.json");
    EndsInDataFile("languages.json");
    EndsInDataFile(beside);
    EndsInDataFile("/usr/local/share/kapa/languages.json");
    EndsInDataFile(user);
    ["languages.json", beside, "/usr/local/share/kapa/languages.json", user]
  }

  /** A path ending in `kapa/languages.json` ends in `languages.json`. */
  lemma EndsInDataFile(p: string)
    requires |p| >= 14
    requires p[|p| - 14..] == "languages.json"
      || (|p| >= 19 && p[|p| - 19..] == "kapa/languages.json")
    ensures p[|p| - 14..] == "languages.json"
  {
    if |p| >= 19 && p[|p| - 19..] == "kapa/languages.json" {
      assert p[|p| - 14..] == p[|p| - 19..][5..];
    }
  }

  /** Position `i` is the first path that can be read. */
  ghost predicate FirstReadableAt(paths: seq<string>, read: string -> Option<string>, i: int) {
    0 <= i < |paths| && read(paths[i]).Some? && forall j :: 0 <= j < i ==> read(paths[j]).None?
  }

  /** `paths.iter().find_map(|path| fs::read_to_string(path).ok())`
      (src/main.rs:71-73): the position of the first readable path. Later
      paths are not tried once one has been read. */
  function FirstReadable(paths: seq<string>, read: string -> Option<string>): (r: Option<nat>)
    ensures r.None? <==> forall i :: 0 <= i < |paths| ==> read(paths[i]).None?
    ensures r.Some? ==> FirstReadableAt(paths, read, r.value)
    decreases |paths|
  {
    if paths == [] then None
    else if read(paths[0]).Some? then Some(0)
    else
      match FirstReadable(paths[1..], read)
      case None => None
      case Some(i) => Some(i + 1)
  }

  /** The panic message when nothing could be read (src/main.rs:75-84):
      every path tried, one per line. */
  function NotFoundMessage(paths: seq<string>): (msg: string)
    ensures "Could not find languages.json in any of these locations:\n- " <= msg
    ensures |msg| >= 58 && msg[|msg| - 58..] == "\n\nPlease ensure the data file exists in one of these paths"
  {
    "Could not find languages.json in any of these locations:\n- "
      + Join(paths, "\n- ")
      + "\n\nPlease ensure the data file exists in one of these paths"
  }

  /** The message names every path that was tried. */
  lemma NotFoundMessageListsPaths(paths: seq<string>, k: nat)
    requires k < |paths|
    ensures Contains(NotFoundMessage(paths), paths[k])
  {
    var head := "Could not find languages.json in any of these locations:\n- ";
    var tail := "\n\nPlease ensure the data file exists in one of these paths";
    var joined := Join(paths, "\n- ");
    JoinContainsParts(paths, "\n- ", k);
    ContainsIff(joined, paths[k]);
    var i :| OccursAt(joined, paths[k], i);
    var msg := NotFoundMessage(paths);
    assert msg == head + joined + tail;
    assert msg[|head| + i..|head| + i + |paths[k]|] == joined[i..i + |paths[k]|];
    assert OccursAt(msg, paths[k], |head| + i);
    ContainsIff(msg, paths[k]);
  }

  /** `serde_json::from_str(&data).expect(..)` (src/main.rs:87): the parsed
      catalog, or a parse failure. */
  function ParseOutcome(parse: string -> Option<seq<Language>>, data: string): (r: Result<seq<Language>, LoadError>)
    ensures r.Success? <==> parse(data).Some?
    ensures r.Success? ==> r.value == parse(data).value
    ensures r.Failure? ==> r.error == MalformedData
  {
    match parse(data)
    case Some(languages) => Success(languages)
    case None => Failure(MalformedData)
  }

  /** `load_languages`: the first readable candidate is parsed, and its
      parse decides the outcome, even when a later candidate would have
      parsed; when nothing is readable, the error lists every candidate. */
  function LoadLanguages(paths: seq<string>, read: string -> Option<string>, parse: string -> Option<seq<Language>>)
    : (r: Result<seq<Language>, LoadError>)
    ensures (forall i :: 0 <= i < |paths| ==> read(paths[i]).None?) <==> r == Failure(DataNotFound(NotFoundMessage(paths)))
    ensures forall i :: FirstReadableAt(paths, read, i) ==> r == ParseOutcome(parse, read(paths[i]).value)
    ensures r.Failure? && r.error.MalformedData? <==> exists i :: FirstReadableAt(paths, read, i) && parse(read(paths[i]).value).None?
  {
    match FirstReadable(paths, read)
    case None => Failure(DataNotFound(NotFoundMessage(paths)))
    case Some(i) => ParseOutcome(parse, read(paths[i]).value)
  }

  /** At most one position is the first readable one. */
  lemma FirstReadableUnique(paths: seq<string>, read: string -> Option<string>, i: int, i': int)
    requires FirstReadableAt(paths, read, i) && FirstReadableAt(paths, read, i')
    ensures i == i'
  {
    var both := (read(paths[i]), read(paths[i']));
  }

  /** What lies after the first readable candidate is never consulted:
      two file systems that agree up to and including it load the same
      catalog. */
  lemma LaterCandidatesIgnored(paths: seq<string>, read: string -> Option<string>, read': string -> Option<string>,
                               parse: string -> Option<seq<Language>>, i: nat)
    requires FirstReadableAt(paths, read, i)
    requires forall j :: 0 <= j <= i ==> read(paths[j]) == read'(paths[j])
    ensures LoadLanguages(paths, read, parse) == LoadLanguages(paths, read', parse)
  {
    assert FirstReadableAt(paths, read', i);
  }

  /** `load_languages()` as `main` calls it (src/main.rs:55-88): the four
      candidate paths are probed in order. A readable `languages.json` in
      the working directory is always the one parsed, whatever the other
      three locations hold. */
  function Load(exeDir: string, dataLocalDir: string, read: string -> Option<string>, parse: string -> Option<seq<Language>>)
    : (r: Result<seq<Language>, LoadError>)
    ensures var paths := CandidatePaths(exeDir, dataLocalDir);
      (forall i :: 0 <= i < 4 ==> read(paths[i]).None?) <==> r == Failure(DataNotFound(NotFoundMessage(paths)))
    ensures var paths := CandidatePaths(exeDir, dataLocalDir);
      forall i :: FirstReadableAt(paths, read, i) ==> r == ParseOutcome(parse, read(paths[i]).value)
    ensures read("languages.json").Some? ==> r == ParseOutcome(parse, read("languages.json").value)
  {
    var paths := CandidatePaths(exeDir, dataLocalDir);
    assert read("languages.json").Some? ==> FirstReadableAt(paths, read, 0);
    LoadLanguages(paths, read, parse)
  }
}
