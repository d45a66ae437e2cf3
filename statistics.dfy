/** The `stats` command (src/main.rs:163-187): the number of records, the
    earliest and the latest record by year, and how often each paradigm tag
    occurs. */
module Statistics {
  import opened Wrappers
  import opened Catalog

  /** Position `k` holds the first record of minimal year among the first
      `n` records. */
  ghost predicate FirstMinAmong(s: seq<Language>, n: int, k: int) {
    0 <= k < n <= |s|
    && (forall j :: 0 <= j < n ==> s[k].year <= s[j].year)
    && (forall j :: 0 <= j < k ==> s[k].year < s[j].year)
  }

  /** Position `k` holds the last record of maximal year among the first
      `n` records. */
  ghost predicate LastMaxAmong(s: seq<Language>, n: int, k: int) {
    0 <= k < n <= |s|
    && (forall j :: 0 <= j < n ==> s[j].year <= s[k].year)
    && (forall j :: k < j < n ==> s[j].year < s[k].year)
  }

  /** The first record of minimal year: what `min_by_key(|l| l.year)`
      returns. */
  ghost predicate IsFirstMin(s: seq<Language>, k: int) {
    FirstMinAmong(s, |s|, k)
  }

  /** The last record of maximal year: what `max_by_key(|l| l.year)`
      returns. */
  ghost predicate IsLastMax(s: seq<Language>, k: int) {
    LastMaxAmong(s, |s|, k)
  }

  /** The fold behind `min_by_key`: `best` wins among the first `i`
      records, and `cmp::min_by` keeps the one it already has unless the
      next is strictly smaller. */
  function MinFold(s: seq<Language>, best: nat, i: nat): (k: nat)
    requires FirstMinAmong(s, i, best)
    ensures IsFirstMin(s, k)
    decreases |s| - i
  {
    if i == |s| then best
    else MinFold(s, if s[best].year <= s[i].year then best else i, i + 1)
  }

  /** The fold behind `max_by_key`: `cmp::max_by` takes the next record
      whenever it is not strictly smaller, so a tie goes to the later one. */
  function MaxFold(s: seq<Language>, best: nat, i: nat): (k: nat)
    requires LastMaxAmong(s, i, best)
    ensures IsLastMax(s, k)
    decreases |s| - i
  {
    if i == |s| then best
    else MaxFold(s, if s[best].year <= s[i].year then i else best, i + 1)
  }

  /** `languages.iter().min_by_key(|l| l.year)` (src/main.rs:165), as the
      position of the record it returns. */
  function MinByYear(s: seq<Language>): (r: Option<nat>)
    ensures r.None? <==> s == []
    ensures r.Some? ==> IsFirstMin(s, r.value)
  {
    if s == [] then None else Some(MinFold(s, 0, 1))
  }

  /** `languages.iter().max_by_key(|l| l.year)` (src/main.rs:166), as the
      position of the record it returns. */
  function MaxByYear(s: seq<Language>): (r: Option<nat>)
    ensures r.None? <==> s == []
    ensures r.Some? ==> IsLastMax(s, r.value)
  {
    if s == [] then None else Some(MaxFold(s, 0, 1))
  }

  /** Only one position is the first of minimal year. */
  lemma FirstMinUnique(s: seq<Language>, k: int, k': int)
    requires IsFirstMin(s, k) && IsFirstMin(s, k')
    ensures k == k'
  {
    var years := (s[k].year, s[k'].year);
  }

  /** Only one position is the last of maximal year. */
  lemma LastMaxUnique(s: seq<Language>, k: int, k': int)
    requires IsLastMax(s, k) && IsLastMax(s, k')
    ensures k == k'
  {
    var years := (s[k].year, s[k'].year);
  }

  /** Every paradigm tag of every record, each occurrence counted. */
  ghost function TagBag(s: seq<Language>): multiset<string>
    decreases |s|
  {
    if s == [] then multiset{} else TagBag(s[..|s| - 1]) + multiset(s[|s| - 1].paradigm)
  }

  /** The number of records whose paradigm list holds `tag` at least once. */
  ghost function RecordsWithTag(s: seq<Language>, tag: string): nat
    decreases |s|
  {
    if s == [] then 0
    else RecordsWithTag(s[..|s| - 1], tag) + (if tag in s[|s| - 1].paradigm then 1 else 0)
  }

  /** `counts` maps exactly the tags of `bag` to their multiplicities. */
  ghost predicate Tallies(counts: map<string, nat>, bag: multiset<string>) {
    && (forall tag :: tag in counts <==> tag in bag)
    && (forall tag :: tag in counts ==> counts[tag] == bag[tag])
  }

  /** A tag is counted exactly when some record lists it. */
  lemma {:induction false} TagBagHolds(s: seq<Language>, tag: string)
    ensures tag in TagBag(s) <==> exists i :: 0 <= i < |s| && tag in s[i].paradigm
    decreases |s|
  {
    if s != [] {
      var init := s[..|s| - 1];
      TagBagHolds(init, tag);
      if tag in TagBag(init) {
        var i :| 0 <= i < |init| && tag in init[i].paradigm;
        assert s[i] == init[i];
      }
      if i :| 0 <= i < |s| && tag in s[i].paradigm {
        if i < |s| - 1 {
          assert init[i] == s[i];
        }
      }
    }
  }

  /** When no record lists a tag twice, its count is the number of records
      that list it. With a repeated tag, the count is larger. */
  lemma {:induction false} TagCountVersusRecords(s: seq<Language>, tag: string)
    ensures TagBag(s)[tag] >= RecordsWithTag(s, tag)
    ensures (forall i :: 0 <= i < |s| ==> multiset(s[i].paradigm)[tag] <= 1) ==> TagBag(s)[tag] == RecordsWithTag(s, tag)
    decreases |s|
  {
    if s != [] {
      var init := s[..|s| - 1];
      TagCountVersusRecords(init, tag);
      if forall i :: 0 <= i < |s| ==> multiset(s[i].paradigm)[tag] <= 1 {
        forall i | 0 <= i < |init|
          ensures multiset(init[i].paradigm)[tag] <= 1
        {
          assert init[i] == s[i];
        }
      }
    }
  }

  /** One `entry(tag).or_insert(0) += 1` on the `j`-th tag of a record
      counts that occurrence too. */
  lemma TallyOne(counts: map<string, nat>, done: multiset<string>, tags: seq<string>, j: nat)
    requires j < |tags|
    requires Tallies(counts, done + multiset(tags[..j]))
    ensures Tallies(counts[tags[j] := (if tags[j] in counts then counts[tags[j]] else 0) + 1], done + multiset(tags[..j + 1]))
  {
    assert tags[..j + 1] == tags[..j] + [tags[j]];
  }

  /** Taking one more record adds its tags. */
  lemma TagBagOneMore(s: seq<Language>, i: nat)
    requires i < |s|
    ensures TagBag(s[..i + 1]) == TagBag(s[..i]) + multiset(s[i].paradigm)
  {
    assert s[..i + 1][..i] == s[..i];
  }

  /** The tag-counting loop (src/main.rs:173-178): for each record, for each
      of its tags, `*counts.entry(tag).or_insert(0) += 1`. */
  method CountParadigms(languages: seq<Language>) returns (counts: map<string, nat>)
    ensures Tallies(counts, TagBag(languages))
  {
    counts := map[];
    for i := 0 to |languages|
      invariant Tallies(counts, TagBag(languages[..i]))
    {
      var tags := languages[i].paradigm;
      ghost var done := TagBag(languages[..i]);
      for j := 0 to |tags|
        invariant Tallies(counts, done + multiset(tags[..j]))
      {
        TallyOne(counts, done, tags, j);
        var tag := tags[j];
        var current := if tag in counts then counts[tag] else 0;
        counts := counts[tag := current + 1];
      }
      assert tags[..|tags|] == tags;
      TagBagOneMore(languages, i);
    }
    assert languages[..|languages|] == languages;
  }

  /** What `stats` reports. */
  datatype Stats = Stats(count: nat, earliest: Language, latest: Language, paradigmCounts: map<string, nat>)

  /** `unwrap` on the `None` that `min_by_key` gives for an empty catalog. */
  datatype StatsError = EmptyCatalog

  /** `st` is the report of `stats` on `languages`: the number of records,
      the first record of minimal year, the last record of maximal year, and
      every tag with its number of occurrences. */
  ghost predicate Describes(st: Stats, languages: seq<Language>) {
    && st.count == |languages|
    && (exists k :: IsFirstMin(languages, k) && st.earliest == languages[k])
    && (exists k :: IsLastMax(languages, k) && st.latest == languages[k])
    && Tallies(st.paradigmCounts, TagBag(languages))
  }

  /** The counts as a map from each tag to its number of occurrences. */
  ghost function ParadigmCounts(languages: seq<Language>): (counts: map<string, nat>)
    ensures Tallies(counts, TagBag(languages))
  {
    map tag | tag in TagBag(languages) :: TagBag(languages)[tag]
  }

  /** What `stats` reports on `languages`, or the panic of `unwrap` when
      there is no record. */
  ghost function StatsOf(languages: seq<Language>): (r: Result<Stats, StatsError>)
    ensures r.Failure? <==> languages == []
    ensures r.Success? ==> Describes(r.value, languages)
  {
    match (MinByYear(languages), MaxByYear(languages))
    case (Some(e), Some(l)) => Success(Stats(|languages|, languages[e], languages[l], ParadigmCounts(languages)))
    case _ => Failure(EmptyCatalog)
  }

  /** A report describes a catalog exactly when it is the report `stats`
      gives: the description fixes every field. */
  lemma DescribesExactly(st: Stats, languages: seq<Language>)
    ensures Describes(st, languages) <==> StatsOf(languages) == Success(st)
  {
    if Describes(st, languages) {
      var expected := StatsOf(languages).value;
      var k :| IsFirstMin(languages, k) && st.earliest == languages[k];
      var k' :| IsFirstMin(languages, k') && expected.earliest == languages[k'];
      FirstMinUnique(languages, k, k');
      var m :| IsLastMax(languages, m) && st.latest == languages[m];
      var m' :| IsLastMax(languages, m') && expected.latest == languages[m'];
      LastMaxUnique(languages, m, m');
      assert st.paradigmCounts == expected.paradigmCounts;
    }
  }

  /** The `stats` arm of `main` (src/main.rs:164-178). */
  method ComputeStats(languages: seq<Language>) returns (r: Result<Stats, StatsError>)
    ensures r.Failure? <==> languages == []
    ensures r.Success? ==> Describes(r.value, languages)
    ensures r == StatsOf(languages)
  {
    var count := |languages|;
    var earliest := MinByYear(languages);
    var latest := MaxByYear(languages);
    if earliest.None? || latest.None? {
      return Failure(EmptyCatalog);
    }
    var counts := CountParadigms(languages);
    r := Success(Stats(count, languages[earliest.value], languages[latest.value], counts));
    assert counts == ParadigmCounts(languages);
  }

  /** The report's extremes are records of the catalog that bound every
      year, and its counts mention exactly the tags some record lists. */
  lemma StatsBounds(languages: seq<Language>)
    requires languages != []
    ensures var st := StatsOf(languages).value;
      && st.count == |languages|
      && st.earliest in languages && st.latest in languages
      && (forall x :: x in languages ==> st.earliest.year <= x.year <= st.latest.year)
      && (forall tag :: tag in st.paradigmCounts <==> exists i :: 0 <= i < |languages| && tag in languages[i].paradigm)
  {
    var st := StatsOf(languages).value;
    forall tag
      ensures tag in st.paradigmCounts <==> exists i :: 0 <= i < |languages| && tag in languages[i].paradigm
    {
      TagBagHolds(languages, tag);
    }
  }
}
