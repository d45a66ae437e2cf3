/** Worked cases over a two-record catalog, and the two places where the
    program's choice is easy to misread: a tie on the latest year goes to the
    later record, and a tag listed twice by one record is counted twice. */
module Scenarios {
  import opened Text
  import opened Catalog
  import Query
  import Statistics

  const Rust: Language := Language("Rust", 2010, ["Graydon Hoare"], ["multi-paradigm", "functional"], "static, strong", ["C++"])
  const Go: Language := Language("Go", 2009, ["Robert Griesemer", "Rob Pike", "Ken Thompson"], ["concurrent", "imperative"], "static, strong", ["C"])

  /** `search ru` finds Rust and not Go: the match ignores case. */
  lemma SearchRu()
    ensures Query.Search([Rust, Go], "ru") == [Rust]
  {
    assert Lower("Rust") == "rust";
    assert Lower("ru") == "ru";
    assert "ru" <= "rust";
    assert Query.NameMatches(Rust, "ru");
    MissingFromLower("Go", 'r', 'R');
    NotContainsMissingChar(Lower("Go"), Lower("ru"), 'r');
    assert !Query.NameMatches(Go, "ru");
    var r := Query.Search([Rust, Go], "ru");
    assert multiset(r) == multiset{Rust};
    assert |r| == 1 && r[0] in r;
  }

  /** `year 2009` finds only Go. */
  lemma Year2009()
    ensures Query.FilterByYear([Rust, Go], 2009) == [Go]
  {
  }

  /** `creator Anders` finds nothing, since no creator of either record
      contains it; the program then prints its message and succeeds. */
  lemma CreatorAnders()
    ensures Query.FilterByCreator([Rust, Go], "Anders") == []
  {
    NoAndersForRust();
    NoAndersForGo();
  }

  lemma NoAndersForRust()
    ensures !Query.AnyCreatorMatches(Rust.creators, "Anders")
  {
    NoAndersAmong(Rust.creators, 's', 'S');
  }

  lemma NoAndersForGo()
    ensures !Query.AnyCreatorMatches(Go.creators, "Anders")
  {
    assert 'a' !in "Robert Griesemer" && 'A' !in "Robert Griesemer";
    assert 'a' !in "Rob Pike" && 'A' !in "Rob Pike";
    assert 'a' !in "Ken Thompson" && 'A' !in "Ken Thompson";
    NoAndersAmong(Go.creators, 'a', 'A');
  }

  /** No creator in `creators` contains "anders", because each lacks the
      letter `c` of it in either case. */
  lemma NoAndersAmong(creators: seq<string>, c: char, upper: char)
    requires (c == 'a' && upper == 'A') || (c == 's' && upper == 'S')
    requires forall k :: 0 <= k < |creators| ==> c !in creators[k] && upper !in creators[k]
    ensures !Query.AnyCreatorMatches(creators, "Anders")
  {
    var q := Lower("Anders");
    assert q[5] == 's' && q[0] == 'a';
    forall k | 0 <= k < |creators|
      ensures !Query.CreatorMatches(creators[k], "Anders")
    {
      MissingFromLower(creators[k], c, upper);
      NotContainsMissingChar(Lower(creators[k]), q, c);
    }
  }

  /** A lower-case letter absent from a text in both cases is absent from
      its lower-cased form. */
  lemma MissingFromLower(s: string, c: char, upper: char)
    requires 'a' <= c <= 'z' && upper as int == c as int - 32
    requires c !in s && upper !in s
    ensures c !in Lower(s)
  {
    forall i | 0 <= i < |s|
      ensures Lower(s)[i] != c
    {
      assert s[i] in s;
    }
  }

  /** A text lacking one of the pattern's characters does not contain it. */
  lemma NotContainsMissingChar(s: string, sub: string, c: char)
    requires c in sub && c !in s
    ensures !Contains(s, sub)
  {
    ContainsIff(s, sub);
  }

  /** `stats` on the two records: two records, earliest Go, latest Rust. */
  lemma StatsOfRustAndGo(st: Statistics.Stats)
    requires Statistics.Describes(st, [Rust, Go])
    ensures st.count == 2 && st.earliest == Go && st.latest == Rust
  {
    var s := [Rust, Go];
    assert Statistics.IsFirstMin(s, 1);
    assert Statistics.IsLastMax(s, 0);
    var k :| Statistics.IsFirstMin(s, k) && st.earliest == s[k];
    Statistics.FirstMinUnique(s, k, 1);
    var m :| Statistics.IsLastMax(s, m) && st.latest == s[m];
    Statistics.LastMaxUnique(s, m, 0);
  }

  /** With two records of the same year, the earliest is the first of
      them and the latest is the second. */
  lemma TieGoesBothWays(a: Language, b: Language, st: Statistics.Stats)
    requires a.year == b.year
    requires Statistics.Describes(st, [a, b])
    ensures st.earliest == a && st.latest == b
  {
    var s := [a, b];
    assert Statistics.IsFirstMin(s, 0);
    assert Statistics.IsLastMax(s, 1);
    var k :| Statistics.IsFirstMin(s, k) && st.earliest == s[k];
    Statistics.FirstMinUnique(s, k, 0);
    var m :| Statistics.IsLastMax(s, m) && st.latest == s[m];
    Statistics.LastMaxUnique(s, m, 1);
  }

  /** A record that lists "functional" twice gives the tag a count of two,
      although only one record has it. */
  lemma RepeatedTagCountedTwice(lang: Language, st: Statistics.Stats)
    requires lang.paradigm == ["functional", "functional"]
    requires Statistics.Describes(st, [lang])
    ensures st.paradigmCounts["functional"] == 2
    ensures Statistics.RecordsWithTag([lang], "functional") == 1
  {
    var s := [lang];
    assert s[..0] == [];
    assert Statistics.TagBag(s) == multiset(lang.paradigm);
  }
}
