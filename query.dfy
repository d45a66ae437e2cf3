/** The three selecting commands of the program (`search`, `year` and
    `creator`, src/main.rs:117-162). Each is the iterator pipeline
    `languages.iter().filter(..).cloned().collect()`: it keeps the records a
    test accepts, unchanged and in catalog order, and never fails. */
module Query {
  import opened Text
  import opened Catalog

  /** `r` can be obtained from `s` by deleting elements. */
  ghost predicate IsSubsequence<T>(r: seq<T>, s: seq<T>)
    decreases |s|
  {
    r == [] || (s != [] && (IsSubsequence(r, s[1..]) || (r[0] == s[0] && IsSubsequence(r[1..], s[1..]))))
  }

  /** `iter().filter(keep).cloned().collect()`: the elements `keep` accepts,
      each as often as it occurs in `s`, in the order of `s`. */
  function Filter<T(!new)>(s: seq<T>, keep: T -> bool): (r: seq<T>)
    ensures |r| <= |s|
    ensures forall x :: x in r <==> x in s && keep(x)
    ensures forall x :: multiset(r)[x] == if keep(x) then multiset(s)[x] else 0
    ensures IsSubsequence(r, s)
    decreases |s|
  {
    if s == [] then []
    else
      assert s == [s[0]] + s[1..];
      if keep(s[0]) then [s[0]] + Filter(s[1..], keep)
      else Filter(s[1..], keep)
  }

  /** Two tests that agree on every element of `s` select the same
      elements. */
  lemma {:induction false} FilterCongruent<T(!new)>(s: seq<T>, keep: T -> bool, keep': T -> bool)
    requires forall x :: x in s ==> keep(x) == keep'(x)
    ensures Filter(s, keep) == Filter(s, keep')
    decreases |s|
  {
    if s != [] {
      FilterCongruent(s[1..], keep, keep');
    }
  }

  /** When `keep` accepts everything, the filter gives back its input. */
  lemma {:induction false} FilterKeepsAll<T(!new)>(s: seq<T>, keep: T -> bool)
    requires forall x :: x in s ==> keep(x)
    ensures Filter(s, keep) == s
    decreases |s|
  {
    if s != [] {
      FilterKeepsAll(s[1..], keep);
    }
  }

  /** Every subsequence of `s` made only of accepted elements is a
      subsequence of the filter's result: the filter keeps the longest such
      selection, so it drops nothing it should have kept. */
  lemma {:induction false} FilterIsGreatest<T(!new)>(s: seq<T>, keep: T -> bool, r: seq<T>)
    requires IsSubsequence(r, s)
    requires forall x :: x in r ==> keep(x)
    ensures IsSubsequence(r, Filter(s, keep))
    decreases |s|
  {
    if r != [] {
      var f := Filter(s[1..], keep);
      if IsSubsequence(r, s[1..]) {
        FilterIsGreatest(s[1..], keep, r);
        if keep(s[0]) {
          assert ([s[0]] + f)[1..] == f;
        }
      } else {
        assert r[0] == s[0] && IsSubsequence(r[1..], s[1..]);
        assert r[0] in r;
        FilterIsGreatest(s[1..], keep, r[1..]);
        assert ([s[0]] + f)[1..] == f;
      }
    }
  }

  /** The test of `search`: the lower-cased name contains the lower-cased
      query. */
  predicate NameMatches(lang: Language, query: string) {
    Contains(Lower(lang.name), Lower(query))
  }

  /** `search <name>` (src/main.rs:118-122). */
  function Search(catalog: seq<Language>, query: string): (r: seq<Language>)
    ensures forall x :: x in r <==> x in catalog && NameMatches(x, query)
    ensures forall x :: multiset(r)[x] == if NameMatches(x, query) then multiset(catalog)[x] else 0
    ensures IsSubsequence(r, catalog) && |r| <= |catalog|
  {
    Filter(catalog, lang => NameMatches(lang, query))
  }

  /** An empty query keeps the whole catalog, in order, because every
      string contains the empty string. */
  lemma SearchEmptyQuery(catalog: seq<Language>)
    ensures Search(catalog, "") == catalog
  {
    forall x | x in catalog
      ensures NameMatches(x, "")
    {
      assert Lower("") <= Lower(x.name);
    }
    FilterKeepsAll(catalog, lang => NameMatches(lang, ""));
  }

  /** The case of the query does not matter: searching with its
      lower-cased form gives the same records. */
  lemma SearchIgnoresQueryCase(catalog: seq<Language>, query: string)
    ensures Search(catalog, Lower(query)) == Search(catalog, query)
  {
    LowerIdempotent(query);
    FilterCongruent(catalog, lang => NameMatches(lang, Lower(query)), lang => NameMatches(lang, query));
  }

  /** `year <year>` (src/main.rs:132-136): exact equality of years. */
  function FilterByYear(catalog: seq<Language>, year: U32): (r: seq<Language>)
    ensures forall x :: x in r <==> x in catalog && x.year == year
    ensures forall x :: multiset(r)[x] == if x.year == year then multiset(catalog)[x] else 0
    ensures IsSubsequence(r, catalog) && |r| <= |catalog|
    ensures r == [] <==> forall x :: x in catalog ==> x.year != year
  {
    Filter(catalog, (lang: Language) => lang.year == year)
  }

  /** The test applied to one creator: its lower-cased form contains the
      lower-cased query. */
  predicate CreatorMatches(creator: string, query: string) {
    Contains(Lower(creator), Lower(query))
  }

  /** `creators.iter().any(..)` (src/main.rs:149-151): stops at the first
      creator that matches. */
  function AnyCreatorMatches(creators: seq<string>, query: string): (b: bool)
    ensures b <==> exists k :: 0 <= k < |creators| && CreatorMatches(creators[k], query)
    decreases |creators|
  {
    if creators == [] then false
    else CreatorMatches(creators[0], query) || AnyCreatorMatches(creators[1..], query)
  }

  /** `creator <name>` (src/main.rs:146-154). */
  function FilterByCreator(catalog: seq<Language>, query: string): (r: seq<Language>)
    ensures forall x :: x in r <==> x in catalog && exists k :: 0 <= k < |x.creators| && CreatorMatches(x.creators[k], query)
    ensures forall x :: multiset(r)[x] == if AnyCreatorMatches(x.creators, query) then multiset(catalog)[x] else 0
    ensures IsSubsequence(r, catalog) && |r| <= |catalog|
    ensures forall x :: x in r ==> x.creators != []
  {
    Filter(catalog, (lang: Language) => AnyCreatorMatches(lang.creators, query))
  }
}
