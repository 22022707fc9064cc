/** The first stage of `filteredUsers`: the case-insensitive search. */
module Search {
  import opened Text
  import opened Seqs
  import opened Users

  /** The record passes the search for the already folded query `lq`: `lq` occurs in the
      folded first name, last name or email. */
  predicate Matches(u: User, lq: string)
    ensures lq == "" ==> Matches(u, lq)
    ensures Matches(u, lq) ==> |lq| <= |u.firstName| || |lq| <= |u.lastName| || |lq| <= |u.email|
  {
    Contains(Lower(u.firstName), lq) || Contains(Lower(u.lastName), lq) || Contains(Lower(u.email), lq)
  }

  /** The callback handed to `filter`. */
  function Matcher(lq: string): User -> bool {
    (u: User) => Matches(u, lq)
  }

  /** The search stage: the empty query keeps every record; any other query keeps exactly
      the records that match its folded form, in order and with their multiplicity. */
  function SearchFilter(s: seq<User>, q: string): (r: seq<User>)
    ensures q == "" ==> r == s
    ensures forall u: User :: multiset(r)[u] == if q == "" || Matches(u, Lower(q)) then multiset(s)[u] else 0
    ensures forall u: User :: u in r <==> u in s && (q == "" || Matches(u, Lower(q)))
    ensures IsSubsequence(r, s)
    ensures UniqueIds(s) ==> UniqueIds(r)
  {
    if q == "" then
      IsSubsequenceReflexive(s);
      s
    else
      var r := Filter(Matcher(Lower(q)), s);
      FilterIsSubsequence(Matcher(Lower(q)), s);
      assert UniqueIds(s) ==> UniqueIds(r) by {
        if UniqueIds(s) {
          FilterKeepsIdsUnique(Matcher(Lower(q)), s);
        }
      }
      r
  }

  /** Searching the result again with the same query changes nothing. */
  lemma SearchFilterIdempotent(s: seq<User>, q: string)
    ensures SearchFilter(SearchFilter(s, q), q) == SearchFilter(s, q)
  {
    if q != "" {
      FilterIdempotent(Matcher(Lower(q)), s);
    }
  }

  /** The search ignores the case of the query: a query and its folded form select the same
      records. */
  lemma SearchIgnoresQueryCase(s: seq<User>, q: string)
    ensures SearchFilter(s, Lower(q)) == SearchFilter(s, q)
  {
    LowerIdempotent(q);
  }

  /** "Ann" matches the query "an" once folded. */
  lemma AnnMatchesAn()
    ensures Matches(User(1, "Ann", "", ""), "an")
  {
    assert Lower("Ann") == "ann" && "an" <= "ann";
  }

  /** "Bob" does not contain "an" in any case. */
  lemma BobMissesAn()
    ensures !Matches(User(2, "Bob", "", ""), "an")
  {
    assert Lower("Bob") == "bob";
    if Contains("bob", "an") {
      ContainsFirstChar("bob", "an");
    }
  }

  /** Of Ann and Bob, the query "an" selects Ann alone. */
  lemma SearchScenario()
    ensures var ann := User(1, "Ann", "", "");
            var bob := User(2, "Bob", "", "");
            SearchFilter([ann, bob], "an") == [ann]
  {
    var ann := User(1, "Ann", "", "");
    var bob := User(2, "Bob", "", "");
    AnnMatchesAn();
    BobMissesAn();
    assert Lower("an") == "an";
    FilterCons(Matcher("an"), ann, [bob]);
    FilterCons(Matcher("an"), bob, []);
  }
}
