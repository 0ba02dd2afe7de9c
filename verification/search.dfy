/** The search box of the project list and of the repository list: an item is
    kept when the query occurs, ignoring ASCII case, in its name or in its
    description, if it has one. */
module Search {
  import opened Wrappers
  import opened Strings

  /** `name.toLowerCase().includes(q.toLowerCase()) ||
      description?.toLowerCase().includes(q.toLowerCase())`; a missing
      description yields `undefined`, which is falsy. */
  predicate Matches(name: string, description: Option<string>, query: string) {
    || Contains(Lower(name), Lower(query))
    || (description.Some? && Contains(Lower(description.value), Lower(query)))
  }

  /** The empty query matches everything. */
  lemma EmptyQueryMatches(name: string, description: Option<string>)
    ensures Matches(name, description, "")
  {
    ContainsEmpty(Lower(name));
  }

  /** A name holding the query verbatim always matches, whatever the
      description. */
  lemma VerbatimNameMatches(name: string, description: Option<string>, query: string, i: int)
    requires OccursAt(name, query, i)
    ensures Matches(name, description, query)
  {
    LowerKeepsOccurrence(name, query, i);
    ContainsIff(Lower(name), Lower(query));
  }

  /** The same holds for a description holding the query verbatim. */
  lemma VerbatimDescriptionMatches(name: string, d: string, query: string, i: int)
    requires OccursAt(d, query, i)
    ensures Matches(name, Some(d), query)
  {
    LowerKeepsOccurrence(d, query, i);
    ContainsIff(Lower(d), Lower(query));
  }

  /** The letter case of the query does not matter. */
  lemma QueryCaseIgnored(name: string, description: Option<string>, query: string)
    ensures Matches(name, description, Lower(query)) == Matches(name, description, query)
  {
    LowerIdempotent(query);
  }

  /** Without a description only the name is searched. */
  lemma NoDescriptionSearchesName(name: string, query: string)
    ensures Matches(name, None, query) <==> exists i :: OccursAt(Lower(name), Lower(query), i)
  {
    ContainsIff(Lower(name), Lower(query));
  }
}
