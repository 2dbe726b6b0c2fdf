/**
 * The search history kept in browser storage (src/lib/history.ts): the five
 * most recent distinct queries, most recent first.
 */
module History {
  import opened Lists

  /** How many queries the history keeps. */
  const MaxEntries: nat := 5

  /** What browser storage holds under the history key. */
  datatype StoredHistory =
    | Absent             // no item, or an empty string
    | Malformed          // text that does not parse as JSON
    | Stored(entries: seq<string>)

  /** `getSearchHistory`: the stored list, or the empty list when there is none or it does not parse. */
  function Load(stored: StoredHistory): seq<string>
  {
    match stored
    case Stored(entries) => entries
    case _ => []
  }

  /**
   * The list written back by `addToSearchHistory` (line 17): `query` in front,
   * followed by the older entries without `query`, cut to five.
   */
  function Updated(history: seq<string>, query: string): (r: seq<string>)
    ensures 1 <= |r| <= MaxEntries
    ensures r[0] == query
    ensures multiset(r)[query] == 1
    ensures |r| == if |Without(history, query)| < MaxEntries then 1 + |Without(history, query)| else MaxEntries
    ensures r[1..] == Without(history, query)[..|r| - 1]
  {
    var rest := Without(history, query);
    var kept := if |rest| < MaxEntries then rest else rest[..MaxEntries - 1];
    assert query !in kept by {
      assert forall k :: 0 <= k < |kept| ==> kept[k] == rest[k];
    }
    assert multiset([query] + kept) == multiset{query} + multiset(kept);
    [query] + kept
  }

  /** Adding the same query twice in a row leaves the history as adding it once. */
  lemma {:induction false} UpdatedIdempotent(history: seq<string>, query: string)
    ensures Updated(Updated(history, query), query) == Updated(history, query)
  {
    var once := Updated(history, query);
    assert once == [query] + once[1..];
    assert query !in once[1..] by {
      assert query !in Without(history, query);
    }
    assert Without(once, query) == once[1..] by {
      assert Without(once, query) == Without([query] + once[1..], query);
      assert ([query] + once[1..])[1..] == once[1..];
    }
  }

  /** A history without repeated queries stays without them. */
  lemma {:induction false} UpdatedKeepsDistinct(history: seq<string>, query: string)
    requires Distinct(history)
    ensures Distinct(Updated(history, query))
  {
    WithoutKeepsDistinct(history, query);
    var r := Updated(history, query);
    var rest := Without(history, query);
    forall i, j | 0 <= i < j < |r| ensures r[i] != r[j] {
      if i == 0 {
        assert r[j] == rest[j - 1];
      } else {
        assert r[i] == rest[i - 1] && r[j] == rest[j - 1];
      }
    }
  }

  /** The browser storage behind the history, as one mutable slot. */
  class SearchHistoryStore {
    var stored: StoredHistory

    constructor (initial: StoredHistory)
      ensures stored == initial
    {
      stored := initial;
    }

    /** `getSearchHistory`. */
    method GetSearchHistory() returns (history: seq<string>)
      ensures stored.Stored? ==> history == stored.entries
      ensures !stored.Stored? ==> history == []
    {
      history := Load(stored);
    }

    /** `addToSearchHistory`: an empty query changes nothing; any other is moved to the front. */
    method AddToSearchHistory(query: string)
      modifies this
      ensures query == [] ==> stored == old(stored)
      ensures query != [] ==> stored == Stored(Updated(Load(old(stored)), query))
    {
      if query == [] {
        return;
      }
      var history := GetSearchHistory();
      stored := Stored(Updated(history, query));
    }
  }
}
