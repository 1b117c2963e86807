/** `SearchStopsUseCase.execute`: the autocomplete filter over stop names.
    The stop table is walked in its entry order, every stop whose lower-cased
    name contains the lower-cased query is kept, and the walk stops after ten.
    The order of a hash map's entries is not something the source controls,
    so it is an input here: any enumeration of the keys, each exactly once. */
module StopSearch {
  import opened Wrappers
  import opened Text
  import opened Graph

  /** `.limit(10)`. */
  const MaxResults: nat := 10

  /** `StopSearchResultDto`: the key and the copied name and coordinates. */
  datatype StopSearchResult = StopSearchResult(id: string, name: string, latitude: real, longitude: real)

  /** A missing or blank query: the search does not run. The query is not
      trimmed, so a query with text in it is searched spaces and all. */
  predicate Rejected(query: Option<string>) {
    query.None? || IsBlank(query.value)
  }

  /** `query.toLowerCase(Locale.ROOT)`, the text searched for. */
  function Needle(query: Option<string>): string {
    if query.Some? then ToLower(query.value) else []
  }

  /** `name.toLowerCase(Locale.ROOT).contains(q)`. */
  predicate NameMatches(name: string, q: string) {
    Contains(ToLower(name), q)
  }

  /** `order` lists every key of the table exactly once. */
  predicate EntryOrder(stops: map<string, Stop>, order: seq<string>) {
    && (forall i :: 0 <= i < |order| ==> order[i] in stops)
    && (forall k :: k in stops ==> k in order)
    && Distinct(order)
  }

  /** The keys of `order` whose stop name matches `q`, in order. */
  function Matching(stops: map<string, Stop>, order: seq<string>, q: string): (r: seq<string>)
    requires forall i :: 0 <= i < |order| ==> order[i] in stops
    ensures |r| <= |order|
    ensures forall i :: 0 <= i < |r| ==> r[i] in order && NameMatches(stops[r[i]].name, q)
    decreases |order|
  {
    if |order| == 0 then []
    else
      var n := |order| - 1;
      var rest := Matching(stops, order[..n], q);
      assert forall i :: 0 <= i < |rest| ==> rest[i] in order by {
        assert forall k :: k in order[..n] ==> k in order;
      }
      if NameMatches(stops[order[n]].name, q) then rest + [order[n]] else rest
  }

  /** Every matching entry is among the matches. */
  lemma {:induction false} MatchingComplete(stops: map<string, Stop>, order: seq<string>, q: string, k: string)
    requires forall i :: 0 <= i < |order| ==> order[i] in stops
    requires k in order && NameMatches(stops[k].name, q)
    ensures k in Matching(stops, order, q)
    decreases |order|
  {
    var n := |order| - 1;
    if order[n] != k {
      assert k in order[..n] by {
        var i :| 0 <= i < |order| && order[i] == k;
        assert order[..n][i] == k;
      }
      MatchingComplete(stops, order[..n], q, k);
    }
  }

  /** The result for the stop under key `id`. */
  function ResultFor(id: string, stop: Stop): StopSearchResult {
    StopSearchResult(id, stop.name, stop.latitude, stop.longitude)
  }

  function ResultsFor(stops: map<string, Stop>, ids: seq<string>): (r: seq<StopSearchResult>)
    requires forall i :: 0 <= i < |ids| ==> ids[i] in stops
    ensures |r| == |ids| && forall i :: 0 <= i < |ids| ==> r[i] == ResultFor(ids[i], stops[ids[i]])
  {
    seq(|ids|, i requires 0 <= i < |ids| => ResultFor(ids[i], stops[ids[i]]))
  }

  /** The answer as a stream pipeline would define it: nothing for a
      rejected query, otherwise the first ten matches in entry order. */
  function Expected(stops: map<string, Stop>, order: seq<string>, query: Option<string>): seq<StopSearchResult>
    requires forall i :: 0 <= i < |order| ==> order[i] in stops
  {
    if Rejected(query) then []
    else
      var m := Matching(stops, order, Needle(query));
      ResultsFor(stops, m[..Min(MaxResults, |m|)])
  }

  /** `execute`: the guard, then one pass over the entries that stops as
      soon as ten results are in. */
  method SearchStops(stops: map<string, Stop>, order: seq<string>, query: Option<string>)
    returns (r: seq<StopSearchResult>)
    requires EntryOrder(stops, order)
    ensures r == Expected(stops, order, query)
    ensures Rejected(query) ==> r == []
    ensures |r| <= MaxResults
    ensures forall i :: 0 <= i < |r| ==>
              r[i].id in stops && r[i] == ResultFor(r[i].id, stops[r[i].id]) && NameMatches(stops[r[i].id].name, Needle(query))
    ensures forall i, j :: 0 <= i < j < |r| ==> r[i].id != r[j].id
    ensures !Rejected(query) && |r| < MaxResults ==>
              forall k :: k in stops && NameMatches(stops[k].name, Needle(query)) ==> exists i :: 0 <= i < |r| && r[i].id == k
  {
    if query.None? || IsBlank(query.value) {
      return [];
    }
    var q := ToLower(query.value);
    r := FirstMatches(stops, order, q);
    ExpectedMatches(stops, order, query);
    ExpectedDistinct(stops, order, query);
    ExpectedComplete(stops, order, query);
  }

  /** The filtered, limited and mapped stream: one pass over the entries
      that stops as soon as ten results are in. */
  method FirstMatches(stops: map<string, Stop>, order: seq<string>, q: string) returns (r: seq<StopSearchResult>)
    requires forall i :: 0 <= i < |order| ==> order[i] in stops
    ensures var m := Matching(stops, order, q);
            r == ResultsFor(stops, m[..Min(MaxResults, |m|)])
  {
    ghost var ids: seq<string> := [];
    r := [];
    var i := 0;
    while i < |order| && |r| < MaxResults
      invariant 0 <= i <= |order| && |r| <= MaxResults
      invariant ids == Matching(stops, order[..i], q) && r == ResultsFor(stops, ids)
    {
      var key := order[i];
      var stop := stops[key];
      assert order[..i + 1][..i] == order[..i];
      if NameMatches(stop.name, q) {
        r := r + [ResultFor(key, stop)];
        ids := ids + [key];
      }
      i := i + 1;
    }
    MatchingPrefix(stops, order, i, q);
    if i == |order| {
      assert order[..i] == order;
    }
  }

  /** Matching over a prefix of the entries gives a prefix of the matches. */
  lemma {:induction false} MatchingPrefix(stops: map<string, Stop>, order: seq<string>, i: int, q: string)
    requires forall j :: 0 <= j < |order| ==> order[j] in stops
    requires 0 <= i <= |order|
    ensures var m := Matching(stops, order, q);
            var p := Matching(stops, order[..i], q);
            |p| <= |m| && m[..|p|] == p
    decreases |order|
  {
    if i < |order| {
      var n := |order| - 1;
      assert order[..n][..i] == order[..i];
      MatchingPrefix(stops, order[..n], i, q);
    } else {
      assert order[..i] == order;
    }
  }

  predicate Distinct(s: seq<string>) {
    forall i, j :: 0 <= i < j < |s| ==> s[i] != s[j]
  }

  /** Distinct entries give distinct matches. */
  lemma {:induction false} MatchingDistinct(stops: map<string, Stop>, order: seq<string>, q: string)
    requires forall i :: 0 <= i < |order| ==> order[i] in stops
    requires Distinct(order)
    ensures Distinct(Matching(stops, order, q))
    decreases |order|
  {
    if |order| > 0 {
      var n := |order| - 1;
      var rest := Matching(stops, order[..n], q);
      assert Distinct(order[..n]);
      MatchingDistinct(stops, order[..n], q);
      assert forall i :: 0 <= i < |rest| ==> rest[i] != order[n] by {
        assert forall i :: 0 <= i < |rest| ==> rest[i] in order[..n];
        assert order[n] !in order[..n];
      }
      var m := Matching(stops, order, q);
      assert m == rest || m == rest + [order[n]];
      forall i, j | 0 <= i < j < |m|
        ensures m[i] != m[j]
      {
        assert m[i] == rest[i];
        if j == |rest| {
          assert m[j] == order[n];
          assert rest[i] != order[n];
        } else {
          assert m[j] == rest[j];
          assert rest[i] != rest[j];
        }
      }
    }
  }

  /** Each result is a matching stop of the table with its fields copied. */
  lemma ExpectedMatches(stops: map<string, Stop>, order: seq<string>, query: Option<string>)
    requires forall i :: 0 <= i < |order| ==> order[i] in stops
    ensures var r := Expected(stops, order, query);
            && |r| <= MaxResults
            && forall i :: 0 <= i < |r| ==>
                 r[i].id in stops && r[i] == ResultFor(r[i].id, stops[r[i].id]) && NameMatches(stops[r[i].id].name, Needle(query))
  {
    if !Rejected(query) {
      var m := Matching(stops, order, Needle(query));
      var r := Expected(stops, order, query);
      assert forall i :: 0 <= i < |r| ==> r[i].id == m[i];
    }
  }

  /** No stop is returned twice. */
  lemma ExpectedDistinct(stops: map<string, Stop>, order: seq<string>, query: Option<string>)
    requires EntryOrder(stops, order)
    ensures var r := Expected(stops, order, query);
            forall i, j :: 0 <= i < j < |r| ==> r[i].id != r[j].id
  {
    if !Rejected(query) {
      var m := Matching(stops, order, Needle(query));
      var r := Expected(stops, order, query);
      MatchingDistinct(stops, order, Needle(query));
      forall i, j | 0 <= i < j < |r|
        ensures r[i].id != r[j].id
      {
        assert r[i].id == m[i] && r[j].id == m[j];
        assert m[i] != m[j];
      }
    }
  }

  /** Fewer than ten results means every match was returned. */
  lemma ExpectedComplete(stops: map<string, Stop>, order: seq<string>, query: Option<string>)
    requires EntryOrder(stops, order)
    ensures var r := Expected(stops, order, query);
            !Rejected(query) && |r| < MaxResults ==>
              forall k :: k in stops && NameMatches(stops[k].name, Needle(query)) ==> exists i :: 0 <= i < |r| && r[i].id == k
  {
    var r := Expected(stops, order, query);
    if !Rejected(query) && |r| < MaxResults {
      var q := Needle(query);
      var m := Matching(stops, order, q);
      forall k | k in stops && NameMatches(stops[k].name, q)
        ensures exists i :: 0 <= i < |r| && r[i].id == k
      {
        MatchingComplete(stops, order, q, k);
        var i :| 0 <= i < |m| && m[i] == k;
        assert r[i].id == k;
      }
    }
  }

  /** Lower-casing keeps every character's whitespace status, so a query
      is blank exactly when its lower-cased form is. */
  lemma ToLowerKeepsBlank(s: string)
    ensures IsBlank(ToLower(s)) <==> IsBlank(s)
  {
    if IsBlank(ToLower(s)) {
      forall i | 0 <= i < |s|
        ensures IsWhitespace(s[i])
      {
        assert IsWhitespace(ToLower(s)[i]);
      }
    }
  }

  /** The search ignores the case of ASCII letters in the query. */
  lemma CaseInsensitive(stops: map<string, Stop>, order: seq<string>, q: string)
    requires forall i :: 0 <= i < |order| ==> order[i] in stops
    ensures Expected(stops, order, Some(q)) == Expected(stops, order, Some(ToLower(q)))
  {
    ToLowerKeepsBlank(q);
    ToLowerIdempotent(q);
  }

  /** The query is not trimmed: a surrounding space is part of what must
      match, while the same word without it matches regardless of case. */
  lemma QueryNotTrimmed()
    ensures !NameMatches("Main", Needle(Some(" main")))
    ensures NameMatches("Main", Needle(Some("MAIN")))
    ensures !Rejected(Some(" main"))
  {
    assert ToLower("Main") == "main" == ToLower("MAIN");
    assert OccursAt("main", "main", 0);
    assert !IsWhitespace('m');
    assert " main"[1] == 'm';
  }
}
