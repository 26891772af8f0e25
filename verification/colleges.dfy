/** The college directory: the list of states and the search box. The
    functions work on any list of colleges; the built-in list is data. */
module Colleges {
  import opened Text

  datatype College = College(name: string, location: string, state: string)

  // ---------------------------------------------------------------------------
  // States
  // ---------------------------------------------------------------------------

  /** Ascending with no repeats. */
  predicate StrictlySorted(xs: seq<string>)
  {
    forall i, j :: 0 <= i < j < |xs| ==> Before(xs[i], xs[j])
  }

  /** Every element of `ys` comes after `x`. */
  predicate AllAfter(x: string, ys: seq<string>)
  {
    forall j :: 0 <= j < |ys| ==> Before(x, ys[j])
  }

  /** Puts `s` into its place in a sorted list, unless it is there. */
  function Insert(xs: seq<string>, s: string): seq<string>
  {
    if xs == [] then [s]
    else if s == xs[0] then xs
    else if Before(s, xs[0]) then [s] + xs
    else [xs[0]] + Insert(xs[1..], s)
  }

  /** Inserting keeps the list sorted and adds exactly `s`. */
  lemma {:induction false} InsertSorted(xs: seq<string>, s: string)
    requires StrictlySorted(xs)
    ensures StrictlySorted(Insert(xs, s))
    ensures forall x :: x in Insert(xs, s) <==> x in xs || x == s
  {
    if xs == [] {
    } else if s == xs[0] {
    } else if Before(s, xs[0]) {
      forall j | 0 <= j < |xs|
        ensures Before(s, xs[j])
      {
        if j > 0 {
          BeforeTransitive(s, xs[0], xs[j]);
        }
      }
      SortedCons(s, xs);
    } else {
      var rest := xs[1..];
      assert StrictlySorted(rest);
      InsertSorted(rest, s);
      BeforeTotal(s, xs[0]);
      var tail := Insert(rest, s);
      forall j | 0 <= j < |tail|
        ensures Before(xs[0], tail[j])
      {
        assert tail[j] in tail;
        if tail[j] != s {
          var k :| 0 <= k < |rest| && rest[k] == tail[j];
          assert rest[k] == xs[k + 1];
        }
      }
      SortedCons(xs[0], tail);
      assert xs == [xs[0]] + rest;
    }
  }

  /** A first element before all the others keeps a sorted list sorted. */
  lemma SortedCons(x: string, ys: seq<string>)
    requires StrictlySorted(ys)
    requires AllAfter(x, ys)
    ensures StrictlySorted([x] + ys)
  {
    var r := [x] + ys;
    forall i, j | 0 <= i < j < |r|
      ensures Before(r[i], r[j])
    {
      if i > 0 {
        assert r[i] == ys[i - 1] && r[j] == ys[j - 1];
      } else {
        assert r[j] == ys[j - 1];
      }
    }
  }

  /** `getAllStates`: `Array.from(new Set(states)).sort()`. */
  function AllStates(colleges: seq<College>): seq<string>
  {
    if colleges == [] then []
    else Insert(AllStates(colleges[..|colleges| - 1]), colleges[|colleges| - 1].state)
  }

  /** The states come sorted, each once, and are exactly the states of the
      colleges. */
  lemma {:induction false} AllStatesSorted(colleges: seq<College>)
    ensures StrictlySorted(AllStates(colleges))
    ensures forall c :: c in colleges ==> c.state in AllStates(colleges)
    ensures forall s :: s in AllStates(colleges) ==> exists c :: c in colleges && c.state == s
  {
    if colleges != [] {
      var init, last := colleges[..|colleges| - 1], colleges[|colleges| - 1];
      AllStatesSorted(init);
      InsertSorted(AllStates(init), last.state);
      assert colleges == init + [last];
      forall c | c in colleges
        ensures c == last || c in init
      {
      }
      forall s | s in AllStates(colleges)
        ensures exists c :: c in colleges && c.state == s
      {
        if s != last.state {
          var c :| c in init && c.state == s;
          assert c in colleges;
        } else {
          assert last in colleges;
        }
      }
    }
  }

  /** No state is listed twice. */
  lemma StatesDistinct(colleges: seq<College>)
    ensures forall i, j :: 0 <= i < j < |AllStates(colleges)| ==> AllStates(colleges)[i] != AllStates(colleges)[j]
  {
    AllStatesSorted(colleges);
    var xs := AllStates(colleges);
    forall i, j | 0 <= i < j < |xs|
      ensures xs[i] != xs[j]
    {
      BeforeIrreflexive(xs[i]);
    }
  }

  // ---------------------------------------------------------------------------
  // Search
  // ---------------------------------------------------------------------------

  /** `query.toLowerCase().trim()`. */
  function Normalize(query: string): string
  {
    Trim(Lower(query))
  }

  /** A college matches when its lower-cased name, location or state
      contains the query. */
  predicate Matches(c: College, q: string)
  {
    Occurs(Lower(c.name), q) || Occurs(Lower(c.location), q) || Occurs(Lower(c.state), q)
  }

  /** The colleges that match, in list order. */
  function Matching(colleges: seq<College>, q: string): (r: seq<College>)
    ensures forall c :: c in r <==> c in colleges && Matches(c, q)
  {
    if colleges == [] then []
    else
      var init, last := colleges[..|colleges| - 1], colleges[|colleges| - 1];
      assert colleges == init + [last];
      Matching(init, q) + (if Matches(last, q) then [last] else [])
  }

  /** `searchColleges(query)`. */
  function SearchColleges(colleges: seq<College>, query: string): seq<College>
  {
    if query == "" || |Trim(query)| == 0 then colleges
    else Matching(colleges, Normalize(query))
  }

  /** Lower-casing changes no whitespace. */
  lemma LowerBlank(query: string)
    ensures IsBlank(Lower(query)) <==> IsBlank(query)
  {
    var l := Lower(query);
    if IsBlank(l) {
      forall i | 0 <= i < |query|
        ensures IsJsSpace(query[i])
      {
        assert IsJsSpace(l[i]);
      }
    }
  }

  /** The search text is empty exactly when the query is blank. */
  lemma NormalizeEmpty(query: string)
    ensures Normalize(query) == [] <==> IsBlank(query)
  {
    LowerBlank(query);
  }

  /** A blank query lists every college; any other lists the matching ones,
      in order. */
  lemma SearchResult(colleges: seq<College>, query: string)
    ensures IsBlank(query) ==> SearchColleges(colleges, query) == colleges
    ensures !IsBlank(query) ==> SearchColleges(colleges, query) == Matching(colleges, Normalize(query))
  {
  }

  /** The matching colleges keep their list order. */
  lemma {:induction false} MatchingInOrder(colleges: seq<College>, q: string)
    ensures IsSubsequence(Matching(colleges, q), colleges)
  {
    if colleges != [] {
      var init, last := colleges[..|colleges| - 1], colleges[|colleges| - 1];
      MatchingInOrder(init, q);
      var m := Matching(colleges, q);
      if Matches(last, q) {
        assert m == Matching(init, q) + [last];
        assert m[..|m| - 1] == Matching(init, q);
      } else {
        assert m == Matching(init, q);
      }
    }
  }

  /** The search ignores case. */
  lemma SearchIgnoresCase(colleges: seq<College>, q1: string, q2: string)
    requires Lower(q1) == Lower(q2)
    ensures SearchColleges(colleges, q1) == SearchColleges(colleges, q2)
  {
    LowerBlank(q1);
    LowerBlank(q2);
  }

  /** A college that matches a text matches every part of it. */
  lemma MatchesPart(c: College, w1: string, w2: string)
    requires Contains(w2, w1) && Matches(c, w2)
    ensures Matches(c, w1)
  {
    if Occurs(Lower(c.name), w2) {
      ContainsTransitive(Lower(c.name), w2, w1);
    } else if Occurs(Lower(c.location), w2) {
      ContainsTransitive(Lower(c.location), w2, w1);
    } else {
      ContainsTransitive(Lower(c.state), w2, w1);
    }
  }

  /** A longer query finds no more: when the first search text occurs in
      the second, every college the second finds the first finds too. */
  lemma SearchMonotone(colleges: seq<College>, q1: string, q2: string, c: College)
    requires Contains(Normalize(q2), Normalize(q1))
    requires c in SearchColleges(colleges, q2)
    ensures c in SearchColleges(colleges, q1)
  {
    NormalizeEmpty(q1);
    NormalizeEmpty(q2);
    if !IsBlank(q1) {
      MatchesPart(c, Normalize(q1), Normalize(q2));
    }
  }
}
