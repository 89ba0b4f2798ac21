/** The type-ahead search box: on every input event the query is lower-cased
    and, once it has two characters, the rows whose name contains it are
    offered, at most five, in dataset order. */
module Search {
  import opened Cells
  import opened Text
  import opened Sequences

  const CleanName := "clean_name"
  /** Queries shorter than this hide the suggestion list. */
  const MinQueryLength := 2
  /** At most this many suggestions are shown. */
  const MaxSuggestions := 5

  /** What the filter callback does with one row. */
  datatype Verdict = Keep | Skip | Throws

  /** `row.clean_name && row.clean_name.toLowerCase().includes(query)`:
      a falsy name skips the row, a string name is searched, and any other
      truthy name has no `toLowerCase`, which throws a TypeError. */
  function TestRow(row: Record, query: string): Verdict {
    var name := row.Get(CleanName);
    if !Truthy(name) then Skip
    else if !name.Text? then Throws
    else if Contains(Lower(name.s), query) then Keep
    else Skip
  }

  /** Result of `districtData.filter(...)`: the kept rows, or the TypeError
      raised by the first row whose callback throws. */
  datatype FilterResult = Matches(rows: seq<Record>) | TypeError

  function Filter(data: seq<Record>, query: string): FilterResult
    decreases |data|
  {
    if data == [] then Matches([])
    else
      var rest := Filter(data[1..], query);
      match TestRow(data[0], query)
      case Throws => TypeError
      case Skip => rest
      case Keep => if rest.TypeError? then TypeError else Matches([data[0]] + rest.rows)
  }

  /** The number of rows the filter callback keeps, counted by position, so
      identical rows count once each. */
  function CountMatches(data: seq<Record>, query: string): nat
    decreases |data|
  {
    if data == [] then 0
    else (if TestRow(data[0], query) == Keep then 1 else 0) + CountMatches(data[1..], query)
  }

  /** The filter throws exactly when some row's callback throws; otherwise it
      keeps exactly the matching rows, one entry per matching position, in
      their order in the data. */
  lemma {:induction false} FilterSpec(data: seq<Record>, query: string)
    ensures var r := Filter(data, query);
      && (r.TypeError? <==> exists i :: 0 <= i < |data| && TestRow(data[i], query) == Throws)
      && (r.Matches? ==> IsSubsequence(r.rows, data))
      && (r.Matches? ==> forall x :: x in r.rows ==> x in data && TestRow(x, query) == Keep)
      && (r.Matches? ==> forall i :: 0 <= i < |data| && TestRow(data[i], query) == Keep ==> data[i] in r.rows)
      && (r.Matches? ==> |r.rows| == CountMatches(data, query))
    decreases |data|
  {
    if data != [] {
      FilterSpec(data[1..], query);
      assert forall i :: 1 <= i < |data| ==> data[i] == data[1..][i - 1];
    }
  }

  /** Filtering a concatenation filters each part: it throws exactly when
      filtering either part throws, and otherwise keeps the rows kept from the
      first part followed by those kept from the second. */
  lemma {:induction false} FilterAppend(a: seq<Record>, b: seq<Record>, query: string)
    ensures Filter(a + b, query).TypeError? <==> Filter(a, query).TypeError? || Filter(b, query).TypeError?
    ensures Filter(a, query).Matches? && Filter(b, query).Matches? ==>
      Filter(a + b, query) == Matches(Filter(a, query).rows + Filter(b, query).rows)
    decreases |a|
  {
    if a == [] {
      assert a + b == b;
    } else {
      assert (a + b)[0] == a[0];
      assert (a + b)[1..] == a[1..] + b;
      FilterAppend(a[1..], b, query);
    }
  }

  /** What the suggestion list shows after one input event. */
  datatype Outcome =
    | Hidden                    // list hidden and empty
    | Shown(items: seq<Record>) // list visible with these suggestions
    | Threw                     // the handler aborted with a TypeError after
                                // emptying the list; its visibility is left as it was

  /** `matches.slice(0, 5)`. */
  function FirstSuggestions(matches: seq<Record>): seq<Record> {
    if |matches| <= MaxSuggestions then matches else matches[..MaxSuggestions]
  }

  /** What the shown list inherits from a non-empty filter result. */
  lemma {:induction false} FirstSuggestionsOfMatches(data: seq<Record>, query: string, ms: seq<Record>)
    requires Filter(data, query) == Matches(ms) && |ms| > 0
    ensures var items := FirstSuggestions(ms);
      var count := CountMatches(data, query);
      1 <= |items| <= MaxSuggestions && IsSubsequence(items, data) &&
      |items| == (if count < MaxSuggestions then count else MaxSuggestions) &&
      (forall x :: x in items ==> x in data && TestRow(x, query) == Keep) &&
      (|items| < MaxSuggestions ==>
        forall i :: 0 <= i < |data| && TestRow(data[i], query) == Keep ==> data[i] in items)
  {
    FilterSpec(data, query);
    var k := if |ms| <= MaxSuggestions then |ms| else MaxSuggestions;
    var items := FirstSuggestions(ms);
    assert items == ms[..k];
    PrefixIsSubsequence(ms, data, k);
    forall x | x in items ensures x in ms {
      var j :| 0 <= j < |items| && items[j] == x;
      assert ms[j] == x;
    }
  }

  /** The input listener, given the loaded rows and the box's raw value. */
  function OnInput(data: seq<Record>, value: string): (r: Outcome)
    ensures |value| < MinQueryLength ==> r == Hidden
    ensures r.Threw? <==>
      |value| >= MinQueryLength && exists i :: 0 <= i < |data| && TestRow(data[i], Lower(value)) == Throws
    ensures r.Hidden? <==>
      |value| < MinQueryLength || forall i :: 0 <= i < |data| ==> TestRow(data[i], Lower(value)) == Skip
    ensures r.Shown? ==> 1 <= |r.items| <= MaxSuggestions && IsSubsequence(r.items, data)
    ensures r.Shown? ==> var count := CountMatches(data, Lower(value));
      |r.items| == (if count < MaxSuggestions then count else MaxSuggestions)
    ensures r.Shown? ==> forall x :: x in r.items ==>
      x in data && x.Get(CleanName).Text? && x.Get(CleanName).s != "" &&
      Contains(Lower(x.Get(CleanName).s), Lower(value))
    ensures r.Shown? && |r.items| < MaxSuggestions ==>
      forall i :: 0 <= i < |data| && TestRow(data[i], Lower(value)) == Keep ==> data[i] in r.items
  {
    var query := Lower(value);
    if |query| < MinQueryLength then Hidden
    else
      FilterSpec(data, query);
      match Filter(data, query)
      case TypeError => Threw
      case Matches(ms) =>
        if |ms| > 0 then
          FirstSuggestionsOfMatches(data, query, ms);
          assert ms[0] in ms && TestRow(ms[0], query) == Keep;
          Shown(FirstSuggestions(ms))
        else
          Hidden
  }

  /** A suggestion contains the query at some position of its lower-cased name. */
  lemma SuggestionsContainQuery(data: seq<Record>, value: string, x: Record)
    requires OnInput(data, value).Shown? && x in OnInput(data, value).items
    ensures x.Get(CleanName).Text? &&
      exists i :: OccursAt(Lower(x.Get(CleanName).s), Lower(value), i)
  {
    ContainsIff(Lower(x.Get(CleanName).s), Lower(value));
  }

  /** Matching is case-insensitive in the query: only its lower-cased form matters. */
  lemma QueryCaseInsensitive(data: seq<Record>, value: string)
    ensures OnInput(data, value) == OnInput(data, Lower(value))
  {
    LowerIdempotent(value);
  }

  /** The suggestions are the first five matches: once the leading rows hold
      five matches, rows appended after them change nothing unless one of
      them makes the filter throw. */
  lemma LaterRowsIgnored(a: seq<Record>, b: seq<Record>, value: string)
    requires |value| >= MinQueryLength
    requires Filter(a, Lower(value)).Matches? && |Filter(a, Lower(value)).rows| >= MaxSuggestions
    requires Filter(b, Lower(value)).Matches?
    ensures OnInput(a + b, value) == OnInput(a, value)
  {
    var q := Lower(value);
    FilterAppend(a, b, q);
    var ma := Filter(a, q).rows;
    var mb := Filter(b, q).rows;
    assert (ma + mb)[..MaxSuggestions] == ma[..MaxSuggestions];
  }

  /** When every row matches, the filter keeps every row, copies included. */
  lemma {:induction false} FilterKeepsAll(data: seq<Record>, query: string)
    requires forall i :: 0 <= i < |data| ==> TestRow(data[i], query) == Keep
    ensures Filter(data, query) == Matches(data)
    decreases |data|
  {
    if data != [] {
      FilterKeepsAll(data[1..], query);
    }
  }

  /** Identical rows are separate rows: six copies of one matching row give
      five suggestions, one per copy, not a single one. */
  lemma RepeatedRowsShownSeparately(row: Record, value: string)
    requires |value| >= MinQueryLength && TestRow(row, Lower(value)) == Keep
    ensures OnInput([row, row, row, row, row, row], value) == Shown([row, row, row, row, row])
  {
    var data := [row, row, row, row, row, row];
    FilterKeepsAll(data, Lower(value));
    assert data[..MaxSuggestions] == [row, row, row, row, row];
  }

  /** A single row anywhere whose name is a non-zero number aborts every
      search of two or more characters, whatever the other rows hold. */
  lemma NumericNameThrows(data: seq<Record>, value: string, k: nat)
    requires |value| >= MinQueryLength && k < |data|
    requires data[k].Get(CleanName).Num? && data[k].Get(CleanName).n != 0
    ensures OnInput(data, value) == Threw
  {
    assert TestRow(data[k], Lower(value)) == Throws;
  }
}
