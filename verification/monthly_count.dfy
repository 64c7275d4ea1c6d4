/**
  The monthly entry counter: how many of the last entries' timestamps fall in
  the current local year and month, and the entries/loading state kept by the
  provider around the fetch of those timestamps.

  The conversion of a server (UTC) timestamp to the local calendar is a
  parameter: a function giving the local year and month, or None when the
  string is not a date (`new Date(s)` is then an Invalid Date whose getters
  return NaN, which equals nothing).
 */
module MonthlyCount {
  import opened Wrappers

  datatype YearMonth = YearMonth(year: int, month: int)

  /** The entry's local year and month both equal now's. */
  predicate InMonth(toLocal: string -> Option<YearMonth>, now: YearMonth, timestamp: string) {
    toLocal(timestamp) == Some(now)
  }

  /** The number of timestamps in the current local month. */
  function CountInMonth(entries: seq<string>, now: YearMonth, toLocal: string -> Option<YearMonth>): (n: nat)
    ensures n <= |entries|
    decreases |entries|
  {
    if |entries| == 0 then 0
    else
      CountInMonth(entries[..|entries| - 1], now, toLocal)
        + (if InMonth(toLocal, now, entries[|entries| - 1]) then 1 else 0)
  }

  /** `monthlyCount`: an empty list gives 0 at once; otherwise each timestamp
      whose local year and month are now's is counted. */
  method MonthlyCount(entries: seq<string>, now: YearMonth, toLocal: string -> Option<YearMonth>)
    returns (count: nat)
    ensures count == CountInMonth(entries, now, toLocal)
    ensures count <= |entries|
    ensures |entries| == 0 ==> count == 0
  {
    if |entries| == 0 {
      return 0;
    }
    count := 0;
    var i := 0;
    while i < |entries|
      invariant 0 <= i <= |entries|
      invariant count == CountInMonth(entries[..i], now, toLocal)
    {
      assert entries[..i + 1][..i] == entries[..i];
      if InMonth(toLocal, now, entries[i]) {
        count := count + 1;
      }
      i := i + 1;
    }
    assert entries[..i] == entries;
  }

  /** The outcome of the request for the last entries. */
  datatype FetchOutcome =
    | Delivered(timestamps: seq<string>)  // an ok response and its `data`
    | NotOk                               // a response whose `ok` is false
    | Thrown                              // the request or the body read threw

  datatype ProviderState = ProviderState(entries: seq<string>, loading: bool)

  /** Before the first fetch: no entries, loading. */
  function InitialState(): (r: ProviderState)
    ensures r.loading && |r.entries| == 0
  {
    ProviderState([], true)
  }

  /** `fetchLast31Entries` on entry: `setLoading(true)`. */
  function BeginFetch(s: ProviderState): (r: ProviderState)
    ensures r.loading && r.entries == s.entries
  {
    s.(loading := true)
  }

  /** `fetchLast31Entries` on completion: the delivered list on success, the
      empty list on a non-ok response or a throw, and loading off either way. */
  function FinishFetch(s: ProviderState, outcome: FetchOutcome): (r: ProviderState)
    ensures !r.loading
    ensures outcome.Delivered? ==> r.entries == outcome.timestamps
    ensures !outcome.Delivered? ==> r.entries == []
  {
    match outcome
    case Delivered(timestamps) => ProviderState(timestamps, false)
    case NotOk => ProviderState([], false)
    case Thrown => ProviderState([], false)
  }

  /** The whole fetch, from any state. */
  function FetchLast31(s: ProviderState, outcome: FetchOutcome): (r: ProviderState)
    ensures !r.loading
    ensures outcome.Delivered? ==> r.entries == outcome.timestamps
    ensures !outcome.Delivered? ==> r.entries == []
  {
    FinishFetch(BeginFetch(s), outcome)
  }

  // ----- Lemmas -----

  /** Counting splits over concatenation. */
  lemma {:induction false} CountAppend(a: seq<string>, b: seq<string>, now: YearMonth,
                                       toLocal: string -> Option<YearMonth>)
    ensures CountInMonth(a + b, now, toLocal) == CountInMonth(a, now, toLocal) + CountInMonth(b, now, toLocal)
    decreases |b|
  {
    if |b| > 0 {
      var b' := b[..|b| - 1];
      assert (a + b)[..|a + b| - 1] == a + b';
      CountAppend(a, b', now, toLocal);
    } else {
      assert a + b == a;
    }
  }

  /** The count does not depend on the order of the entries. */
  lemma {:induction false} CountPermutation(a: seq<string>, b: seq<string>, now: YearMonth,
                                            toLocal: string -> Option<YearMonth>)
    requires multiset(a) == multiset(b)
    ensures CountInMonth(a, now, toLocal) == CountInMonth(b, now, toLocal)
    decreases |a|
  {
    if |a| == 0 {
      assert |multiset(b)| == 0;
    } else {
      var x := a[|a| - 1];
      var a' := a[..|a| - 1];
      assert a == a' + [x];
      assert x in multiset(b);
      var j :| 0 <= j < |b| && b[j] == x;
      var b' := b[..j] + b[j + 1..];
      assert b == b[..j] + [x] + b[j + 1..];
      assert multiset(b') == multiset(b) - multiset{x};
      assert multiset(a') == multiset(a) - multiset{x};
      CountPermutation(a', b', now, toLocal);
      assert [x][..0] == [];
      assert CountInMonth([x], now, toLocal)
          == CountInMonth(a, now, toLocal) - CountInMonth(a', now, toLocal);
      CountAppend(b[..j], [x], now, toLocal);
      CountAppend(b[..j] + [x], b[j + 1..], now, toLocal);
      CountAppend(b[..j], b[j + 1..], now, toLocal);
    }
  }

  /** The count is the whole list exactly when every entry is in the month,
      and 0 exactly when none is. */
  lemma {:induction false} CountExtremes(entries: seq<string>, now: YearMonth,
                                         toLocal: string -> Option<YearMonth>)
    ensures CountInMonth(entries, now, toLocal) == |entries|
        <==> forall i :: 0 <= i < |entries| ==> InMonth(toLocal, now, entries[i])
    ensures CountInMonth(entries, now, toLocal) == 0
        <==> forall i :: 0 <= i < |entries| ==> !InMonth(toLocal, now, entries[i])
    decreases |entries|
  {
    if |entries| > 0 {
      var prefix := entries[..|entries| - 1];
      CountExtremes(prefix, now, toLocal);
      assert forall i :: 0 <= i < |prefix| ==> prefix[i] == entries[i];
    }
  }

  /** An entry from the same calendar month of another year adds nothing. */
  lemma OtherYearNotCounted(entries: seq<string>, timestamp: string, year: int, now: YearMonth,
                            toLocal: string -> Option<YearMonth>)
    requires toLocal(timestamp) == Some(YearMonth(year, now.month)) && year != now.year
    ensures CountInMonth(entries + [timestamp], now, toLocal) == CountInMonth(entries, now, toLocal)
  {
    assert (entries + [timestamp])[..|entries|] == entries;
  }

  /** Before the first fetch completes the count is 0 and loading is on. */
  lemma InitialCountIsZero(now: YearMonth, toLocal: string -> Option<YearMonth>)
    ensures CountInMonth(InitialState().entries, now, toLocal) == 0
    ensures InitialState().loading
  {
  }

  /** After a failed fetch the entries are empty, so the count is 0; after
      any fetch loading is off. */
  lemma FailedFetchCountsZero(s: ProviderState, outcome: FetchOutcome, now: YearMonth,
                              toLocal: string -> Option<YearMonth>)
    requires !outcome.Delivered?
    ensures CountInMonth(FetchLast31(s, outcome).entries, now, toLocal) == 0
    ensures !FetchLast31(s, outcome).loading
  {
  }

}
