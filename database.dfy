/** The refreshable customer cache of
    apps/backend/src/moonclerk/MoonclerkCustomerDatabase.ts: the staleness
    policy, the refresh state machine with its single-flight gate, stuck-refresh
    takeover and preemption check, and the case-insensitive lookup.

    Clock readings are integer milliseconds passed in. The three readings that
    `refresh` takes before its first suspension (staleness, stuck test, claim)
    are taken to be one instant, `now`; `doneAt` is the instant at which a load
    that was not preempted completes.
    Other callers that run while the pages are being fetched are represented
    only by `markerAtEnd`, the value they leave in `lastStartedRefreshing`. */
module Database {
  import opened Records
  import opened Paging

  /** 24 hours: a snapshot older than this is stale. */
  const DayMs: int := 24 * 60 * 60 * 1000
  /** 30 minutes: a refresh in flight for longer than this is taken over. */
  const StuckMs: int := 30 * 60 * 1000

  /** `needsRefresh`: never refreshed, or strictly more than a day ago. */
  predicate NeedsRefresh(lastRefresh: Option<int>, now: int) {
    lastRefresh.None? || now - lastRefresh.value > DayMs
  }

  /** A refresh claimed at `marker` that other callers wait for rather than
      take over: one that started no more than 30 minutes ago. */
  predicate RefreshInProgress(marker: Option<int>, now: int) {
    marker.Some? && !(now - marker.value > StuckMs)
  }

  /** The load's own check: the marker captured at its start must still be in
      place at its end. A missing captured marker reads as an invalid date,
      which equals nothing, so such a load is always discarded. */
  predicate Preempted(captured: Option<int>, markerAtEnd: Option<int>) {
    captured.None? || markerAtEnd != captured
  }

  /** Whether a call of `refresh` at `now` goes on to load: the cache is stale
      and no refresh younger than 30 minutes is in flight. */
  predicate Loads(s: CacheState, now: int) {
    NeedsRefresh(s.lastRefresh, now) && !RefreshInProgress(s.lastStartedRefreshing, now)
  }

  /** What `loadAllCustomers` returns: all pages, unless preempted. */
  function LoadOutcome(captured: Option<int>, markerAtEnd: Option<int>, fetch: Fetcher, bound: nat)
    : Option<seq<Customer>>
    requires Page(fetch, bound) == []
  {
    if Preempted(captured, markerAtEnd) then None else Some(AllCustomers(fetch, bound))
  }

  /** The three fields of the cache as one value. */
  datatype CacheState = CacheState(customers: map<string, Customer>, lastRefresh: Option<int>, lastStartedRefreshing: Option<int>)

  /** The state after one call of `refresh`. */
  function RefreshSpec(s: CacheState, now: int, fetch: Fetcher, bound: nat, markerAtEnd: Option<int>, doneAt: int)
    : (r: CacheState)
    requires Page(fetch, bound) == []
    ensures r.customers == s.customers || r.customers == Merge(AllCustomers(fetch, bound))
    ensures r.lastRefresh == s.lastRefresh || r.lastRefresh == Some(doneAt)
    ensures r.lastRefresh != s.lastRefresh ==> r.customers == Merge(AllCustomers(fetch, bound)) && r.lastStartedRefreshing == None
    ensures !Loads(s, now) ==> r == s
  {
    if !NeedsRefresh(s.lastRefresh, now) then s
    else if RefreshInProgress(s.lastStartedRefreshing, now) then s
    else match LoadOutcome(Some(now), markerAtEnd, fetch, bound)
      case None => s.(lastStartedRefreshing := markerAtEnd)
      case Some(records) => CacheState(Merge(records), Some(doneAt), None)
  }

  // ---------------------------------------------------------------------
  // Staleness.

  /** The threshold is strict: exactly one day after a refresh the snapshot is
      still fresh, one millisecond later it is stale, and it stays stale. */
  lemma StaleExactlyAfterADay(t: int, now: int)
    ensures !NeedsRefresh(Some(t), t + DayMs)
    ensures NeedsRefresh(Some(t), now) <==> now >= t + DayMs + 1
    ensures NeedsRefresh(None, now)
  {
  }

  /** A refresh claimed at `t` is waited for up to and including 30 minutes
      later, and taken over from then on. */
  lemma TakeoverExactlyAfterHalfAnHour(t: int, now: int)
    ensures RefreshInProgress(Some(t), t + StuckMs)
    ensures RefreshInProgress(Some(t), now) <==> now <= t + StuckMs
    ensures !RefreshInProgress(None, now)
  {
  }

  // ---------------------------------------------------------------------
  // The refresh state machine.

  /** A fresh cache is left exactly as it is. */
  lemma FreshRefreshIsNoOp(s: CacheState, now: int, fetch: Fetcher, bound: nat, markerAtEnd: Option<int>, doneAt: int)
    requires Page(fetch, bound) == []
    requires !NeedsRefresh(s.lastRefresh, now)
    ensures !Loads(s, now)
    ensures RefreshSpec(s, now, fetch, bound, markerAtEnd, doneAt) == s
  {
  }

  /** Single flight: while one caller's refresh, claimed at `t`, is loading,
      another caller up to 30 minutes later changes nothing and loads nothing. */
  lemma ConcurrentCallerWaits(s: CacheState, t: int, now: int, fetch: Fetcher, bound: nat, markerAtEnd: Option<int>, doneAt: int)
    requires Page(fetch, bound) == []
    requires s.lastStartedRefreshing == Some(t) && now <= t + StuckMs
    ensures !Loads(s, now)
    ensures RefreshSpec(s, now, fetch, bound, markerAtEnd, doneAt) == s
  {
  }

  /** Takeover: a stale cache whose refresh was claimed more than 30 minutes
      ago gets a new load claimed at `now`; the stuck load, which captured `t`,
      finds the new marker at its end and is discarded. */
  lemma StuckRefreshIsTakenOver(s: CacheState, t: int, now: int, fetch: Fetcher, bound: nat, doneAt: int)
    requires Page(fetch, bound) == []
    requires NeedsRefresh(s.lastRefresh, now)
    requires s.lastStartedRefreshing == Some(t) && now > t + StuckMs
    ensures Loads(s, now)
    ensures RefreshSpec(s, now, fetch, bound, Some(now), doneAt)
         == CacheState(Merge(AllCustomers(fetch, bound)), Some(doneAt), None)
    ensures LoadOutcome(Some(t), Some(now), fetch, bound) == None
  {
  }

  /** Preemption: a load that finds another marker at its end leaves the
      snapshot and the completion time as they were, so the cache stays stale
      and a later call retries; the marker is the one the other caller left. */
  lemma PreemptedRefreshKeepsSnapshot(s: CacheState, now: int, fetch: Fetcher, bound: nat, markerAtEnd: Option<int>, doneAt: int)
    requires Page(fetch, bound) == []
    requires markerAtEnd != Some(now)
    ensures var r := RefreshSpec(s, now, fetch, bound, markerAtEnd, doneAt);
      r.customers == s.customers && r.lastRefresh == s.lastRefresh
      && (NeedsRefresh(s.lastRefresh, now) ==> NeedsRefresh(r.lastRefresh, now))
      && ((NeedsRefresh(s.lastRefresh, now) && !RefreshInProgress(s.lastStartedRefreshing, now))
            ==> r.lastStartedRefreshing == markerAtEnd)
  {
  }

  /** A refresh that runs and is not preempted installs a snapshot rebuilt from
      the loaded records alone, clears the marker, and leaves the cache fresh
      for a full day after `doneAt`: a further call in that day is a no-op. */
  lemma SuccessfulRefreshIsFresh(s: CacheState, now: int, fetch: Fetcher, bound: nat, doneAt: int, later: int)
    requires Page(fetch, bound) == []
    requires NeedsRefresh(s.lastRefresh, now) && !RefreshInProgress(s.lastStartedRefreshing, now)
    requires later <= doneAt + DayMs
    ensures var r := RefreshSpec(s, now, fetch, bound, Some(now), doneAt);
      r.customers == Merge(AllCustomers(fetch, bound))
      && r.lastStartedRefreshing == None
      && !NeedsRefresh(r.lastRefresh, later)
      && forall markerAtEnd: Option<int>, doneAt': int ::
           RefreshSpec(r, later, fetch, bound, markerAtEnd, doneAt') == r
  {
  }

  /** `lastRefresh` only moves forward, and only through a refresh that loaded
      and was not preempted: the completion clock is read after a refresh that
      found the snapshot more than a day old. */
  lemma RefreshOnlyAdvances(s: CacheState, now: int, fetch: Fetcher, bound: nat, markerAtEnd: Option<int>, doneAt: int)
    requires Page(fetch, bound) == []
    requires now <= doneAt
    ensures var r := RefreshSpec(s, now, fetch, bound, markerAtEnd, doneAt);
      r.lastRefresh == s.lastRefresh
      || (r.lastRefresh == Some(doneAt) && Loads(s, now) && markerAtEnd == Some(now)
          && (s.lastRefresh.None? || doneAt > s.lastRefresh.value))
  {
  }

  /** After a successful refresh, an email is found iff some loaded record has
      it up to letter case, and the record found is a loaded record with the
      winning id for that email. */
  lemma LookupAfterRefresh(s: CacheState, now: int, fetch: Fetcher, bound: nat, doneAt: int, email: string)
    requires Page(fetch, bound) == []
    requires NeedsRefresh(s.lastRefresh, now) && !RefreshInProgress(s.lastStartedRefreshing, now)
    ensures var r := RefreshSpec(s, now, fetch, bound, Some(now), doneAt);
      var loaded := AllCustomers(fetch, bound);
      (Lookup(r.customers, email).Some? <==> exists c :: c in loaded && Key(c) == Lower(email))
      && (Lookup(r.customers, email).Some? ==>
            FirstFor(loaded, Lower(email)).Some?
            && Lookup(r.customers, email).value in loaded
            && Lookup(r.customers, email).value.id == WinnerId(loaded, Lower(email)))
  {
    LookupInMerge(AllCustomers(fetch, bound), email);
  }

  // ---------------------------------------------------------------------
  // The cache object.

  class CustomerDatabase {
    /** Lower-cased email to customer record. */
    var customers: map<string, Customer>
    /** When the snapshot was last rebuilt; None if never. */
    var lastRefresh: Option<int>
    /** When the refresh now in flight was claimed; None if none is. */
    var lastStartedRefreshing: Option<int>

    function State(): CacheState
      reads this
    {
      CacheState(customers, lastRefresh, lastStartedRefreshing)
    }

    constructor ()
      ensures customers == map[] && lastRefresh == None && lastStartedRefreshing == None
    {
      customers := map[];
      lastRefresh := None;
      lastStartedRefreshing := None;
    }

    /** `loadAllCustomers`: fetch pages at offsets 0, 100, 200, ... until an
        empty one, then keep the result only if the marker captured at the
        start is still in place. `markerAtEnd` is what the suspended load finds
        in `lastStartedRefreshing` when it resumes; `fetches` counts the
        upstream calls. */
    method LoadAllCustomers(fetch: Fetcher, ghost bound: nat, markerAtEnd: Option<int>)
      returns (loaded: Option<seq<Customer>>, fetches: nat)
      requires Page(fetch, bound) == []
      modifies this`lastStartedRefreshing
      ensures lastStartedRefreshing == markerAtEnd
      ensures loaded == LoadOutcome(old(lastStartedRefreshing), markerAtEnd, fetch, bound)
      ensures fetches == FirstEmpty(fetch, 0, bound) + 1
      ensures Page(fetch, fetches - 1) == [] && forall j :: 0 <= j < fetches - 1 ==> Page(fetch, j) != []
    {
      var all: seq<Customer> := [];
      var offset: nat := 0;
      var captured := lastStartedRefreshing;
      fetches := 0;
      while true
        invariant fetches <= bound
        invariant offset == PageSize * fetches
        invariant all == Concat(fetch, fetches)
        invariant forall j :: 0 <= j < fetches ==> Page(fetch, j) != []
        decreases bound - fetches
      {
        var newCustomers := fetch(PageSize, offset);
        fetches := fetches + 1;
        if |newCustomers| == 0 {
          break;
        }
        all := all + newCustomers;
        offset := offset + PageSize;
      }
      FirstEmptyUnique(fetch, bound, fetches - 1);
      // Other callers may have run while the pages were being fetched.
      lastStartedRefreshing := markerAtEnd;
      if Preempted(captured, lastStartedRefreshing) {
        return None, fetches;
      }
      loaded := Some(all);
    }

    /** `refresh`: do nothing while fresh; wait (here: return with nothing
        changed) while another refresh started at most 30 minutes ago; otherwise
        claim the refresh, load, and unless preempted rebuild the snapshot from
        scratch, clear the claim and record the completion time. `fetches`
        counts the upstream calls this call makes. */
    method Refresh(now: int, fetch: Fetcher, ghost bound: nat, markerAtEnd: Option<int>, doneAt: int)
      returns (fetches: nat)
      requires Page(fetch, bound) == []
      modifies this
      ensures State() == RefreshSpec(old(State()), now, fetch, bound, markerAtEnd, doneAt)
      ensures fetches == if Loads(old(State()), now) then FirstEmpty(fetch, 0, bound) + 1 else 0
    {
      fetches := 0;
      if !NeedsRefresh(lastRefresh, now) {
        return;
      }
      if RefreshInProgress(lastStartedRefreshing, now) {
        return;
      }
      lastStartedRefreshing := Some(now);
      var newCustomers;
      newCustomers, fetches := LoadAllCustomers(fetch, bound, markerAtEnd);
      if newCustomers.None? {
        return;
      }
      var records := newCustomers.value;
      customers := map[];
      for i := 0 to |records|
        invariant customers == Merge(records[..i])
      {
        assert records[..i + 1][..i] == records[..i];
        var customer := records[i];
        var email := Lower(customer.email);
        if email in customers && customers[email].id != customer.id {
          if !IsActive(customer) {
            continue;
          }
        }
        customers := customers[email := customer];
      }
      assert records[..|records|] == records;
      lastStartedRefreshing := None;
      lastRefresh := Some(doneAt);
    }

    /** `getMembershipStatus`: refresh if needed, then read the entry under the
        lower-cased email; absence is a normal result. */
    method GetMembershipStatus(email: string, now: int, fetch: Fetcher, ghost bound: nat, markerAtEnd: Option<int>, doneAt: int)
      returns (r: Option<Customer>, fetches: nat)
      requires Page(fetch, bound) == []
      modifies this
      ensures State() == RefreshSpec(old(State()), now, fetch, bound, markerAtEnd, doneAt)
      ensures fetches == if Loads(old(State()), now) then FirstEmpty(fetch, 0, bound) + 1 else 0
      ensures r == Lookup(customers, email)
    {
      fetches := Refresh(now, fetch, bound, markerAtEnd, doneAt);
      var key := Lower(email);
      r := if key in customers then Some(customers[key]) else None;
    }
  }
}
