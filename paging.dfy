/** The upstream customer list as the bulk load sees it: pages of a fixed size
    fetched at offsets 0, 100, 200, ... until the first empty page
    (apps/backend/src/moonclerk/MoonclerkCustomerDatabase.ts, lines 24-41). */
module Paging {
  import opened Records

  /** Records requested per call. */
  const PageSize: nat := 100

  /** The upstream call `loadCustomers(count, offset)`: the page of at most
      `count` records starting at `offset`. */
  type Fetcher = (nat, nat) -> seq<Customer>

  /** The `i`-th page the bulk load asks for. */
  function Page(fetch: Fetcher, i: nat): seq<Customer> {
    fetch(PageSize, PageSize * i)
  }

  /** The in-order concatenation of the first `n` pages. */
  function Concat(fetch: Fetcher, n: nat): seq<Customer>
    decreases n
  {
    if n == 0 then [] else Concat(fetch, n - 1) + Page(fetch, n - 1)
  }

  /** The index of the first empty page at or after `i`; `bound` is a page
      known to be empty, which is what makes the load terminate. */
  function FirstEmpty(fetch: Fetcher, i: nat, bound: nat): (r: nat)
    requires i <= bound && Page(fetch, bound) == []
    ensures i <= r <= bound && Page(fetch, r) == []
    ensures forall j :: i <= j < r ==> Page(fetch, j) != []
    decreases bound - i
  {
    if Page(fetch, i) == [] then i else FirstEmpty(fetch, i + 1, bound)
  }

  /** What a complete bulk load accumulates: every page before the first
      empty one. */
  function AllCustomers(fetch: Fetcher, bound: nat): seq<Customer>
    requires Page(fetch, bound) == []
  {
    Concat(fetch, FirstEmpty(fetch, 0, bound))
  }

  /** The first empty page is the only page that is empty and preceded by
      non-empty pages alone, so it does not depend on the bound used to find it. */
  lemma FirstEmptyUnique(fetch: Fetcher, bound: nat, n: nat)
    requires Page(fetch, bound) == []
    requires Page(fetch, n) == [] && forall j :: 0 <= j < n ==> Page(fetch, j) != []
    ensures FirstEmpty(fetch, 0, bound) == n
  {
  }

  // ---------------------------------------------------------------------
  // A well-behaved upstream: a fixed list served in windows.

  /** The window of `all` that a call with `count` and `offset` returns when
      the upstream serves a fixed list `all`. */
  function Window(all: seq<Customer>, count: nat, offset: nat): (r: seq<Customer>)
    ensures |r| <= count
  {
    var lo := if offset < |all| then offset else |all|;
    var hi := if offset + count < |all| then offset + count else |all|;
    all[lo..hi]
  }

  lemma {:induction false} ConcatOfWindows(all: seq<Customer>, fetch: Fetcher, n: nat)
    requires forall count: nat, offset: nat :: fetch(count, offset) == Window(all, count, offset)
    ensures Concat(fetch, n) == all[..if PageSize * n < |all| then PageSize * n else |all|]
    decreases n
  {
    if n > 0 {
      ConcatOfWindows(all, fetch, n - 1);
      var lo := if PageSize * (n - 1) < |all| then PageSize * (n - 1) else |all|;
      var hi := if PageSize * n < |all| then PageSize * n else |all|;
      assert Page(fetch, n - 1) == all[lo..hi];
      assert all[..lo] + all[lo..hi] == all[..hi];
    }
  }

  /** Against an upstream that serves a fixed list in windows, the bulk load
      stops after ceil(|all| / 100) full or partial pages and reassembles
      exactly that list. */
  lemma PagingReassembles(all: seq<Customer>, fetch: Fetcher)
    requires forall count: nat, offset: nat :: fetch(count, offset) == Window(all, count, offset)
    ensures var n := (|all| + PageSize - 1) / PageSize;
      Page(fetch, n) == [] && FirstEmpty(fetch, 0, n) == n && AllCustomers(fetch, n) == all
  {
    var n := (|all| + PageSize - 1) / PageSize;
    assert PageSize * n >= |all|;
    forall j | 0 <= j < n ensures Page(fetch, j) != [] {
      assert PageSize * j < |all|;
      assert Page(fetch, j) == Window(all, PageSize, PageSize * j);
    }
    assert Page(fetch, n) == Window(all, PageSize, PageSize * n);
    FirstEmptyUnique(fetch, n, n);
    ConcatOfWindows(all, fetch, n);
    assert all[..|all|] == all;
  }

  /** An upstream that answers 100, 100 and then 0 records: the load makes
      three calls and accumulates 200 records. */
  lemma TwoFullPagesExample(fetch: Fetcher)
    requires |Page(fetch, 0)| == 100 && |Page(fetch, 1)| == 100 && Page(fetch, 2) == []
    ensures FirstEmpty(fetch, 0, 2) + 1 == 3
    ensures |AllCustomers(fetch, 2)| == 200
  {
    FirstEmptyUnique(fetch, 2, 2);
  }
}
