/** Customer records as the upstream billing service delivers them, the
    case-insensitive email key, and the rule that folds a list of records into
    the email-keyed snapshot (the merge loop of
    apps/backend/src/moonclerk/MoonclerkCustomerDatabase.ts, lines 72-91). */
module Records {

  datatype Option<+T> = None | Some(value: T)

  /** Only the fields the cache looks at: the subscription's status string. */
  datatype Subscription = Subscription(status: string)

  datatype Customer = Customer(id: int, email: string, subscription: Subscription)

  /** The status value that marks a current membership. */
  const ActiveStatus: string := "active"

  predicate IsActive(c: Customer) {
    c.subscription.status == ActiveStatus
  }

  /** ASCII lower-casing of one character. */
  function LowerChar(ch: char): char {
    if 'A' <= ch <= 'Z' then ((ch as int) + 32) as char else ch
  }

  /** ASCII model of `String.prototype.toLowerCase`. */
  function Lower(s: string): (r: string)
    ensures |r| == |s|
    ensures forall i :: 0 <= i < |r| ==> !('A' <= r[i] <= 'Z')
  {
    if s == [] then [] else [LowerChar(s[0])] + Lower(s[1..])
  }

  /** Lower-casing twice is lower-casing once, so a stored key is its own key. */
  lemma {:induction false} LowerIdempotent(s: string)
    ensures Lower(Lower(s)) == Lower(s)
  {
    if s != [] {
      LowerIdempotent(s[1..]);
      assert Lower(s)[1..] == Lower(s[1..]);
    }
  }

  /** The snapshot key of a record. */
  function Key(c: Customer): string {
    Lower(c.email)
  }

  /** One step of the merge loop: the incoming record `c` is skipped exactly
      when the key is already stored with a different id and `c` is not
      active; otherwise it is stored, overwriting any previous entry. */
  function Insert(m: map<string, Customer>, c: Customer): (r: map<string, Customer>)
    ensures r.Keys == m.Keys + {Key(c)}
    ensures forall k :: k in m && k != Key(c) ==> r[k] == m[k]
    ensures r[Key(c)] == c || (Key(c) in m && r[Key(c)] == m[Key(c)] && !IsActive(c))
  {
    var k := Key(c);
    if k in m && m[k].id != c.id && !IsActive(c) then m else m[k := c]
  }

  /** The snapshot built from `records` in delivery order, starting from an
      empty map. */
  function Merge(records: seq<Customer>): map<string, Customer>
    decreases |records|
  {
    if records == [] then map[]
    else Insert(Merge(records[..|records| - 1]), records[|records| - 1])
  }

  /** Reading a key of a map as an option. */
  function Find(m: map<string, Customer>, k: string): Option<Customer> {
    if k in m then Some(m[k]) else None
  }

  // ---------------------------------------------------------------------
  // A reference definition of the winner for one key, independent of the map.

  /** The first record delivered for key `k`. */
  function FirstFor(s: seq<Customer>, k: string): Option<Customer>
    decreases |s|
  {
    if s == [] then None
    else
      var init := FirstFor(s[..|s| - 1], k);
      if init.Some? then init
      else if Key(s[|s| - 1]) == k then Some(s[|s| - 1])
      else None
  }

  /** The last active record delivered for key `k`. */
  function LastActiveFor(s: seq<Customer>, k: string): Option<Customer>
    decreases |s|
  {
    if s == [] then None
    else if Key(s[|s| - 1]) == k && IsActive(s[|s| - 1]) then Some(s[|s| - 1])
    else LastActiveFor(s[..|s| - 1], k)
  }

  /** The last record delivered for key `k` that carries id `id`. */
  function LastWithIdFor(s: seq<Customer>, k: string, id: int): Option<Customer>
    decreases |s|
  {
    if s == [] then None
    else if Key(s[|s| - 1]) == k && s[|s| - 1].id == id then Some(s[|s| - 1])
    else LastWithIdFor(s[..|s| - 1], k, id)
  }

  /** The id that wins key `k`: that of the last active record if there is
      one, otherwise that of the first record seen. */
  function WinnerId(s: seq<Customer>, k: string): int
    requires FirstFor(s, k).Some?
  {
    if LastActiveFor(s, k).Some? then LastActiveFor(s, k).value.id
    else FirstFor(s, k).value.id
  }

  /** The record that wins key `k`: the last one delivered with the winning id. */
  function Winner(s: seq<Customer>, k: string): Option<Customer> {
    if FirstFor(s, k).None? then None else LastWithIdFor(s, k, WinnerId(s, k))
  }

  // ---------------------------------------------------------------------
  // What the merge produces.

  /** The merge agrees with the reference definition on every key: a key is
      stored iff some record has it, and what is stored is the last record
      carrying the winning id. */
  lemma {:induction false} MergeIsWinner(s: seq<Customer>, k: string)
    ensures Find(Merge(s), k) == Winner(s, k)
    decreases |s|
  {
    if s != [] {
      var init, c := s[..|s| - 1], s[|s| - 1];
      MergeIsWinner(init, k);
      assert Merge(s) == Insert(Merge(init), c);
      if Key(c) == k {
        if FirstFor(init, k).None? {
          NothingBeforeFirst(init, k, c.id);
          assert WinnerId(s, k) == c.id;
        } else {
          var w := WinnerId(init, k);
          LastWithIdForSome(init, k, w);
          LastWithIdForKey(init, k, w);
          assert k in Merge(init) && Merge(init)[k].id == w;
          if c.id == w || IsActive(c) {
            assert Merge(s)[k] == c;
            assert WinnerId(s, k) == c.id;
          } else {
            assert Merge(s) == Merge(init);
            assert WinnerId(s, k) == w;
          }
        }
      }
    }
  }

  /** Before the first record for a key there is nothing else for it either. */
  lemma {:induction false} NothingBeforeFirst(s: seq<Customer>, k: string, id: int)
    requires FirstFor(s, k).None?
    ensures LastActiveFor(s, k).None? && LastWithIdFor(s, k, id).None?
    decreases |s|
  {
    if s != [] {
      NothingBeforeFirst(s[..|s| - 1], k, id);
    }
  }

  /** The key set of the snapshot is exactly the set of lower-cased emails of
      the input. */
  lemma {:induction false} MergeKeys(s: seq<Customer>)
    ensures Merge(s).Keys == set c | c in s :: Key(c)
    decreases |s|
  {
    if s != [] {
      var init, c := s[..|s| - 1], s[|s| - 1];
      MergeKeys(init);
      assert s == init + [c];
      assert (set x | x in s :: Key(x)) == (set x | x in init :: Key(x)) + {Key(c)};
    }
  }

  /** Every stored value is one of the input records, filed under its own key. */
  lemma {:induction false} MergeValues(s: seq<Customer>)
    ensures forall k :: k in Merge(s) ==> Merge(s)[k] in s && Key(Merge(s)[k]) == k
    decreases |s|
  {
    if s != [] {
      var init := s[..|s| - 1];
      MergeValues(init);
      assert forall x :: x in init ==> x in s;
    }
  }

  lemma {:induction false} LastActiveForAt(s: seq<Customer>, k: string, j: int)
    requires 0 <= j < |s| && Key(s[j]) == k && IsActive(s[j])
    requires forall i :: j < i < |s| && Key(s[i]) == k ==> !IsActive(s[i])
    ensures LastActiveFor(s, k) == Some(s[j])
    decreases |s|
  {
    if j < |s| - 1 {
      LastActiveForAt(s[..|s| - 1], k, j);
    }
  }

  lemma {:induction false} NoActiveFor(s: seq<Customer>, k: string)
    requires forall i :: 0 <= i < |s| && Key(s[i]) == k ==> !IsActive(s[i])
    ensures LastActiveFor(s, k) == None
    decreases |s|
  {
    if s != [] {
      NoActiveFor(s[..|s| - 1], k);
    }
  }

  lemma {:induction false} FirstForAt(s: seq<Customer>, k: string, j: int)
    requires 0 <= j < |s| && Key(s[j]) == k
    requires forall i :: 0 <= i < j ==> Key(s[i]) != k
    ensures FirstFor(s, k) == Some(s[j])
    decreases |s|
  {
    if j < |s| - 1 {
      FirstForAt(s[..|s| - 1], k, j);
    } else {
      FirstForAbsent(s[..j], k);
    }
  }

  lemma {:induction false} FirstForAbsent(s: seq<Customer>, k: string)
    requires forall i :: 0 <= i < |s| ==> Key(s[i]) != k
    ensures FirstFor(s, k) == None
    decreases |s|
  {
    if s != [] {
      FirstForAbsent(s[..|s| - 1], k);
    }
  }

  /** Conflict rule, active case: when some record for a key is active, the
      stored id is that of the LAST active record. */
  lemma LastActiveWins(s: seq<Customer>, k: string, j: int)
    requires 0 <= j < |s| && Key(s[j]) == k && IsActive(s[j])
    requires forall i :: j < i < |s| && Key(s[i]) == k ==> !IsActive(s[i])
    ensures k in Merge(s) && Merge(s)[k].id == s[j].id
  {
    LastActiveForAt(s, k, j);
    FirstForSome(s, k, j);
    assert WinnerId(s, k) == s[j].id;
    LastWithIdForSome(s, k, s[j].id);
    LastWithIdForKey(s, k, s[j].id);
    MergeIsWinner(s, k);
  }

  /** Conflict rule, no active record: the stored id is that of the FIRST
      record seen for the key, whatever follows. */
  lemma FirstSeenWinsWithoutActive(s: seq<Customer>, k: string, j: int)
    requires 0 <= j < |s| && Key(s[j]) == k
    requires forall i :: 0 <= i < j ==> Key(s[i]) != k
    requires forall i :: 0 <= i < |s| && Key(s[i]) == k ==> !IsActive(s[i])
    ensures k in Merge(s) && Merge(s)[k].id == s[j].id
  {
    NoActiveFor(s, k);
    FirstForAt(s, k, j);
    assert WinnerId(s, k) == s[j].id;
    LastWithIdForSome(s, k, s[j].id);
    LastWithIdForKey(s, k, s[j].id);
    MergeIsWinner(s, k);
  }

  lemma {:induction false} FirstForSome(s: seq<Customer>, k: string, j: int)
    requires 0 <= j < |s| && Key(s[j]) == k
    ensures FirstFor(s, k).Some?
    decreases |s|
  {
    if j < |s| - 1 {
      FirstForSome(s[..|s| - 1], k, j);
    }
  }

  /** The winning id always belongs to some record for the key. */
  lemma {:induction false} LastWithIdForSome(s: seq<Customer>, k: string, id: int)
    requires FirstFor(s, k).Some?
    requires id == WinnerId(s, k)
    ensures LastWithIdFor(s, k, id).Some?
  {
    if LastActiveFor(s, k).Some? {
      LastActiveHasId(s, k);
    } else {
      FirstHasId(s, k);
    }
  }

  lemma {:induction false} LastActiveHasId(s: seq<Customer>, k: string)
    requires LastActiveFor(s, k).Some?
    ensures LastWithIdFor(s, k, LastActiveFor(s, k).value.id).Some?
    decreases |s|
  {
    if !(Key(s[|s| - 1]) == k && IsActive(s[|s| - 1])) {
      var init := s[..|s| - 1];
      LastActiveHasId(init, k);
      LastWithIdForGrows(s, k, LastActiveFor(s, k).value.id);
    }
  }

  lemma {:induction false} FirstHasId(s: seq<Customer>, k: string)
    requires FirstFor(s, k).Some?
    ensures LastWithIdFor(s, k, FirstFor(s, k).value.id).Some?
    decreases |s|
  {
    var init := s[..|s| - 1];
    if FirstFor(init, k).Some? {
      FirstHasId(init, k);
      LastWithIdForGrows(s, k, FirstFor(s, k).value.id);
    }
  }

  lemma LastWithIdForGrows(s: seq<Customer>, k: string, id: int)
    requires s != [] && LastWithIdFor(s[..|s| - 1], k, id).Some?
    ensures LastWithIdFor(s, k, id).Some?
  {
  }

  // ---------------------------------------------------------------------
  // The reference definition on a concatenation, and idempotence.

  lemma {:induction false} FirstForAppend(a: seq<Customer>, b: seq<Customer>, k: string)
    ensures FirstFor(a + b, k) == if FirstFor(a, k).Some? then FirstFor(a, k) else FirstFor(b, k)
    decreases |b|
  {
    if b != [] {
      var b' := b[..|b| - 1];
      assert (a + b)[..|a + b| - 1] == a + b';
      FirstForAppend(a, b', k);
    } else {
      assert a + b == a;
    }
  }

  lemma {:induction false} LastActiveForAppend(a: seq<Customer>, b: seq<Customer>, k: string)
    ensures LastActiveFor(a + b, k) == if LastActiveFor(b, k).Some? then LastActiveFor(b, k) else LastActiveFor(a, k)
    decreases |b|
  {
    if b != [] {
      var b' := b[..|b| - 1];
      assert (a + b)[..|a + b| - 1] == a + b';
      LastActiveForAppend(a, b', k);
    } else {
      assert a + b == a;
    }
  }

  lemma {:induction false} LastWithIdForAppend(a: seq<Customer>, b: seq<Customer>, k: string, id: int)
    ensures LastWithIdFor(a + b, k, id) == if LastWithIdFor(b, k, id).Some? then LastWithIdFor(b, k, id) else LastWithIdFor(a, k, id)
    decreases |b|
  {
    if b != [] {
      var b' := b[..|b| - 1];
      assert (a + b)[..|a + b| - 1] == a + b';
      LastWithIdForAppend(a, b', k, id);
    } else {
      assert a + b == a;
    }
  }

  /** Merging a delivery twice over gives the snapshot of merging it once. */
  lemma MergeIdempotent(s: seq<Customer>)
    ensures Merge(s + s) == Merge(s)
  {
    forall k
      ensures Find(Merge(s + s), k) == Find(Merge(s), k)
    {
      FirstForAppend(s, s, k);
      LastActiveForAppend(s, s, k);
      if FirstFor(s, k).Some? {
        LastWithIdForAppend(s, s, k, WinnerId(s, k));
      }
      MergeIsWinner(s, k);
      MergeIsWinner(s + s, k);
    }
    forall k | k in Merge(s) ensures k in Merge(s + s) && Merge(s + s)[k] == Merge(s)[k] {
      assert Find(Merge(s + s), k) == Find(Merge(s), k);
    }
    forall k | k in Merge(s + s) ensures k in Merge(s) {
      assert Find(Merge(s + s), k) == Find(Merge(s), k);
    }
  }

  // ---------------------------------------------------------------------
  // Reading the snapshot.

  /** The read of `getMembershipStatus`: the entry under the lower-cased email. */
  function Lookup(m: map<string, Customer>, email: string): Option<Customer> {
    Find(m, Lower(email))
  }

  /** Looking up an email and looking up its lower-cased form agree. */
  lemma LookupIgnoresCase(m: map<string, Customer>, email: string)
    ensures Lookup(m, Lower(email)) == Lookup(m, email)
  {
    LowerIdempotent(email);
  }

  /** Looking an email up in a freshly merged snapshot finds a record iff some
      input record has that email up to letter case; what it finds is an input
      record with that key and the winning id. */
  lemma LookupInMerge(s: seq<Customer>, email: string)
    ensures Lookup(Merge(s), email).Some? <==> exists c :: c in s && Key(c) == Lower(email)
    ensures Lookup(Merge(s), email).Some? ==>
      var r := Lookup(Merge(s), email).value;
      FirstFor(s, Lower(email)).Some? && r in s && Key(r) == Lower(email) && r.id == WinnerId(s, Lower(email))
  {
    var k := Lower(email);
    MergeKeys(s);
    MergeValues(s);
    MergeIsWinner(s, k);
    if k in Merge(s) {
      assert k in set c | c in s :: Key(c);
      LastWithIdForKey(s, k, WinnerId(s, k));
    }
  }

  lemma {:induction false} LastWithIdForKey(s: seq<Customer>, k: string, id: int)
    requires LastWithIdFor(s, k, id).Some?
    ensures LastWithIdFor(s, k, id).value.id == id
    decreases |s|
  {
    if !(Key(s[|s| - 1]) == k && s[|s| - 1].id == id) {
      LastWithIdForKey(s[..|s| - 1], k, id);
    }
  }

  // ---------------------------------------------------------------------
  // Worked deliveries for one email.

  /** An inactive record followed by an active one with another id: the active
      one is stored. The reverse order keeps the active one too. */
  lemma ActiveWinsExamples()
    ensures var m := Merge([Customer(1, "a", Subscription("canceled")), Customer(2, "a", Subscription("active"))]);
      "a" in m && m["a"].id == 2
    ensures var m := Merge([Customer(1, "a", Subscription("active")), Customer(2, "a", Subscription("canceled"))]);
      "a" in m && m["a"].id == 1
  {
    var s := [Customer(1, "a", Subscription("canceled")), Customer(2, "a", Subscription("active"))];
    LastActiveWins(s, "a", 1);
    var t := [Customer(1, "a", Subscription("active")), Customer(2, "a", Subscription("canceled"))];
    LastActiveWins(t, "a", 0);
  }

  /** Two inactive records with different ids: the FIRST one keeps the key. */
  lemma FirstInactiveKeptExample()
    ensures var m := Merge([Customer(1, "a", Subscription("canceled")), Customer(2, "a", Subscription("canceled"))]);
      "a" in m && m["a"].id == 1
  {
    var s := [Customer(1, "a", Subscription("canceled")), Customer(2, "a", Subscription("canceled"))];
    FirstSeenWinsWithoutActive(s, "a", 0);
  }

  /** Emails that differ only in letter case share one key. */
  lemma CaseCollapsesExample(s: seq<Customer>)
    requires s == [Customer(1, "Foo@X.com", Subscription("active")), Customer(2, "foo@x.com", Subscription("active"))]
    ensures Merge(s).Keys == {"foo@x.com"}
  {
    assert Key(s[0]) == "foo@x.com";
    assert Key(s[1]) == "foo@x.com";
    OneKeyPair(s);
  }

  lemma OneKeyPair(s: seq<Customer>)
    requires |s| == 2 && Key(s[0]) == Key(s[1])
    ensures Merge(s).Keys == {Key(s[0])}
  {
    MergeKeys(s);
    var keys := set c | c in s :: Key(c);
    assert Key(s[0]) in keys;
    forall k | k in keys ensures k == Key(s[0]) {
      var c :| c in s && Key(c) == k;
      assert c == s[0] || c == s[1];
    }
  }
}
