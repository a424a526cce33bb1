/** The UDP port table: fs_get_udp_port_for_device is a first-in first-out cache of sixteen addresses. */
module UdpPorts {
  import opened Bytes

  const TABLE_SIZE: nat := 16    // FS_MAX_NUMBER_DEVICES
  const BASE_PORT: int := 8888   // FS_TRIFECTA_PORT
  const ADDRESS_SIZE: nat := 39  // char ip_addr[39]

  type Address = seq<byte>       // a C string without its terminator

  /** The static table and counter. */
  datatype Table = Table(addresses: seq<Address>, indices: seq<int>, next: nat)

  predicate TableShape(t: Table) {
    |t.addresses| == TABLE_SIZE && |t.indices| == TABLE_SIZE
  }

  function Truncated(a: Address, n: nat): Address {
    a[..Min(|a|, n)]
  }

  /** The first slot that strncmp over 39 characters finds equal, or -1. */
  function Lookup(addresses: seq<Address>, a: Address): (i: int)
    ensures -1 <= i < |addresses|
    ensures i >= 0 ==> addresses[i] == Truncated(a, ADDRESS_SIZE)
    ensures forall j :: 0 <= j < (if i == -1 then |addresses| else i) ==> addresses[j] != Truncated(a, ADDRESS_SIZE)
  {
    if addresses == [] then -1
    else if addresses[0] == Truncated(a, ADDRESS_SIZE) then 0
    else
      var r := Lookup(addresses[1..], a);
      if r == -1 then -1 else r + 1
  }

  function PortOf(t: Table, a: Address): int
    requires TableShape(t)
  {
    var i := Lookup(t.addresses, a);
    BASE_PORT + if i >= 0 then t.indices[i] else t.next % TABLE_SIZE
  }

  function After(t: Table, a: Address): (r: Table)
    requires TableShape(t)
    ensures TableShape(r)
  {
    if Lookup(t.addresses, a) >= 0 then t
    else
      var index := t.next % TABLE_SIZE;
      Table(t.addresses[index := Truncated(a, ADDRESS_SIZE - 1)], t.indices[index := index], t.next + 1)
  }

  class PortMap {
    const addresses: array<Address>
    const indices: array<int>
    var nextIndex: nat

    ghost predicate Valid() {
      addresses.Length == TABLE_SIZE && indices.Length == TABLE_SIZE && addresses as object != indices
    }

    ghost function Contents(): (t: Table)
      reads this, addresses, indices
      requires Valid()
      ensures TableShape(t)
    {
      Table(addresses[..], indices[..], nextIndex)
    }

    constructor ()
      ensures Valid() && Contents() == Empty()
    {
      addresses := new Address[TABLE_SIZE](_ => []);
      indices := new int[TABLE_SIZE](_ => 0);
      nextIndex := 0;
    }

    /** fs_get_udp_port_for_device */
    method GetUdpPort(a: Address) returns (port: int)
      requires Valid()
      modifies this, addresses, indices
      ensures port == PortOf(old(Contents()), a) && Contents() == After(old(Contents()), a)
    {
      var key := Truncated(a, ADDRESS_SIZE);
      for i := 0 to TABLE_SIZE
        invariant Contents() == old(Contents())
        invariant forall j :: 0 <= j < i ==> addresses[j] != key
      {
        if addresses[i] == key {
          return BASE_PORT + indices[i];
        }
      }
      var index := nextIndex % TABLE_SIZE;
      addresses[index] := Truncated(a, ADDRESS_SIZE - 1);
      indices[index] := index;
      nextIndex := nextIndex + 1;
      return BASE_PORT + index;
    }
  }

  function Empty(): (t: Table)
    ensures TableShape(t)
  {
    Table(seq(TABLE_SIZE, _ => []), seq(TABLE_SIZE, _ => 0), 0)
  }

  // ----- the reference: a history of assignments -----

  /** An address that fits its field: every device address is stored in 39 characters with the terminator. */
  predicate Storable(a: Address) {
    0 < |a| < ADDRESS_SIZE
  }

  /** history lists the addresses in the order in which they were given a slot. The last sixteen are known. */
  ghost predicate KnownAt(history: seq<Address>, a: Address, k: int) {
    0 <= k < |history| && |history| - TABLE_SIZE <= k && history[k] == a
  }

  ghost predicate Known(history: seq<Address>, a: Address) {
    exists k :: KnownAt(history, a, k)
  }

  /** An unknown address is appended. */
  ghost function Record(history: seq<Address>, a: Address): seq<Address> {
    if Known(history, a) then history else history + [a]
  }

  /** No address occurs twice among the known ones. */
  ghost predicate NoDuplicates(history: seq<Address>) {
    forall k, l :: 0 <= k < l < |history| && |history| - TABLE_SIZE <= k ==> history[k] != history[l]
  }

  predicate AllStorable(requests: seq<Address>) {
    forall i :: 0 <= i < |requests| ==> Storable(requests[i])
  }

  /** The known addresses stand in the slots of their assignments ... */
  predicate SlotsMatch(t: Table, history: seq<Address>)
    requires TableShape(t)
  {
    forall k :: 0 <= k < |history| && |history| - TABLE_SIZE <= k ==>
      t.addresses[k % TABLE_SIZE] == history[k] && t.indices[k % TABLE_SIZE] == k % TABLE_SIZE
  }

  /** ... and the slots not used yet are empty. */
  predicate RestIsEmpty(t: Table, n: nat)
    requires TableShape(t)
  {
    forall j :: n <= j < TABLE_SIZE ==> t.addresses[j] == []
  }

  ghost predicate Invariant(t: Table, history: seq<Address>) {
    && TableShape(t) && t.next == |history| && NoDuplicates(history) && AllStorable(history)
    && SlotsMatch(t, history) && RestIsEmpty(t, |history|)
  }

  /** The youngest assignment that used slot j. */
  function Owner(n: nat, j: nat): (k: int)
    requires j < TABLE_SIZE
    ensures j < n ==> 0 <= k < n && n - TABLE_SIZE <= k && k % TABLE_SIZE == j
    ensures j >= n ==> k == -1
  {
    if j >= n then -1 else
      var r := (n - 1) % TABLE_SIZE;
      if j <= r then n - 1 - (r - j) else n - 1 - r - TABLE_SIZE + j
  }

  /** The table search finds an address exactly when it is known, and then at the slot of its assignment. */
  lemma LookupFindsKnown(t: Table, history: seq<Address>, a: Address)
    requires Invariant(t, history) && Storable(a)
    ensures Lookup(t.addresses, a) >= 0 <==> Known(history, a)
    ensures forall k :: KnownAt(history, a, k) ==> Lookup(t.addresses, a) == k % TABLE_SIZE
  {
    var i := Lookup(t.addresses, a);
    if i >= 0 {
      var k := Owner(|history|, i);
      assert t.addresses[i] == a;
      assert KnownAt(history, a, k);
    }
    forall k | KnownAt(history, a, k) ensures i == k % TABLE_SIZE {
      assert t.addresses[k % TABLE_SIZE] == a;
      var l := Owner(|history|, i);
      assert history[l] == a;
    }
  }

  lemma RecordKeepsDistinct(history: seq<Address>, a: Address)
    requires NoDuplicates(history)
    ensures NoDuplicates(Record(history, a))
  {
    if !Known(history, a) {
      var h := history + [a];
      forall k, l | 0 <= k < l < |h| && |h| - TABLE_SIZE <= k ensures h[k] != h[l] {
        if l == |history| {
          assert !KnownAt(history, a, k);
        }
      }
    }
  }

  /** The slot that a new assignment takes is the one of the assignment that is forgotten with it. */
  lemma NewSlot(t: Table, history: seq<Address>, a: Address)
    requires Invariant(t, history) && Storable(a) && Lookup(t.addresses, a) == -1
    ensures SlotsMatch(After(t, a), history + [a])
    ensures RestIsEmpty(After(t, a), |history| + 1)
  {
  }

  /** One request keeps the table in step with the history. */
  lemma RequestKeepsInvariant(t: Table, history: seq<Address>, a: Address)
    requires Invariant(t, history) && Storable(a)
    ensures Invariant(After(t, a), Record(history, a))
  {
    LookupFindsKnown(t, history, a);
    RecordKeepsDistinct(history, a);
    if !Known(history, a) {
      NewSlot(t, history, a);
    }
  }

  /** The port of a request is the slot of the address's assignment: an old one if it is known, else the next. */
  lemma PortMeaning(t: Table, history: seq<Address>, a: Address)
    requires Invariant(t, history) && Storable(a)
    ensures forall k :: KnownAt(Record(history, a), a, k) ==> PortOf(t, a) == BASE_PORT + k % TABLE_SIZE
    ensures Known(Record(history, a), a)
  {
    LookupFindsKnown(t, history, a);
    if !Known(history, a) {
      assert KnownAt(history + [a], a, |history|);
      assert forall k :: KnownAt(history + [a], a, k) && k < |history| ==> KnownAt(history, a, k);
    }
  }

  function RunTable(t: Table, requests: seq<Address>): (r: Table)
    requires TableShape(t)
    ensures TableShape(r)
    decreases |requests|
  {
    if requests == [] then t else RunTable(After(t, requests[0]), requests[1..])
  }

  ghost function RunHistory(history: seq<Address>, requests: seq<Address>): seq<Address>
    decreases |requests|
  {
    if requests == [] then history else RunHistory(Record(history, requests[0]), requests[1..])
  }

  /** Over every run of requests the table is the last sixteen assignments of the history. */
  lemma {:induction false} RunKeepsInvariant(t: Table, history: seq<Address>, requests: seq<Address>)
    requires Invariant(t, history) && AllStorable(requests)
    ensures Invariant(RunTable(t, requests), RunHistory(history, requests))
    decreases |requests|
  {
    if requests != [] {
      RequestKeepsInvariant(t, history, requests[0]);
      RunKeepsInvariant(After(t, requests[0]), Record(history, requests[0]), requests[1..]);
    }
  }

  lemma {:induction false} HistoryOnlyGrows(history: seq<Address>, requests: seq<Address>)
    ensures history <= RunHistory(history, requests)
    decreases |requests|
  {
    if requests != [] {
      HistoryOnlyGrows(Record(history, requests[0]), requests[1..]);
    }
  }

  /** From the empty table, after any requests: known addresses have different ports, and every port is 8888 + slot. */
  lemma PortsAreDistinct(requests: seq<Address>, a: Address, b: Address)
    requires AllStorable(requests) && Storable(a) && Storable(b) && a != b
    requires var h := RunHistory([], requests); Known(h, a) && Known(h, b)
    ensures var t := RunTable(Empty(), requests);
      PortOf(t, a) != PortOf(t, b) && BASE_PORT <= PortOf(t, a) < BASE_PORT + TABLE_SIZE
  {
    var t, h := RunTable(Empty(), requests), RunHistory([], requests);
    RunKeepsInvariant(Empty(), [], requests);
    PortMeaning(t, h, a);
    PortMeaning(t, h, b);
    var k :| KnownAt(h, a, k);
    var l :| KnownAt(h, b, l);
  }

  /** Through whatever later requests, an address keeps its port as long as fewer than sixteen further addresses have
      been assigned, and asking for it again changes nothing. */
  lemma PortIsKept(before: seq<Address>, a: Address, later: seq<Address>)
    requires AllStorable(before) && AllStorable(later) && Storable(a)
    requires !Known(RunHistory([], before), a)
    ensures var t0 := RunTable(Empty(), before);
      var h1 := Record(RunHistory([], before), a);
      var t2, h2 := RunTable(After(t0, a), later), RunHistory(h1, later);
      |h2| - |h1| < TABLE_SIZE ==> PortOf(t2, a) == PortOf(t0, a) && After(t2, a) == t2
  {
    var t0, h0 := RunTable(Empty(), before), RunHistory([], before);
    RunKeepsInvariant(Empty(), [], before);
    PortMeaning(t0, h0, a);
    RequestKeepsInvariant(t0, h0, a);
    var t1, h1 := After(t0, a), Record(h0, a);
    RunKeepsInvariant(t1, h1, later);
    var t2, h2 := RunTable(t1, later), RunHistory(h1, later);
    HistoryOnlyGrows(h1, later);
    if |h2| - |h1| < TABLE_SIZE {
      assert KnownAt(h1, a, |h0|) && KnownAt(h2, a, |h0|);
      LookupFindsKnown(t2, h2, a);
      PortMeaning(t2, h2, a);
    }
  }

  /** The bound is exact: an address that is not asked for again is forgotten with the sixteenth further assignment,
      and a request for it is then a new assignment. */
  lemma PortIsForgotten(before: seq<Address>, a: Address, later: seq<Address>)
    requires AllStorable(before) && AllStorable(later) && Storable(a)
    requires !Known(RunHistory([], before), a)
    requires a !in later
    ensures var t0 := RunTable(Empty(), before);
      var h1 := Record(RunHistory([], before), a);
      var t2, h2 := RunTable(After(t0, a), later), RunHistory(h1, later);
      && (Known(h2, a) <==> |h2| - |h1| < TABLE_SIZE)
      && (|h2| - |h1| >= TABLE_SIZE ==> After(t2, a).next == t2.next + 1)
  {
    var t0, h0 := RunTable(Empty(), before), RunHistory([], before);
    RunKeepsInvariant(Empty(), [], before);
    PortMeaning(t0, h0, a);
    RequestKeepsInvariant(t0, h0, a);
    var t1, h1 := After(t0, a), Record(h0, a);
    RunKeepsInvariant(t1, h1, later);
    var t2, h2 := RunTable(t1, later), RunHistory(h1, later);
    HistoryOnlyGrows(h1, later);
    var k := |h0|;
    assert h1[k] == a == h2[k] && KnownAt(h1, a, k);
    LookupFindsKnown(t2, h2, a);
    PortMeaning(t2, h2, a);
    OnlyLaterAdded(h1, later, a);
    if |h2| - |h1| < TABLE_SIZE {
      assert KnownAt(h2, a, k);
    }
  }

  /** Requests only append addresses that were asked for. */
  lemma {:induction false} OnlyLaterAdded(history: seq<Address>, requests: seq<Address>, a: Address)
    requires a !in requests
    ensures forall k :: |history| <= k < |RunHistory(history, requests)| ==> RunHistory(history, requests)[k] != a
    decreases |requests|
  {
    if requests != [] {
      var h := Record(history, requests[0]);
      OnlyLaterAdded(h, requests[1..], a);
      HistoryOnlyGrows(h, requests[1..]);
    }
  }

  // ----- the ports by number -----

  predicate AllDifferent(requests: seq<Address>) {
    forall i, j :: 0 <= i < j < |requests| ==> requests[i] != requests[j]
  }

  lemma {:induction false} RunAppend(t: Table, requests: seq<Address>, a: Address)
    requires TableShape(t)
    ensures RunTable(t, requests + [a]) == After(RunTable(t, requests), a)
    decreases |requests|
  {
    if requests == [] {
      assert ([a])[1..] == [];
      assert requests + [a] == [a];
    } else {
      DropAppend(requests, [a], 1);
      RunAppend(After(t, requests[0]), requests[1..], a);
    }
  }

  /** Different addresses are a history of their own. */
  lemma {:induction false} DifferentRequests(requests: seq<Address>)
    requires AllStorable(requests) && AllDifferent(requests)
    ensures Invariant(RunTable(Empty(), requests), requests)
  {
    if requests != [] {
      var n := |requests| - 1;
      var a := requests[n];
      assert requests == requests[..n] + [a];
      DifferentRequests(requests[..n]);
      RunAppend(Empty(), requests[..n], a);
      RequestKeepsInvariant(RunTable(Empty(), requests[..n]), requests[..n], a);
    }
  }

  /** Addresses that all differ get the ports 8888 to 8903 in turn, over and over. */
  lemma PortsInTurn(requests: seq<Address>, n: nat)
    requires n < |requests| && AllDifferent(requests)
    requires forall i :: 0 <= i < |requests| ==> 1 <= |requests[i]| <= 38
    ensures PortOf(RunTable(Empty(), requests[..n]), requests[n]) == 8888 + n % 16
  {
    var before, a := requests[..n], requests[n];
    DifferentRequests(before);
    PortMeaning(RunTable(Empty(), before), before, a);
    assert KnownAt(Record(before, a), a, n);
  }

  /** No stored address is longer than 38 characters. */
  predicate StoredShort(t: Table)
    requires TableShape(t)
  {
    forall j :: 0 <= j < TABLE_SIZE ==> |t.addresses[j]| <= 38
  }

  /** An address of 39 characters or more is stored cut to 38 but compared over 39: it is given a new slot every time,
      and the address that had the slot is forgotten. */
  lemma LongAddressIsNeverKnown(t: Table, a: Address)
    requires TableShape(t) && StoredShort(t) && |a| >= 39
    ensures PortOf(t, a) == 8888 + t.next % 16 && StoredShort(After(t, a))
    ensures After(t, a) == Table(t.addresses[t.next % 16 := a[..38]], t.indices[t.next % 16 := t.next % 16], t.next + 1)
  {
    assert |Truncated(a, ADDRESS_SIZE)| == 39;
  }

  /** The empty address matches the first slot that is not used yet, and takes no slot of its own. */
  lemma EmptyAddressMatchesUnused(t: Table, history: seq<Address>)
    requires Invariant(t, history) && |history| < 16
    ensures After(t, []) == t && PortOf(t, []) == 8888 + t.indices[|history|]
  {
    var n := |history|;
    forall j | 0 <= j < n ensures t.addresses[j] != [] {
      assert t.addresses[j % TABLE_SIZE] == history[j] && Storable(history[j]);
    }
    assert t.addresses[n] == Truncated([], ADDRESS_SIZE) == [];
    assert Lookup(t.addresses, []) == n;
  }
}
