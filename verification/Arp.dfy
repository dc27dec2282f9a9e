/** The ARP cache of net.cpp: sixteen slots filled in turn, against a first-in
    first-out bounded map. */
module Arp {
  import opened Options

  const SIZE: nat := 16

  datatype Entry<Mac> = Entry(ip: nat, mac: Mac)

  // ---------------------------------------------------------------------------
  // The bounded map: entries in the order in which they took their slots

  ghost predicate Distinct<Mac>(f: seq<Entry<Mac>>) {
    forall i, j :: 0 <= i < j < |f| ==> f[i].ip != f[j].ip
  }

  /** Where an address is; |f| when it is nowhere. */
  function Find<Mac>(f: seq<Entry<Mac>>, ip: nat): (i: nat)
    ensures i <= |f| && (i < |f| ==> f[i].ip == ip) && forall j :: 0 <= j < i ==> f[j].ip != ip
  {
    if f == [] || f[0].ip == ip then 0 else 1 + Find(f[1..], ip)
  }

  function Lookup<Mac>(f: seq<Entry<Mac>>, ip: nat): Option<Mac> {
    if Find(f, ip) < |f| then Some(f[Find(f, ip)].mac) else None
  }

  /** A known address keeps its place; a new one goes last, and the first gives way
      when all slots are taken. */
  function Insert<Mac>(f: seq<Entry<Mac>>, ip: nat, mac: Mac): seq<Entry<Mac>> {
    if Find(f, ip) < |f| then f[Find(f, ip) := Entry(ip, mac)]
    else (if |f| < SIZE then f else f[1..]) + [Entry(ip, mac)]
  }

  lemma InsertKeeps<Mac>(f: seq<Entry<Mac>>, ip: nat, mac: Mac)
    requires Distinct(f) && |f| <= SIZE
    ensures Distinct(Insert(f, ip, mac)) && |Insert(f, ip, mac)| <= SIZE
    ensures Lookup(Insert(f, ip, mac), ip) == Some(mac)
  {
    var g := Insert(f, ip, mac);
    var k := Find(g, ip);
    var at := if Find(f, ip) < |f| then Find(f, ip) else |g| - 1;
    assert g[at] == Entry(ip, mac);
  }

  /** At most one entry per address makes the lookup independent of the slot. */
  lemma LookupAt<Mac>(f: seq<Entry<Mac>>, i: nat)
    requires Distinct(f) && i < |f|
    ensures Find(f, f[i].ip) == i && Lookup(f, f[i].ip) == Some(f[i].mac)
  {
  }

  // ---------------------------------------------------------------------------
  // How long an entry lives

  datatype Op<Mac> = Op(ip: nat, mac: Mac)

  function Run<Mac>(f: seq<Entry<Mac>>, ops: seq<Op<Mac>>): seq<Entry<Mac>>
    decreases |ops|
  {
    if ops == [] then f else Run(Insert(f, ops[0].ip, ops[0].mac), ops[1..])
  }

  /** How many of the inserts take a new slot. */
  function NewSlots<Mac>(f: seq<Entry<Mac>>, ops: seq<Op<Mac>>): nat
    decreases |ops|
  {
    if ops == [] then 0
    else (if Find(f, ops[0].ip) < |f| then 0 else 1) + NewSlots(Insert(f, ops[0].ip, ops[0].mac), ops[1..])
  }

  /** The last MAC inserted for an address, starting from a given one. */
  function Latest<Mac>(mac: Mac, ops: seq<Op<Mac>>, ip: nat): Mac
    decreases |ops|
  {
    if ops == [] then mac else Latest(if ops[0].ip == ip then ops[0].mac else mac, ops[1..], ip)
  }

  /** One insert: the entry at index i stays, moving up by one when the first entry
      gives way. */
  lemma OneInsert<Mac>(f: seq<Entry<Mac>>, op: Op<Mac>, i: nat)
    requires Distinct(f) && i < |f| <= SIZE
    ensures var g, unknown := Insert(f, op.ip, op.mac), Find(f, op.ip) == |f|;
      var j := if unknown && |f| == SIZE then i - 1 else i;
      && (j >= 0 ==> j < |g| && g[j].ip == f[i].ip && g[j].mac == if op.ip == f[i].ip then op.mac else f[i].mac)
      && SIZE - |g| + j == SIZE - |f| + i - (if unknown then 1 else 0)
      && (j < 0 ==> Lookup(g, f[i].ip) == None)
  {
    var g := Insert(f, op.ip, op.mac);
    if Find(f, op.ip) < |f| {
      LookupAt(f, Find(f, op.ip));
    } else if |f| == SIZE && i == 0 {
      assert forall j :: 0 <= j < |g| ==> g[j].ip != f[0].ip;
    }
  }

  /** The entry at index i outlives SIZE - |f| + i inserts into new slots, and its
      lookup gives the latest MAC for its address. */
  lemma {:induction false} Lives<Mac>(f: seq<Entry<Mac>>, ops: seq<Op<Mac>>, i: nat)
    requires Distinct(f) && i < |f| <= SIZE && NewSlots(f, ops) <= SIZE - |f| + i
    ensures Distinct(Run(f, ops)) && |Run(f, ops)| <= SIZE
    ensures Lookup(Run(f, ops), f[i].ip) == Some(Latest(f[i].mac, ops, f[i].ip))
    ensures var g, k := Run(f, ops), Find(Run(f, ops), f[i].ip);
      k < |g| && SIZE - |g| + k == SIZE - |f| + i - NewSlots(f, ops)
    decreases |ops|
  {
    if ops == [] {
      LookupAt(f, i);
    } else {
      var g := Insert(f, ops[0].ip, ops[0].mac);
      InsertKeeps(f, ops[0].ip, ops[0].mac);
      OneInsert(f, ops[0], i);
      var j := if Find(f, ops[0].ip) == |f| && |f| == SIZE then i - 1 else i;
      Lives(g, ops[1..], j);
    }
  }

  /** An address that took a new slot is found with its latest MAC while fewer than
      sixteen further inserts have taken new slots, and is gone with the sixteenth. */
  lemma SixteenSlots<Mac>(f: seq<Entry<Mac>>, ip: nat, mac: Mac, ops: seq<Op<Mac>>, last: Op<Mac>)
    requires Distinct(f) && |f| <= SIZE && Find(f, ip) == |f|
    ensures var g := Insert(f, ip, mac);
      && (NewSlots(g, ops) < SIZE ==> Lookup(Run(g, ops), ip) == Some(Latest(mac, ops, ip)))
      && (NewSlots(g, ops) == SIZE - 1 && Lookup(Run(g, ops), last.ip) == None ==>
            Lookup(Insert(Run(g, ops), last.ip, last.mac), ip) == None)
  {
    var g := Insert(f, ip, mac);
    InsertKeeps(f, ip, mac);
    if NewSlots(g, ops) < SIZE {
      Lives(g, ops, |g| - 1);
      var r := Run(g, ops);
      if NewSlots(g, ops) == SIZE - 1 && Lookup(r, last.ip) == None {
        OneInsert(r, last, Find(r, ip));
      }
    }
  }

  // ---------------------------------------------------------------------------
  // The cache

  datatype Slot<Mac> = Slot(ip: nat, mac: Mac, valid: bool)

  class ArpCache<Mac(==)> {
    const slots: array<Slot<Mac>>
    var next: nat

    /** The valid slots, oldest first. */
    ghost function Abs(): seq<Entry<Mac>>
      requires slots.Length == SIZE && next < SIZE
      reads this, slots
    {
      Held(slots[..], next)
    }

    /** Slots fill from the first on, and none becomes free again. */
    ghost predicate Valid()
      reads this, slots
    {
      slots.Length == SIZE && Filled(slots[..], next) && Distinct(Abs())
    }

    constructor (blank: Mac)
      ensures Valid() && Abs() == [] && fresh(slots) && slots.Length == 16
    {
      slots := new Slot<Mac>[SIZE](i => Slot(0, blank, false));
      next := 0;
    }

    method CacheInsert(ip: nat, mac: Mac)
      requires Valid()
      modifies this, slots
      ensures Valid() && Abs() == Insert(old(Abs()), ip, mac)
    {
      hide Held, Position, Entries, Find, Distinct;
      ghost var f := Abs();
      HeldAtMost(slots[..], next);
      InsertKeeps(f, ip, mac);
      var i := 0;
      while i < SIZE
        invariant 0 <= i <= SIZE && slots[..] == old(slots[..]) && next == old(next)
        invariant forall j :: 0 <= j < i ==> !(slots[j].valid && slots[j].ip == ip)
      {
        if slots[i].valid && slots[i].ip == ip {
          SlotIsEntry(slots[..], next, i);
          LookupAt(f, Position(slots[..], next, i));
          slots[i] := slots[i].(mac := mac);
          UpdatedEntries(old(slots[..]), next, i, mac);
          assert slots[..] == old(slots[..])[i := old(slots[i]).(mac := mac)];
          return;
        }
        i := i + 1;
      }
      NoSuchSlot(slots[..], next, ip);
      slots[next] := Slot(ip, mac, true);
      next := (next + 1) % SIZE;
      TookSlot(old(slots[..]), old(next), ip, mac);
      assert slots[..] == old(slots[..])[old(next) := Slot(ip, mac, true)];
    }

    method CacheLookup(ip: nat) returns (r: Option<Mac>)
      requires Valid()
      ensures r == Lookup(Abs(), ip)
    {
      var i := 0;
      while i < SIZE
        invariant 0 <= i <= SIZE
        invariant forall j :: 0 <= j < i ==> !(slots[j].valid && slots[j].ip == ip)
      {
        if slots[i].valid && slots[i].ip == ip {
          SlotIsEntry(slots[..], next, i);
          LookupAt(Abs(), Position(slots[..], next, i));
          return Some(slots[i].mac);
        }
        i := i + 1;
      }
      NoSuchSlot(slots[..], next, ip);
      return None;
    }
  }

  function Entries<Mac>(s: seq<Slot<Mac>>): (e: seq<Entry<Mac>>)
    ensures |e| == |s| && forall i :: 0 <= i < |s| ==> e[i] == Entry(s[i].ip, s[i].mac)
  {
    seq(|s|, i requires 0 <= i < |s| => Entry(s[i].ip, s[i].mac))
  }

  /** The entries of the slots with the cursor at next, oldest first. */
  function Held<Mac>(s: seq<Slot<Mac>>, next: nat): seq<Entry<Mac>>
    requires |s| == SIZE && next < SIZE
  {
    if s[next].valid then Entries(s[next..] + s[..next]) else Entries(s[..next])
  }

  ghost predicate Filled<Mac>(s: seq<Slot<Mac>>, next: nat) {
    && |s| == SIZE && next < SIZE
    && (forall i :: 0 <= i < next ==> s[i].valid)
    && (forall i :: next <= i < SIZE ==> s[i].valid == s[next].valid)
  }

  /** The place of slot i among the entries. */
  function Position<Mac>(s: seq<Slot<Mac>>, next: nat, i: nat): (p: nat)
    requires |s| == SIZE && next < SIZE && i < SIZE
  {
    if s[next].valid then (if i >= next then i - next else SIZE - next + i) else i
  }

  lemma HeldAtMost<Mac>(s: seq<Slot<Mac>>, next: nat)
    requires Filled(s, next)
    ensures |Held(s, next)| <= SIZE
  {
  }

  lemma SlotIsEntry<Mac>(s: seq<Slot<Mac>>, next: nat, i: nat)
    requires Filled(s, next) && i < SIZE && s[i].valid
    ensures Position(s, next, i) < |Held(s, next)| && Held(s, next)[Position(s, next, i)] == Entry(s[i].ip, s[i].mac)
  {
  }

  lemma UpdatedEntries<Mac>(s: seq<Slot<Mac>>, next: nat, i: nat, mac: Mac)
    requires Filled(s, next) && i < SIZE && s[i].valid
    ensures Position(s, next, i) < |Held(s, next)| && Filled(s[i := s[i].(mac := mac)], next)
    ensures Held(s[i := s[i].(mac := mac)], next) == Held(s, next)[Position(s, next, i) := Entry(s[i].ip, mac)]
  {
    hide Entries;
    var slot, p := s[i].(mac := mac), Position(s, next, i);
    if s[next].valid {
      var order := s[next..] + s[..next];
      assert s[i := slot][next..] + s[i := slot][..next] == order[p := slot];
      EntriesUpdate(order, p, slot);
    } else {
      assert s[i := slot][..next] == s[..next][p := slot];
      EntriesUpdate(s[..next], p, slot);
    }
  }

  lemma EntriesUpdate<Mac>(s: seq<Slot<Mac>>, p: nat, slot: Slot<Mac>)
    requires p < |s|
    ensures Entries(s[p := slot]) == Entries(s)[p := Entry(slot.ip, slot.mac)]
  {
  }

  lemma NoSuchSlot<Mac>(s: seq<Slot<Mac>>, next: nat, ip: nat)
    requires Filled(s, next) && forall j :: 0 <= j < SIZE ==> !(s[j].valid && s[j].ip == ip)
    ensures Find(Held(s, next), ip) == |Held(s, next)|
  {
  }

  lemma TookSlot<Mac>(s: seq<Slot<Mac>>, next: nat, ip: nat, mac: Mac)
    requires Filled(s, next) && Find(Held(s, next), ip) == |Held(s, next)|
    ensures var s', next' := s[next := Slot(ip, mac, true)], (next + 1) % SIZE;
      Filled(s', next') && Held(s', next') == Insert(Held(s, next), ip, mac)
  {
    var s', next' := s[next := Slot(ip, mac, true)], (next + 1) % SIZE;
    var a, b := Held(s', next'), Insert(Held(s, next), ip, mac);
    assert |a| == |b|;
    assert forall k :: 0 <= k < |a| ==> a[k] == b[k];
  }
}
