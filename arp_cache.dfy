/** The ARP cache of nw-stack.c and nw-stack2.c (RFC 826): three entries,
    each either free, pending (allocated, a request is out) or valid (the
    MAC address is known). A slot is reused least-recently-used first. */
module ArpCache {
  import opened Bytes

  const ARP_CACHE_SIZE: nat := 3

  datatype Entry = Entry(lastAccess: nat, mac: MacAddr, ip: IpAddr, alloc: bool, valid: bool)

  /** Which entries a lookup accepts: nw-stack.c accepts valid entries only,
      nw-stack2.c any allocated entry; a reply completes pending ones. */
  datatype Mode = ValidOnly | Allocated | PendingOnly

  predicate Accepts(e: Entry, ip: IpAddr, m: Mode)
  {
    e.ip == ip &&
    match m
    case ValidOnly => e.valid
    case Allocated => e.alloc
    case PendingOnly => e.alloc && !e.valid
  }

  /** The cache invariant: only an allocated entry is ever valid. */
  predicate Consistent(s: seq<Entry>)
  {
    forall i :: 0 <= i < |s| ==> s[i].valid ==> s[i].alloc
  }

  // ---------------------------------------------------------------------
  // Specification functions
  // ---------------------------------------------------------------------

  /** The first index at or after `i` whose entry `m` accepts for `ip`, or -1. */
  function Find(s: seq<Entry>, ip: IpAddr, m: Mode, i: nat): (r: int)
    requires i <= |s|
    ensures r == -1 || i <= r < |s|
    ensures r >= 0 ==> Accepts(s[r], ip, m)
    ensures forall j :: i <= j < |s| && (r == -1 || j < r) ==> !Accepts(s[j], ip, m)
    decreases |s| - i
  {
    if i == |s| then -1
    else if Accepts(s[i], ip, m) then i
    else Find(s, ip, m, i + 1)
  }

  /** The cache after a lookup that returned `r`: a hit is stamped with the
      current tick. */
  function Touch(s: seq<Entry>, r: int, now: nat): seq<Entry>
    requires r < |s|
  {
    if r < 0 then s else s[r := s[r].(lastAccess := now)]
  }

  /** The first unallocated index at or after `i`, or -1. */
  function FirstFree(s: seq<Entry>, i: nat): (r: int)
    requires i <= |s|
    ensures r == -1 || (i <= r < |s| && !s[r].alloc)
    ensures forall j :: i <= j < |s| && (r == -1 || j < r) ==> s[j].alloc
    decreases |s| - i
  {
    if i == |s| then -1
    else if !s[i].alloc then i
    else FirstFree(s, i + 1)
  }

  /** The least recently used of the first `n` entries, as the scan of
      arp_get_cache_slot finds it: the smallest `lastAccess`, and on a tie
      the lowest index (the comparison is strict). */
  function Lru(s: seq<Entry>, n: nat): (r: nat)
    requires 0 < n <= |s|
    ensures r < n
    ensures forall j :: 0 <= j < n ==> s[r].lastAccess <= s[j].lastAccess
    ensures forall j :: 0 <= j < r ==> s[r].lastAccess < s[j].lastAccess
  {
    if n == 1 then 0
    else
      var b := Lru(s, n - 1);
      if s[n - 1].lastAccess < s[b].lastAccess then n - 1 else b
  }

  /** The slot arp_get_cache_slot returns. */
  function Slot(s: seq<Entry>): (r: nat)
    requires |s| > 0
    ensures r < |s|
  {
    var f := FirstFree(s, 0);
    if f >= 0 then f else Lru(s, |s|)
  }

  /** The cache after arp_get_cache_slot: unchanged when a free slot exists,
      otherwise the evicted entry is cleared and stamped with `now`. */
  function AfterSlot(s: seq<Entry>, now: nat): seq<Entry>
    requires |s| > 0
  {
    if FirstFree(s, 0) >= 0 then s
    else
      var n := Lru(s, |s|);
      s[n := s[n].(alloc := false, valid := false, lastAccess := now)]
  }

  /** The cache after the pending entry for `ip` is put in slot `n`. */
  function Claim(s: seq<Entry>, n: nat, ip: IpAddr): seq<Entry>
    requires n < |s|
  {
    s[n := s[n].(ip := ip, alloc := true)]
  }

  /** The cache after a reply from `ip` with hardware address `mac`: the
      first pending entry for `ip` takes `mac` and becomes valid. */
  function Resolve(s: seq<Entry>, ip: IpAddr, mac: MacAddr): seq<Entry>
  {
    var k := Find(s, ip, PendingOnly, 0);
    if k < 0 then s else s[k := s[k].(mac := mac, valid := true)]
  }

  // ---------------------------------------------------------------------
  // Properties
  // ---------------------------------------------------------------------

  /** arp_get_cache_slot returns the lowest unallocated index and changes
      nothing when there is one; otherwise it returns the least recently used
      entry, clears it, stamps it and leaves the others alone. */
  lemma SlotChoice(s: seq<Entry>, now: nat)
    requires |s| > 0 && Consistent(s)
    ensures |AfterSlot(s, now)| == |s|
    ensures !AfterSlot(s, now)[Slot(s)].alloc && !AfterSlot(s, now)[Slot(s)].valid
    ensures forall j :: 0 <= j < |s| && j != Slot(s) ==> AfterSlot(s, now)[j] == s[j]
    ensures (exists j :: 0 <= j < |s| && !s[j].alloc) ==>
      AfterSlot(s, now) == s && forall j :: 0 <= j < Slot(s) ==> s[j].alloc
    ensures (forall j :: 0 <= j < |s| ==> s[j].alloc) ==>
      AfterSlot(s, now)[Slot(s)].lastAccess == now &&
      (forall j :: 0 <= j < |s| ==> s[Slot(s)].lastAccess <= s[j].lastAccess) &&
      (forall j :: 0 <= j < Slot(s) ==> s[Slot(s)].lastAccess < s[j].lastAccess)
  {
    var f := FirstFree(s, 0);
    if exists j :: 0 <= j < |s| && !s[j].alloc {
      assert f >= 0;
    }
  }

  /** Every operation on the cache keeps the invariant: a lookup stamp, slot
      reuse, claiming a pending entry and completing one on a reply. */
  lemma OperationsKeepConsistent(s: seq<Entry>, r: int, n: nat, ip: IpAddr, mac: MacAddr, now: nat)
    requires Consistent(s) && r < |s| && n < |s|
    ensures Consistent(Touch(s, r, now))
    ensures |s| > 0 ==> Consistent(AfterSlot(s, now))
    ensures Consistent(Claim(s, n, ip))
    ensures Consistent(Resolve(s, ip, mac))
  {
  }

  /** A reply completes at most one entry: one that was pending for the
      sender's address, which now holds the sender's MAC address and is
      valid; every other entry is unchanged. */
  lemma ResolveAtMostOne(s: seq<Entry>, ip: IpAddr, mac: MacAddr)
    ensures |Resolve(s, ip, mac)| == |s|
    ensures forall j, k :: 0 <= j < k < |s| && Resolve(s, ip, mac)[j] != s[j] ==> Resolve(s, ip, mac)[k] == s[k]
    ensures forall j :: 0 <= j < |s| && Resolve(s, ip, mac)[j] != s[j] ==>
      s[j].alloc && !s[j].valid && s[j].ip == ip &&
      Resolve(s, ip, mac)[j] == s[j].(mac := mac, valid := true)
    ensures (exists j :: 0 <= j < |s| && Accepts(s[j], ip, PendingOnly)) <==> Resolve(s, ip, mac) != s
  {
    var k := Find(s, ip, PendingOnly, 0);
    if k >= 0 {
      assert Resolve(s, ip, mac)[k] != s[k];
    }
  }

  /** In nw-stack.c a lookup sees only valid entries, so a second request for
      an address whose first request is still pending finds nothing, and
      claiming a fresh slot leaves two allocated entries for that address
      (when the cache has a free slot to give). */
  lemma PendingLookupMisses(s: seq<Entry>, ip: IpAddr, k: nat, now: nat)
    requires Consistent(s) && k < |s|
    requires s[k].alloc && !s[k].valid && s[k].ip == ip
    requires forall j :: 0 <= j < |s| ==> !(s[j].valid && s[j].ip == ip)
    requires FirstFree(s, 0) >= 0
    ensures Find(s, ip, ValidOnly, 0) == -1
    ensures var c := Claim(AfterSlot(s, now), Slot(s), ip);
      Slot(s) != k && c[k].alloc && c[k].ip == ip && c[Slot(s)].alloc && c[Slot(s)].ip == ip
  {
  }

  /** At most one allocated entry per address. */
  predicate UniqueAllocated(s: seq<Entry>)
  {
    forall i, j :: 0 <= i < j < |s| && s[i].alloc && s[j].alloc ==> s[i].ip != s[j].ip
  }

  /** In nw-stack2.c a lookup accepts pending entries too, and a request is
      sent (and a slot claimed) only when the lookup misses; that discipline
      keeps at most one entry per address, so resolution is single-flight. */
  lemma ResolveIsSingleFlight(s: seq<Entry>, ip: IpAddr, now: nat)
    requires |s| > 0 && Consistent(s) && UniqueAllocated(s)
    requires Find(s, ip, Allocated, 0) == -1
    ensures UniqueAllocated(Claim(AfterSlot(s, now), Slot(s), ip))
    ensures Find(Claim(AfterSlot(s, now), Slot(s), ip), ip, Allocated, 0) >= 0
  {
    var n := Slot(s);
    var c := Claim(AfterSlot(s, now), n, ip);
    SlotChoice(s, now);
    forall i, j | 0 <= i < j < |c| && c[i].alloc && c[j].alloc
      ensures c[i].ip != c[j].ip
    {
      if i == n {
        assert !Accepts(s[j], ip, Allocated);
      } else if j == n {
        assert !Accepts(s[i], ip, Allocated);
      }
    }
    assert Accepts(c[n], ip, Allocated);
  }

  /** A lookup's stamp changes no address and no flag, so every later scan
      finds what it found before, and one entry per address stays so. */
  lemma {:induction false} TouchKeepsLookups(s: seq<Entry>, r: int, now: nat, ip: IpAddr, m: Mode, i: nat)
    requires r < |s| && i <= |s|
    ensures |Touch(s, r, now)| == |s|
    ensures Find(Touch(s, r, now), ip, m, i) == Find(s, ip, m, i)
    ensures UniqueAllocated(s) ==> UniqueAllocated(Touch(s, r, now))
    decreases |s| - i
  {
    if i < |s| {
      TouchKeepsLookups(s, r, now, ip, m, i + 1);
      assert Accepts(Touch(s, r, now)[i], ip, m) == Accepts(s[i], ip, m);
    }
  }

  /** The slot just claimed for `ip` is found by a scan for allocated
      entries. */
  lemma ClaimFinds(s: seq<Entry>, n: nat, ip: IpAddr)
    requires n < |s|
    ensures Find(Claim(s, n, ip), ip, Allocated, 0) >= 0
  {
    assert Accepts(Claim(s, n, ip)[n], ip, Allocated);
  }

  // ---------------------------------------------------------------------
  // The cache object
  // ---------------------------------------------------------------------

  class Cache {
    const entries: array<Entry>

    predicate Valid()
      reads this
    {
      entries.Length == ARP_CACHE_SIZE
    }

    /** The static table, zero-filled. */
    constructor ()
      ensures Valid() && fresh(entries)
      ensures forall i :: 0 <= i < ARP_CACHE_SIZE ==> !entries[i].alloc && !entries[i].valid
    {
      entries := new Entry[ARP_CACHE_SIZE](_ => Entry(0, [0, 0, 0, 0, 0, 0], ZERO_IP, false, false));
    }

    /** arp_cache_init: clears `alloc` and `valid` of every entry. */
    method Init()
      requires Valid()
      modifies entries
      ensures Consistent(entries[..])
      ensures forall i :: 0 <= i < ARP_CACHE_SIZE ==>
        entries[i] == old(entries[i]).(alloc := false, valid := false)
    {
      var i := 0;
      while i < ARP_CACHE_SIZE
        invariant 0 <= i <= ARP_CACHE_SIZE
        invariant forall j :: 0 <= j < i ==> entries[j] == old(entries[j]).(alloc := false, valid := false)
        invariant forall j :: i <= j < ARP_CACHE_SIZE ==> entries[j] == old(entries[j])
      {
        entries[i] := entries[i].(alloc := false, valid := false);
        i := i + 1;
      }
    }

    /** arp_cache_lookup of nw-stack.c: the first valid entry for `ip` is
        stamped and returned (-1 for none). */
    method Lookup(ip: IpAddr, now: nat) returns (r: int)
      requires Valid()
      modifies entries
      ensures r == Find(old(entries[..]), ip, ValidOnly, 0)
      ensures entries[..] == Touch(old(entries[..]), r, now)
    {
      var i := 0;
      while i < ARP_CACHE_SIZE
        invariant 0 <= i <= ARP_CACHE_SIZE
        invariant entries[..] == old(entries[..])
        invariant Find(entries[..], ip, ValidOnly, i) == Find(entries[..], ip, ValidOnly, 0)
      {
        if entries[i].valid && entries[i].ip == ip {
          entries[i] := entries[i].(lastAccess := now);
          return i;
        }
        i := i + 1;
      }
      return -1;
    }

    /** arp_cache_lookup of nw-stack2.c: the same scan, but any allocated
        entry for `ip` matches, pending or valid. */
    method LookupAllocated(ip: IpAddr, now: nat) returns (r: int)
      requires Valid()
      modifies entries
      ensures r == Find(old(entries[..]), ip, Allocated, 0)
      ensures entries[..] == Touch(old(entries[..]), r, now)
    {
      var i := 0;
      while i < ARP_CACHE_SIZE
        invariant 0 <= i <= ARP_CACHE_SIZE
        invariant entries[..] == old(entries[..])
        invariant Find(entries[..], ip, Allocated, i) == Find(entries[..], ip, Allocated, 0)
      {
        if entries[i].alloc && entries[i].ip == ip {
          entries[i] := entries[i].(lastAccess := now);
          return i;
        }
        i := i + 1;
      }
      return -1;
    }

    /** arp_get_cache_slot */
    method GetSlot(now: nat) returns (n: nat)
      requires Valid()
      modifies entries
      ensures n == Slot(old(entries[..]))
      ensures entries[..] == AfterSlot(old(entries[..]), now)
    {
      var oldest := -1;
      var oldestAccess := 0;
      var i := 0;
      while i < ARP_CACHE_SIZE
        invariant 0 <= i <= ARP_CACHE_SIZE
        invariant entries[..] == old(entries[..])
        invariant FirstFree(entries[..], i) == FirstFree(entries[..], 0)
        invariant i == 0 <==> oldest == -1
        invariant i > 0 ==> oldest == Lru(entries[..], i) && oldestAccess == entries[oldest].lastAccess
      {
        if !entries[i].alloc {
          return i;
        }
        if oldest == -1 || entries[i].lastAccess < oldestAccess {
          oldest := i;
          oldestAccess := entries[i].lastAccess;
        }
        i := i + 1;
      }
      entries[oldest] := entries[oldest].(alloc := false, valid := false, lastAccess := now);
      return oldest;
    }

    /** The tail of send_arp_request: the claimed slot records `ip` and is
        marked allocated (a pending entry). */
    method ClaimSlot(n: nat, ip: IpAddr)
      requires Valid() && n < ARP_CACHE_SIZE
      modifies entries
      ensures entries[..] == Claim(old(entries[..]), n, ip)
    {
      entries[n] := entries[n].(ip := ip, alloc := true);
    }

    /** The cache update of handle_arp_reply: the first pending entry for the
        sender's address takes the sender's MAC address and becomes valid. */
    method Complete(ip: IpAddr, mac: MacAddr)
      requires Valid()
      modifies entries
      ensures entries[..] == Resolve(old(entries[..]), ip, mac)
    {
      var i := 0;
      while i < ARP_CACHE_SIZE
        invariant 0 <= i <= ARP_CACHE_SIZE
        invariant entries[..] == old(entries[..])
        invariant Find(entries[..], ip, PendingOnly, i) == Find(entries[..], ip, PendingOnly, 0)
      {
        if !entries[i].alloc || entries[i].valid {
          i := i + 1;
          continue;
        }
        if entries[i].ip == ip {
          entries[i] := entries[i].(mac := mac, valid := true);
          return;
        }
        i := i + 1;
      }
    }
  }
}
