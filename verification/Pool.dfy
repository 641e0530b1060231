/** The processing-cache pool: a fixed table of blocks found by linear probing, with
    expiry by age.  Freeing a slot leaves no tombstone. */
module Pool {
  import opened Bytes
  import opened Wrappers
  import opened Ring

  datatype Slot = Free | Used(key: nat, tick: nat)

  type Table = seq<Slot>

  /** How many probes after its first one a key needs to get to slot idx. */
  function Dist(key: nat, idx: nat, n: nat): (d: nat)
    requires idx < n
    ensures d < n
  {
    Ahead(idx, key, n)
  }

  /** The slot of probe number i. */
  function Probed(key: nat, i: nat, n: nat): (idx: nat)
    requires i < n
    ensures idx < n && Dist(key, idx, n) == i
  {
    AheadOfCell(key, i, n);
    (key + i) % n
  }

  lemma ProbedDist(key: nat, idx: nat, n: nat)
    requires idx < n
    ensures Probed(key, Dist(key, idx, n), n) == idx
  {
    ModAdd(key, Dist(key, idx, n), n);
  }

  /** A probe for key ends at this slot. */
  predicate Stops(s: Slot, key: nat) {
    s.Free? || s.key == key
  }

  /** Probing for key ends at idx: it stops there, and nowhere on the way. */
  ghost predicate FirstStop(t: Table, key: nat, idx: nat) {
    && idx < |t| && Stops(t[idx], key)
    && forall j | 0 <= j < |t| && Dist(key, j, |t|) < Dist(key, idx, |t|) :: !Stops(t[j], key)
  }

  /** The slot e places behind the key's home, around the end, is free or holds the key. */
  ghost predicate OpenAt(t: Table, key: nat, e: nat)
    requires e < |t|
  {
    var s := t[(key + e) % |t|];
    s.Free? || s.key == key
  }

  lemma ProbedAt(t: Table, key: nat, e: nat)
    requires e < |t|
    ensures Probed(key, e, |t|) == (key + e) % |t| && (OpenAt(t, key, e) <==> Stops(t[Probed(key, e, |t|)], key))
  {
  }

  /** FirstStop in words: from slot key % n on, one slot after the other and around the end,
      the first that is free or holds the key. */
  lemma {:induction false} ProbeOrder(t: Table, key: nat, d: nat)
    requires d < |t|
    ensures (key + d) % |t| < |t|
    ensures FirstStop(t, key, (key + d) % |t|) <==> OpenAt(t, key, d) && forall e: nat | e < d :: !OpenAt(t, key, e)
  {
    var n := |t|;
    ProbedAt(t, key, d);
    forall e: nat | e < d
      ensures Dist(key, Probed(key, e, n), n) == e && (OpenAt(t, key, e) <==> Stops(t[Probed(key, e, n)], key))
    {
      ProbedAt(t, key, e);
    }
    forall j | 0 <= j < n && Dist(key, j, n) < d
      ensures OpenAt(t, key, Dist(key, j, n)) <==> Stops(t[j], key)
    {
      ProbedDist(key, j, n);
      ProbedAt(t, key, Dist(key, j, n));
    }
  }

  /** Probe on from probe number i. */
  function ProbeFrom(t: Table, key: nat, i: nat): (hit: Option<nat>)
    requires i <= |t|
    ensures hit.Some? ==> hit.value < |t| && Stops(t[hit.value], key)
    decreases |t| - i
  {
    if i == |t| then None
    else if Stops(t[Probed(key, i, |t|)], key) then Some(Probed(key, i, |t|))
    else ProbeFrom(t, key, i + 1)
  }

  function Probe(t: Table, key: nat): (hit: Option<nat>)
    ensures hit.Some? ==> hit.value < |t| && Stops(t[hit.value], key)
  {
    ProbeFrom(t, key, 0)
  }

  ghost predicate NoStopBefore(t: Table, key: nat, i: nat) {
    forall j | 0 <= j < |t| && Dist(key, j, |t|) < i :: !Stops(t[j], key)
  }

  lemma {:induction false} ProbeFromFinds(t: Table, key: nat, i: nat)
    requires i <= |t| && NoStopBefore(t, key, i)
    ensures match ProbeFrom(t, key, i)
            case Some(idx) => FirstStop(t, key, idx)
            case None => NoStopBefore(t, key, |t|)
    decreases |t| - i
  {
    if i < |t| {
      var idx := Probed(key, i, |t|);
      if !Stops(t[idx], key) {
        forall j | 0 <= j < |t| && Dist(key, j, |t|) < i + 1
          ensures !Stops(t[j], key)
        {
          ProbedDist(key, j, |t|);
        }
        ProbeFromFinds(t, key, i + 1);
      }
    }
  }

  /** The probe visits every slot once and ends at the first one that stops it; it
      finds none exactly when every slot is used by some other key. */
  lemma {:induction false} ProbeIff(t: Table, key: nat)
    ensures forall idx: nat :: Probe(t, key) == Some(idx) <==> FirstStop(t, key, idx)
    ensures Probe(t, key) == None <==> forall j | 0 <= j < |t| :: t[j].Used? && t[j].key != key
  {
    ProbeFromFinds(t, key, 0);
    forall idx: nat | FirstStop(t, key, idx)
      ensures Probe(t, key) == Some(idx)
    {
      if Probe(t, key).Some? {
        ProbedDist(key, idx, |t|);
        ProbedDist(key, Probe(t, key).value, |t|);
      }
    }
  }

  // ---- the three operations ----

  function Acquired(t: Table, key: nat, now: nat): (u: Table)
    ensures |u| == |t|
  {
    match Probe(t, key)
    case Some(idx) => t[idx := Used(key, now)]
    case None => t
  }

  /** A hit refreshes the block just as a new block is set: either way exactly the slot
      where the probe stops changes. */
  lemma {:induction false} AcquiredExactly(t: Table, key: nat, now: nat)
    ensures forall idx: nat | FirstStop(t, key, idx) ::
              Probe(t, key) == Some(idx) && Acquired(t, key, now) == t[idx := Used(key, now)]
    ensures Probe(t, key).Some? ==> FirstStop(t, key, Probe(t, key).value)
    ensures Probe(t, key).None? ==> Acquired(t, key, now) == t
    ensures Probe(t, key).None? <==> forall j | 0 <= j < |t| :: t[j].Used? && t[j].key != key
  {
    ProbeIff(t, key);
  }

  function Find(t: Table, key: nat): (hit: Option<nat>)
    ensures hit.Some? ==> hit.value < |t| && t[hit.value].Used? && t[hit.value].key == key
  {
    match Probe(t, key)
    case Some(idx) => if t[idx].Used? then Some(idx) else None
    case None => None
  }

  /** The source's unsigned 32-bit difference of tick counts. */
  function Age32(now: nat, tick: nat): (age: nat)
    ensures tick <= now < U32 ==> age == now - tick
  {
    (now - tick) % U32
  }

  function Evicted(t: Table, now: nat, ttl: nat): (u: Table)
    ensures |u| == |t|
    ensures forall i | 0 <= i < |t| ::
              u[i] == if t[i].Used? && Age32(now, t[i].tick) > ttl then Free else t[i]
  {
    seq(|t|, i requires 0 <= i < |t| => if t[i].Used? && Age32(now, t[i].tick) > ttl then Free else t[i])
  }

  const TTL_PERIODS: nat := 3

  /** One (domain, period) region: its slots as the parallel arrays of the source. */
  class Region {
    const domain: nat
    const periodTicks: nat
    const slotCap: nat
    const used: array<bool>
    const keys: array<nat>
    const lastTick: array<nat>

    ghost predicate Valid() {
      && used.Length == slotCap && keys.Length == slotCap && lastTick.Length == slotCap
      && 0 < slotCap && keys != lastTick
    }

    ghost function Table(): (t: Table)
      requires Valid()
      reads used, keys, lastTick
      ensures |t| == slotCap
      ensures forall i | 0 <= i < slotCap :: t[i] == if used[i] then Used(keys[i], lastTick[i]) else Free
    {
      seq(slotCap, i requires 0 <= i < slotCap reads used, keys, lastTick =>
        if used[i] then Used(keys[i], lastTick[i]) else Free)
    }

    constructor (domain: nat, periodTicks: nat, slotCap: nat)
      requires 0 < slotCap
      ensures Valid() && fresh(used) && fresh(keys) && fresh(lastTick)
      ensures this.domain == domain && this.periodTicks == periodTicks && this.slotCap == slotCap
      ensures Table() == seq(slotCap, _ => Free)
    {
      this.domain := domain;
      this.periodTicks := periodTicks;
      this.slotCap := slotCap;
      used := new bool[slotCap](_ => false);
      keys := new nat[slotCap](_ => 0);
      lastTick := new nat[slotCap](_ => 0);
    }

    /** Locate or create the block of a measured object; None when this region is not
        the one asked for, or full. */
    method AcquireBlock(domain: nat, periodTicks: nat, key: nat, now: nat) returns (block: Option<nat>)
      requires Valid()
      modifies used, keys, lastTick
      ensures var mine := domain == this.domain && periodTicks == this.periodTicks;
              && block == (if mine then Probe(old(Table()), key) else None)
              && Table() == if mine then Acquired(old(Table()), key, now) else old(Table())
      ensures block.Some? ==> domain == this.domain && periodTicks == this.periodTicks
      ensures block.Some? ==>
                FirstStop(old(Table()), key, block.value) && Table() == old(Table())[block.value := Used(key, now)]
      ensures block.None? ==> Table() == old(Table())
      ensures block.None? && domain == this.domain && periodTicks == this.periodTicks
              ==> forall j | 0 <= j < slotCap :: old(Table())[j].Used? && old(Table())[j].key != key
    {
      if domain != this.domain || periodTicks != this.periodTicks {
        return None;
      }
      ghost var was := Table();
      block := Acquire(key, now);
      AcquiredExactly(was, key, now);
    }

    /** The probe loop: the first slot that is free or the key's own is set to the key and
        the tick. */
    method Acquire(key: nat, now: nat) returns (block: Option<nat>)
      requires Valid()
      modifies used, keys, lastTick
      ensures block == Probe(old(Table()), key) && Table() == Acquired(old(Table()), key, now)
    {
      ghost var was := Table();
      var start := key % slotCap;
      for i := 0 to slotCap
        invariant Table() == was && Probe(was, key) == ProbeFrom(was, key, i)
      {
        var idx := (start + i) % slotCap;
        StartPlus(key, i, slotCap);
        if !used[idx] {
          used[idx] := true;
          keys[idx] := key;
          lastTick[idx] := now;
          assert Table() == was[idx := Used(key, now)];
          return Some(idx);
        }
        if keys[idx] == key {
          lastTick[idx] := now;
          assert Table() == was[idx := Used(key, now)];
          return Some(idx);
        }
      }
      return None;
    }

    method FindBlock(domain: nat, periodTicks: nat, key: nat) returns (block: Option<nat>)
      requires Valid()
      ensures block == if domain == this.domain && periodTicks == this.periodTicks
                       then Find(Table(), key) else None
      ensures block.Some? ==> domain == this.domain && periodTicks == this.periodTicks
      ensures block.Some? ==> FirstStop(Table(), key, block.value) && Table()[block.value].Used?
      ensures block.None? && domain == this.domain && periodTicks == this.periodTicks
              ==> forall idx: nat | FirstStop(Table(), key, idx) :: Table()[idx].Free?
    {
      if domain != this.domain || periodTicks != this.periodTicks {
        return None;
      }
      block := Search(key);
      ProbeIff(Table(), key);
    }

    method Search(key: nat) returns (block: Option<nat>)
      requires Valid()
      ensures block == Find(Table(), key)
    {
      var start := key % slotCap;
      for i := 0 to slotCap
        invariant Probe(Table(), key) == ProbeFrom(Table(), key, i)
      {
        var idx := (start + i) % slotCap;
        StartPlus(key, i, slotCap);
        if !used[idx] {
          return None;
        }
        if keys[idx] == key {
          return Some(idx);
        }
      }
      return None;
    }

    method EvictExpired(now: nat)
      requires Valid()
      modifies used
      ensures Table() == Evicted(old(Table()), now, TTL_PERIODS * periodTicks % U32)
      ensures forall i | 0 <= i < slotCap :: Table()[i] == match old(Table())[i]
                case Free => Free
                case Used(key, tick) =>
                  if (now - tick) % 0x1_0000_0000 > 3 * periodTicks % 0x1_0000_0000 then Free else Used(key, tick)
    {
      ghost var was := Table();
      var ttl := TTL_PERIODS * periodTicks % U32;
      for idx := 0 to slotCap
        invariant forall i | 0 <= i < idx :: Table()[i] == Evicted(was, now, ttl)[i]
        invariant forall i | idx <= i < slotCap :: Table()[i] == was[i]
      {
        if !used[idx] {
          continue;
        }
        if (now - lastTick[idx]) % U32 > ttl {
          used[idx] := false;
        }
      }
    }
  }

  lemma StartPlus(key: nat, i: nat, n: nat)
    requires i < n
    ensures (key % n + i) % n == Probed(key, i, n)
  {
    ModAdd(key, i, n);
    ModMod(key, n);
    ModAdd(key % n, i, n);
  }
}
