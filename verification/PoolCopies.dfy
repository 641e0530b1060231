/** How much of the pool the copies of one key can take: at most one block for each tick
    they can live, and a run in which they take that much. */
module PoolCopies {
  import opened Bytes
  import opened Wrappers
  import opened Ring
  import opened Pool
  import opened PoolRuns

  /** The slots that hold a copy of this key. */
  ghost function CopiesOf(t: Table, key: nat): set<nat> {
    set i: nat | i < |t| && Copy(t, key, i)
  }

  // ---- at most ttl + 1 ----

  /** Copies of one key were acquired in different ticks. */
  lemma DistinctTicks(t: Table, key: nat, i: nat, j: nat)
    requires Shadowed(t) && Copy(t, key, i) && Copy(t, key, j) && i != j
    ensures t[i].tick != t[j].tick
  {
    ProbedDist(key, i, |t|);
    ProbedDist(key, j, |t|);
    assert Dist(key, i, |t|) != Dist(key, j, |t|);
  }

  /** As many slots with different ticks as there are ticks for them. */
  lemma {:induction false} OnePerTick(t: Table, some: set<nat>, lo: int, n: nat)
    requires forall i | i in some :: i < |t| && t[i].Used? && lo <= t[i].tick < lo + n
    requires forall i, j | i in some && j in some && i != j :: t[i].tick != t[j].tick
    ensures |some| <= n
    decreases n
  {
    if n == 0 {
      assert forall i :: i !in some;
      assert some == {};
    } else if i :| i in some && t[i].tick == lo + n - 1 {
      var rest := some - {i};
      OnePerTick(t, rest, lo, n - 1);
      assert some == rest + {i};
    } else {
      OnePerTick(t, some, lo, n - 1);
    }
  }

  lemma {:induction false} WithinTable(some: set<nat>, n: nat)
    requires forall i | i in some :: i < n
    ensures |some| <= n
    decreases n
  {
    if n == 0 {
      assert some == {};
    } else {
      WithinTable(some - {n - 1}, n - 1);
      if n - 1 in some {
        assert some == (some - {n - 1}) + {n - 1};
      } else {
        assert some == some - {n - 1};
      }
    }
  }

  /** On every run a key has at most as many blocks as an acquisition lives ticks, counting
      its own, however often its probe chain breaks. */
  lemma {:induction false} CopiesBounded(cap: nat, es: seq<Event>, ttl: nat, key: nat)
    ensures var t := Exec(Start(cap), es, ttl).table;
            |CopiesOf(t, key)| <= ttl + 1 && |CopiesOf(t, key)| <= cap
  {
    var r := Exec(Start(cap), es, ttl);
    RunGood(Start(cap), es, ttl);
    ExecSize(Start(cap), es, ttl);
    var copies := CopiesOf(r.table, key);
    forall i, j | i in copies && j in copies && i != j ensures r.table[i].tick != r.table[j].tick {
      DistinctTicks(r.table, key, i, j);
    }
    OnePerTick(r.table, copies, r.now - ttl, ttl + 1);
    WithinTable(copies, cap);
  }

  // ---- and that many ----

  /** The slots 0..m are taken by keys of their own, the last one first, so that they expire
      from the last to the first; from then on key cap asks for a block in every tick. */
  function Round(cap: nat, ttl: nat, m: nat, n: nat): seq<Event> {
    (if n <= m then [Frame(m - n)] else if n <= ttl then [] else [Frame(cap)]) + [Tick]
  }

  function Rounds(cap: nat, ttl: nat, m: nat, n: nat): seq<Event> {
    if n == 0 then [] else Rounds(cap, ttl, m, n - 1) + Round(cap, ttl, m, n - 1)
  }

  /** What slot i holds when round n begins. */
  function Stair(cap: nat, ttl: nat, m: nat, n: nat, i: nat): Slot {
    if i > m || n + i <= m then Free
    else if n + i <= m + ttl then Used(i, m - i)
    else if n + i == m + ttl + 1 then Free
    else Used(cap, m + ttl + 1 - i)
  }

  ghost predicate Stairs(r: Run, cap: nat, ttl: nat, m: nat, n: nat) {
    |r.table| == cap && r.now == n && forall i | 0 <= i < cap :: r.table[i] == Stair(cap, ttl, m, n, i)
  }

  lemma OwnSlot(k: nat, n: nat)
    requires k < n
    ensures Dist(k, k, n) == 0
  {
    ModUnique(k, 0, k, n);
  }

  lemma WholeTurn(cap: nat, i: nat)
    requires i < cap
    ensures Dist(cap, i, cap) == i
  {
    ModUnique(cap, 1, 0, cap);
  }

  /** Key m - n finds its own slot free in round n. */
  lemma {:induction false} GetsOwn(r: Run, cap: nat, ttl: nat, m: nat, n: nat)
    requires Stairs(r, cap, ttl, m, n) && m < cap && m <= ttl && n <= m
    ensures Probe(r.table, m - n) == Some(m - n)
  {
    var k := m - n;
    OwnSlot(k, cap);
    assert r.table[k] == Stair(cap, ttl, m, n, k) == Free;
    assert FirstStop(r.table, k, k);
    ProbeIff(r.table, k);
  }

  /** Key cap finds the slot that has just expired, behind used ones of other keys. */
  lemma {:induction false} GetsExpired(r: Run, cap: nat, ttl: nat, m: nat, n: nat)
    requires Stairs(r, cap, ttl, m, n) && m < cap && m <= ttl && ttl < n <= m + ttl + 1
    ensures Probe(r.table, cap) == Some(m + ttl + 1 - n)
  {
    var k := m + ttl + 1 - n;
    assert r.table[k] == Stair(cap, ttl, m, n, k) == Free;
    WholeTurn(cap, k);
    forall j | 0 <= j < cap && Dist(cap, j, cap) < Dist(cap, k, cap) ensures !Stops(r.table[j], cap) {
      WholeTurn(cap, j);
      assert r.table[j] == Stair(cap, ttl, m, n, j) == Used(j, m - j);
    }
    assert FirstStop(r.table, cap, k);
    ProbeIff(r.table, cap);
  }

  lemma {:induction false} ExecSnoc(r: Run, es: seq<Event>, e: Event, ttl: nat)
    ensures Exec(r, es + [e], ttl) == Step(Exec(r, es, ttl), e, ttl)
    decreases |es|
  {
    if es == [] {
      assert [] + [e] == [e] && [e][1..] == [];
      ExecCons(r, e, [], ttl);
    } else {
      assert (es + [e])[1..] == es[1..] + [e];
      ExecSnoc(Step(r, es[0], ttl), es[1..], e, ttl);
    }
  }

  /** Slot i when round n ends: it has been acquired or not, and ages by one tick. */
  lemma StairStep(cap: nat, ttl: nat, m: nat, n: nat, i: nat, mid: Slot)
    requires i < cap && m < cap && m <= ttl && n <= m + ttl
    requires mid == if n <= m && i == m - n then Used(i, n)
                    else if ttl < n && n + i == m + ttl + 1 then Used(cap, n)
                    else Stair(cap, ttl, m, n, i)
    ensures Stair(cap, ttl, m, n + 1, i) == if mid.Used? && n + 1 > mid.tick + ttl then Free else mid
  {
  }

  /** One round takes the stairs one step on. */
  lemma {:induction false} RoundRuns(r: Run, cap: nat, ttl: nat, m: nat, n: nat)
    requires Stairs(r, cap, ttl, m, n) && m < cap && m <= ttl && n <= m + ttl
    ensures Stairs(Exec(r, Round(cap, ttl, m, n), ttl), cap, ttl, m, n + 1)
  {
    var mid := r;
    if n <= m {
      GetsOwn(r, cap, ttl, m, n);
      mid := Step(r, Frame(m - n), ttl);
      ExecCons(r, Frame(m - n), [Tick], ttl);
    } else if ttl < n {
      GetsExpired(r, cap, ttl, m, n);
      mid := Step(r, Frame(cap), ttl);
      ExecCons(r, Frame(cap), [Tick], ttl);
    } else {
      assert [] + [Tick] == [Tick];
    }
    assert [Tick] == [Tick] + [];
    ExecCons(mid, Tick, [], ttl);
    forall i | 0 <= i < cap
      ensures Step(mid, Tick, ttl).table[i] == Stair(cap, ttl, m, n + 1, i)
    {
      StairStep(cap, ttl, m, n, i, mid.table[i]);
    }
  }

  lemma {:induction false} ExecParts(r: Run, a: seq<Event>, b: seq<Event>, ttl: nat)
    ensures Exec(r, a + b, ttl) == Exec(Exec(r, a, ttl), b, ttl)
    decreases |a|
  {
    if a == [] {
      assert a + b == b;
    } else {
      assert (a + b)[0] == a[0] && (a + b)[1..] == a[1..] + b;
      ExecParts(Step(r, a[0], ttl), a[1..], b, ttl);
    }
  }

  lemma {:induction false} RoundsRun(cap: nat, ttl: nat, m: nat, n: nat)
    requires m < cap && m <= ttl && n <= m + ttl + 1
    ensures Stairs(Exec(Start(cap), Rounds(cap, ttl, m, n), ttl), cap, ttl, m, n)
    decreases n
  {
    if n > 0 {
      RoundsRun(cap, ttl, m, n - 1);
      RoundRuns(Exec(Start(cap), Rounds(cap, ttl, m, n - 1), ttl), cap, ttl, m, n - 1);
      ExecParts(Start(cap), Rounds(cap, ttl, m, n - 1), Round(cap, ttl, m, n - 1), ttl);
    }
  }

  function UpTo(m: nat): (s: set<nat>)
    ensures |s| == m + 1 && forall i :: i in s <==> 0 <= i <= m
  {
    if m == 0 then {0} else UpTo(m - 1) + {m}
  }

  /** The bound is met: in every pool some run gives a key ttl + 1 blocks, or all there are. */
  lemma {:induction false} CopiesReached(cap: nat, ttl: nat) returns (es: seq<Event>)
    requires 0 < cap
    ensures |CopiesOf(Exec(Start(cap), es, ttl).table, cap)| == if ttl + 1 <= cap then ttl + 1 else cap
  {
    var m := if ttl + 1 <= cap then ttl else cap - 1;
    var n := m + ttl + 1;
    var rounds := Rounds(cap, ttl, m, n);
    var r := Exec(Start(cap), rounds, ttl);
    es := rounds + [Frame(cap)];
    RoundsRun(cap, ttl, m, n);
    GetsExpired(r, cap, ttl, m, n);
    ExecSnoc(Start(cap), rounds, Frame(cap), ttl);
    LastStair(r, cap, ttl, m, n);
  }

  lemma {:induction false} LastStair(r: Run, cap: nat, ttl: nat, m: nat, n: nat)
    requires Stairs(r, cap, ttl, m, n) && m < cap && n == m + ttl + 1 && Probe(r.table, cap) == Some(0)
    ensures |CopiesOf(Step(r, Frame(cap), ttl).table, cap)| == m + 1
  {
    var t := Step(r, Frame(cap), ttl).table;
    forall i: nat | i < cap ensures Copy(t, cap, i) <==> i <= m {
      assert i != 0 ==> t[i] == Stair(cap, ttl, m, n, i);
    }
    assert CopiesOf(t, cap) == UpTo(m);
  }
}
