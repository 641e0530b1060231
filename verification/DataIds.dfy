/** The table of data ids: how large each slice is, where it sits in a raw frame, and
    where its cache slot sits in a pool block. */
module DataIds {
  import opened Bytes
  import opened Wrappers

  const ID_BASE: nat := 1
  const RAW_HEAD: nat := 10
  const CELL: nat := 0
  const PERIOD_1S: nat := 10

  /** A size table: as many ids as entries, sizes within 16 bits. */
  predicate ValidTable(sizes: seq<nat>) {
    |sizes| < U16 - 1 && forall i | 0 <= i < |sizes| :: sizes[i] < U16
  }

  datatype DataIdSpec = DataIdSpec(dataId: nat, dataType: nat, cacheSize: nat, periodTicks: nat, needCache: bool)

  /** The index is computed in 16 bits, so id 0 wraps to an index past any table. */
  function SpecOf(sizes: seq<nat>, dataId: nat): DataIdSpec
    requires ValidTable(sizes)
  {
    var i := (dataId - ID_BASE) % U16;
    if i >= |sizes| then DataIdSpec(0, 0, 0, 0, false)
    else DataIdSpec(dataId, CELL, sizes[i], PERIOD_1S, true)
  }

  /** Sum of the first k sizes. */
  function Sum(sizes: seq<nat>, k: nat): nat
    requires k <= |sizes|
  {
    if k == 0 then 0 else Sum(sizes, k - 1) + sizes[k - 1]
  }

  lemma {:induction false} SumMonotone(sizes: seq<nat>, j: nat, k: nat)
    requires j <= k <= |sizes|
    ensures Sum(sizes, j) <= Sum(sizes, k)
    decreases k - j
  {
    if j < k {
      SumMonotone(sizes, j, k - 1);
    }
  }

  /** Where the slice of an id starts in a raw frame. */
  function RawOffset(sizes: seq<nat>, dataId: nat): nat
    requires ID_BASE <= dataId <= |sizes| + ID_BASE
  {
    RAW_HEAD + Sum(sizes, dataId - ID_BASE)
  }

  method CellRawOffset(sizes: seq<nat>, dataId: nat) returns (off: nat)
    requires ID_BASE <= dataId <= |sizes| + ID_BASE
    ensures off == RawOffset(sizes, dataId)
  {
    off := RAW_HEAD;
    for k := 0 to dataId - ID_BASE
      invariant off == RAW_HEAD + Sum(sizes, k)
    {
      off := off + sizes[k];
    }
  }

  // ---- the pool's block layout ----

  /** One region: which ids have a slot in its blocks, and where. */
  datatype RegionLayout = RegionLayout(domain: nat, periodTicks: nat, blockSize: nat, slots: map<nat, nat>)

  function AlignUp8(v: nat): (a: nat)
    ensures a % 8 == 0 && v <= a < v + 8
  {
    (v + 7) / 8 * 8
  }

  /** The slots of a block lie behind its head, inside the block, and apart. */
  ghost predicate Packed(r: RegionLayout, head: nat, size: map<nat, nat>) {
    && r.slots.Keys <= size.Keys
    && head <= r.blockSize
    && (forall id | id in r.slots :: head <= r.slots[id] && r.slots[id] + size[id] <= r.blockSize)
    && (forall a, b | a in r.slots && b in r.slots && a != b ::
          r.slots[a] + size[a] <= r.slots[b] || r.slots[b] + size[b] <= r.slots[a])
  }

  /** Ids that occur twice in the table must at least agree on their size. */
  ghost predicate Sized(specs: seq<DataIdSpec>, size: map<nat, nat>) {
    forall s | s in specs :: s.dataId in size && size[s.dataId] == s.cacheSize
  }

  predicate Houses(r: RegionLayout, s: DataIdSpec) {
    r.domain == s.dataType && r.periodTicks == s.periodTicks
  }

  /** An id is housed: some region of its kind has a slot for it. */
  ghost predicate Housed(regions: seq<RegionLayout>, s: DataIdSpec) {
    exists i :: 0 <= i < |regions| && Houses(regions[i], s) && s.dataId in regions[i].slots
  }

  ghost predicate LayoutOk(regions: seq<RegionLayout>, specs: seq<DataIdSpec>, head: nat, size: map<nat, nat>) {
    && (forall i | 0 <= i < |regions| :: Packed(regions[i], head, size))
    && (forall i, j | 0 <= i < j < |regions| ::
          regions[i].domain != regions[j].domain || regions[i].periodTicks != regions[j].periodTicks)
    && (forall s | s in specs && s.needCache :: Housed(regions, s))
  }

  ghost predicate NeededFor(r: RegionLayout, specs: seq<DataIdSpec>) {
    exists s :: s in specs && s.needCache && Houses(r, s)
  }

  /** Every region is there for some cached id. */
  ghost predicate Needed(regions: seq<RegionLayout>, specs: seq<DataIdSpec>) {
    forall i | 0 <= i < |regions| :: NeededFor(regions[i], specs)
  }

  lemma NeededLonger(r: RegionLayout, was: RegionLayout, specs: seq<DataIdSpec>, s: DataIdSpec)
    requires NeededFor(was, specs) && r.domain == was.domain && r.periodTicks == was.periodTicks
    ensures NeededFor(r, specs + [s])
  {
    var t :| t in specs && t.needCache && Houses(was, t);
    assert t in specs + [s] && Houses(r, t);
  }

  lemma NeededSame(regions: seq<RegionLayout>, specs: seq<DataIdSpec>, s: DataIdSpec)
    requires Needed(regions, specs)
    ensures Needed(regions, specs + [s])
  {
    forall i | 0 <= i < |regions| ensures NeededFor(regions[i], specs + [s]) {
      NeededLonger(regions[i], regions[i], specs, s);
    }
  }

  /** An id without a cache changes nothing. */
  lemma SkipKeeps(regions: seq<RegionLayout>, specs: seq<DataIdSpec>, head: nat, size: map<nat, nat>, s: DataIdSpec)
    requires LayoutOk(regions, specs, head, size) && Needed(regions, specs) && !s.needCache
    ensures LayoutOk(regions, specs + [s], head, size) && Needed(regions, specs + [s])
  {
    NeededSame(regions, specs, s);
  }

  lemma NeededSlot(regions: seq<RegionLayout>, specs: seq<DataIdSpec>, at: nat, s: DataIdSpec)
    requires at < |regions| && s.needCache && Houses(regions[at], s)
    requires forall i | 0 <= i < |regions| && i != at :: NeededFor(regions[i], specs)
    ensures Needed(regions[at := WithSlot(regions[at], s)], specs + [s])
  {
    var after := regions[at := WithSlot(regions[at], s)];
    forall i | 0 <= i < |after| ensures NeededFor(after[i], specs + [s]) {
      if i == at {
        assert s in specs + [s] && Houses(after[i], s);
      } else {
        NeededLonger(after[i], regions[i], specs, s);
      }
    }
  }

  method FindRegion(regions: seq<RegionLayout>, domain: nat, periodTicks: nat) returns (at: Option<nat>)
    ensures at.Some? ==> at.value < |regions| && regions[at.value].domain == domain
    ensures at.Some? ==> regions[at.value].periodTicks == periodTicks
    ensures at.None? ==> forall i | 0 <= i < |regions| ::
              regions[i].domain != domain || regions[i].periodTicks != periodTicks
  {
    for i := 0 to |regions|
      invariant forall j | 0 <= j < i :: regions[j].domain != domain || regions[j].periodTicks != periodTicks
    {
      if regions[i].domain == domain && regions[i].periodTicks == periodTicks {
        return Some(i);
      }
    }
    return None;
  }

  function WithSlot(r: RegionLayout, s: DataIdSpec): RegionLayout {
    r.(slots := r.slots[s.dataId := r.blockSize], blockSize := r.blockSize + s.cacheSize)
  }

  /** A slot put at the end of a block is apart from the others. */
  lemma PackedSlot(r: RegionLayout, s: DataIdSpec, head: nat, size: map<nat, nat>)
    requires Packed(r, head, size) && s.dataId in size && size[s.dataId] == s.cacheSize
    ensures Packed(WithSlot(r, s), head, size)
  {
  }

  lemma HousedStays(regions: seq<RegionLayout>, at: nat, r: RegionLayout, s: DataIdSpec)
    requires Housed(regions, s) && at < |regions|
    requires r.domain == regions[at].domain && r.periodTicks == regions[at].periodTicks
    requires regions[at].slots.Keys <= r.slots.Keys
    ensures Housed(regions[at := r], s)
  {
    var after := regions[at := r];
    var i :| 0 <= i < |regions| && Houses(regions[i], s) && s.dataId in regions[i].slots;
    assert Houses(after[i], s) && s.dataId in after[i].slots;
  }

  lemma {:induction false} SlotKeepsLayout(regions: seq<RegionLayout>, specs: seq<DataIdSpec>, head: nat,
                                           size: map<nat, nat>, at: nat, s: DataIdSpec)
    requires LayoutOk(regions, specs, head, size) && at < |regions| && Houses(regions[at], s)
    requires s.dataId in size && size[s.dataId] == s.cacheSize
    ensures LayoutOk(regions[at := WithSlot(regions[at], s)], specs + [s], head, size)
  {
    var r := WithSlot(regions[at], s);
    var after := regions[at := r];
    PackedSlot(regions[at], s, head, size);
    forall t | t in specs + [s] && t.needCache ensures Housed(after, t) {
      if t == s {
        assert Houses(after[at], t) && t.dataId in after[at].slots;
      } else {
        HousedStays(regions, at, r, t);
      }
    }
  }

  lemma {:induction false} NewRegionKeepsLayout(regions: seq<RegionLayout>, specs: seq<DataIdSpec>, head: nat,
                                                size: map<nat, nat>, r: RegionLayout)
    requires LayoutOk(regions, specs, head, size) && r.slots == map[] && r.blockSize >= head
    requires forall i | 0 <= i < |regions| ::
               regions[i].domain != r.domain || regions[i].periodTicks != r.periodTicks
    ensures LayoutOk(regions + [r], specs, head, size)
  {
    var after := regions + [r];
    forall t | t in specs && t.needCache ensures Housed(after, t) {
      var i :| 0 <= i < |regions| && Houses(regions[i], t) && t.dataId in regions[i].slots;
      assert after[i] == regions[i];
    }
  }

  /** Build the regions from the spec table: every cached id gets a slot of its size, no
      slot touches another one or a block head, and no region is made for nothing. */
  method Init(specs: seq<DataIdSpec>, cacheHead: nat, ghost size: map<nat, nat>) returns (regions: seq<RegionLayout>)
    requires Sized(specs, size)
    ensures LayoutOk(regions, specs, cacheHead, size) && Needed(regions, specs)
  {
    regions := [];
    for k := 0 to |specs|
      invariant LayoutOk(regions, specs[..k], cacheHead, size) && Needed(regions, specs[..k])
    {
      var s := specs[k];
      assert specs[..k + 1] == specs[..k] + [s];
      if !s.needCache {
        SkipKeeps(regions, specs[..k], cacheHead, size, s);
        continue;
      }
      var at := FindRegion(regions, s.dataType, s.periodTicks);
      if at.None? {
        var r := RegionLayout(s.dataType, s.periodTicks, AlignUp8(cacheHead), map[]);
        NewRegionKeepsLayout(regions, specs[..k], cacheHead, size, r);
        regions := regions + [r];
        at := Some(|regions| - 1);
      }
      SlotKeepsLayout(regions, specs[..k], cacheHead, size, at.value, s);
      NeededSlot(regions, specs[..k], at.value, s);
      regions := regions[at.value := WithSlot(regions[at.value], s)];
    }
    assert specs[..|specs|] == specs;
  }

  /** Byte range of a slot in the pool of a region. */
  function SlotStart(r: RegionLayout, block: nat, id: nat): nat
    requires id in r.slots
  {
    block * r.blockSize + r.slots[id]
  }

  /** Over all blocks of a pool, slot ranges are pairwise disjoint, miss every block
      head, and stay inside the pool. */
  lemma SlotsApart(r: RegionLayout, head: nat, size: map<nat, nat>, cap: nat, x: nat, a: nat, y: nat, b: nat)
    requires Packed(r, head, size) && x < cap && y < cap && a in r.slots && b in r.slots
    ensures x * r.blockSize + head <= SlotStart(r, x, a)
    ensures SlotStart(r, x, a) + size[a] <= (x + 1) * r.blockSize <= cap * r.blockSize
    ensures (x, a) == (y, b) || SlotStart(r, x, a) + size[a] <= SlotStart(r, y, b)
         || SlotStart(r, y, b) + size[b] <= SlotStart(r, x, a)
    ensures SlotStart(r, x, a) + size[a] <= y * r.blockSize || y * r.blockSize + head <= SlotStart(r, x, a)
  {
    BlocksInOrder(x, cap, r.blockSize);
    if x < y {
      BlocksInOrder(x, y, r.blockSize);
    } else if y < x {
      BlocksInOrder(y, x, r.blockSize);
    }
  }

  lemma BlocksInOrder(x: nat, y: nat, size: nat)
    requires x < y
    ensures x * size + size == (x + 1) * size <= y * size
  {
    assert y * size == (x + 1) * size + (y - x - 1) * size;
  }
}
