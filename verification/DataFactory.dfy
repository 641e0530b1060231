/** The data thread's frame processing: registry, pool, slicing and reporting driven
    together, in full mode. */
module DataFactories {
  import opened Bytes
  import opened Wrappers
  import opened Memory
  import opened Pool
  import opened PoolRuns
  import opened DataIds
  import opened Report
  import opened Slicing

  const TICK_MS: nat := 100
  const FRAME_HEAD: nat := 10

  /** A 32-bit counter one step on. */
  function Next32(n: nat): (r: nat)
    ensures r < U32
  {
    (n + 1) % U32
  }

  /** The measured object a raw frame belongs to; 0 when the frame is too short. */
  function ExtractRawKey(raw: Option<seq<byte>>): nat {
    if raw.None? || |raw.value| < FRAME_HEAD then 0
    else Val(raw.value[2..6]) * U32 + Val(raw.value[6..10])
  }

  predicate TooShort(raw: Option<seq<byte>>) {
    raw.None? || |raw.value| < FRAME_HEAD
  }

  /** The frame names no object: it has no id bytes, or they are all zero. */
  predicate NoObject(raw: Option<seq<byte>>) {
    TooShort(raw) || raw.value[2..10] == [0, 0, 0, 0, 0, 0, 0, 0]
  }

  /** A frame's key is its cell id, bytes 2 to 5, times 2^32 plus its second id, bytes 6 to
      9, both little-endian; a frame without them has key 0. */
  lemma KeyValue(raw: Option<seq<byte>>)
    ensures raw.None? || |raw.value| < 10 ==> ExtractRawKey(raw) == 0
    ensures raw.Some? && |raw.value| >= 10 ==>
              var b: seq<int> := raw.value;
              var cellId := b[2] + 0x100 * b[3] + 0x1_0000 * b[4] + 0x100_0000 * b[5];
              var second := b[6] + 0x100 * b[7] + 0x1_0000 * b[8] + 0x100_0000 * b[9];
              ExtractRawKey(raw) == cellId * 0x1_0000_0000 + second
  {
    if raw.Some? && |raw.value| >= 10 {
      ValOfFour(raw.value[2..6]);
      ValOfFour(raw.value[6..10]);
    }
  }

  /** Two 32-bit words can be read back from the number they make. */
  lemma TwoWords(hi1: nat, lo1: nat, hi2: nat, lo2: nat)
    requires lo1 < U32 && lo2 < U32
    ensures hi1 * U32 + lo1 == hi2 * U32 + lo2 <==> hi1 == hi2 && lo1 == lo2
  {
  }

  lemma {:induction false} SameWord(a: seq<byte>, b: seq<byte>)
    requires |a| == |b|
    ensures Val(a) == Val(b) <==> a == b
  {
    LeVal(a);
    LeVal(b);
  }

  lemma IdBytes(a: seq<byte>, b: seq<byte>)
    requires |a| >= FRAME_HEAD && |b| >= FRAME_HEAD
    ensures a[2..10] == b[2..10] <==> a[2..6] == b[2..6] && a[6..10] == b[6..10]
  {
    assert a[2..10] == a[2..6] + a[6..10] && b[2..10] == b[2..6] + b[6..10];
    assert a[2..6] == a[2..10][..4] && b[2..6] == b[2..10][..4];
    assert a[6..10] == a[2..10][4..] && b[6..10] == b[2..10][4..];
  }

  lemma LowWord(raw: seq<byte>)
    requires |raw| >= FRAME_HEAD
    ensures Val(raw[6..10]) < U32
  {
    Pow256Words();
    LeVal(raw[6..10]);
  }

  /** The id bytes can be read back from the key. */
  lemma SameIds(a: seq<byte>, b: seq<byte>)
    requires |a| >= FRAME_HEAD && |b| >= FRAME_HEAD
    ensures ExtractRawKey(Some(a)) == ExtractRawKey(Some(b)) <==> a[2..10] == b[2..10]
  {
    LowWord(a);
    LowWord(b);
    TwoWords(Val(a[2..6]), Val(a[6..10]), Val(b[2..6]), Val(b[6..10]));
    SameWord(a[2..6], b[2..6]);
    SameWord(a[6..10], b[6..10]);
    IdBytes(a, b);
  }

  /** The key is 0, and the frame counted as one without a key, iff it names no object:
      cell 0 with second id 0 cannot be told from a frame that is too short. */
  lemma NoKeyIff(raw: Option<seq<byte>>)
    ensures ExtractRawKey(raw) == 0 <==> NoObject(raw)
  {
    if !TooShort(raw) {
      var zero: seq<byte> := [0, 0, 0, 0, 0, 0, 0, 0, 0, 0];
      assert zero[2..10] == [0, 0, 0, 0, 0, 0, 0, 0];
      SameIds(raw.value, zero);
      assert zero[2..6] == [0, 0, 0, 0] && zero[6..10] == [0, 0, 0, 0];
      ZeroWord();
    }
  }

  lemma ZeroWord()
    ensures Val([0, 0, 0, 0]) == 0
  {
    Pow256Words();
    assert Le(0, 4) == [0, 0, 0, 0];
    ValLe32(0);
  }

  /** Any two frames share a key iff both name no object or both name the same one. */
  lemma KeyIdentifiesObject(a: Option<seq<byte>>, b: Option<seq<byte>>)
    ensures ExtractRawKey(a) == ExtractRawKey(b) <==>
              || (NoObject(a) && NoObject(b))
              || (!TooShort(a) && !TooShort(b) && a.value[2..10] == b.value[2..10])
  {
    NoKeyIff(a);
    NoKeyIff(b);
    if !TooShort(a) && !TooShort(b) {
      SameIds(a.value, b.value);
    }
  }

  // ---- the registry ----

  datatype CellSlice = CellSlice(offset: nat, size: nat)

  datatype ExtractorSpec = ExtractorSpec(
    dataId: nat, dataType: nat, cacheSize: nat, periodTicks: nat, needCache: bool, proc: Option<CellSlice>)

  function RegistryKey(dataType: nat, dataId: nat): nat {
    dataType * U16 + dataId
  }

  /** The extractor of a cell id: it cuts the id's slice at the id's raw offset. */
  function CellSpec(sizes: seq<nat>, id: nat): ExtractorSpec
    requires ID_BASE <= id <= |sizes|
  {
    ExtractorSpec(id, CELL, sizes[id - ID_BASE], PERIOD_1S, true,
                  Some(CellSlice(RawOffset(sizes, id), sizes[id - ID_BASE])))
  }

  /** Ids of different kinds, and different ids of one kind, never share an entry. */
  lemma KeysApart(type1: nat, id1: nat, type2: nat, id2: nat)
    requires id1 < 0x1_0000 && id2 < 0x1_0000
    ensures RegistryKey(type1, id1) == RegistryKey(type2, id2) <==> type1 == type2 && id1 == id2
  {
  }

  /** What the registry holds once every cell id of the table is registered. */
  function Catalogue(sizes: seq<nat>, n: nat): map<nat, ExtractorSpec>
    requires n <= |sizes|
  {
    map id: nat | ID_BASE <= id <= n :: CellSpec(sizes, id)
  }

  class ExtractorRegistry {
    var table: map<nat, ExtractorSpec>

    constructor ()
      ensures table == map[]
    {
      table := map[];
    }

    /** A second registration of the same (type, id) is refused and changes nothing. */
    method Register(dataId: nat, dataType: nat, cacheSize: nat, periodTicks: nat, needCache: bool,
                    proc: Option<CellSlice>) returns (ok: bool)
      modifies this
      ensures ok <==> RegistryKey(dataType, dataId) !in old(table)
      ensures table == if !ok then old(table) else
                old(table)[RegistryKey(dataType, dataId) :=
                  ExtractorSpec(dataId, dataType, cacheSize, periodTicks, needCache, proc)]
    {
      var key := RegistryKey(dataType, dataId);
      if key in table {
        return false;
      }
      table := table[key := ExtractorSpec(dataId, dataType, cacheSize, periodTicks, needCache, proc)];
      return true;
    }

    method Find(dataType: nat, dataId: nat) returns (spec: Option<ExtractorSpec>)
      ensures spec == if RegistryKey(dataType, dataId) in table
                      then Some(table[RegistryKey(dataType, dataId)]) else None
    {
      var key := RegistryKey(dataType, dataId);
      spec := if key in table then Some(table[key]) else None;
    }

    /** Register an extractor for every id of the table. */
    method InitExtractors(sizes: seq<nat>)
      requires ValidTable(sizes) && table == map[]
      modifies this
      ensures table == Catalogue(sizes, |sizes|)
    {
      assert Catalogue(sizes, 0) == map[];
      for i := 0 to |sizes|
        invariant table == Catalogue(sizes, i)
      {
        var id := ID_BASE + i;
        var s := SpecOf(sizes, id);
        if s.dataId == 0 {
          assert false;
        }
        var off := CellRawOffset(sizes, id);
        var ok := Register(id, s.dataType, s.cacheSize, s.periodTicks, s.needCache,
                           Some(CellSlice(off, s.cacheSize)));
        assert table == Catalogue(sizes, i + 1);
      }
    }
  }

  // ---- what a frame leaves in the pool ----

  /** The shape of the cell pool: cap blocks laid out as layout says, for a size table. */
  datatype Shape = Shape(layout: RegionLayout, head: nat, sizes: seq<nat>, cap: nat)

  /** Slot sizes by id, for the layout lemmas. */
  ghost function SizeMap(sizes: seq<nat>): (m: map<nat, nat>)
    ensures forall id :: id in m <==> ID_BASE <= id <= |sizes|
    ensures forall id | id in m :: m[id] == sizes[id - ID_BASE]
  {
    map id | id in IdsTo(|sizes|) :: sizes[id - ID_BASE]
  }

  predicate IsId(sh: Shape, id: nat) {
    ID_BASE <= id <= |sh.sizes|
  }

  /** Every id of the table has a slot, and slots are packed as Init leaves them. */
  ghost predicate Laid(sh: Shape) {
    && ValidTable(sh.sizes) && 0 < sh.cap
    && sh.layout.domain == CELL && sh.layout.periodTicks == PERIOD_1S
    && Packed(sh.layout, sh.head, SizeMap(sh.sizes))
    && forall id | IsId(sh, id) :: id in sh.layout.slots
  }

  function SlotAt(sh: Shape, block: nat, id: nat): nat
    requires Laid(sh) && IsId(sh, id)
  {
    SlotStart(sh.layout, block, id)
  }

  function PoolBytes(sh: Shape): nat {
    sh.cap * sh.layout.blockSize
  }

  /** Position p belongs to the slot area of this block. */
  predicate InSlots(sh: Shape, block: nat, p: nat) {
    block * sh.layout.blockSize + sh.head <= p < (block + 1) * sh.layout.blockSize
  }

  lemma SlotInPool(sh: Shape, block: nat, id: nat)
    requires Laid(sh) && IsId(sh, id) && block < sh.cap
    ensures SlotAt(sh, block, id) + sh.sizes[id - ID_BASE] <= PoolBytes(sh)
    ensures forall p: nat | SlotAt(sh, block, id) <= p < SlotAt(sh, block, id) + sh.sizes[id - ID_BASE] ::
              InSlots(sh, block, p)
  {
    SlotsApart(sh.layout, sh.head, SizeMap(sh.sizes), sh.cap, block, id, block, id);
  }

  lemma TwoSlots(sh: Shape, block: nat, a: nat, b: nat)
    requires Laid(sh) && IsId(sh, a) && IsId(sh, b) && a != b && block < sh.cap
    ensures SlotAt(sh, block, a) + sh.sizes[a - ID_BASE] <= SlotAt(sh, block, b)
         || SlotAt(sh, block, b) + sh.sizes[b - ID_BASE] <= SlotAt(sh, block, a)
  {
    SlotsApart(sh.layout, sh.head, SizeMap(sh.sizes), sh.cap, block, a, block, b);
  }

  /** The bytes of an id's slot in a block. */
  ghost function SlotBytes(pool: seq<byte>, sh: Shape, block: nat, id: nat): seq<byte>
    requires Laid(sh) && |pool| == PoolBytes(sh) && block < sh.cap && IsId(sh, id)
  {
    SlotInPool(sh, block, id);
    pool[SlotAt(sh, block, id)..SlotAt(sh, block, id) + sh.sizes[id - ID_BASE]]
  }

  /** Processing the extractors of ids on one frame: each slot of the block holds the raw
      slice if it was cut, its old bytes otherwise; other blocks and the block's own head
      keep every byte. */
  ghost predicate PoolAfter(before: seq<byte>, after: seq<byte>, sh: Shape, block: nat, raw: Option<seq<byte>>,
                            ids: seq<nat>)
  {
    && Laid(sh) && |before| == |after| == PoolBytes(sh) && block < sh.cap
    && (forall p: nat | p < |before| && !InSlots(sh, block, p) :: after[p] == before[p])
    && (forall id | IsId(sh, id) ::
          SlotBytes(after, sh, block, id)
          == if id in ids && Fits(sh.sizes, raw, id) then SliceOf(sh.sizes, raw, id).data
             else SlotBytes(before, sh, block, id))
  }

  lemma OtherSlotKept(now: seq<byte>, sh: Shape, block: nat, id: nat, data: seq<byte>, x: nat)
    requires Laid(sh) && |now| == PoolBytes(sh) && block < sh.cap && IsId(sh, id) && IsId(sh, x) && x != id
    requires |data| == sh.sizes[id - ID_BASE] && SlotAt(sh, block, id) + |data| <= |now|
    ensures SlotBytes(Splice(now, SlotAt(sh, block, id), data), sh, block, x) == SlotBytes(now, sh, block, x)
  {
    SlotInPool(sh, block, x);
    TwoSlots(sh, block, x, id);
    SpliceOther(now, SlotAt(sh, block, id), data, SlotAt(sh, block, x),
                SlotAt(sh, block, x) + sh.sizes[x - ID_BASE]);
  }

  lemma OwnSlotWritten(now: seq<byte>, sh: Shape, block: nat, id: nat, data: seq<byte>)
    requires Laid(sh) && |now| == PoolBytes(sh) && block < sh.cap && IsId(sh, id)
    requires |data| == sh.sizes[id - ID_BASE] && SlotAt(sh, block, id) + |data| <= |now|
    ensures SlotBytes(Splice(now, SlotAt(sh, block, id), data), sh, block, id) == data
    ensures forall p: nat | p < |now| && !InSlots(sh, block, p) ::
              Splice(now, SlotAt(sh, block, id), data)[p] == now[p]
  {
    SlotInPool(sh, block, id);
    var at := SlotAt(sh, block, id);
    SpliceRead(now, at, data);
    forall p: nat | p < |now| && !InSlots(sh, block, p) ensures Splice(now, at, data)[p] == now[p] {
      SpliceOutside(now, at, data, p);
    }
  }

  lemma {:induction false} PoolAfterWrite(before: seq<byte>, now: seq<byte>, sh: Shape, block: nat,
                                          raw: Option<seq<byte>>, ids: seq<nat>, id: nat)
    requires PoolAfter(before, now, sh, block, raw, ids) && IsId(sh, id) && Fits(sh.sizes, raw, id)
    requires SlotAt(sh, block, id) + sh.sizes[id - ID_BASE] <= |now|
    ensures PoolAfter(before, Splice(now, SlotAt(sh, block, id), SliceOf(sh.sizes, raw, id).data),
                      sh, block, raw, ids + [id])
  {
    var data := SliceOf(sh.sizes, raw, id).data;
    OwnSlotWritten(now, sh, block, id, data);
    forall x | IsId(sh, x) && x != id
      ensures SlotBytes(Splice(now, SlotAt(sh, block, id), data), sh, block, x) == SlotBytes(now, sh, block, x)
    {
      OtherSlotKept(now, sh, block, id, data, x);
    }
  }

  // ---- Init lays the table out ----

  /** The spec table that Init is given: one entry per id. */
  function SpecTable(sizes: seq<nat>, n: nat): (specs: seq<DataIdSpec>)
    requires ValidTable(sizes) && n <= |sizes|
    ensures |specs| == n && forall i | 0 <= i < n :: specs[i] == SpecOf(sizes, i + ID_BASE)
  {
    if n == 0 then [] else SpecTable(sizes, n - 1) + [SpecOf(sizes, n)]
  }

  /** Below 2^16 the index does not wrap. */
  lemma SpecOfId(sizes: seq<nat>, id: nat)
    requires ValidTable(sizes) && ID_BASE <= id <= |sizes|
    ensures SpecOf(sizes, id) == DataIdSpec(id, CELL, sizes[id - ID_BASE], PERIOD_1S, true)
  {
    assert (id - ID_BASE) % U16 == id - ID_BASE;
  }

  lemma {:induction false} SpecsOfTable(sizes: seq<nat>, id: nat)
    requires ValidTable(sizes) && ID_BASE <= id <= |sizes|
    ensures SpecTable(sizes, |sizes|)[id - ID_BASE] == SpecOf(sizes, id)
    ensures SpecOf(sizes, id) == DataIdSpec(id, CELL, sizes[id - ID_BASE], PERIOD_1S, true)
  {
    SpecOfId(sizes, id);
  }

  lemma {:induction false} TableSpec(sizes: seq<nat>, s: DataIdSpec)
    requires ValidTable(sizes) && s in SpecTable(sizes, |sizes|)
    ensures s.dataType == CELL && s.periodTicks == PERIOD_1S
    ensures ID_BASE <= s.dataId <= |sizes| && s.cacheSize == sizes[s.dataId - ID_BASE]
  {
    var specs := SpecTable(sizes, |sizes|);
    var i :| 0 <= i < |specs| && specs[i] == s;
    SpecsOfTable(sizes, i + ID_BASE);
  }

  lemma {:induction false} ForCells(r: RegionLayout, sizes: seq<nat>)
    requires ValidTable(sizes) && NeededFor(r, SpecTable(sizes, |sizes|))
    ensures r.domain == CELL && r.periodTicks == PERIOD_1S
  {
    var s :| s in SpecTable(sizes, |sizes|) && s.needCache && Houses(r, s);
    TableSpec(sizes, s);
  }

  /** All ids of the table are of one kind, so Init makes one region of it. */
  lemma {:induction false} OneRegion(regions: seq<RegionLayout>, sizes: seq<nat>, head: nat, size: map<nat, nat>)
    requires ValidTable(sizes) && sizes != []
    requires LayoutOk(regions, SpecTable(sizes, |sizes|), head, size) && Needed(regions, SpecTable(sizes, |sizes|))
    ensures |regions| == 1 && regions[0].domain == CELL && regions[0].periodTicks == PERIOD_1S
  {
    HasSlot(regions, sizes, head, size, ID_BASE);
    ForCells(regions[0], sizes);
    if |regions| > 1 {
      ForCells(regions[1], sizes);
      assert false;
    }
  }

  lemma {:induction false} HasSlot(regions: seq<RegionLayout>, sizes: seq<nat>, head: nat, size: map<nat, nat>, id: nat)
    requires ValidTable(sizes) && ID_BASE <= id <= |sizes|
    requires LayoutOk(regions, SpecTable(sizes, |sizes|), head, size)
    ensures exists i :: 0 <= i < |regions| && id in regions[i].slots
  {
    SpecsOfTable(sizes, id);
    var s := SpecOf(sizes, id);
    assert s in SpecTable(sizes, |sizes|) && s.needCache && Housed(regions, s);
    var i :| 0 <= i < |regions| && Houses(regions[i], s) && s.dataId in regions[i].slots;
  }

  /** Init makes of the table one region, laid out as the factory needs it. */
  lemma {:induction false} InitLaysOut(regions: seq<RegionLayout>, sizes: seq<nat>, head: nat, cap: nat)
    requires ValidTable(sizes) && sizes != [] && 0 < cap
    requires LayoutOk(regions, SpecTable(sizes, |sizes|), head, SizeMap(sizes))
    requires Needed(regions, SpecTable(sizes, |sizes|))
    ensures |regions| == 1 && Laid(Shape(regions[0], head, sizes, cap))
  {
    OneRegion(regions, sizes, head, SizeMap(sizes));
    forall id | ID_BASE <= id <= |sizes| ensures id in regions[0].slots {
      HasSlot(regions, sizes, head, SizeMap(sizes), id);
    }
  }

  lemma NothingNeeded(regions: seq<RegionLayout>, specs: seq<DataIdSpec>)
    requires Needed(regions, specs) && specs == []
    ensures regions == []
  {
    assert regions != [] ==> NeededFor(regions[0], specs);
  }

  /** Init on the table of cell ids. */
  method InitCells(sizes: seq<nat>, cacheHead: nat, ghost cap: nat) returns (regions: seq<RegionLayout>)
    requires ValidTable(sizes) && 0 < cap
    ensures sizes == [] ==> regions == []
    ensures sizes != [] ==> |regions| == 1 && Laid(Shape(regions[0], cacheHead, sizes, cap))
  {
    TableIsSized(sizes);
    regions := Init(SpecTable(sizes, |sizes|), cacheHead, SizeMap(sizes));
    if sizes != [] {
      InitLaysOut(regions, sizes, cacheHead, cap);
    } else {
      NothingNeeded(regions, SpecTable(sizes, |sizes|));
    }
  }

  /** The table agrees with itself on sizes, as Init requires. */
  lemma {:induction false} TableIsSized(sizes: seq<nat>)
    requires ValidTable(sizes)
    ensures Sized(SpecTable(sizes, |sizes|), SizeMap(sizes))
  {
    var specs, size := SpecTable(sizes, |sizes|), SizeMap(sizes);
    forall s | s in specs
      ensures s.dataId in size && size[s.dataId] == s.cacheSize
    {
      TableSpec(sizes, s);
    }
  }

  // ---- what a frame leaves in the report ----

  /** After offering the slices: content and drop count, from those before. */
  ghost predicate Offered(front: seq<byte>, drops0: nat, slices: seq<Slice>, content: seq<byte>, drops: nat) {
    var acc := Accepted(slices, |front|, CAP);
    content == front + Encode(acc) && drops + |acc| == drops0 + |slices|
  }

  /** Appending one more slice to the offered ones appends its bytes iff there is room. */
  lemma {:induction false} OfferedOneMore(front: seq<byte>, drops0: nat, done: seq<Slice>, content: seq<byte>,
                                          drops: nat, s: Slice)
    requires Offered(front, drops0, done, content, drops)
    ensures var full := |content| + SUB + |s.data| > CAP;
            Offered(front, drops0, done + [s],
                    content + (if full then [] else EncodeSlice(s)), drops + if full then 1 else 0)
  {
    var acc := Accepted(done, |front|, CAP);
    AcceptedSnoc(done, s, |front|, CAP);
    EncodeConcat(acc, [s]);
    EncodeOne(s, []);
    assert [s] + [] == [s] && acc + [] == acc;
    assert front + (Encode(acc) + EncodeSlice(s)) == front + Encode(acc) + EncodeSlice(s);
  }

  /** Everything the extractors of one frame write to. */
  datatype Sinks = Sinks(pool: seq<byte>, content: seq<byte>, drops: nat)

  /** What one extractor does: nothing when its slice lies beyond the frame, otherwise
      the slice goes to its slot and, if there is room, to the report. */
  ghost predicate Extracted(sh: Shape, block: nat, raw: Option<seq<byte>>, id: nat, before: Sinks, after: Sinks) {
    && Laid(sh) && IsId(sh, id) && SlotAt(sh, block, id) + sh.sizes[id - ID_BASE] <= |before.pool|
    && if !Fits(sh.sizes, raw, id) then after == before
       else
         var s := SliceOf(sh.sizes, raw, id);
         var full := |before.content| + SUB + |s.data| > CAP;
         after == Sinks(Splice(before.pool, SlotAt(sh, block, id), s.data),
                        before.content + (if full then [] else EncodeSlice(s)),
                        before.drops + if full then 1 else 0)
  }

  lemma ExtractedFits(sh: Shape, block: nat, raw: Option<seq<byte>>, id: nat, before: Sinks, after: Sinks,
                      data: seq<byte>)
    requires Laid(sh) && IsId(sh, id) && SlotAt(sh, block, id) + sh.sizes[id - ID_BASE] <= |before.pool|
    requires Fits(sh.sizes, raw, id) && data == SliceOf(sh.sizes, raw, id).data
    requires after.pool == Splice(before.pool, SlotAt(sh, block, id), data)
    requires var full := |before.content| + SUB + |data| > CAP;
             && after.drops == before.drops + (if full then 1 else 0)
             && (full ==> after.content == before.content)
             && (!full ==> after.content == before.content + EncodeSlice(Slice(id, data)))
    ensures Extracted(sh, block, raw, id, before, after)
  {
    assert before.content + [] == before.content;
  }

  /** The extractors of ids have run. */
  ghost predicate Walked(sh: Shape, block: nat, raw: Option<seq<byte>>, ids: seq<nat>, before: Sinks, after: Sinks) {
    && IdsOf(ids, sh.sizes)
    && PoolAfter(before.pool, after.pool, sh, block, raw, ids)
    && Offered(before.content, before.drops, SlicesOf(ids, sh.sizes, raw), after.content, after.drops)
  }

  lemma {:induction false} WalkedStart(sh: Shape, block: nat, raw: Option<seq<byte>>, before: Sinks)
    requires Laid(sh) && |before.pool| == PoolBytes(sh) && block < sh.cap
    ensures Walked(sh, block, raw, [], before, before)
  {
    assert before.content + [] == before.content;
  }

  lemma {:induction false} WalkedStep(sh: Shape, block: nat, raw: Option<seq<byte>>, ids: seq<nat>, id: nat,
                                      before: Sinks, now: Sinks, after: Sinks)
    requires Walked(sh, block, raw, ids, before, now) && Extracted(sh, block, raw, id, now, after)
    ensures Walked(sh, block, raw, ids + [id], before, after)
  {
    SlicesSnoc(ids, id, sh.sizes, raw);
    var done := SlicesOf(ids, sh.sizes, raw);
    if Fits(sh.sizes, raw, id) {
      PoolAfterWrite(before.pool, now.pool, sh, block, raw, ids, id);
      OfferedOneMore(before.content, before.drops, done, now.content, now.drops, SliceOf(sh.sizes, raw, id));
    } else {
      assert done + [] == done;
    }
  }

  lemma TakeOne(order: seq<nat>, k: nat)
    requires k < |order|
    ensures order[..k + 1] == order[..k] + [order[k]]
  {
  }

  lemma TakeAll(order: seq<nat>)
    ensures order[..0] == [] && order[..|order|] == order
  {
  }

  const TTL: nat := 30

  /** The frame, if any, that one round of Begin, Adds and Flush publishes. */
  function FrameFor(front: seq<byte>, tsOff: nat, taskId: nat, timestampMs: nat, seqNo: nat, slices: seq<Slice>)
    : seq<seq<byte>>
    requires 4 <= tsOff
  {
    Sent(true, front + Encode(Accepted(slices, |front|, CAP)), tsOff, taskId, timestampMs, seqNo)
  }

  /** What a frame's key does to the pool's table: it takes the first slot from its home on
      that is free or holds the key, whatever that slot's tick was; with every slot holding
      another key, and for a frame that wants no block, nothing changes. */
  ghost predicate TookBlock(before: Table, key: nat, tick: nat, wanted: bool, block: Option<nat>, after: Table) {
    match block
    case Some(idx) => wanted && FirstStop(before, key, idx) && after == before[idx := Used(key, tick)]
    case None =>
      after == before && (wanted ==> forall j | 0 <= j < |before| :: before[j].Used? && before[j].key != key)
  }

  /** A report of every id of the table fits the frame, and the parser counts it whole. */
  predicate FullReportFits(sizes: seq<nat>, tsOff: nat) {
    tsOff + 16 + 4 * |sizes| + Sum(sizes, |sizes|) <= 49152 && |sizes| <= 1000
  }

  /** A receiver reads from the frame ids 1..k and, put together, the raw bytes from offset
      10 to the end of slice k. */
  ghost predicate CarriesSlices(frame: seq<byte>, tsOff: nat, sizes: seq<nat>, k: nat, raw: seq<byte>) {
    && 4 <= tsOff && tsOff + 16 <= |frame| && 0 < k <= |sizes| && 10 + Sum(sizes, k) <= |raw|
    && var view := ViewOf(frame, tsOff, 1000);
       && view.sliceCount == k && view.dataIdMin == 1 && view.dataIdMax == k && view.frameLen == |frame|
       && Reassemble(Decode(frame[tsOff + 16..], 1000), k) == raw[10..10 + Sum(sizes, k)]
  }

  /** Ids 1..k are those whose slices, one behind the other from offset 10 on, lie in the
      raw frame. */
  ghost predicate LieInside(sizes: seq<nat>, raw: Option<seq<byte>>, k: nat) {
    && k <= |sizes| && (raw.None? ==> k == 0)
    && (raw.Some? && 0 < k ==> 10 + Sum(sizes, k) <= |raw.value|)
    && (raw.Some? && k < |sizes| ==> |raw.value| < 10 + Sum(sizes, k + 1))
  }

  /** What a frame with a block publishes: at most one wire frame, stamped with the task,
      the time and the number; for a table that fits, nothing if no slice lies in the raw
      frame and otherwise one wire frame with all k that do. */
  ghost predicate ReportOf(out: seq<seq<byte>>, tsOff: nat, taskId: nat, timeMs: nat, number: nat, sizes: seq<nat>,
                           raw: Option<seq<byte>>)
    requires 4 <= tsOff && ValidTable(sizes)
  {
    var k := SliceCount(sizes, raw);
    && LieInside(sizes, raw, k) && |out| <= 1
    && (FullReportFits(sizes, tsOff) ==> |out| == if k == 0 then 0 else 1)
    && (out != [] ==> var frame := out[0];
          && tsOff + 16 <= |frame| <= 49152
          && HeaderAt(frame, tsOff) == Header(taskId, timeMs, number, |frame| - HeaderSize(tsOff))
          && (FullReportFits(sizes, tsOff) ==> raw.Some? && CarriesSlices(frame, tsOff, sizes, k, raw.value)))
  }

  class DataFactory {
    const shape: Shape
    const region: Region
    const pool: array<byte>
    const agg: ReportAggregator
    const registry: ExtractorRegistry
    var tick: nat
    var currentTask: nat
    var seqNo: nat
    var frames: nat
    var ticks: nat
    var dropPoolFull: nat
    var keyFail: nat

    /** How the parts fit together; nothing of it ever changes. */
    ghost predicate Wired() {
      && Laid(shape) && region.Valid()
      && region.domain == CELL && region.periodTicks == PERIOD_1S && region.slotCap == shape.cap
      && pool.Length == PoolBytes(shape) && agg.buf != pool
    }

    /** The part of Valid that the methods can touch. */
    ghost predicate Sound()
      reads this, agg, registry
    {
      && agg.Valid() && registry.table == Catalogue(shape.sizes, |shape.sizes|)
      && tick < U32 && currentTask < U32 && seqNo < U32
    }

    ghost predicate Valid()
      reads this, agg, registry
    {
      Wired() && Sound()
    }

    ghost function Now(): Sinks
      requires agg.Valid()
      reads agg, agg.buf, pool
    {
      Sinks(pool[..], agg.Content(), agg.drops)
    }

    constructor (shape: Shape, tsOff: nat)
      requires Laid(shape) && 4 <= tsOff && HeaderSize(tsOff) <= CAP
      ensures Valid() && fresh(pool) && fresh(agg) && fresh(agg.buf) && fresh(registry)
      ensures fresh(region.used) && fresh(region.keys) && fresh(region.lastTick)
      ensures this.shape == shape && agg.tsOff == tsOff
      ensures tick == currentTask == seqNo == 0 && region.Table() == seq(shape.cap, _ => Free)
    {
      this.shape := shape;
      region := new Region(CELL, PERIOD_1S, shape.cap);
      pool := new byte[PoolBytes(shape)](_ => 0);
      agg := new ReportAggregator(tsOff);
      registry := new ExtractorRegistry();
      tick, currentTask, seqNo, frames, ticks, dropPoolFull, keyFail := 0, 0, 0, 0, 0, 0, 0;
      new;
      registry.InitExtractors(shape.sizes);
    }

    /** Copy a slice into its slot; the slot then reads back as the slice. */
    method CutInto(slot: nat, data: seq<byte>)
      requires slot + |data| <= pool.Length
      modifies pool
      ensures pool[..] == Splice(old(pool[..]), slot, data) && pool[slot..slot + |data|] == data
    {
      Memcpy(pool, slot, data);
      SpliceRead(old(pool[..]), slot, data);
      assert pool[..][slot..slot + |data|] == pool[slot..slot + |data|];
    }

    /** The registered extractor of an id. */
    method Lookup(id: nat) returns (spec: ExtractorSpec)
      requires Valid() && IsId(shape, id)
      ensures spec == CellSpec(shape.sizes, id)
    {
      var found := registry.Find(CELL, id);
      spec := found.value;
    }

    /** One extractor on one frame: cut the slice into the block's slot, then append the
        slot to the report; a slice beyond the frame's end is skipped. */
    method Extract(raw: Option<seq<byte>>, block: nat, id: nat)
      requires Valid() && block < shape.cap && IsId(shape, id)
      modifies pool, agg`used, agg`drops, agg.buf
      ensures Sound() && Extracted(shape, block, raw, id, old(Now()), Now())
    {
      SlotInPool(shape, block, id);
      var spec := Lookup(id);
      var slot := SlotAt(shape, block, id);
      if spec.proc.None? {
        assert false;
      }
      var cut := spec.proc.value;
      if raw.None? || |raw.value| < cut.offset + cut.size {
        return;
      }
      ghost var before := Now();
      CutInto(slot, raw.value[cut.offset..cut.offset + cut.size]);
      var cache := pool[slot..slot + spec.cacheSize];
      agg.Add(id, Some(cache), spec.cacheSize);
      ExtractedFits(shape, block, raw, id, before, Now(), cache);
    }

    /** Walk the registry in the given order over one frame. */
    method ForEachByDomain(raw: Option<seq<byte>>, block: nat, order: seq<nat>)
      requires Valid() && block < shape.cap && IdsOf(order, shape.sizes)
      modifies pool, agg`used, agg`drops, agg.buf
      ensures Sound() && Walked(shape, block, raw, order, old(Now()), Now())
    {
      ghost var before := Now();
      WalkedStart(shape, block, raw, before);
      TakeAll(order);
      for k := 0 to |order|
        invariant Sound() && Walked(shape, block, raw, order[..k], before, Now())
      {
        ghost var now := Now();
        TakeOne(order, k);
        Extract(raw, block, order[k]);
        WalkedStep(shape, block, raw, order[..k], order[k], before, now, Now());
      }
    }

    /** What one frame's report adds to the published ones: no frame or one. */
    ghost function ReportFor(raw: Option<seq<byte>>, order: seq<nat>): seq<seq<byte>>
      requires Valid() && IdsOf(order, shape.sizes)
      reads this, agg, agg.buf, registry
    {
      FrameFor(agg.buf[..HeaderSize(agg.tsOff)], agg.tsOff, currentTask, tick * TICK_MS, Next32(seqNo),
               SlicesOf(order, shape.sizes, raw))
    }

    /** Slice one frame into its block and send the report. */
    method SliceAndReport(raw: Option<seq<byte>>, block: nat, order: seq<nat>)
      requires Valid() && block < shape.cap && IdsOf(order, shape.sizes) && agg.hasSink
      modifies this`seqNo, pool, agg`taskId, agg`used, agg`drops, agg`published, agg.buf
      ensures Sound() && seqNo == Next32(old(seqNo))
      ensures PoolAfter(old(pool[..]), pool[..], shape, block, raw, order)
      ensures agg.published == old(agg.published) + old(ReportFor(raw, order))
    {
      SliceInto(raw, block, order);
      Send(old(ReportFor(raw, order)));
    }

    /** Flush what has been aggregated. */
    method Send(ghost report: seq<seq<byte>>)
      requires Valid() && Sent(agg.hasSink, agg.Content(), agg.tsOff, agg.taskId, tick * TICK_MS, seqNo) == report
      modifies agg`used, agg`published, agg.buf
      ensures Sound() && pool[..] == old(pool[..]) && agg.published == old(agg.published) + report
    {
      agg.Flush(tick * TICK_MS, seqNo);
    }

    /** The report of one frame, before it is flushed: what a flush now would send is the
        frame's report. */
    method SliceInto(raw: Option<seq<byte>>, block: nat, order: seq<nat>)
      requires Valid() && block < shape.cap && IdsOf(order, shape.sizes)
      modifies this`seqNo, pool, agg`taskId, agg`used, agg`drops, agg.buf
      ensures Sound() && seqNo == Next32(old(seqNo))
      ensures PoolAfter(old(pool[..]), pool[..], shape, block, raw, order)
      ensures Sent(true, agg.Content(), agg.tsOff, agg.taskId, tick * TICK_MS, seqNo) == old(ReportFor(raw, order))
    {
      ghost var head := agg.buf[..HeaderSize(agg.tsOff)];
      agg.Begin(currentTask);
      assert agg.Content() == head;
      ForEachByDomain(raw, block, order);
      assert agg.Content() == head + Encode(Accepted(SlicesOf(order, shape.sizes, raw), |head|, CAP));
      seqNo := Next32(seqNo);
    }

    method OnTask(taskId: nat)
      requires Valid() && taskId < U32
      modifies this`currentTask
      ensures Sound() && currentTask == taskId
    {
      currentTask := taskId;
    }

    /** One maintenance tick: the region takes one Tick step of the run model. */
    method OnTick()
      requires Valid()
      modifies this`tick, this`ticks, region.used
      ensures Sound() && ticks == old(ticks) + 1
      ensures (region.Table(), tick) == CodeStep(old(region.Table()), old(tick), Tick, TTL)
      ensures tick == (old(tick) + 1) % 0x1_0000_0000
      ensures forall i | 0 <= i < shape.cap :: region.Table()[i] == match old(region.Table())[i]
                case Free => Free
                case Used(key, last) => if (tick - last) % 0x1_0000_0000 > 30 then Free else Used(key, last)
    {
      tick := Next32(tick);
      ticks := ticks + 1;
      region.EvictExpired(tick);
    }

    predicate Runs()
      reads this, agg
    {
      agg.hasSink && currentTask != 0
    }

    /** The block this frame will get. */
    ghost function BlockFor(raw: Option<seq<byte>>, dataType: nat): (block: Option<nat>)
      requires Valid()
      reads this, agg, registry, region.used, region.keys, region.lastTick
      ensures block.Some? ==> block.value < shape.cap
    {
      if Runs() && dataType == CELL then Probe(region.Table(), ExtractRawKey(raw)) else None
    }

    /** The region and the tick once this frame is in: one Frame step of the run model,
        or nothing for a frame the guards turn away. */
    ghost function Stepped(raw: Option<seq<byte>>, dataType: nat): (Table, nat)
      requires Valid()
      reads this, agg, registry, region.used, region.keys, region.lastTick
    {
      if Runs() && dataType == CELL then CodeStep(region.Table(), tick, Frame(ExtractRawKey(raw)), TTL)
      else (region.Table(), tick)
    }

    /** One raw frame.  Without a sink or a task nothing happens.  Otherwise the region
        takes one Frame step; without a block the frame is dropped and counted; with one,
        the block's slots take the slices and one report goes out, unless it is empty.  The
        report says the current task, the time of the current tick and the next number, and,
        for a table that fits, carries exactly the slices that lie in the frame. */
    method Process(raw: Option<seq<byte>>, dataType: nat, order: seq<nat>)
      returns (ghost block: Option<nat>, ghost report: seq<seq<byte>>)
      requires Valid() && Walks(order, |shape.sizes|)
      modifies this`seqNo, this`frames, this`dropPoolFull, this`keyFail
      modifies region.used, region.keys, region.lastTick
      modifies pool, agg`taskId, agg`used, agg`drops, agg`published, agg.buf
      ensures Sound() && block == old(BlockFor(raw, dataType))
      ensures (region.Table(), tick) == old(Stepped(raw, dataType))
      ensures TookBlock(old(region.Table()), ExtractRawKey(raw), tick,
                        agg.hasSink && currentTask != 0 && dataType == CELL, block, region.Table())
      ensures keyFail == old(keyFail) + (if agg.hasSink && currentTask != 0 && ExtractRawKey(raw) == 0 then 1 else 0)
      ensures dropPoolFull == old(dropPoolFull) + (if agg.hasSink && currentTask != 0 && block.None? then 1 else 0)
      ensures block.None? ==> frames == old(frames) && seqNo == old(seqNo)
      ensures block.None? ==> pool[..] == old(pool[..]) && report == []
      ensures block.Some? ==> frames == old(frames) + 1 && seqNo == (old(seqNo) + 1) % 0x1_0000_0000
      ensures block.Some? ==> PoolAfter(old(pool[..]), pool[..], shape, block.value, raw, order)
      ensures agg.published == old(agg.published) + report
      ensures block.Some? ==> report == old(ReportFor(raw, order))
      ensures block.Some? ==> ReportOf(report, agg.tsOff, currentTask, 100 * tick, seqNo, shape.sizes, raw)
    {
      report := ReportFor(raw, order);
      ReportForSays(raw, order);
      block := TakeFrame(raw, dataType, order);
      report := if block.None? then [] else report;
    }

    lemma ReportForSays(raw: Option<seq<byte>>, order: seq<nat>)
      requires Valid() && Walks(order, |shape.sizes|)
      ensures ReportOf(ReportFor(raw, order), agg.tsOff, currentTask, 100 * tick, Next32(seqNo), shape.sizes, raw)
    {
      ReportIs(order, shape.sizes, raw, agg.buf[..HeaderSize(agg.tsOff)], agg.tsOff, currentTask, tick, seqNo,
               ReportFor(raw, order));
    }

    /** Process, with its outcome in the terms of the run model and of the report builder. */
    method TakeFrame(raw: Option<seq<byte>>, dataType: nat, order: seq<nat>) returns (ghost block: Option<nat>)
      requires Valid() && Walks(order, |shape.sizes|)
      modifies this`seqNo, this`frames, this`dropPoolFull, this`keyFail
      modifies region.used, region.keys, region.lastTick
      modifies pool, agg`taskId, agg`used, agg`drops, agg`published, agg.buf
      ensures Sound() && block == old(BlockFor(raw, dataType))
      ensures (region.Table(), tick) == old(Stepped(raw, dataType))
      ensures TookBlock(old(region.Table()), ExtractRawKey(raw), tick,
                        agg.hasSink && currentTask != 0 && dataType == CELL, block, region.Table())
      ensures keyFail == old(keyFail) + (if Runs() && ExtractRawKey(raw) == 0 then 1 else 0)
      ensures dropPoolFull == old(dropPoolFull) + (if Runs() && block.None? then 1 else 0)
      ensures block.None? ==> frames == old(frames) && seqNo == old(seqNo)
      ensures block.None? ==> pool[..] == old(pool[..]) && agg.published == old(agg.published)
      ensures block.Some? ==> frames == old(frames) + 1 && seqNo == Next32(old(seqNo))
      ensures block.Some? ==> PoolAfter(old(pool[..]), pool[..], shape, block.value, raw, order)
      ensures block.Some? ==> agg.published == old(agg.published) + old(ReportFor(raw, order))
    {
      var got := AcquireFor(raw, dataType);
      block := got;
      Deliver(raw, got, order);
    }

    /** The part of Process behind the block: nothing without one. */
    method Deliver(raw: Option<seq<byte>>, block: Option<nat>, order: seq<nat>)
      requires Valid() && Walks(order, |shape.sizes|) && (block.Some? ==> block.value < shape.cap && agg.hasSink)
      modifies this`seqNo, this`frames, pool, agg`taskId, agg`used, agg`drops, agg`published, agg.buf
      ensures Sound() && region.Table() == old(region.Table()) && Runs() == old(Runs())
      ensures block.None? ==> frames == old(frames) && seqNo == old(seqNo)
      ensures block.None? ==> pool[..] == old(pool[..]) && agg.published == old(agg.published)
      ensures block.Some? ==> frames == old(frames) + 1 && seqNo == Next32(old(seqNo))
      ensures block.Some? ==> PoolAfter(old(pool[..]), pool[..], shape, block.value, raw, order)
      ensures block.Some? ==> agg.published == old(agg.published) + old(ReportFor(raw, order))
    {
      if block.Some? {
        SliceAndReport(raw, block.value, order);
        frames := frames + 1;
      }
    }

    /** The part of Process before slicing: the guards, the key, the block. */
    method AcquireFor(raw: Option<seq<byte>>, dataType: nat) returns (block: Option<nat>)
      requires Valid()
      modifies this`dropPoolFull, this`keyFail, region.used, region.keys, region.lastTick
      ensures Sound() && block == old(BlockFor(raw, dataType))
      ensures block.Some? ==> Runs() && block.value < shape.cap
      ensures (region.Table(), tick) == old(Stepped(raw, dataType))
      ensures TookBlock(old(region.Table()), ExtractRawKey(raw), tick,
                        agg.hasSink && currentTask != 0 && dataType == CELL, block, region.Table())
      ensures keyFail == old(keyFail) + (if Runs() && ExtractRawKey(raw) == 0 then 1 else 0)
      ensures dropPoolFull == old(dropPoolFull) + (if Runs() && block.None? then 1 else 0)
    {
      block := None;
      if !agg.hasSink {
        return;
      }
      if currentTask == 0 {
        return;
      }
      var key := ExtractRawKey(raw);
      if key == 0 {
        keyFail := keyFail + 1;
      }
      block := region.AcquireBlock(dataType, PERIOD_1S, key, tick);
      if block.None? {
        dropPoolFull := dropPoolFull + 1;
      }
    }
  }

  /** Slices that are all accepted go out in one frame, whose header says how many bytes
      follow it. */
  lemma {:induction false} SentWhole(front: seq<byte>, tsOff: nat, taskId: nat, timestampMs: nat, seqNo: nat,
                                     ss: seq<Slice>, n: nat)
    requires 4 <= tsOff && |front| == HeaderSize(tsOff)
    requires Accepted(ss, |front|, CAP) == ss && |Encode(ss)| == n
    ensures FrameFor(front, tsOff, taskId, timestampMs, seqNo, ss)
         == if n == 0 then [] else [Stamp(front + Encode(ss), tsOff, Header(taskId, timestampMs, seqNo, n))]
  {
  }

  lemma NoneIsNothing(sizes: seq<nat>, k: nat)
    requires k <= |sizes|
    ensures SUB * k + Sum(sizes, k) == 0 <==> k == 0
  {
  }

  /** With room for every slice nothing is dropped: the frame holds all the cut slices. */
  lemma {:induction false} PublishedFrame(order: seq<nat>, sizes: seq<nat>, raw: Option<seq<byte>>, front: seq<byte>,
                                          tsOff: nat, taskId: nat, timestampMs: nat, seqNo: nat)
    requires ValidTable(sizes) && Walks(order, |sizes|) && raw.Some?
    requires 4 <= tsOff && |front| == HeaderSize(tsOff)
    requires HeaderSize(tsOff) + SUB * |sizes| + Sum(sizes, |sizes|) <= CAP
    ensures var ss := SlicesOf(order, sizes, raw);
            var k := SliceCount(sizes, raw);
            var n := SUB * k + Sum(sizes, k);
            var out := FrameFor(front, tsOff, taskId, timestampMs, seqNo, ss);
            && n <= CAP
            && out == if k == 0 then []
                      else [Stamp(front + Encode(ss), tsOff, Header(taskId, timestampMs, seqNo, n))]
  {
    var ss := SlicesOf(order, sizes, raw);
    var k := SliceCount(sizes, raw);
    SlicesTotal(order, sizes, raw);
    NothingDropped(order, sizes, raw, |front|);
    SumMonotone(sizes, k, |sizes|);
    var n := SUB * k + Sum(sizes, k);
    assert n <= CAP && |Encode(ss)| == n;
    NoneIsNothing(sizes, k);
    SentWhole(front, tsOff, taskId, timestampMs, seqNo, ss, n);
  }

  /** No slice, no report. */
  lemma NothingSent(front: seq<byte>, tsOff: nat, taskId: nat, timestampMs: nat, seqNo: nat)
    requires 4 <= tsOff && |front| == HeaderSize(tsOff)
    ensures FrameFor(front, tsOff, taskId, timestampMs, seqNo, []) == []
  {
  }

  lemma {:induction false} FrameCarriesRaw(order: seq<nat>, sizes: seq<nat>, raw: Option<seq<byte>>, front: seq<byte>,
                                           tsOff: nat, h: Header, limit: nat, out: seq<seq<byte>>)
    requires ValidTable(sizes) && Walks(order, |sizes|) && raw.Some? && |raw.value| >= RAW_HEAD
    requires 4 <= tsOff && |front| == HeaderSize(tsOff) && h.Fits() && |sizes| <= limit
    requires HeaderSize(tsOff) + SUB * |sizes| + Sum(sizes, |sizes|) <= CAP
    requires out == [Stamp(front + Encode(SlicesOf(order, sizes, raw)), tsOff, h)]
    ensures |out| == 1 && CarriesRaw(out[0], tsOff, h, limit, sizes, SliceCount(sizes, raw), raw.value)
  {
    RawReportRaw(order, sizes, raw, front, tsOff, h, limit, out[0]);
  }

  /** What Process publishes for a frame that gets a block, whatever the frame: nothing
      when no slice fits, as for a null or short frame, and otherwise one frame that parses
      to ids 1..k and reassembles to the raw bytes. */
  lemma {:induction false} PublishedCarriesRaw(order: seq<nat>, sizes: seq<nat>, raw: Option<seq<byte>>, front: seq<byte>,
                                               tsOff: nat, taskId: nat, tick: nat, seqNo: nat, limit: nat)
    requires ValidTable(sizes) && Walks(order, |sizes|)
    requires 4 <= tsOff && |front| == HeaderSize(tsOff) && taskId < U32 && tick < U32 && seqNo < U32
    requires HeaderSize(tsOff) + SUB * |sizes| + Sum(sizes, |sizes|) <= CAP && |sizes| <= limit
    ensures var out := FrameFor(front, tsOff, taskId, tick * TICK_MS, seqNo, SlicesOf(order, sizes, raw));
            var k := SliceCount(sizes, raw);
            var h := Header(taskId, tick * TICK_MS, seqNo, SUB * k + Sum(sizes, k));
            && (TooShort(raw) ==> k == 0)
            && if k == 0 then out == []
               else raw.Some? && |out| == 1 && CarriesRaw(out[0], tsOff, h, limit, sizes, k, raw.value)
  {
    if raw.None? {
      NullYieldsNothing(order, sizes);
      NothingSent(front, tsOff, taskId, tick * TICK_MS, seqNo);
    } else {
      PublishedFrame(order, sizes, raw, front, tsOff, taskId, tick * TICK_MS, seqNo);
      FitCountSum(sizes, |raw.value|, |sizes|);
      var k := SliceCount(sizes, raw);
      if k != 0 {
        var h := Header(taskId, tick * TICK_MS, seqNo, SUB * k + Sum(sizes, k));
        var out := FrameFor(front, tsOff, taskId, tick * TICK_MS, seqNo, SlicesOf(order, sizes, raw));
        FrameCarriesRaw(order, sizes, raw, front, tsOff, h, limit, out);
      }
    }
  }

  /** The shipped table, 500 ids with 32758 bytes between them, fits: a whole raw frame of
      32768 bytes goes out in one wire frame that the observer counts whole, and whose slices
      put together are all the bytes behind the first ten. */
  lemma {:induction false} ShippedTableWhole(order: seq<nat>, sizes: seq<nat>, raw: Option<seq<byte>>, front: seq<byte>,
                                             tsOff: nat, taskId: nat, tick: nat, seqNo: nat, report: seq<seq<byte>>)
    requires ValidTable(sizes) && Walks(order, |sizes|) && |sizes| == 500 && Sum(sizes, |sizes|) == 32758
    requires raw.Some? && |raw.value| == 32768
    requires 4 <= tsOff <= 8 && |front| == tsOff + 16 && taskId < U32 && tick < U32
    requires report == FrameFor(front, tsOff, taskId, tick * TICK_MS, Next32(seqNo), SlicesOf(order, sizes, raw))
    ensures |report| == 1 && CarriesSlices(report[0], tsOff, sizes, |sizes|, raw.value)
  {
    assert SliceCount(sizes, raw) == |sizes|;
    ReportCarries(order, sizes, raw, front, tsOff, taskId, tick, seqNo, report);
  }

  lemma {:induction false} TookBlockIs(before: Table, key: nat, tick: nat, wanted: bool, block: Option<nat>,
                                       after: Table)
    requires before != [] && tick < U32
    requires block == if wanted then Probe(before, key) else None
    requires (after, tick) == if wanted then CodeStep(before, tick, Frame(key), TTL) else (before, tick)
    ensures TookBlock(before, key, tick, wanted, block, after)
  {
    AcquiredExactly(before, key, tick);
  }

  lemma {:induction false} CountLiesInside(sizes: seq<nat>, raw: Option<seq<byte>>)
    ensures LieInside(sizes, raw, SliceCount(sizes, raw))
  {
    if raw.Some? {
      FitCountSum(sizes, |raw.value|, |sizes|);
      var k := SliceCount(sizes, raw);
      if k < |sizes| {
        FitsIff(sizes, raw, |sizes|, k + 1);
      }
    }
  }

  lemma {:induction false} ReportIs(order: seq<nat>, sizes: seq<nat>, raw: Option<seq<byte>>, front: seq<byte>,
                                    tsOff: nat, taskId: nat, tick: nat, seqNo: nat, report: seq<seq<byte>>)
    requires ValidTable(sizes) && Walks(order, |sizes|)
    requires 4 <= tsOff && |front| == HeaderSize(tsOff) <= CAP && taskId < U32 && tick < U32
    requires report == FrameFor(front, tsOff, taskId, tick * TICK_MS, Next32(seqNo), SlicesOf(order, sizes, raw))
    ensures ReportOf(report, tsOff, taskId, 100 * tick, Next32(seqNo), sizes, raw)
  {
    ReportSays(front, tsOff, taskId, tick, seqNo, SlicesOf(order, sizes, raw), report);
    CountLiesInside(sizes, raw);
    if FullReportFits(sizes, tsOff) {
      ReportCarries(order, sizes, raw, front, tsOff, taskId, tick, seqNo, report);
    }
  }

  /** What a report's header says. */
  lemma {:induction false} ReportSays(front: seq<byte>, tsOff: nat, taskId: nat, tick: nat, seqNo: nat,
                                      slices: seq<Slice>, report: seq<seq<byte>>)
    requires 4 <= tsOff && |front| == HeaderSize(tsOff) <= CAP && taskId < U32 && tick < U32
    requires report == FrameFor(front, tsOff, taskId, tick * TICK_MS, Next32(seqNo), slices)
    ensures |report| <= 1
    ensures report != [] ==>
              && HeaderSize(tsOff) <= |report[0]| <= CAP
              && HeaderAt(report[0], tsOff) == Header(taskId, 100 * tick, Next32(seqNo),
                                                      |report[0]| - HeaderSize(tsOff))
  {
    AcceptedFits(slices, |front|, CAP);
    SentSays(front + Encode(Accepted(slices, |front|, CAP)), tsOff, taskId, 100 * tick, Next32(seqNo), report);
  }

  lemma {:induction false} SentSays(content: seq<byte>, tsOff: nat, taskId: nat, timeMs: nat, number: nat,
                                    out: seq<seq<byte>>)
    requires 4 <= tsOff && HeaderSize(tsOff) <= |content| <= CAP && taskId < U32 && timeMs < U64 && number < U32
    requires out == Sent(true, content, tsOff, taskId, timeMs, number)
    ensures |out| <= 1
    ensures out != [] ==>
              && |out[0]| == |content|
              && HeaderAt(out[0], tsOff) == Header(taskId, timeMs, number, |content| - HeaderSize(tsOff))
  {
    if out != [] {
      StampRoundTrip(content, tsOff, Header(taskId, timeMs, number, |content| - HeaderSize(tsOff)));
    }
  }

  /** What its body carries. */
  lemma {:induction false} ReportCarries(order: seq<nat>, sizes: seq<nat>, raw: Option<seq<byte>>, front: seq<byte>,
                                         tsOff: nat, taskId: nat, tick: nat, seqNo: nat, report: seq<seq<byte>>)
    requires ValidTable(sizes) && Walks(order, |sizes|) && FullReportFits(sizes, tsOff)
    requires 4 <= tsOff && |front| == HeaderSize(tsOff) && taskId < U32 && tick < U32
    requires report == FrameFor(front, tsOff, taskId, tick * TICK_MS, Next32(seqNo), SlicesOf(order, sizes, raw))
    ensures var k := SliceCount(sizes, raw);
            && |report| == (if k == 0 then 0 else 1)
            && (k > 0 ==> raw.Some? && CarriesSlices(report[0], tsOff, sizes, k, raw.value))
  {
    PublishedCarriesRaw(order, sizes, raw, front, tsOff, taskId, tick, Next32(seqNo), MAX_SLICES);
  }
}
