/** Which writes leave a queue intact, rings overrun already included.

    The drain test lets a writer into an overfull ring too, so the question is not how
    many bytes are free but which cells the new record takes.  A queue is described here
    by the lengths of its messages alone. */
module BucketOverrun {
  import opened Bytes
  import opened Wrappers
  import opened Ring
  import opened BucketProtocol
  import opened BucketRuns
  import opened BucketGuard
  import BucketSegments

  function Lengths(ms: seq<Message>): (lens: seq<nat>)
    ensures |lens| == |ms| && forall i | 0 <= i < |ms| :: lens[i] == |ms[i]|
  {
    seq(|ms|, i requires 0 <= i < |ms| => |ms[i]|)
  }

  /** Where message i of a queue that starts at r begins. */
  function At(r: nat, lens: seq<nat>, i: nat): (p: nat)
    requires i <= |lens|
    ensures p >= r
  {
    if i == 0 then r else At(r, lens, i - 1) + Entry(lens[i - 1])
  }

  function Cell(cap: nat, p: nat, x: nat): (c: nat)
    requires cap > 0
    ensures c < cap
  {
    (p + x) % cap
  }

  /** Some of the n cells from p on are among the k cells from q on. */
  ghost predicate Overlap(cap: nat, p: nat, n: nat, q: nat, k: nat)
    requires cap > 0
  {
    exists x: nat, y: nat :: x < n && y < k && Cell(cap, p, x) == Cell(cap, q, y)
  }

  /** A record of length n at p and a later one of length k at q can both be intact: they
      share no cell, or they are empty messages in the very same cells. */
  ghost predicate Compatible(cap: nat, p: nat, n: nat, q: nat, k: nat)
    requires cap > 0
  {
    !Overlap(cap, p, HEADER + n, q, HEADER + k) || (n == 0 && k == 0 && p % cap == q % cap)
  }

  ghost predicate CompatibleAt(cap: nat, r: nat, lens: seq<nat>, i: nat, j: nat)
    requires cap > 0 && i < |lens| && j < |lens|
  {
    Compatible(cap, At(r, lens, i), lens[i], At(r, lens, j), lens[j])
  }

  /** All records of a queue are pairwise compatible. */
  ghost predicate Clean(cap: nat, r: nat, lens: seq<nat>)
    requires cap > 0
  {
    forall i: nat, j: nat | i < j < |lens| :: CompatibleAt(cap, r, lens, i, j)
  }

  /** Sizes and positions as the code has them. */
  predicate Sized(cap: nat, r: nat, lens: seq<nat>) {
    && 0 < cap < U32 && cap % ENTRY_ALIGN == 0 && r % ENTRY_ALIGN == 0
    && forall i | 0 <= i < |lens| :: Entry(lens[i]) <= cap
  }

  // ---- positions ----

  lemma {:induction false} AtPrefix(r: nat, a: seq<nat>, b: seq<nat>, i: nat)
    requires i <= |a|
    ensures At(r, a + b, i) == At(r, a, i)
    decreases i
  {
    if i > 0 {
      AtPrefix(r, a, b, i - 1);
    }
  }

  lemma {:induction false} AtAligned(cap: nat, r: nat, lens: seq<nat>, i: nat)
    requires Sized(cap, r, lens) && i <= |lens|
    ensures At(r, lens, i) % ENTRY_ALIGN == 0
    decreases i
  {
    if i > 0 {
      AtAligned(cap, r, lens, i - 1);
      SumAligned(At(r, lens, i - 1), Entry(lens[i - 1]));
    }
  }

  lemma {:induction false} AtMonotone(r: nat, lens: seq<nat>, i: nat, j: nat)
    requires i < j <= |lens|
    ensures At(r, lens, i) + Entry(lens[i]) <= At(r, lens, j)
    decreases j
  {
    if i + 1 < j {
      AtMonotone(r, lens, i, j - 1);
    }
  }

  lemma {:induction false} AtTail(r: nat, lens: seq<nat>, i: nat)
    requires 0 < i <= |lens|
    ensures At(r, lens, i) == At(r + Entry(lens[0]), lens[1..], i - 1)
    decreases i
  {
    if i > 1 {
      AtTail(r, lens, i - 1);
    }
  }

  lemma {:induction false} EndIsAt(r: nat, ms: seq<Message>)
    ensures End(r, ms) == At(r, Lengths(ms), |ms|)
    decreases |ms|
  {
    if ms != [] {
      EndIsAt(r + Entry(|ms[0]|), ms[1..]);
      assert Lengths(ms)[1..] == Lengths(ms[1..]);
      AtTail(r, Lengths(ms), |ms|);
    }
  }

  /** Message i of the queue is where it should be. */
  ghost predicate Intact(ring: seq<byte>, r: nat, ms: seq<Message>, i: nat)
    requires |ring| > 0 && i < |ms|
  {
    Fetch(ring, At(r, Lengths(ms), i), |Record(ms[i])|) == Record(ms[i])
  }

  /** Message i of a queue is message i - 1 of its tail. */
  lemma IntactTail(ring: seq<byte>, r: nat, ms: seq<Message>, i: nat)
    requires |ring| > 0 && 0 < i < |ms|
    ensures Intact(ring, r, ms, i) <==> Intact(ring, r + Entry(|ms[0]|), ms[1..], i - 1)
  {
    assert Lengths(ms)[1..] == Lengths(ms[1..]);
    AtTail(r, Lengths(ms), i);
  }

  lemma AllIntactTail(ring: seq<byte>, r: nat, ms: seq<Message>, next: nat, tail: seq<Message>)
    requires |ring| > 0 && ms != [] && next == r + Entry(|ms[0]|) && tail == ms[1..]
    ensures (forall i: nat | i < |ms| :: Intact(ring, r, ms, i))
       <==> Intact(ring, r, ms, 0) && forall i: nat | i < |tail| :: Intact(ring, next, tail, i)
  {
    forall i: nat | 0 < i < |ms| ensures Intact(ring, r, ms, i) <==> Intact(ring, next, tail, i - 1) {
      IntactTail(ring, r, ms, i);
    }
    if forall i: nat | i < |ms| :: Intact(ring, r, ms, i) {
      forall i: nat | i < |tail| ensures Intact(ring, next, tail, i) {
        assert Intact(ring, r, ms, i + 1);
      }
    }
  }

  lemma HoldsCons(ring: seq<byte>, r: nat, ms: seq<Message>)
    requires |ring| > 0 && ms != []
    ensures Holds(ring, r, ms) <==> Intact(ring, r, ms, 0) && Holds(ring, r + Entry(|ms[0]|), ms[1..])
  {
    assert At(r, Lengths(ms), 0) == r;
  }

  lemma {:induction false} HoldsIff(ring: seq<byte>, r: nat, ms: seq<Message>)
    requires |ring| > 0
    ensures Holds(ring, r, ms) <==> forall i: nat | i < |ms| :: Intact(ring, r, ms, i)
    decreases |ms|
  {
    if ms != [] {
      var next, tail := r + Entry(|ms[0]|), ms[1..];
      HoldsCons(ring, r, ms);
      HoldsIff(ring, next, tail);
      AllIntactTail(ring, r, ms, next, tail);
    }
  }

  // ---- a compatible record harms nothing ----

  lemma CellDeposit(ring: seq<byte>, w: nat, src: seq<byte>, p: nat, x: nat)
    requires 0 < |ring| && |src| <= |ring|
    ensures (forall y: nat | y < |src| :: Cell(|ring|, p, x) != Cell(|ring|, w, y))
            ==> Deposit(ring, w, src)[Cell(|ring|, p, x)] == ring[Cell(|ring|, p, x)]
    ensures forall y: nat | y < |src| && Cell(|ring|, p, x) == Cell(|ring|, w, y) ::
              Deposit(ring, w, src)[Cell(|ring|, p, x)] == src[y]
  {
    var cap, c := |ring|, Cell(|ring|, p, x);
    var d := Ahead(c, w, cap);
    ModAdd(w, d, cap);
    assert Cell(cap, w, d) == c;
    forall y: nat | y < |src| && c == Cell(cap, w, y) ensures d == y {
      AheadOfCell(w, y, cap);
    }
  }

  lemma FetchApart(ring: seq<byte>, w: nat, src: seq<byte>, p: nat, n: nat)
    requires 0 < |ring| && |src| <= |ring| && !Overlap(|ring|, p, n, w, |src|)
    ensures Fetch(Deposit(ring, w, src), p, n) == Fetch(ring, p, n)
  {
    var after := Deposit(ring, w, src);
    var got, was := Fetch(after, p, n), Fetch(ring, p, n);
    forall x: nat | x < n ensures got[x] == was[x] {
      CellDeposit(ring, w, src, p, x);
      assert got[x] == after[Cell(|ring|, p, x)] && was[x] == ring[Cell(|ring|, p, x)];
    }
  }

  lemma FetchSame(ring: seq<byte>, w: nat, src: seq<byte>, p: nat)
    requires 0 < |ring| && |src| <= |ring| && p % |ring| == w % |ring|
    ensures Fetch(Deposit(ring, w, src), p, |src|) == src
  {
    FetchDeposit(ring, w, src);
    SameCells(Deposit(ring, w, src), p, w, |src|);
  }

  lemma SnocLengths(ms: seq<Message>, m: Message)
    ensures Lengths(ms + [m]) == Lengths(ms) + [|m|]
  {
  }

  /** A record compatible with every queued one keeps the queue and joins it. */
  lemma {:induction false} CleanKeeps(ring: seq<byte>, r: nat, ms: seq<Message>, m: Message)
    requires |ring| > 0 && Sized(|ring|, r, Lengths(ms) + [|m|]) && Clean(|ring|, r, Lengths(ms) + [|m|])
    requires Holds(ring, r, ms)
    ensures Holds(Deposit(ring, End(r, ms), Record(m)), r, ms + [m])
  {
    var lens, all, w := Lengths(ms), ms + [m], End(r, ms);
    var after := Deposit(ring, w, Record(m));
    EndIsAt(r, ms);
    SnocLengths(ms, m);
    HoldsIff(ring, r, ms);
    assert Entry((lens + [|m|])[|ms|]) <= |ring|;
    forall i: nat | i < |all| ensures Intact(after, r, all, i) {
      AtPrefix(r, lens, [|m|], i);
      if i < |ms| {
        AtPrefix(r, lens, [|m|], |ms|);
        assert Intact(ring, r, ms, i);
        assert CompatibleAt(|ring|, r, lens + [|m|], i, |ms|);
        OneKept(ring, w, m, At(r, lens, i), ms[i]);
      } else {
        FetchDeposit(ring, w, Record(m));
      }
    }
    HoldsIff(after, r, all);
  }

  lemma OneKept(ring: seq<byte>, w: nat, m: Message, p: nat, was: Message)
    requires 0 < |ring| && |Record(m)| <= |ring| && Fetch(ring, p, |Record(was)|) == Record(was)
    requires Compatible(|ring|, p, |was|, w, |m|)
    ensures Fetch(Deposit(ring, w, Record(m)), p, |Record(was)|) == Record(was)
  {
    if Overlap(|ring|, p, HEADER + |was|, w, HEADER + |m|) {
      assert was == m;
      FetchSame(ring, w, Record(m), p);
    } else {
      FetchApart(ring, w, Record(m), p, |Record(was)|);
    }
  }

  // ---- an incompatible record harms some queue of these lengths ----

  /** The ring after writing ms one after the other. */
  function Filled(ring: seq<byte>, r: nat, ms: seq<Message>): (out: seq<byte>)
    requires |ring| > 0
    ensures |out| == |ring|
    decreases |ms|
  {
    if ms == [] then ring
    else
      var n := |ms| - 1;
      Deposit(Filled(ring, r, ms[..n]), End(r, ms[..n]), Record(ms[n]))
  }

  lemma CompatibleInFront(cap: nat, r: nat, a: seq<nat>, b: seq<nat>, i: nat, j: nat)
    requires cap > 0 && i < |a| && j < |a|
    ensures CompatibleAt(cap, r, a + b, i, j) == CompatibleAt(cap, r, a, i, j)
  {
    AtPrefix(r, a, b, i);
    AtPrefix(r, a, b, j);
  }

  lemma CleanFront(cap: nat, r: nat, lens: seq<nat>, n: nat)
    requires cap > 0 && Clean(cap, r, lens) && n <= |lens|
    ensures Clean(cap, r, lens[..n])
  {
    assert lens == lens[..n] + lens[n..];
    forall i: nat, j: nat | i < j < n ensures CompatibleAt(cap, r, lens[..n], i, j) {
      CompatibleInFront(cap, r, lens[..n], lens[n..], i, j);
      assert CompatibleAt(cap, r, lens, i, j);
    }
  }

  /** A clean queue of any content is held by some ring. */
  lemma {:induction false} FilledHolds(ring: seq<byte>, r: nat, ms: seq<Message>)
    requires |ring| > 0 && Sized(|ring|, r, Lengths(ms)) && Clean(|ring|, r, Lengths(ms))
    ensures Holds(Filled(ring, r, ms), r, ms)
    decreases |ms|
  {
    if ms != [] {
      var n := |ms| - 1;
      var front := ms[..n];
      assert ms == front + [ms[n]];
      SnocLengths(front, ms[n]);
      assert Lengths(ms)[..n] == Lengths(front);
      CleanFront(|ring|, r, Lengths(ms), n);
      FilledHolds(ring, r, front);
      CleanKeeps(Filled(ring, r, front), r, front, ms[n]);
    }
  }

  /** Messages of the given lengths: message i all b, the others all zero. */
  function Blanks(lens: seq<nat>, i: nat, b: byte): (ms: seq<Message>)
    requires forall k | 0 <= k < |lens| :: lens[k] < U32
    ensures |ms| == |lens| && forall k | 0 <= k < |lens| :: |ms[k]| == lens[k]
    ensures i < |lens| ==> ms[i] == Constant(lens[i], b)
  {
    seq(|lens|, k requires 0 <= k < |lens| => Constant(lens[k], if k == i then b else 0))
  }

  /** A ring and a queue of the given lengths that a payload m spoils. */
  ghost predicate Spoilt(ring: seq<byte>, r: nat, ms: seq<Message>, m: Message)
    requires |ring| > 0
  {
    Holds(ring, r, ms) && !Holds(Deposit(ring, End(r, ms), Record(m)), r, ms + [m])
  }

  lemma {:induction false} BrokenRecord(ring: seq<byte>, r: nat, ms: seq<Message>, m: Message, i: nat)
    requires |ring| > 0 && Holds(ring, r, ms) && i < |ms|
    requires Fetch(Deposit(ring, End(r, ms), Record(m)), At(r, Lengths(ms), i), |Record(ms[i])|) != Record(ms[i])
    ensures Spoilt(ring, r, ms, m)
  {
    var after := Deposit(ring, End(r, ms), Record(m));
    SnocLengths(ms, m);
    AtPrefix(r, Lengths(ms), [|m|], i);
    assert !Intact(after, r, ms + [m], i);
    HoldsIff(after, r, ms + [m]);
  }

  /** One cell of message i that the new record sets to another byte spoils it. */
  lemma {:induction false} BrokenByte(ring: seq<byte>, r: nat, ms: seq<Message>, m: Message, i: nat, x: nat, y: nat)
    requires |ring| > 0 && Holds(ring, r, ms) && i < |ms| && |Record(m)| <= |ring|
    requires x < |Record(ms[i])| && y < |Record(m)|
    requires Cell(|ring|, At(r, Lengths(ms), i), x) == Cell(|ring|, End(r, ms), y)
    requires Record(m)[y] != Record(ms[i])[x]
    ensures Spoilt(ring, r, ms, m)
  {
    var p, after := At(r, Lengths(ms), i), Deposit(ring, End(r, ms), Record(m));
    CellDeposit(ring, End(r, ms), Record(m), p, x);
    assert Fetch(after, p, |Record(ms[i])|)[x] == after[Cell(|ring|, p, x)];
    BrokenRecord(ring, r, ms, m, i);
  }

  function Other(b: byte): (o: byte)
    ensures o != b
  {
    if b == 0 then 1 else 0
  }

  /** The shared cell is payload of the new record. */
  lemma {:induction false} SpoiltByPayload(cap: nat, r: nat, lens: seq<nat>, len: nat, i: nat, x: nat, y: nat)
    returns (ring: seq<byte>, ms: seq<Message>, m: Message)
    requires Sized(cap, r, lens + [len]) && Clean(cap, r, lens) && i < |lens|
    requires x < HEADER + lens[i] && HEADER <= y < HEADER + len
    requires Cell(cap, At(r, lens, i), x) == Cell(cap, At(r, lens, |lens|), y)
    ensures |ring| == cap && Lengths(ms) == lens && |m| == len && Spoilt(ring, r, ms, m)
  {
    SizedParts(cap, r, lens, len);
    ms := Blanks(lens, 0, 0);
    assert Lengths(ms) == lens;
    ring := Filled(Zeros(cap), r, ms);
    FilledHolds(Zeros(cap), r, ms);
    EndIsAt(r, ms);
    m := Constant(len, Other(Record(ms[i])[x]));
    BrokenByte(ring, r, ms, m, i, x, y);
  }

  /** The shared cell is header of the new record and payload of the queued one. */
  lemma {:induction false} SpoiltByHeader(cap: nat, r: nat, lens: seq<nat>, len: nat, i: nat, x: nat, y: nat)
    returns (ring: seq<byte>, ms: seq<Message>, m: Message)
    requires Sized(cap, r, lens + [len]) && Clean(cap, r, lens) && i < |lens|
    requires HEADER <= x < HEADER + lens[i] && y < HEADER
    requires Cell(cap, At(r, lens, i), x) == Cell(cap, At(r, lens, |lens|), y)
    ensures |ring| == cap && Lengths(ms) == lens && |m| == len && Spoilt(ring, r, ms, m)
  {
    SizedParts(cap, r, lens, len);
    m := Zeros(len);
    ms := Blanks(lens, i, Other(Record(m)[y]));
    assert Lengths(ms) == lens;
    ring := Filled(Zeros(cap), r, ms);
    FilledHolds(Zeros(cap), r, ms);
    EndIsAt(r, ms);
    BrokenByte(ring, r, ms, m, i, x, y);
  }

  /** Both headers lie in the same cells and differ. */
  lemma {:induction false} SpoiltByLength(cap: nat, r: nat, lens: seq<nat>, len: nat, i: nat)
    returns (ring: seq<byte>, ms: seq<Message>, m: Message)
    requires Sized(cap, r, lens + [len]) && Clean(cap, r, lens) && i < |lens|
    requires At(r, lens, i) % cap == At(r, lens, |lens|) % cap && lens[i] != len
    ensures |ring| == cap && Lengths(ms) == lens && |m| == len && Spoilt(ring, r, ms, m)
  {
    SizedParts(cap, r, lens, len);
    m := Zeros(len);
    ms := Blanks(lens, 0, 0);
    assert Lengths(ms) == lens;
    ring := Filled(Zeros(cap), r, ms);
    FilledHolds(Zeros(cap), r, ms);
    EndIsAt(r, ms);
    var after := Deposit(ring, End(r, ms), Record(m));
    SpoilsOwn(ring, End(r, ms), At(r, lens, i), m);
    FetchRecord(after, At(r, lens, i), ms[i]);
    BrokenRecord(ring, r, ms, m, i);
  }

  lemma SizedParts(cap: nat, r: nat, lens: seq<nat>, len: nat)
    requires Sized(cap, r, lens + [len])
    ensures Sized(cap, r, lens) && Entry(len) <= cap && len < U32
    ensures forall i | 0 <= i < |lens| :: lens[i] < U32
  {
    assert (lens + [len])[|lens|] == len;
    forall i | 0 <= i < |lens| ensures Entry(lens[i]) <= cap {
      assert (lens + [len])[i] == lens[i];
    }
  }

  /** Two header cells can only coincide when the records start in the same cell. */
  lemma HeadersMeet(cap: nat, p: nat, q: nat, x: nat, y: nat)
    requires 0 < cap && cap % ENTRY_ALIGN == 0 && p % ENTRY_ALIGN == 0 && q % ENTRY_ALIGN == 0
    requires x < HEADER && y < HEADER && Cell(cap, p, x) == Cell(cap, q, y)
    ensures p % cap == q % cap
  {
    AlignedCell(p, cap);
    AlignedCell(q, cap);
    NoWrap(cap, p, x);
    NoWrap(cap, q, y);
    NearEight(p % cap, q % cap, x, y);
  }

  lemma SameCellAfter(cap: nat, p: nat, q: nat, x: nat)
    requires x < cap && p % cap == q % cap
    ensures Cell(cap, p, x) == Cell(cap, q, x)
  {
    ModAdd(p, x, cap);
    ModAdd(q, x, cap);
  }

  lemma NoWrap(cap: nat, p: nat, x: nat)
    requires 0 < cap && cap % ENTRY_ALIGN == 0 && p % ENTRY_ALIGN == 0 && x < HEADER
    ensures Cell(cap, p, x) == p % cap + x
  {
    HeaderInOnePiece(p, cap);
    ModAdd(p, x, cap);
  }

  lemma NearEight(a: nat, b: nat, x: nat, y: nat)
    requires a % ENTRY_ALIGN == 0 && b % ENTRY_ALIGN == 0 && x < HEADER && y < HEADER && a + x == b + y
    ensures a == b
  {
  }

  lemma {:induction false} IncompatibleSpoils(cap: nat, r: nat, lens: seq<nat>, len: nat, i: nat)
    returns (ring: seq<byte>, ms: seq<Message>, m: Message)
    requires Sized(cap, r, lens + [len]) && Clean(cap, r, lens) && i < |lens|
    requires !Compatible(cap, At(r, lens, i), lens[i], At(r, lens, |lens|), len)
    ensures |ring| == cap && Lengths(ms) == lens && |m| == len && Spoilt(ring, r, ms, m)
  {
    var p, w := At(r, lens, i), At(r, lens, |lens|);
    SizedParts(cap, r, lens, len);
    var x: nat, y: nat :| x < HEADER + lens[i] && y < HEADER + len && Cell(cap, p, x) == Cell(cap, w, y);
    if y >= HEADER {
      ring, ms, m := SpoiltByPayload(cap, r, lens, len, i, x, y);
    } else if x >= HEADER {
      ring, ms, m := SpoiltByHeader(cap, r, lens, len, i, x, y);
    } else {
      AtAligned(cap, r, lens, i);
      AtAligned(cap, r, lens, |lens|);
      HeadersMeet(cap, p, w, x, y);
      if lens[i] != len {
        ring, ms, m := SpoiltByLength(cap, r, lens, len, i);
      } else {
        SameCellAfter(cap, p, w, HEADER);
        ring, ms, m := SpoiltByPayload(cap, r, lens, len, i, HEADER, HEADER);
      }
    }
  }

  // ---- the exact condition ----

  /** Writing m behind the queue ms keeps the queue and joins it. */
  ghost predicate Joins(ring: seq<byte>, r: nat, ms: seq<Message>, m: Message)
    requires |ring| > 0
  {
    var w := At(r, Lengths(ms), |ms|);
    Unread(ring, r, w) == Some(ms) ==> Unread(Deposit(ring, w, Record(m)), r, w + Entry(|m|)) == Some(ms + [m])
  }

  /** Whatever the ring and the queue hold, and whatever is written, a write of this length
      keeps the queue and joins it. */
  ghost predicate SafeForAll(cap: nat, r: nat, lens: seq<nat>, len: nat)
    requires cap > 0
  {
    forall ring: seq<byte>, ms: seq<Message>, m: Message
      | |ring| == cap && Lengths(ms) == lens && |m| == len :: Joins(ring, r, ms, m)
  }

  lemma {:induction false} CompatibleWithNew(cap: nat, r: nat, lens: seq<nat>, len: nat, i: nat)
    requires cap > 0 && i < |lens|
    ensures CompatibleAt(cap, r, lens + [len], i, |lens|)
         == Compatible(cap, At(r, lens, i), lens[i], At(r, lens, |lens|), len)
  {
    AtPrefix(r, lens, [len], i);
    AtPrefix(r, lens, [len], |lens|);
  }

  /** If the new queue is not clean, the new record is to blame. */
  lemma NotCleanAnyMore(cap: nat, r: nat, lens: seq<nat>, len: nat) returns (i: nat)
    requires cap > 0 && Clean(cap, r, lens) && !Clean(cap, r, lens + [len])
    ensures i < |lens| && !Compatible(cap, At(r, lens, i), lens[i], At(r, lens, |lens|), len)
  {
    var k: nat, j: nat :| k < j < |lens| + 1 && !CompatibleAt(cap, r, lens + [len], k, j);
    assert j < |lens| ==> CompatibleAt(cap, r, lens, k, j);
    if j < |lens| {
      CompatibleInFront(cap, r, lens, [len], k, j);
    }
    i := k;
    CompatibleWithNew(cap, r, lens, len, i);
  }

  lemma {:induction false} CleanIsSafe(cap: nat, r: nat, lens: seq<nat>, len: nat)
    requires Sized(cap, r, lens + [len]) && Clean(cap, r, lens + [len])
    ensures SafeForAll(cap, r, lens, len)
  {
    forall ring: seq<byte>, ms: seq<Message>, m: Message | |ring| == cap && Lengths(ms) == lens && |m| == len
      ensures Joins(ring, r, ms, m)
    {
      if Unread(ring, r, At(r, lens, |ms|)) == Some(ms) {
        CleanOneWrite(ring, r, At(r, lens, |ms|), ms, m);
      }
    }
  }

  lemma {:induction false} CleanOneWrite(ring: seq<byte>, r: nat, w: nat, ms: seq<Message>, m: Message)
    requires |ring| > 0 && Sized(|ring|, r, Lengths(ms) + [|m|]) && Clean(|ring|, r, Lengths(ms) + [|m|])
    requires Unread(ring, r, w) == Some(ms)
    ensures Unread(Deposit(ring, w, Record(m)), r, w + Entry(|m|)) == Some(ms + [m])
  {
    assert Holds(ring, r, ms) && End(r, ms) == w by {
      UnreadIff(ring, r, w, ms);
    }
    CleanKeeps(ring, r, ms, m);
    EndSnoc(r, ms, m);
    UnreadIff(Deposit(ring, w, Record(m)), r, w + Entry(|m|), ms + [m]);
  }

  lemma {:induction false} SpoiltIsUnsafe(ring: seq<byte>, r: nat, ms: seq<Message>, m: Message)
    requires |ring| > 0 && Spoilt(ring, r, ms, m)
    ensures !SafeForAll(|ring|, r, Lengths(ms), |m|)
  {
    SpoiltBreaks(ring, r, ms, m);
    if SafeForAll(|ring|, r, Lengths(ms), |m|) {
      SafeHere(ring, r, ms, m);
    }
  }

  lemma SafeHere(ring: seq<byte>, r: nat, ms: seq<Message>, m: Message)
    requires |ring| > 0 && SafeForAll(|ring|, r, Lengths(ms), |m|)
    ensures Joins(ring, r, ms, m)
  {
  }

  lemma {:induction false} SpoiltBreaks(ring: seq<byte>, r: nat, ms: seq<Message>, m: Message)
    requires |ring| > 0 && Spoilt(ring, r, ms, m)
    ensures !Joins(ring, r, ms, m)
  {
    var w := End(r, ms);
    EndIsAt(r, ms);
    HeldIsUnread(ring, r, ms);
    NotUnread(Deposit(ring, w, Record(m)), r, w + Entry(|m|), ms + [m]);
    NotJoined(ring, r, w, ms, m);
  }

  lemma NotJoined(ring: seq<byte>, r: nat, w: nat, ms: seq<Message>, m: Message)
    requires |ring| > 0 && w == At(r, Lengths(ms), |ms|) && Unread(ring, r, w) == Some(ms)
    requires Unread(Deposit(ring, w, Record(m)), r, w + Entry(|m|)) != Some(ms + [m])
    ensures !Joins(ring, r, ms, m)
  {
  }

  lemma {:induction false} HeldIsUnread(ring: seq<byte>, r: nat, ms: seq<Message>)
    requires |ring| > 0 && Holds(ring, r, ms)
    ensures Unread(ring, r, At(r, Lengths(ms), |ms|)) == Some(ms)
  {
    EndIsAt(r, ms);
    UnreadIff(ring, r, At(r, Lengths(ms), |ms|), ms);
  }

  /** A write into a clean queue, overfull or not, is safe for every content and every
      payload exactly when the queue with the new record is clean again: the new record
      shares no cell with a queued one, unless both are empty messages in the same cells. */
  lemma {:induction false} WriteSafeIff(cap: nat, r: nat, lens: seq<nat>, len: nat)
    requires Sized(cap, r, lens + [len]) && Clean(cap, r, lens)
    ensures SafeForAll(cap, r, lens, len) <==> Clean(cap, r, lens + [len])
  {
    if Clean(cap, r, lens + [len]) {
      CleanIsSafe(cap, r, lens, len);
    } else {
      var i := NotCleanAnyMore(cap, r, lens, len);
      var ring, ms, m := IncompatibleSpoils(cap, r, lens, len, i);
      SpoiltIsUnsafe(ring, r, ms, m);
    }
  }

  // ---- rings that are not overfull ----

  lemma {:induction false} ApartInWindow(cap: nat, p: nat, n: nat, q: nat, k: nat)
    requires 0 < cap && p + n <= q && q + k <= p + cap
    ensures !Overlap(cap, p, n, q, k)
  {
    forall x: nat, y: nat | x < n && y < k ensures Cell(cap, p, x) != Cell(cap, q, y) {
      ModDistinct(p + x, q + y, cap);
    }
  }

  /** Records that lie within one capacity are clean. */
  lemma {:induction false} WindowClean(cap: nat, r: nat, lens: seq<nat>)
    requires 0 < cap
    requires forall i | 0 <= i < |lens| :: At(r, lens, i) + HEADER + lens[i] <= r + cap
    ensures Clean(cap, r, lens)
  {
    forall i: nat, j: nat | i < j < |lens| ensures CompatibleAt(cap, r, lens, i, j) {
      AtMonotone(r, lens, i, j);
      ApartInWindow(cap, At(r, lens, i), HEADER + lens[i], At(r, lens, j), HEADER + lens[j]);
    }
  }

  lemma {:induction false} NotOverfullClean(cap: nat, r: nat, lens: seq<nat>)
    requires 0 < cap && At(r, lens, |lens|) <= r + cap
    ensures Clean(cap, r, lens)
  {
    forall i | 0 <= i < |lens| ensures At(r, lens, i) + HEADER + lens[i] <= r + cap {
      AtMonotone(r, lens, i, |lens|);
    }
    WindowClean(cap, r, lens);
  }

  lemma {:induction false} RoomClean(cap: nat, r: nat, lens: seq<nat>, len: nat)
    requires 0 < cap && At(r, lens, |lens|) <= r + cap && Room(cap, At(r, lens, |lens|), r, len)
    ensures Clean(cap, r, lens + [len])
  {
    var all := lens + [len];
    forall i | 0 <= i < |all| ensures At(r, all, i) + HEADER + all[i] <= r + cap {
      AtPrefix(r, lens, [len], i);
      if i < |lens| {
        AtMonotone(r, lens, i, |lens|);
      }
    }
    WindowClean(cap, r, all);
  }

  /** In a ring that is not overfull the queue is clean, and for a write that passes the
      drain test the condition is Room. */
  lemma {:induction false} RoomIffClean(cap: nat, r: nat, lens: seq<nat>, len: nat)
    requires Sized(cap, r, lens + [len]) && At(r, lens, |lens|) < r + cap
    ensures Clean(cap, r, lens)
    ensures Clean(cap, r, lens + [len]) <==> Room(cap, At(r, lens, |lens|), r, len)
  {
    NotOverfullClean(cap, r, lens);
    if Room(cap, At(r, lens, |lens|), r, len) {
      RoomClean(cap, r, lens, len);
    } else {
      SizedParts(cap, r, lens, len);
      NoRoomOverlaps(cap, r, lens, len);
      CompatibleWithNew(cap, r, lens, len, 0);
      assert !CompatibleAt(cap, r, lens + [len], 0, |lens|);
    }
  }

  lemma {:induction false} NoRoomOverlaps(cap: nat, r: nat, lens: seq<nat>, len: nat)
    requires Sized(cap, r, lens) && At(r, lens, |lens|) < r + cap && Entry(len) <= cap
    requires !Room(cap, At(r, lens, |lens|), r, len)
    ensures lens != [] && !Compatible(cap, At(r, lens, 0), lens[0], At(r, lens, |lens|), len)
  {
    var w := At(r, lens, |lens|);
    AtAligned(cap, r, lens, |lens|);
    var y := EightFree(r, w, cap);
    assert w + y == r + cap;
    SameCell(r, cap);
    assert Cell(cap, w, y) == Cell(cap, r, 0);
  }

  // ---- the queue of every run is clean ----

  lemma {:induction false} CleanTail(cap: nat, r: nat, lens: seq<nat>)
    requires cap > 0 && lens != [] && Clean(cap, r, lens)
    ensures Clean(cap, r + Entry(lens[0]), lens[1..])
  {
    var next, tail := r + Entry(lens[0]), lens[1..];
    forall i: nat, j: nat | i < j < |tail| ensures CompatibleAt(cap, next, tail, i, j) {
      AtTail(r, lens, i + 1);
      AtTail(r, lens, j + 1);
      assert CompatibleAt(cap, r, lens, i + 1, j + 1);
    }
  }

  ghost predicate CleanMessages(cap: nat, r: nat, ms: seq<Message>)
    requires cap > 0
  {
    Clean(cap, r, Lengths(ms))
  }

  ghost predicate CleanQueue(s: State)
    requires |s.ring| > 0 && Fifo(s)
  {
    CleanMessages(|s.ring|, s.readPos, Pending(s))
  }

  lemma PublishHasRoom(s: State, w: nat)
    requires Inv(s) && Writes(s, Publish(w)).Some?
    ensures Room(|s.ring|, s.writePos, s.readPos, |s.Pc(w).msg|)
  {
    assert s.lock == Held(w);
  }

  lemma {:induction false} CleanPublish(s: State, w: nat, t: State)
    requires Inv(s) && Writes(s, Publish(w)) == Some(t) && Fifo(t) && Pending(t) == Pending(s) + [s.Pc(w).msg]
    ensures CleanQueue(t)
  {
    PublishHasRoom(s, w);
    EndIsAt(s.readPos, Pending(s));
    SnocLengths(Pending(s), s.Pc(w).msg);
    RoomClean(|s.ring|, s.readPos, Lengths(Pending(s)), |s.Pc(w).msg|);
  }

  lemma ConsumedOne(s: State, a: Action, t: State)
    requires Inv(s) && a.Consume? && Reads(s, a) == Some(t)
    ensures Fifo(t) && |t.ring| == |s.ring| && Pending(s) != [] && Pending(t) == Pending(s)[1..]
    ensures t.readPos == s.readPos + Entry(|Pending(s)[0]|)
  {
    ReaderKeeps(s, a, t);
    ConsumeKeeps(s, t);
  }

  lemma CleanRest(cap: nat, r: nat, ms: seq<Message>, next: nat, rest: seq<Message>)
    requires cap > 0 && ms != [] && CleanMessages(cap, r, ms)
    requires next == r + Entry(|ms[0]|) && rest == ms[1..]
    ensures CleanMessages(cap, next, rest)
  {
    var lens := Lengths(ms);
    assert lens[1..] == Lengths(rest) && lens[0] == |ms[0]|;
    CleanTail(cap, r, lens);
  }

  lemma {:induction false} CleanConsume(s: State, a: Action, t: State)
    requires Inv(s) && CleanQueue(s) && a.Consume? && Reads(s, a) == Some(t)
    ensures Fifo(t) && CleanQueue(t)
  {
    ConsumedOne(s, a, t);
    CleanRest(|s.ring|, s.readPos, Pending(s), t.readPos, Pending(t));
  }

  lemma {:induction false} CleanStep(s: State, a: Action, t: State)
    requires Inv(s) && CleanQueue(s) && OrderlyStep(s, a) && RoomyStep(s, a) && Next(s, a) == Some(t)
    ensures Inv(t) && CleanQueue(t)
  {
    StepKeeps(s, a, t);
    if a.Publish? {
      CleanPublish(s, a.w, t);
    } else if a.Consume? {
      CleanConsume(s, a, t);
    } else {
      CleanOther(s, a, t);
    }
  }

  lemma CleanOther(s: State, a: Action, t: State)
    requires |s.ring| > 0 && Fifo(s) && CleanQueue(s) && Fifo(t) && Next(s, a) == Some(t)
    requires !a.Publish? && !a.Consume? && Pending(t) == QueueAfter(s, a, Pending(s))
    ensures |t.ring| == |s.ring| && CleanQueue(t)
  {
    QueueStays(s, a, t);
    CleanSame(s, t);
  }

  lemma QueueStays(s: State, a: Action, t: State)
    requires |s.ring| > 0 && Fifo(s) && Fifo(t) && Next(s, a) == Some(t)
    requires !a.Publish? && !a.Consume? && Pending(t) == QueueAfter(s, a, Pending(s))
    ensures |t.ring| == |s.ring|
    ensures Pending(t) == [] || (Pending(t) == Pending(s) && t.readPos == s.readPos)
  {
    if IsRead(a) {
      SamePositions(s, a, t);
    } else if IsWrite(a) {
      SameQueue(s, a, t);
    } else {
      OtherFrame(s, a, t);
    }
  }

  lemma CleanSame(s: State, t: State)
    requires |s.ring| == |t.ring| > 0 && Fifo(s) && CleanQueue(s) && Fifo(t)
    requires Pending(t) == [] || (Pending(t) == Pending(s) && t.readPos == s.readPos)
    ensures CleanQueue(t)
  {
  }

  lemma SamePositions(s: State, a: Action, t: State)
    requires |s.ring| > 0 && IsRead(a) && !a.Consume? && Reads(s, a) == Some(t)
    ensures t.ring == s.ring && t.readPos == s.readPos
  {
  }

  /** On every orderly run with room the queue stays clean, also while the ring is overfull. */
  lemma {:induction false} CleanOverRuns(s: State, acts: seq<Action>)
    requires Inv(s) && CleanQueue(s) && Orderly(s, acts) && Roomy(s, acts) && Exec(s, acts).Some?
    ensures Inv(Exec(s, acts).value) && CleanQueue(Exec(s, acts).value)
    decreases |acts|
  {
    if acts != [] {
      CleanStep(s, acts[0], Next(s, acts[0]).value);
      CleanOverRuns(Next(s, acts[0]).value, acts[1..]);
    }
  }

  // ---- overfull and safe ----

  /** A record written with room joins the queue that the ring holds. */
  lemma {:induction false} WrittenHolds(s: State, w: nat, ms: seq<Message>, m: Message, all: seq<Message>)
    requires |s.ring| > 0 && Holds(s.ring, s.readPos, ms) && End(s.readPos, ms) == s.writePos
    requires Room(|s.ring|, s.writePos, s.readPos, |m|) && all == ms + [m]
    ensures var t := Written(s, w, m);
            && |t.ring| == |s.ring| && t.readPos == s.readPos
            && Holds(t.ring, t.readPos, all) && End(t.readPos, all) == t.writePos
  {
    HoldsAfterWrite(s.ring, s.readPos, s.writePos, m, ms);
  }

  /** Two writes with room each leave the ring overfull: the second record ends at the ring
      end and its entry one block behind. */
  lemma {:induction false} OverfullRun(s: State, w: nat, a: Message, b: Message) returns (acts: seq<Action>, t: State)
    requires 1024 <= |s.ring| < U32 && |s.ring| % ENTRY_ALIGN == 0 && s.readPos == s.writePos
    requires s.writePos % ENTRY_ALIGN == 0 && s.Pc(w).Idle? && !s.lock.Held?
    requires |a| == 4 && |b| == |s.ring| - 20
    ensures Fair(s, acts, t) && t.readPos == s.readPos && |t.ring| == |s.ring|
    ensures t.writePos == t.readPos + |s.ring| + ENTRY_ALIGN
    ensures Unread(t.ring, t.readPos, t.writePos) == Some([a, b])
  {
    OverfullSizes(|s.ring|);
    GuardBlocksIffFull(|s.ring|, s.writePos, s.readPos);
    GuardBlocksIffFull(|s.ring|, s.writePos + 16, s.readPos);
    acts, t := SoloWrite(w, a) + SoloWrite(w, b), Written(Written(s, w, a), w, b);
    FairTwice(s, w, a, b);
    WrittenTwice(s, w, a, b);
  }

  lemma {:induction false} WrittenTwice(s: State, w: nat, a: Message, b: Message)
    requires 0 < |s.ring| && s.readPos == s.writePos
    requires Room(|s.ring|, s.readPos, s.readPos, |a|) && Room(|s.ring|, s.readPos + Entry(|a|), s.readPos, |b|)
    ensures var t := Written(Written(s, w, a), w, b);
            Unread(t.ring, t.readPos, t.writePos) == Some([a, b])
  {
    var u := Written(s, w, a);
    var t := Written(u, w, b);
    WrittenHolds(s, w, [], a, [a]);
    WrittenHolds(u, w, [a], b, [a, b]);
    BucketSegments.HeldIsUnread(t.ring, t.readPos, t.writePos, [a, b]);
  }

  /** Two writes in a row that pass the test with room. */
  lemma {:induction false} FairTwice(s: State, w: nat, a: Message, b: Message)
    requires |s.ring| > 0 && s.Pc(w).Idle? && !s.lock.Held? && Entry(|a|) <= |s.ring| && Entry(|b|) <= |s.ring|
    requires DrainGuard(|s.ring|, s.writePos, s.readPos) && Room(|s.ring|, s.writePos, s.readPos, |a|)
    requires var w1 := s.writePos + Entry(|a|);
             DrainGuard(|s.ring|, w1, s.readPos) && Room(|s.ring|, w1, s.readPos, |b|)
    ensures Fair(s, SoloWrite(w, a) + SoloWrite(w, b), Written(Written(s, w, a), w, b))
  {
    var u := Written(s, w, a);
    FairWrite(s, w, a);
    FairWrite(u, w, b);
    FairConcat(s, SoloWrite(w, a), u, SoloWrite(w, b), Written(u, w, b));
  }

  lemma OverfullSizes(cap: nat)
    requires 1024 <= cap && cap % ENTRY_ALIGN == 0
    ensures Entry(4) == 16 && Entry(cap - 20) == cap - 8
  {
  }

  /** There the drain test passes again, the free bytes do not suffice, and yet every
      message of four bytes is appended unharmed, into cells that no record uses. */
  lemma {:induction false} OverfullCanBeSafe(ring: seq<byte>, r: nat, w: nat, ms: seq<Message>, m: Message)
    requires 1024 <= |ring| < U32 && |ring| % ENTRY_ALIGN == 0 && r % ENTRY_ALIGN == 0
    requires w == r + |ring| + ENTRY_ALIGN && Lengths(ms) == [4, |ring| - 20] && |m| == 4
    requires Unread(ring, r, w) == Some(ms)
    ensures DrainGuard(|ring|, w, r) && !Room(|ring|, w, r, |m|)
    ensures Unread(Deposit(ring, w, Record(m)), r, w + Entry(|m|)) == Some(ms + [m])
  {
    OverfullPasses(|ring|, w, r);
    OverfullClean(|ring|, r, Lengths(ms), |m|);
    CleanOneWrite(ring, r, w, ms, m);
  }

  lemma OverfullPasses(cap: nat, w: nat, r: nat)
    requires 1024 <= cap < U32 && cap % ENTRY_ALIGN == 0 && r % ENTRY_ALIGN == 0 && w == r + cap + ENTRY_ALIGN
    ensures DrainGuard(cap, w, r) && !Room(cap, w, r, 4)
  {
    GuardBlocksIffFull(cap, w, r);
  }

  lemma {:induction false} OverfullClean(cap: nat, r: nat, lens: seq<nat>, len: nat)
    requires 1024 <= cap < U32 && cap % ENTRY_ALIGN == 0 && r % ENTRY_ALIGN == 0 && lens == [4, cap - 20] && len == 4
    ensures Sized(cap, r, lens + [len]) && Clean(cap, r, lens + [len])
  {
    var all := lens + [len];
    OverfullSizes(cap);
    assert all == [4, cap - 20, 4];
    var p0, p1, p2 := At(r, all, 0), At(r, all, 1), At(r, all, 2);
    assert p0 == r && p1 == r + 16 && p2 == r + 8 + cap;
    ApartInWindow(cap, p0, 8, p1, cap - 16);
    ApartInWindow(cap, p1, cap - 16, p2, 8);
    ApartInWindow(cap, p0, 8, r + 8, 8);
    RoundLater(cap, p0, 8, r + 8, 8);
  }

  lemma RoundLater(cap: nat, p: nat, n: nat, q: nat, k: nat)
    requires 0 < cap && !Overlap(cap, p, n, q, k)
    ensures !Overlap(cap, p, n, q + cap, k)
  {
    var later := q + cap;
    forall x: nat, y: nat | x < n && y < k ensures Cell(cap, p, x) != Cell(cap, later, y) {
      SameCell(q + y, cap);
      assert Cell(cap, later, y) == Cell(cap, q, y);
    }
  }
}
