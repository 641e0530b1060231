/** The byte ring of a bucket segment, seen through monotone positions.

    A position p lives at index p % |ring|.  Deposit is what the two-segment
    copy of BucketSegment::Write leaves in the ring; Fetch is what the
    two-segment copies of BucketSegment::Read take out of it. */
module Ring {
  import opened Bytes
  import opened Wrappers

  const ENTRY_ALIGN: nat := 8
  const HEADER: nat := 4

  type Message = m: seq<byte> | |m| < U32 witness []

  /** Bytes by which one message advances the positions: the length header and
      the payload, rounded down to 8, plus 8. */
  function Entry(len: nat): (e: nat)
    ensures e % 8 == 0 && len + 4 < e <= len + 12
  {
    (len + HEADER) / ENTRY_ALIGN * ENTRY_ALIGN + ENTRY_ALIGN
  }

  /** The bytes really stored for a message: its length, then its payload. */
  function Record(m: Message): (r: seq<byte>)
    ensures |r| == HEADER + |m| < Entry(|m|)
  {
    Le(|m|, HEADER) + m
  }

  lemma RecordDecodes(m: Message)
    ensures Val(Record(m)[..HEADER]) == |m| && Record(m)[HEADER..] == m
  {
    ValLe32(|m|);
    assert Record(m)[..HEADER] == Le(|m|, HEADER);
  }

  // ---- positions modulo the capacity ----

  lemma ModAdd(p: nat, j: nat, cap: nat)
    requires j < cap
    ensures (p + j) % cap == if p % cap + j < cap then p % cap + j else p % cap + j - cap
  {
    var a, k := p % cap, p / cap;
    assert p == cap * k + a;
    if a + j < cap {
      ModUnique(p + j, k, a + j, cap);
    } else {
      assert p + j == cap * (k + 1) + (a + j - cap);
      ModUnique(p + j, k + 1, a + j - cap, cap);
    }
  }

  lemma ModUnique(x: nat, k: nat, r: nat, cap: nat)
    requires r < cap && x == cap * k + r
    ensures x % cap == r
  {
    var q, s := x / cap, x % cap;
    assert x == cap * q + s;
    if k < q {
      MulGap(cap, k, q);
    } else if q < k {
      MulGap(cap, q, k);
    }
  }

  lemma {:induction false} MulGap(cap: nat, k: nat, q: nat)
    requires k < q
    ensures cap * k + cap <= cap * q
    decreases q
  {
    assert cap * q == cap * (q - 1) + cap;
    if k < q - 1 {
      MulGap(cap, k, q - 1);
    }
  }

  /** Two positions less than one capacity apart use different cells. */
  lemma ModDistinct(p: nat, q: nat, cap: nat)
    requires p < q < p + cap
    ensures p % cap != q % cap
  {
    ModAdd(p, q - p, cap);
  }

  lemma ModMod(p: nat, cap: nat)
    requires cap > 0
    ensures p % cap % cap == p % cap
  {
    ModUnique(p % cap, 0, p % cap, cap);
  }

  // ---- reading and writing runs of cells ----

  function Fetch(ring: seq<byte>, at: nat, n: nat): (bs: seq<byte>)
    requires |ring| > 0
    ensures |bs| == n
  {
    seq(n, j requires 0 <= j < n => ring[(at + j) % |ring|])
  }

  function Ahead(i: nat, at: nat, cap: nat): (d: nat)
    requires i < cap
    ensures d < cap
  {
    var a := at % cap;
    if i >= a then i - a else i - a + cap
  }

  function Deposit(ring: seq<byte>, at: nat, src: seq<byte>): (out: seq<byte>)
    requires |ring| > 0
    ensures |out| == |ring|
  {
    seq(|ring|, i requires 0 <= i < |ring| =>
      if Ahead(i, at, |ring|) < |src| then src[Ahead(i, at, |ring|)] else ring[i])
  }

  lemma AheadOfCell(at: nat, j: nat, cap: nat)
    requires j < cap
    ensures Ahead((at + j) % cap, at, cap) == j
  {
    ModAdd(at, j, cap);
  }

  /** A deposited run is read back byte for byte, wherever it wraps. */
  lemma FetchDeposit(ring: seq<byte>, at: nat, src: seq<byte>)
    requires 0 < |ring| && |src| <= |ring|
    ensures Fetch(Deposit(ring, at, src), at, |src|) == src
  {
    forall j | 0 <= j < |src|
      ensures Fetch(Deposit(ring, at, src), at, |src|)[j] == src[j]
    {
      AheadOfCell(at, j, |ring|);
    }
  }

  /** A deposit leaves alone every position it cannot reach. */
  lemma FetchElsewhere(ring: seq<byte>, at: nat, src: seq<byte>, p: nat, n: nat)
    requires 0 < |ring| && p + n <= at && at + |src| <= p + |ring|
    ensures Fetch(Deposit(ring, at, src), p, n) == Fetch(ring, p, n)
  {
    var cap := |ring|;
    forall j | 0 <= j < n
      ensures Fetch(Deposit(ring, at, src), p, n)[j] == Fetch(ring, p, n)[j]
    {
      var i := (p + j) % cap;
      var d := Ahead(i, at, cap);
      if d < |src| {
        ModAdd(at, d, cap);
        ModDistinct(p + j, at + d, cap);
        assert false;
      }
    }
  }

  /** Depositing one byte more is one cell update. */
  lemma DepositStep(ring: seq<byte>, at: nat, src: seq<byte>, k: nat)
    requires 0 < |ring| && k < |src| <= |ring|
    ensures Deposit(ring, at, src[..k + 1])
         == Deposit(ring, at, src[..k])[(at + k) % |ring| := src[k]]
  {
    var cap := |ring|;
    AheadOfCell(at, k, cap);
    var longer, shorter := Deposit(ring, at, src[..k + 1]), Deposit(ring, at, src[..k]);
    forall i | 0 <= i < cap
      ensures longer[i] == shorter[(at + k) % cap := src[k]][i]
    {
      if Ahead(i, at, cap) == k {
        ModAdd(at, k, cap);
      }
    }
  }

  lemma CellIsDeposit(ring: seq<byte>, at: nat, b: byte)
    requires 0 < |ring|
    ensures Deposit(ring, at, [b]) == ring[at % |ring| := b]
  {
    AheadOfCell(at, 0, |ring|);
    var one, cell := Deposit(ring, at, [b]), ring[at % |ring| := b];
    forall i | 0 <= i < |ring|
      ensures one[i] == cell[i]
    {
      if Ahead(i, at, |ring|) == 0 {
        ModAdd(at, 0, |ring|);
      }
    }
  }

  // ---- the queue a ring holds ----

  /** The ring holds the records of ms back to back from position pos on. */
  ghost predicate Holds(ring: seq<byte>, pos: nat, ms: seq<Message>)
    requires |ring| > 0
    decreases |ms|
  {
    ms != [] ==>
      && Fetch(ring, pos, |Record(ms[0])|) == Record(ms[0])
      && Holds(ring, pos + Entry(|ms[0]|), ms[1..])
  }

  /** Position after the entries of ms. */
  function End(pos: nat, ms: seq<Message>): (e: nat)
    ensures e >= pos
    ensures ms != [] ==> e >= pos + Entry(|ms[0]|)
    decreases |ms|
  {
    if ms == [] then pos else End(pos + Entry(|ms[0]|), ms[1..])
  }

  /** What a reader working alone takes from the ring between the cursors r and
      w: it decodes a length, then a payload, then moves on by the entry size.
      None when an entry does not end by w. */
  function Unread(ring: seq<byte>, r: nat, w: nat): Option<seq<Message>>
    requires |ring| > 0
    decreases w - r
  {
    if r == w then Some([])
    else if w < r + HEADER then None
    else
      LengthBound(ring, r);
      var len := Val(Fetch(ring, r, HEADER));
      if w < r + Entry(len) then None
      else match Unread(ring, r + Entry(len), w)
        case None => None
        case Some(rest) => Some([Fetch(ring, r + HEADER, len)] + rest)
  }

  lemma LengthBound(ring: seq<byte>, r: nat)
    requires |ring| > 0
    ensures Val(Fetch(ring, r, HEADER)) < U32
  {
    Pow256Words();
    LeVal(Fetch(ring, r, HEADER));
  }

  lemma FetchRecord(ring: seq<byte>, pos: nat, m: Message)
    requires |ring| > 0
    ensures Fetch(ring, pos, |Record(m)|) == Record(m)
       <==> Val(Fetch(ring, pos, HEADER)) == |m| && Fetch(ring, pos + HEADER, |m|) == m
  {
    RecordDecodes(m);
    LeVal(Fetch(ring, pos, HEADER));
    var f := Fetch(ring, pos, |Record(m)|);
    assert f[..HEADER] == Fetch(ring, pos, HEADER);
    assert f[HEADER..] == Fetch(ring, pos + HEADER, |m|);
    assert f == f[..HEADER] + f[HEADER..];
    assert Record(m) == Record(m)[..HEADER] + Record(m)[HEADER..];
  }

  /** A non-empty view starts with one decodable entry. */
  lemma {:induction false} UnreadCons(ring: seq<byte>, r: nat, w: nat, m: Message, rest: seq<Message>)
    requires |ring| > 0
    ensures Unread(ring, r, w) == Some([m] + rest)
       <==> && Val(Fetch(ring, r, HEADER)) == |m| && Fetch(ring, r + HEADER, |m|) == m
            && Unread(ring, r + Entry(|m|), w) == Some(rest)
  {
    LengthBound(ring, r);
    var len := Val(Fetch(ring, r, HEADER));
    if r + Entry(len) <= w && Unread(ring, r + Entry(len), w).Some? {
      var head: Message := Fetch(ring, r + HEADER, len);
      var tail: seq<Message> := Unread(ring, r + Entry(len), w).value;
      var found: seq<Message>, given: seq<Message> := [head] + tail, [m] + rest;
      assert Unread(ring, r, w) == Some(found);
      assert found[0] == head && found[1..] == tail;
      assert given[0] == m && given[1..] == rest;
    }
  }

  /** The reader's view and the ghost description of the ring coincide. */
  lemma {:induction false} UnreadIff(ring: seq<byte>, r: nat, w: nat, ms: seq<Message>)
    requires |ring| > 0
    ensures Unread(ring, r, w) == Some(ms) <==> Holds(ring, r, ms) && End(r, ms) == w
    decreases |ms|
  {
    if ms == [] {
      if r < w && r + HEADER <= w {
        LengthBound(ring, r);
      }
    } else {
      assert ms == [ms[0]] + ms[1..];
      UnreadCons(ring, r, w, ms[0], ms[1..]);
      FetchRecord(ring, r, ms[0]);
      UnreadIff(ring, r + Entry(|ms[0]|), w, ms[1..]);
    }
  }

  /** A deposit beyond everything that is held disturbs nothing. */
  lemma {:induction false} HoldsElsewhere(ring: seq<byte>, at: nat, src: seq<byte>, pos: nat, ms: seq<Message>)
    requires |ring| > 0 && Holds(ring, pos, ms)
    requires End(pos, ms) <= at && at + |src| <= pos + |ring|
    ensures Holds(Deposit(ring, at, src), pos, ms)
    decreases |ms|
  {
    if ms != [] {
      FetchElsewhere(ring, at, src, pos, |Record(ms[0])|);
      HoldsElsewhere(ring, at, src, pos + Entry(|ms[0]|), ms[1..]);
    }
  }

  lemma {:induction false} HoldsAppend(ring: seq<byte>, pos: nat, ms: seq<Message>, m: Message)
    requires |ring| > 0 && Holds(ring, pos, ms)
    requires Fetch(ring, End(pos, ms), |Record(m)|) == Record(m)
    ensures Holds(ring, pos, ms + [m])
    ensures End(pos, ms + [m]) == End(pos, ms) + Entry(|m|)
    decreases |ms|
  {
    if ms == [] {
      assert ms + [m] == [m];
    } else {
      HoldsAppend(ring, pos + Entry(|ms[0]|), ms[1..], m);
      assert (ms + [m])[1..] == ms[1..] + [m];
    }
  }

  /** Two deposits in a row are one deposit of the concatenation. */
  lemma DepositConcat(ring: seq<byte>, at: nat, a: seq<byte>, b: seq<byte>)
    requires 0 < |ring| && |a| < |ring| && |a| + |b| <= |ring|
    ensures Deposit(Deposit(ring, at, a), at + |a|, b) == Deposit(ring, at, a + b)
  {
    ModAdd(at, |a|, |ring|);
    var two, one := Deposit(Deposit(ring, at, a), at + |a|, b), Deposit(ring, at, a + b);
    forall i | 0 <= i < |ring|
      ensures two[i] == one[i]
    {
      var d := Ahead(i, at, |ring|);
      assert Ahead(i, at + |a|, |ring|) == if d >= |a| then d - |a| else d - |a| + |ring|;
    }
  }

  lemma {:induction false} HoldsAfterWrite(ring: seq<byte>, r: nat, w: nat, m: Message, ms: seq<Message>)
    requires |ring| > 0 && Holds(ring, r, ms) && End(r, ms) == w && Room(|ring|, w, r, |m|)
    ensures Holds(Deposit(ring, w, Record(m)), r, ms + [m])
    ensures End(r, ms + [m]) == w + Entry(|m|)
  {
    HoldsElsewhere(ring, w, Record(m), r, ms);
    FetchDeposit(ring, w, Record(m));
    HoldsAppend(Deposit(ring, w, Record(m)), r, ms, m);
  }

  // ---- the drain guard, with the source's 64-bit unsigned subtraction ----

  function Sub64(a: nat, b: nat): (d: nat)
    ensures d < U64
    ensures b <= a < b + U64 ==> d == a - b
  {
    if b <= a < b + U64 then a - b else (a - b) % U64
  }

  /** wait_drain's test: eight bytes free. */
  predicate DrainGuard(cap: nat, w: nat, r: nat) {
    Sub64(cap, Sub64(w, r)) >= ENTRY_ALIGN
  }

  /** The bytes of one more record fit before the oldest unread byte. */
  predicate Room(cap: nat, w: nat, r: nat, len: nat) {
    w + HEADER + len <= r + cap
  }
}
