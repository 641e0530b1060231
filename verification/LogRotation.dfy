/** The log directory's size bound: which files the eviction loop deletes. */
module LogRotation {
  import opened Wrappers

  const EXT: string := ".log"

  datatype Meta = Meta(mtime: nat, size: nat)
  datatype Entry = Entry(name: string, mtime: nat, size: nat)

  predicate IsCurrent(e: Entry, current: Option<string>) {
    current == Some(e.name)
  }

  /** The order the deletion goes by: the open file last, the others by age. */
  predicate Before(a: Entry, b: Entry, current: Option<string>) {
    if IsCurrent(a, current) != IsCurrent(b, current) then IsCurrent(b, current) else a.mtime < b.mtime
  }

  /** Position i holds the first of the least entries. */
  ghost predicate IsEldest(files: seq<Entry>, current: Option<string>, i: nat) {
    && i < |files|
    && (forall j | 0 <= j < |files| :: !Before(files[j], files[i], current))
    && (forall j | 0 <= j < i :: Before(files[i], files[j], current))
  }

  lemma EldestUnique(files: seq<Entry>, current: Option<string>, i: nat, j: nat)
    requires IsEldest(files, current, i) && IsEldest(files, current, j)
    ensures i == j
  {
    assert !Before(files[i], files[j], current) && !Before(files[j], files[i], current);
  }

  method MinElement(files: seq<Entry>, current: Option<string>) returns (at: nat)
    requires files != []
    ensures IsEldest(files, current, at)
  {
    at := 0;
    for i := 1 to |files|
      invariant IsEldest(files[..i], current, at)
    {
      if Before(files[i], files[at], current) {
        at := i;
      }
    }
    assert files[..|files|] == files;
  }

  ghost function Eldest(files: seq<Entry>, current: Option<string>): (i: nat)
    requires files != []
    ensures IsEldest(files, current, i)
  {
    if |files| == 1 then 0
    else
      var n := |files| - 1;
      var m := Eldest(files[..n], current);
      if Before(files[n], files[m], current) then n else m
  }

  function Without(files: seq<Entry>, i: nat): seq<Entry>
    requires i < |files|
  {
    files[..i] + files[i + 1..]
  }

  /** The files other than the open one, in the order the loop would delete them. */
  ghost function EvictionOrder(files: seq<Entry>, current: Option<string>): seq<Entry>
    decreases |files|
  {
    if files == [] || IsCurrent(files[Eldest(files, current)], current) then []
    else
      var i := Eldest(files, current);
      [files[i]] + EvictionOrder(Without(files, i), current)
  }

  predicate DistinctNames(files: seq<Entry>) {
    forall i, j | 0 <= i < j < |files| :: files[i].name != files[j].name
  }

  /** a comes before b in the listing. */
  ghost predicate ListedBefore(files: seq<Entry>, a: Entry, b: Entry) {
    exists i, j :: 0 <= i < j < |files| && files[i] == a && files[j] == b
  }

  /** a is deleted ahead of b: older, or as old and listed first. */
  ghost predicate Ahead(files: seq<Entry>, a: Entry, b: Entry) {
    a.mtime < b.mtime || (a.mtime == b.mtime && ListedBefore(files, a, b))
  }

  lemma WithoutIn(files: seq<Entry>, i: nat)
    requires i < |files| && DistinctNames(files)
    ensures DistinctNames(Without(files, i))
    ensures forall e :: e in Without(files, i) <==> e in files && e != files[i]
  {
    var rest := Without(files, i);
    forall e | e in files && e != files[i] ensures e in rest {
      var k :| 0 <= k < |files| && files[k] == e;
      assert rest[if k < i then k else k - 1] == e;
    }
  }

  lemma WithoutKeepsOrder(files: seq<Entry>, i: nat, a: Entry, b: Entry)
    requires i < |files| && ListedBefore(Without(files, i), a, b)
    ensures ListedBefore(files, a, b)
  {
    var rest := Without(files, i);
    var p, q :| 0 <= p < q < |rest| && rest[p] == a && rest[q] == b;
    assert files[if p < i then p else p + 1] == a && files[if q < i then q else q + 1] == b;
  }

  lemma {:induction false} EldestAhead(files: seq<Entry>, current: Option<string>, b: Entry)
    requires files != [] && b in files && b != files[Eldest(files, current)] && !IsCurrent(b, current)
    ensures Ahead(files, files[Eldest(files, current)], b)
  {
    var i := Eldest(files, current);
    var j :| 0 <= j < |files| && files[j] == b;
    assert !Before(files[j], files[i], current);
    assert j < i ==> Before(files[i], files[j], current);
  }

  /** The order is what it should be: exactly the files that are not open, each once,
      every one ahead of those after it. */
  lemma {:induction false} OrderIsOldestFirst(files: seq<Entry>, current: Option<string>)
    requires DistinctNames(files)
    ensures var order := EvictionOrder(files, current);
            && (forall e :: e in order <==> e in files && !IsCurrent(e, current))
            && (forall i, j | 0 <= i < j < |order| :: order[i] != order[j] && Ahead(files, order[i], order[j]))
    decreases |files|
  {
    if files != [] {
      var i := Eldest(files, current);
      if IsCurrent(files[i], current) {
        forall e | e in files ensures IsCurrent(e, current) {
          var k :| 0 <= k < |files| && files[k] == e;
          assert !Before(files[k], files[i], current);
        }
      } else {
        var rest := Without(files, i);
        var tail := EvictionOrder(rest, current);
        WithoutIn(files, i);
        OrderIsOldestFirst(rest, current);
        forall k | 0 <= k < |tail| ensures tail[k] != files[i] && Ahead(files, files[i], tail[k]) {
          assert tail[k] in tail;
          EldestAhead(files, current, tail[k]);
        }
        forall a, b | ListedBefore(rest, a, b) ensures ListedBefore(files, a, b) {
          WithoutKeepsOrder(files, i, a, b);
        }
      }
    }
  }

  // ---- sizes ----

  function Sizes(files: seq<Entry>): nat {
    if files == [] then 0 else Sizes(files[..|files| - 1]) + files[|files| - 1].size
  }

  lemma {:induction false} SizesWithout(files: seq<Entry>, i: nat)
    requires i < |files|
    ensures Sizes(files) == Sizes(Without(files, i)) + files[i].size
    decreases |files|
  {
    var n := |files| - 1;
    if i < n {
      SizesWithout(files[..n], i);
      WithoutFront(files, i);
      var less := Without(files, i);
      assert Sizes(less) == Sizes(less[..n - 1]) + less[n - 1].size;
    } else {
      assert Without(files, i) == files[..n];
    }
  }

  lemma WithoutFront(files: seq<Entry>, i: nat)
    requires i < |files| - 1
    ensures var n := |files| - 1;
            && |Without(files, i)| == n && Without(files, i)[n - 1] == files[n]
            && Without(files, i)[..n - 1] == Without(files[..n], i)
  {
  }

  /** What deleting these files frees when the ones in stuck cannot be deleted. */
  function Freed(files: seq<Entry>, stuck: set<string>): nat {
    if files == [] then 0
    else
      var e := files[|files| - 1];
      Freed(files[..|files| - 1], stuck) + if e.name in stuck then 0 else e.size
  }

  function Gone(files: seq<Entry>, stuck: set<string>): set<string> {
    if files == [] then {}
    else
      var e := files[|files| - 1];
      Gone(files[..|files| - 1], stuck) + if e.name in stuck then {} else {e.name}
  }

  lemma {:induction false} GoneIs(files: seq<Entry>, stuck: set<string>, name: string)
    ensures name in Gone(files, stuck) <==> name !in stuck && exists i :: 0 <= i < |files| && files[i].name == name
    decreases |files|
  {
    if files != [] {
      var n := |files| - 1;
      GoneIs(files[..n], stuck, name);
      if files[n].name == name {
      } else if i :| 0 <= i < |files| && files[i].name == name {
        assert files[..n][i].name == name;
      }
    }
  }

  /** k is how far the loop gets: the least number of deletions after which the total is
      within the bound, or all of them. */
  ghost predicate StopsAt(order: seq<Entry>, k: nat, total: nat, max: nat, stuck: set<string>) {
    && k <= |order|
    && (total - Freed(order[..k], stuck) <= max || k == |order|)
    && (forall j | 0 <= j < k :: total - Freed(order[..j], stuck) > max)
  }

  // ---- the code ----

  predicate IsLog(name: string, prefix: string) {
    && |name| >= |EXT| && name[|name| - |EXT|..] == EXT
    && prefix <= name
  }

  function Scan(dir: map<string, Meta>, listing: seq<string>, prefix: string): seq<Entry>
    requires forall i | 0 <= i < |listing| :: listing[i] in dir
  {
    if listing == [] then []
    else
      var n := |listing| - 1;
      var name := listing[n];
      Scan(dir, listing[..n], prefix)
        + if IsLog(name, prefix) then [Entry(name, dir[name].mtime, dir[name].size)] else []
  }

  lemma {:induction false} ScanFinds(dir: map<string, Meta>, listing: seq<string>, prefix: string)
    requires forall i | 0 <= i < |listing| :: listing[i] in dir
    requires forall i, j | 0 <= i < j < |listing| :: listing[i] != listing[j]
    ensures DistinctNames(Scan(dir, listing, prefix))
    ensures forall e :: e in Scan(dir, listing, prefix) <==>
              e.name in listing && IsLog(e.name, prefix) && dir[e.name] == Meta(e.mtime, e.size)
    decreases |listing|
  {
    if listing != [] {
      var n := |listing| - 1;
      ScanFinds(dir, listing[..n], prefix);
      assert listing == listing[..n] + [listing[n]];
      var front := Scan(dir, listing[..n], prefix);
      forall i | 0 <= i < |front| ensures front[i].name != listing[n] {
        assert front[i] in front;
      }
    }
  }

  // ---- the outcome, in terms of the directory alone ----

  ghost predicate OnceEach(listing: seq<string>) {
    forall i, j | 0 <= i < j < |listing| :: listing[i] != listing[j]
  }

  /** The bound counts this file: it is listed, starts with the prefix and ends in .log. */
  ghost predicate Counts(listing: seq<string>, prefix: string, name: string) {
    name in listing && prefix <= name && |name| >= 4 && name[|name| - 4..] == ['.', 'l', 'o', 'g']
  }

  /** The bytes of all the files that count, the open one included. */
  ghost function LogTotal(dir: map<string, Meta>, listing: seq<string>, prefix: string): nat {
    if listing == [] then 0
    else
      var name := listing[|listing| - 1];
      LogTotal(dir, listing[..|listing| - 1], prefix)
        + if name in dir && prefix <= name && |name| >= 4 && name[|name| - 4..] == ['.', 'l', 'o', 'g']
          then dir[name].size else 0
  }

  /** The directory names a before b. */
  ghost predicate NamedBefore(listing: seq<string>, a: string, b: string) {
    exists i, j :: 0 <= i < j < |listing| && listing[i] == a && listing[j] == b
  }

  /** a goes before b: it is older, or as old and read first. */
  ghost predicate GoesFirst(dir: map<string, Meta>, listing: seq<string>, a: string, b: string) {
    a in dir && b in dir
    && (dir[a].mtime < dir[b].mtime
        || (dir[a].mtime == dir[b].mtime && NamedBefore(listing, a, b)))
  }

  ghost predicate WasDeleted(dir: map<string, Meta>, after: map<string, Meta>, name: string) {
    name in dir && name !in after
  }

  /** Only files that count, are not open and can be deleted go; the others stay as they
      are.  Every file gone goes before every such file kept.  Then the total is within the
      bound or there is no such file left, and with the last file gone it would still be
      over. */
  ghost predicate Evicted(dir: map<string, Meta>, after: map<string, Meta>, listing: seq<string>, prefix: string,
                          current: Option<string>, max: nat, stuck: set<string>)
  {
    && (forall name | name in after :: name in dir && after[name] == dir[name])
    && (forall name | WasDeleted(dir, after, name) ::
          Counts(listing, prefix, name) && current != Some(name) && name !in stuck)
    && (forall a, b | WasDeleted(dir, after, a) && b in after && Counts(listing, prefix, b)
                      && current != Some(b) && b !in stuck :: GoesFirst(dir, listing, a, b))
    && (LogTotal(after, listing, prefix) <= max
        || forall b | b in after && Counts(listing, prefix, b) && current != Some(b) :: b in stuck)
    && (after == dir || LastOneNeeded(dir, after, listing, prefix, max))
  }

  ghost predicate LastOneNeeded(dir: map<string, Meta>, after: map<string, Meta>, listing: seq<string>, prefix: string,
                                max: nat)
  {
    exists last ::
      && WasDeleted(dir, after, last) && LogTotal(after, listing, prefix) + dir[last].size > max
      && forall a | WasDeleted(dir, after, a) && a != last :: GoesFirst(dir, listing, a, last)
  }

  class TsRotatingSink {
    const namePrefix: string
    const maxTotal: nat
    var dir: map<string, Meta>
    var current: Option<string>

    constructor (namePrefix: string, maxTotal: nat)
      ensures this.namePrefix == namePrefix && this.maxTotal == maxTotal && dir == map[] && current == None
    {
      this.namePrefix, this.maxTotal := namePrefix, maxTotal;
      dir, current := map[], None;
    }

    /** Delete the oldest log files, the open one excepted, until the rest fit or none is
        left to try.  listing is the order in which the directory is read; files named in
        stuck cannot be deleted.  Evicted says what that leaves of a directory whose listing
        names no file twice. */
    method EvictOldestIfNeeded(listing: seq<string>, stuck: set<string>) returns (ghost k: nat)
      requires forall i | 0 <= i < |listing| :: listing[i] in dir
      modifies this`dir
      ensures var files := Scan(old(dir), listing, namePrefix);
              var order := EvictionOrder(files, current);
              && StopsAt(order, k, Sizes(files), maxTotal, stuck)
              && dir == old(dir) - Gone(order[..k], stuck)
      ensures OnceEach(listing) ==> Evicted(old(dir), dir, listing, namePrefix, current, maxTotal, stuck)
    {
      ghost var was := dir;
      k := EvictLoop(listing, stuck);
      if OnceEach(listing) {
        EvictsShortestRun(was, listing, namePrefix, current, maxTotal, stuck, k, dir);
      }
    }

    method EvictLoop(listing: seq<string>, stuck: set<string>) returns (ghost k: nat)
      requires forall i | 0 <= i < |listing| :: listing[i] in dir
      modifies this`dir
      ensures var files := Scan(old(dir), listing, namePrefix);
              var order := EvictionOrder(files, current);
              && StopsAt(order, k, Sizes(files), maxTotal, stuck)
              && dir == old(dir) - Gone(order[..k], stuck)
    {
      var files, total: nat := ScanDir(listing);
      ghost var order, was := EvictionOrder(files, current), dir;
      ghost var all := total;
      k := 0;
      EvictingStart(order, files, current, all, maxTotal, stuck, was);
      while total > maxTotal
        invariant Evicting(order, k, files, current, total, all, maxTotal, stuck, was, dir)
        decreases |files|
      {
        if files == [] {
          assert EvictionOrder(files, current) == [];
          break;
        }
        var at := MinElement(files, current);
        EldestUnique(files, current, at, Eldest(files, current));
        assert at == Eldest(files, current);
        if current.Some? && files[at].name == current.value {
          assert EvictionOrder(files, current) == [];
          break;
        }
        EvictingNext(order, k, files, current, total, all, maxTotal, stuck, was, dir);
        files, total := Evict(files, at, total, stuck);
        k := k + 1;
      }
      EvictingDone(order, k, files, current, total, all, maxTotal, stuck, was, dir);
    }

    /** Delete one file, if that works; it leaves the list either way. */
    method Evict(files: seq<Entry>, at: nat, total: nat, stuck: set<string>) returns (rest: seq<Entry>, left: nat)
      requires at < |files| && files[at].size <= total
      modifies this`dir
      ensures rest == Without(files, at)
      ensures left == if files[at].name in stuck then total else total - files[at].size
      ensures dir == if files[at].name in stuck then old(dir) else old(dir) - {files[at].name}
    {
      left := total;
      var oldest := files[at];
      if oldest.name !in stuck {
        dir := dir - {oldest.name};
        left := left - oldest.size;
      }
      rest := files[..at] + files[at + 1..];
    }

    /** Read the directory: the log files and their total size. */
    method ScanDir(listing: seq<string>) returns (files: seq<Entry>, total: nat)
      requires forall i | 0 <= i < |listing| :: listing[i] in dir
      ensures files == Scan(dir, listing, namePrefix) && total == Sizes(files)
    {
      files, total := [], 0;
      for i := 0 to |listing|
        invariant files == Scan(dir, listing[..i], namePrefix) && total == Sizes(files)
      {
        var name := listing[i];
        assert listing[..i + 1][..i] == listing[..i];
        if IsLog(name, namePrefix) {
          var e := Entry(name, dir[name].mtime, dir[name].size);
          assert (files + [e])[..|files|] == files;
          files := files + [e];
          total := total + dir[name].size;
        }
      }
      assert listing[..|listing|] == listing;
    }
  }

  /** The loop has dealt with the first k files of the order. */
  ghost predicate Evicting(order: seq<Entry>, k: nat, files: seq<Entry>, current: Option<string>, total: nat,
                           all: nat, max: nat, stuck: set<string>, was: map<string, Meta>, dir: map<string, Meta>)
  {
    && k <= |order| && order[k..] == EvictionOrder(files, current)
    && total == all - Freed(order[..k], stuck) && Sizes(files) <= total
    && (forall j | 0 <= j < k :: all - Freed(order[..j], stuck) > max)
    && dir == was - Gone(order[..k], stuck)
  }

  lemma {:induction false} EvictingStart(order: seq<Entry>, files: seq<Entry>, current: Option<string>, all: nat, max: nat,
                      stuck: set<string>, was: map<string, Meta>)
    requires order == EvictionOrder(files, current) && all == Sizes(files)
    ensures Evicting(order, 0, files, current, all, all, max, stuck, was, was)
  {
    assert order[..0] == [] && order[0..] == order && was - {} == was;
  }

  lemma {:induction false} EvictingDone(order: seq<Entry>, k: nat, files: seq<Entry>, current: Option<string>, total: nat,
                     all: nat, max: nat, stuck: set<string>, was: map<string, Meta>, dir: map<string, Meta>)
    requires Evicting(order, k, files, current, total, all, max, stuck, was, dir)
    requires total <= max || EvictionOrder(files, current) == []
    ensures StopsAt(order, k, all, max, stuck) && dir == was - Gone(order[..k], stuck)
  {
  }

  lemma {:induction false} EvictingNext(order: seq<Entry>, k: nat, files: seq<Entry>, current: Option<string>, total: nat,
                     all: nat, max: nat, stuck: set<string>, was: map<string, Meta>, dir: map<string, Meta>)
    requires Evicting(order, k, files, current, total, all, max, stuck, was, dir) && total > max
    requires files != [] && !IsCurrent(files[Eldest(files, current)], current)
    ensures var i := Eldest(files, current);
            var e := files[i];
            && e.size <= total
            && Evicting(order, k + 1, Without(files, i), current,
                        if e.name in stuck then total else total - e.size, all, max, stuck, was,
                        if e.name in stuck then dir else dir - {e.name})
  {
    var i := Eldest(files, current);
    SizesWithout(files, i);
    NextInOrder(order, k, files, current);
    OneMoreGone(order, k, stuck);
    GoneTwice(was, Gone(order[..k], stuck), files[i].name);
  }

  lemma GoneTwice(was: map<string, Meta>, gone: set<string>, name: string)
    ensures was - gone - {name} == was - (gone + {name}) && gone + {} == gone
  {
  }

  lemma {:induction false} NextInOrder(order: seq<Entry>, k: nat, files: seq<Entry>, current: Option<string>)
    requires k <= |order| && order[k..] == EvictionOrder(files, current)
    requires files != [] && !IsCurrent(files[Eldest(files, current)], current)
    ensures var i := Eldest(files, current);
            k < |order| && order[k] == files[i] && order[k + 1..] == EvictionOrder(Without(files, i), current)
  {
    assert order[k..][0] == order[k] && order[k..][1..] == order[k + 1..];
  }

  lemma {:induction false} OneMoreGone(order: seq<Entry>, k: nat, stuck: set<string>)
    requires k < |order|
    ensures Freed(order[..k + 1], stuck) == Freed(order[..k], stuck) + if order[k].name in stuck then 0 else order[k].size
    ensures Gone(order[..k + 1], stuck) == Gone(order[..k], stuck) + if order[k].name in stuck then {} else {order[k].name}
  {
    assert order[..k + 1][..k] == order[..k];
  }

  lemma SameName(files: seq<Entry>, a: Entry, b: Entry)
    requires DistinctNames(files) && a in files && b in files && a.name == b.name
    ensures a == b
  {
  }

  // ---- the loop's outcome is the one wanted ----

  /** The loop's test of a name is the one that Counts makes. */
  lemma IsLogSays(name: string, prefix: string)
    ensures IsLog(name, prefix) <==> prefix <= name && |name| >= 4 && name[|name| - 4..] == ['.', 'l', 'o', 'g']
  {
    assert EXT == ['.', 'l', 'o', 'g'];
  }

  lemma {:induction false} TotalSnoc(dir: map<string, Meta>, listing: seq<string>, prefix: string, name: string)
    requires name in dir
    ensures LogTotal(dir, listing + [name], prefix)
         == LogTotal(dir, listing, prefix) + if IsLog(name, prefix) then dir[name].size else 0
  {
    IsLogSays(name, prefix);
    assert (listing + [name])[..|listing|] == listing;
  }

  lemma {:induction false} SizesSnoc(files: seq<Entry>, e: Entry)
    ensures Sizes(files + [e]) == Sizes(files) + e.size && files + [] == files
  {
    assert (files + [e])[..|files|] == files;
  }

  lemma {:induction false} ScanSnoc(dir: map<string, Meta>, listing: seq<string>, prefix: string, name: string)
    requires (forall i | 0 <= i < |listing| :: listing[i] in dir) && name in dir
    ensures Scan(dir, listing + [name], prefix)
         == Scan(dir, listing, prefix)
            + if IsLog(name, prefix) then [Entry(name, dir[name].mtime, dir[name].size)] else []
  {
    assert (listing + [name])[..|listing|] == listing;
  }

  lemma {:induction false} TotalIs(dir: map<string, Meta>, listing: seq<string>, prefix: string)
    requires forall i | 0 <= i < |listing| :: listing[i] in dir
    ensures Sizes(Scan(dir, listing, prefix)) == LogTotal(dir, listing, prefix)
    decreases |listing|
  {
    if listing != [] {
      var front, name := listing[..|listing| - 1], listing[|listing| - 1];
      assert listing == front + [name];
      TotalIs(dir, front, prefix);
      TotalSnoc(dir, front, prefix, name);
      ScanSnoc(dir, front, prefix, name);
      SizesSnoc(Scan(dir, front, prefix), Entry(name, dir[name].mtime, dir[name].size));
    }
  }

  lemma {:induction false} TotalUnlisted(dir: map<string, Meta>, listing: seq<string>, prefix: string, name: string)
    requires name !in listing
    ensures LogTotal(dir - {name}, listing, prefix) == LogTotal(dir, listing, prefix)
    decreases |listing|
  {
    if listing != [] {
      TotalUnlisted(dir, listing[..|listing| - 1], prefix, name);
    }
  }

  lemma {:induction false} TotalWithout(dir: map<string, Meta>, listing: seq<string>, prefix: string, name: string)
    requires OnceEach(listing) && name in dir && Counts(listing, prefix, name)
    ensures LogTotal(dir - {name}, listing, prefix) + dir[name].size == LogTotal(dir, listing, prefix)
    decreases |listing|
  {
    var n := |listing| - 1;
    if listing[n] == name {
      forall i | 0 <= i < n ensures listing[..n][i] != name {
      }
      TotalUnlisted(dir, listing[..n], prefix, name);
    } else {
      assert listing == listing[..n] + [listing[n]];
      TotalWithout(dir, listing[..n], prefix, name);
    }
  }

  /** The files of the order are the directory's: each counts, is not open, and has the
      directory's time and size. */
  ghost predicate OrderOf(order: seq<Entry>, dir: map<string, Meta>, listing: seq<string>, prefix: string,
                          current: Option<string>)
  {
    && (forall i | 0 <= i < |order| ::
          && order[i].name in dir && Counts(listing, prefix, order[i].name) && current != Some(order[i].name)
          && dir[order[i].name] == Meta(order[i].mtime, order[i].size))
    && (forall i, j | 0 <= i < j < |order| ::
          order[i].name != order[j].name && GoesFirst(dir, listing, order[i].name, order[j].name))
    && (forall name | name in dir && Counts(listing, prefix, name) && current != Some(name) ::
          exists i :: 0 <= i < |order| && order[i].name == name)
  }

  lemma {:induction false} ScanListed(dir: map<string, Meta>, listing: seq<string>, prefix: string, a: Entry, b: Entry)
    requires forall i | 0 <= i < |listing| :: listing[i] in dir
    requires ListedBefore(Scan(dir, listing, prefix), a, b)
    ensures NamedBefore(listing, a.name, b.name)
    decreases |listing|
  {
    var front, name := listing[..|listing| - 1], listing[|listing| - 1];
    var older := Scan(dir, front, prefix);
    assert listing == front + [name];
    ScanSnoc(dir, front, prefix, name);
    if ListedBefore(older, a, b) {
      ScanListed(dir, front, prefix, a, b);
      var i, j :| 0 <= i < j < |front| && front[i] == a.name && front[j] == b.name;
      assert listing[i] == a.name && listing[j] == b.name;
    } else {
      LastListed(older, Entry(name, dir[name].mtime, dir[name].size), a, b);
      ScanIn(dir, front, prefix, a);
      var i :| 0 <= i < |front| && front[i] == a.name;
      assert listing[i] == a.name && listing[|front|] == b.name;
    }
  }

  lemma LastListed(files: seq<Entry>, e: Entry, a: Entry, b: Entry)
    requires ListedBefore(files + [e], a, b)
    ensures ListedBefore(files, a, b) || (a in files && b == e)
  {
    var p, q :| 0 <= p < q < |files + [e]| && (files + [e])[p] == a && (files + [e])[q] == b;
    if q < |files| {
      assert files[p] == a && files[q] == b;
    }
  }

  lemma {:induction false} ScanIn(dir: map<string, Meta>, listing: seq<string>, prefix: string, a: Entry)
    requires (forall i | 0 <= i < |listing| :: listing[i] in dir) && a in Scan(dir, listing, prefix)
    ensures a.name in listing
    decreases |listing|
  {
    var n := |listing| - 1;
    if a in Scan(dir, listing[..n], prefix) {
      ScanIn(dir, listing[..n], prefix, a);
    }
  }

  /** The files found are the directory's, and those of the order are among them. */
  lemma {:induction false} FilesFit(dir: map<string, Meta>, listing: seq<string>, prefix: string)
    requires OnceEach(listing) && forall i | 0 <= i < |listing| :: listing[i] in dir
    ensures DistinctNames(Scan(dir, listing, prefix))
    ensures forall e :: e in Scan(dir, listing, prefix) <==>
              e.name in dir && Counts(listing, prefix, e.name) && dir[e.name] == Meta(e.mtime, e.size)
  {
    ScanFinds(dir, listing, prefix);
    forall name {
      IsLogSays(name, prefix);
    }
  }

  lemma {:induction false} GoesFirstIs(dir: map<string, Meta>, listing: seq<string>, prefix: string, a: Entry, b: Entry)
    requires OnceEach(listing) && forall i | 0 <= i < |listing| :: listing[i] in dir
    requires var files := Scan(dir, listing, prefix); a in files && b in files && a != b && Ahead(files, a, b)
    ensures a.name != b.name && GoesFirst(dir, listing, a.name, b.name)
  {
    var files := Scan(dir, listing, prefix);
    FilesFit(dir, listing, prefix);
    if a.name == b.name {
      SameName(files, a, b);
    }
    if ListedBefore(files, a, b) {
      ScanListed(dir, listing, prefix, a, b);
    }
  }

  lemma {:induction false} OrderFits(dir: map<string, Meta>, listing: seq<string>, prefix: string, current: Option<string>)
    requires OnceEach(listing) && forall i | 0 <= i < |listing| :: listing[i] in dir
    ensures OrderOf(EvictionOrder(Scan(dir, listing, prefix), current), dir, listing, prefix, current)
  {
    var files := Scan(dir, listing, prefix);
    var order := EvictionOrder(files, current);
    FilesFit(dir, listing, prefix);
    OrderIsOldestFirst(files, current);
    forall i | 0 <= i < |order| ensures order[i] in files && !IsCurrent(order[i], current) {
      assert order[i] in order;
    }
    OrderPairs(dir, listing, prefix, order);
    OrderIsAll(dir, listing, prefix, current, order);
  }

  lemma {:induction false} OrderPairs(dir: map<string, Meta>, listing: seq<string>, prefix: string, order: seq<Entry>)
    requires OnceEach(listing) && forall i | 0 <= i < |listing| :: listing[i] in dir
    requires var files := Scan(dir, listing, prefix);
             && (forall i | 0 <= i < |order| :: order[i] in files)
             && (forall i, j | 0 <= i < j < |order| :: order[i] != order[j] && Ahead(files, order[i], order[j]))
    ensures forall i, j | 0 <= i < j < |order| ::
              order[i].name != order[j].name && GoesFirst(dir, listing, order[i].name, order[j].name)
  {
    forall i, j | 0 <= i < j < |order|
      ensures order[i].name != order[j].name && GoesFirst(dir, listing, order[i].name, order[j].name)
    {
      GoesFirstIs(dir, listing, prefix, order[i], order[j]);
    }
  }

  lemma {:induction false} OrderIsAll(dir: map<string, Meta>, listing: seq<string>, prefix: string,
                                      current: Option<string>, order: seq<Entry>)
    requires OnceEach(listing) && forall i | 0 <= i < |listing| :: listing[i] in dir
    requires forall e :: e in order <==> e in Scan(dir, listing, prefix) && !IsCurrent(e, current)
    ensures forall name | name in dir && Counts(listing, prefix, name) && current != Some(name) ::
              exists i :: 0 <= i < |order| && order[i].name == name
  {
    FilesFit(dir, listing, prefix);
    forall name | name in dir && Counts(listing, prefix, name) && current != Some(name)
      ensures exists i :: 0 <= i < |order| && order[i].name == name
    {
      var e := Entry(name, dir[name].mtime, dir[name].size);
      assert e in order;
      var i :| 0 <= i < |order| && order[i] == e;
    }
  }

  /** The total after the first k files have been dealt with. */
  lemma {:induction false} TotalLeft(order: seq<Entry>, k: nat, dir: map<string, Meta>, listing: seq<string>,
                                     prefix: string, current: Option<string>, stuck: set<string>)
    requires OnceEach(listing) && OrderOf(order, dir, listing, prefix, current) && k <= |order|
    ensures LogTotal(dir - Gone(order[..k], stuck), listing, prefix) + Freed(order[..k], stuck)
         == LogTotal(dir, listing, prefix)
  {
    if k == 0 {
      assert order[..0] == [] && dir - {} == dir;
    } else {
      TotalLeft(order, k - 1, dir, listing, prefix, current, stuck);
      OneMoreGone(order, k - 1, stuck);
      var name, left := order[k - 1].name, dir - Gone(order[..k - 1], stuck);
      GoneTwice(dir, Gone(order[..k - 1], stuck), name);
      if name !in stuck {
        GoneIs(order[..k - 1], stuck, name);
        assert name in left && left[name] == dir[name];
        TotalWithout(left, listing, prefix, name);
      }
    }
  }

  /** A name is gone iff it is among the first k and can be deleted. */
  lemma GoneAmong(order: seq<Entry>, k: nat, stuck: set<string>, name: string)
    requires k <= |order|
    ensures name in Gone(order[..k], stuck) <==> name !in stuck && exists i :: 0 <= i < k && order[i].name == name
  {
    GoneIs(order[..k], stuck, name);
    if i :| 0 <= i < |order[..k]| && order[..k][i].name == name {
      assert order[i].name == name;
    }
    if i :| 0 <= i < k && order[i].name == name {
      assert order[..k][i].name == name;
    }
  }

  /** The last of the first k files that could be deleted, if there is one. */
  lemma {:induction false} LastFreed(order: seq<Entry>, k: nat, stuck: set<string>) returns (j: nat)
    requires k <= |order|
    ensures j <= k && Gone(order[..k], stuck) == Gone(order[..j], stuck)
    ensures if j == 0 then Gone(order[..k], stuck) == {} else
              order[j - 1].name !in stuck
              && Freed(order[..j], stuck) == Freed(order[..j - 1], stuck) + order[j - 1].size
  {
    if k == 0 {
      return 0;
    }
    OneMoreGone(order, k - 1, stuck);
    if order[k - 1].name !in stuck {
      return k;
    }
    j := LastFreed(order, k - 1, stuck);
  }

  /** The last file that went was needed. */
  lemma {:induction false} LastNeeded(order: seq<Entry>, k: nat, dir: map<string, Meta>, listing: seq<string>,
                                      prefix: string, current: Option<string>, max: nat, stuck: set<string>)
    requires OnceEach(listing) && OrderOf(order, dir, listing, prefix, current) && k <= |order|
    requires forall j | 0 <= j < k :: LogTotal(dir, listing, prefix) - Freed(order[..j], stuck) > max
    ensures dir - Gone(order[..k], stuck) == dir
         || LastOneNeeded(dir, dir - Gone(order[..k], stuck), listing, prefix, max)
  {
    var j := LastFreed(order, k, stuck);
    if j == 0 {
      assert dir - {} == dir;
    } else {
      assert LogTotal(dir, listing, prefix) - Freed(order[..j - 1], stuck) > max;
      TotalLeft(order, j, dir, listing, prefix, current, stuck);
      LastWent(order, j, dir, dir - Gone(order[..j], stuck), listing, prefix, current, max, stuck);
    }
  }

  lemma {:induction false} LastWent(order: seq<Entry>, k: nat, dir: map<string, Meta>, after: map<string, Meta>,
                                    listing: seq<string>, prefix: string, current: Option<string>, max: nat,
                                    stuck: set<string>)
    requires OrderOf(order, dir, listing, prefix, current) && 0 < k <= |order| && order[k - 1].name !in stuck
    requires after == dir - Gone(order[..k], stuck)
    requires LogTotal(after, listing, prefix) + order[k - 1].size > max
    ensures LastOneNeeded(dir, after, listing, prefix, max)
  {
    var last := order[k - 1].name;
    forall a | WasDeleted(dir, after, a) && a != last ensures GoesFirst(dir, listing, a, last) {
      GoneAmong(order, k, stuck, a);
      var i :| 0 <= i < k && order[i].name == a;
    }
    GoneAmong(order, k, stuck, last);
    assert WasDeleted(dir, after, last);
  }

  /** What the loop leaves is what is wanted, whatever cannot be deleted. */
  lemma {:induction false} EvictsShortestRun(dir: map<string, Meta>, listing: seq<string>, prefix: string,
                                             current: Option<string>, max: nat, stuck: set<string>, k: nat,
                                             after: map<string, Meta>)
    requires OnceEach(listing) && forall i | 0 <= i < |listing| :: listing[i] in dir
    requires var files := Scan(dir, listing, prefix);
             && StopsAt(EvictionOrder(files, current), k, Sizes(files), max, stuck)
             && after == dir - Gone(EvictionOrder(files, current)[..k], stuck)
    ensures Evicted(dir, after, listing, prefix, current, max, stuck)
  {
    var order := EvictionOrder(Scan(dir, listing, prefix), current);
    TotalIs(dir, listing, prefix);
    OrderFits(dir, listing, prefix, current);
    RunIsWanted(order, k, dir, listing, prefix, current, max, stuck, after);
  }

  lemma {:induction false} RunIsWanted(order: seq<Entry>, k: nat, dir: map<string, Meta>, listing: seq<string>,
                                       prefix: string, current: Option<string>, max: nat, stuck: set<string>,
                                       after: map<string, Meta>)
    requires OnceEach(listing) && OrderOf(order, dir, listing, prefix, current)
    requires StopsAt(order, k, LogTotal(dir, listing, prefix), max, stuck) && after == dir - Gone(order[..k], stuck)
    ensures Evicted(dir, after, listing, prefix, current, max, stuck)
  {
    forall name
      ensures WasDeleted(dir, after, name) <==> name !in stuck && exists i :: 0 <= i < k && order[i].name == name
    {
      GoneAmong(order, k, stuck, name);
    }
    forall a, b | WasDeleted(dir, after, a) && b in after && Counts(listing, prefix, b)
                  && current != Some(b) && b !in stuck
      ensures GoesFirst(dir, listing, a, b)
    {
      var i :| 0 <= i < k && order[i].name == a;
      var j :| 0 <= j < |order| && order[j].name == b;
      assert !WasDeleted(dir, after, b);
    }
    if k == |order| {
      forall b | b in after && Counts(listing, prefix, b) && current != Some(b) ensures b in stuck {
        var j :| 0 <= j < |order| && order[j].name == b;
        assert !WasDeleted(dir, after, b);
      }
    }
    TotalLeft(order, k, dir, listing, prefix, current, stuck);
    LastNeeded(order, k, dir, listing, prefix, current, max, stuck);
  }
}
