/** Trimming the oldest log files down to the storage limit. */
module PruneStorage {
  import opened Machine

  type uint64 = x: int | 0 <= x < 0x1_0000_0000_0000_0000

  function Add64(a: uint64, b: uint64): uint64 {
    if a + b < UINT64 then a + b else a + b - UINT64
  }

  function Sub64(a: uint64, b: uint64): uint64 {
    if a >= b then a - b else a - b + UINT64
  }

  /**
   A directory entry as the operating system reports it.  `size` is read while
   listing (`sizeOk` tells whether that succeeded), `sizeAgain` when the file is
   about to be removed; `rank` is its place in the order of paths.
   */
  datatype Entry = Entry(isDirectory: bool, isLog: bool, sizeOk: bool, size: uint64, sizeAgain: uint64,
                         time: int, rank: int)

  datatype Item = Item(key: int, entry: Entry)

  function ItemOf(now: int, e: Entry): Item {
    Item(if now < e.time then e.time - now else e.time, e)
  }

  predicate NotAfter(a: Item, b: Item) {
    a.key < b.key || (a.key == b.key && a.entry.rank <= b.entry.rank)
  }

  predicate Sorted(s: seq<Item>) {
    forall i :: 0 <= i && i + 1 < |s| ==> NotAfter(s[i], s[i + 1])
  }

  function Insert(x: Item, s: seq<Item>): (r: seq<Item>)
    ensures r != [] && (r[0] == x || (s != [] && r[0] == s[0]))
    ensures Sorted(s) ==> Sorted(r)
    ensures SumSize(r) == x.entry.size + SumSize(s)
    ensures Stable([x]) && Stable(s) ==> Stable(r)
  {
    if s == [] || NotAfter(x, s[0]) then
      assert ([x] + s)[1..] == s;
      [x] + s
    else
      var r := Insert(x, s[1..]);
      assert ([s[0]] + r)[1..] == r;
      [s[0]] + r
  }

  /** The sort of the listing. */
  function SortItems(s: seq<Item>): (r: seq<Item>)
    ensures Sorted(r)
    ensures SumSize(r) == SumSize(s)
    ensures Stable(s) ==> Stable(r)
  {
    if s == [] then [] else Insert(s[0], SortItems(s[1..]))
  }

  lemma {:induction false} InsertKeeps(x: Item, s: seq<Item>)
    ensures multiset(Insert(x, s)) == multiset{x} + multiset(s)
  {
    if s != [] && !NotAfter(x, s[0]) {
      InsertKeeps(x, s[1..]);
      assert s == [s[0]] + s[1..];
    }
  }

  /** The sort rearranges the items: none is lost, added or repeated. */
  lemma {:induction false} SortKeeps(s: seq<Item>)
    ensures multiset(SortItems(s)) == multiset(s)
  {
    if s != [] {
      SortKeeps(s[1..]);
      InsertKeeps(s[0], SortItems(s[1..]));
      assert s == [s[0]] + s[1..];
    }
  }

  function Entries(s: seq<Item>): seq<Entry> {
    seq(|s|, i requires 0 <= i < |s| => s[i].entry)
  }

  lemma {:induction false} InsertKeepsEntries(x: Item, s: seq<Item>)
    ensures multiset(Entries(Insert(x, s))) == multiset{x.entry} + multiset(Entries(s))
  {
    if s == [] || NotAfter(x, s[0]) {
      assert Entries([x] + s) == [x.entry] + Entries(s);
    } else {
      var r := Insert(x, s[1..]);
      InsertKeepsEntries(x, s[1..]);
      assert Entries([s[0]] + r) == [s[0].entry] + Entries(r);
      assert Entries(s) == [s[0].entry] + Entries(s[1..]);
    }
  }

  lemma {:induction false} SortKeepsEntries(s: seq<Item>)
    ensures multiset(Entries(SortItems(s))) == multiset(Entries(s))
  {
    if s != [] {
      SortKeepsEntries(s[1..]);
      InsertKeepsEntries(s[0], SortItems(s[1..]));
      assert Entries(s) == [s[0].entry] + Entries(s[1..]);
    }
  }

  lemma {:induction false} SortedPair(s: seq<Item>, i: nat, j: nat)
    requires Sorted(s) && i < j < |s|
    ensures NotAfter(s[i], s[j])
  {
    if i + 1 < j {
      SortedPair(s, i, j - 1);
      assert NotAfter(s[j - 1], s[j - 1 + 1]);
    }
  }

  /** The items that the listing loop collects. */
  function Collected(now: int, listing: seq<Entry>): seq<Item> {
    if listing == [] then []
    else
      var e := listing[|listing| - 1];
      Collected(now, listing[..|listing| - 1]) +
      (if !e.isDirectory && e.isLog && e.sizeOk then [ItemOf(now, e)] else [])
  }

  /** Each item is dated from now on when its file is, and else from the clock's start. */
  predicate Dated(now: int, s: seq<Item>) {
    forall i :: 0 <= i < |s| ==> s[i] == ItemOf(now, s[i].entry)
  }

  lemma {:induction false} CollectedDated(now: int, listing: seq<Entry>)
    ensures Dated(now, Collected(now, listing))
  {
    if listing != [] { CollectedDated(now, listing[..|listing| - 1]); }
  }

  lemma {:induction false} SortDated(now: int, s: seq<Item>)
    requires Dated(now, s)
    ensures Dated(now, SortItems(s))
  {
    hide ItemOf;
    SortKeeps(s);
    var r := SortItems(s);
    forall i | 0 <= i < |r| ensures r[i] == ItemOf(now, r[i].entry) {
      assert r[i] in multiset(r);
      assert r[i] in s;
    }
  }

  /** What is collected are the listing's log files whose size could be read,
      each as often as it is listed. */
  lemma {:induction false} CollectedAre(now: int, listing: seq<Entry>, e: Entry)
    ensures multiset(Entries(Collected(now, listing)))[e] ==
            if !e.isDirectory && e.isLog && e.sizeOk then multiset(listing)[e] else 0
  {
    if listing != [] {
      var (rest, last) := (listing[..|listing| - 1], listing[|listing| - 1]);
      CollectedAre(now, rest, e);
      CollectedLast(now, rest, last);
      assert listing == rest + [last];
      hide Collected, Entries;
    }
  }

  lemma CollectedLast(now: int, rest: seq<Entry>, e: Entry)
    ensures Entries(Collected(now, rest + [e])) ==
            Entries(Collected(now, rest)) + (if !e.isDirectory && e.isLog && e.sizeOk then [e] else [])
  {
    assert (rest + [e])[..|rest|] == rest;
  }

  function SumSize(s: seq<Item>): nat {
    if s == [] then 0 else s[0].entry.size + SumSize(s[1..])
  }

  lemma {:induction false} SumSizeAppend(a: seq<Item>, b: seq<Item>)
    ensures SumSize(a + b) == SumSize(a) + SumSize(b)
  {
    if a == [] {
      assert a + b == b;
    } else {
      assert (a + b)[1..] == a[1..] + b;
      SumSizeAppend(a[1..], b);
    }
  }

  /** The sizes read a second time, before removing. */
  function SumAgain(s: seq<Item>): nat {
    if s == [] then 0 else s[0].entry.sizeAgain + SumAgain(s[1..])
  }

  // ---- The listing loop

  predicate IsLogFile(e: Entry) {
    !e.isDirectory && e.isLog
  }

  /** The log files whose size could not be read; each adds 2^64 - 1. */
  function Unreadable(listing: seq<Entry>): nat {
    if listing == [] then 0
    else
      var e := listing[|listing| - 1];
      Unreadable(listing[..|listing| - 1]) + if IsLogFile(e) && !e.sizeOk then 1 else 0
  }

  /** The places of the listing at which that happens. */
  function FailedReads(listing: seq<Entry>): set<nat> {
    set i: nat | i < |listing| && !listing[i].isDirectory && listing[i].isLog && !listing[i].sizeOk
  }

  lemma {:induction false} UnreadableCounts(listing: seq<Entry>)
    ensures Unreadable(listing) == |FailedReads(listing)|
  {
    if listing == [] {
      assert FailedReads(listing) == {};
    } else {
      var n := |listing| - 1;
      UnreadableCounts(listing[..n]);
      assert FailedReads(listing) ==
             FailedReads(listing[..n]) + if IsLogFile(listing[n]) && !listing[n].sizeOk then {n} else {};
    }
  }

  /** The total after sizes that add up to `sum` and `u` failures: each failed
      read adds 2^64 - 1. */
  function ListedTotal(sum: nat, u: nat): uint64 {
    (sum - u) % UINT64
  }

  lemma SizeAdded(sum: nat, u: nat, size: uint64)
    ensures Add64(ListedTotal(sum, u), size) == ListedTotal(sum + size, u)
  {
    assert (sum - u) % UINT64 + size == sum + size - u - UINT64 * ((sum - u) / UINT64);
  }

  lemma FailureAdded(sum: nat, u: nat)
    ensures Add64(ListedTotal(sum, u), UINT64 - 1) == ListedTotal(sum, u + 1)
  {
  }

  /** The listing loop. */
  method List(now: int, listing: seq<Entry>) returns (items: seq<Item>, total: uint64)
    ensures items == Collected(now, listing) && total == ListedTotal(SumSize(items), Unreadable(listing))
  {
    hide ListedTotal, Add64, SumSize, ItemOf;
    items, total := [], 0;
    NothingListed();
    for i := 0 to |listing|
      invariant items == Collected(now, listing[..i])
      invariant total == ListedTotal(SumSize(items), Unreadable(listing[..i]))
    {
      assert listing[..i + 1][..i] == listing[..i];
      var e := listing[i];
      if !e.isDirectory && e.isLog {
        if e.sizeOk {
          SizeAdded(SumSize(items), Unreadable(listing[..i]), e.size);
          OneMore(items, now, e);
          total := Add64(total, e.size);
          items := items + [ItemOf(now, e)];
        } else {
          FailureAdded(SumSize(items), Unreadable(listing[..i]));
          total := Add64(total, UINT64 - 1);
        }
      }
    }
    assert listing[..|listing|] == listing;
  }

  lemma NothingListed()
    ensures ListedTotal(SumSize([]), 0) == 0
  {
  }

  lemma OneMore(items: seq<Item>, now: int, e: Entry)
    ensures SumSize(items + [ItemOf(now, e)]) == SumSize(items) + e.size
  {
    SumSizeAppend(items, [ItemOf(now, e)]);
  }

  /** The total is the sum of the sizes collected exactly when no size read
      failed, up to a multiple of 2^64 failures. */
  lemma TotalIsExactIff(sum: nat, u: nat)
    requires sum < UINT64
    ensures ListedTotal(sum, u) == sum <==> u % UINT64 == 0
  {
    if ListedTotal(sum, u) == sum {
      assert u == UINT64 * -((sum - u) / UINT64);
    }
    if u % UINT64 == 0 {
      assert sum - u == UINT64 * -(u / UINT64) + sum;
    }
  }

  // ---- The removing loop

  /** How many of the sorted files the removing loop removes, starting from the
      64-bit running total `total`. */
  function RemovedCount(files: seq<Item>, total: uint64, limit: nat): (k: nat)
    ensures k <= |files|
  {
    if files == [] || total <= limit then 0
    else 1 + RemovedCount(files[1..], Sub64(total, files[0].entry.sizeAgain), limit)
  }

  /** The running total after the removing loop. */
  function FinalTotal(files: seq<Item>, total: uint64, limit: nat): uint64 {
    if files == [] || total <= limit then total
    else FinalTotal(files[1..], Sub64(total, files[0].entry.sizeAgain), limit)
  }

  /** The removing loop, over the sorted files. */
  method Trim(files: seq<Item>, uAllLogFileSize: uint64, limit: nat) returns (n: nat, total: uint64)
    ensures n == RemovedCount(files, uAllLogFileSize, limit) && total == FinalTotal(files, uAllLogFileSize, limit)
  {
    n, total := 0, uAllLogFileSize;
    assert files[0..] == files;
    while n < |files| && total > limit
      invariant n <= |files|
      invariant RemovedCount(files, uAllLogFileSize, limit) == n + RemovedCount(files[n..], total, limit)
      invariant FinalTotal(files, uAllLogFileSize, limit) == FinalTotal(files[n..], total, limit)
    {
      assert files[n..][1..] == files[n + 1..];
      total := Sub64(total, files[n].entry.sizeAgain);
      n := n + 1;
    }
  }

  /** How many files go when the sizes are subtracted without wrapping. */
  function Due(files: seq<Item>, total: int, limit: nat): (k: nat)
    ensures k <= |files|
    decreases |files|
  {
    if files == [] || total <= limit then 0 else 1 + Due(files[1..], total - files[0].entry.sizeAgain, limit)
  }

  /** These are the shortest prefix that brings the total to the limit. */
  lemma {:induction false} DueIsShortest(files: seq<Item>, total: int, limit: nat, j: nat)
    ensures var k := Due(files, total, limit);
      && (k == |files| || total - SumAgain(files[..k]) <= limit)
      && (j < k ==> total - SumAgain(files[..j]) > limit)
    decreases |files|
  {
    if files != [] && total > limit {
      var (rest, t) := (files[1..], total - files[0].entry.sizeAgain);
      var k := Due(rest, t, limit);
      assert files[..k + 1][1..] == rest[..k];
      if 0 < j <= k { assert files[..j][1..] == rest[..j - 1]; }
      DueIsShortest(rest, t, limit, if j > 0 then j - 1 else 0);
    }
  }

  /** The loop takes exactly those files and ends with the exact total if and
      only if their sizes add up to no more than the total it starts with. */
  lemma TrimIsExactIff(files: seq<Item>, total: uint64, limit: nat)
    ensures var k := Due(files, total, limit);
      (RemovedCount(files, total, limit) == k && FinalTotal(files, total, limit) == total - SumAgain(files[..k])) <==>
      SumAgain(files[..k]) <= total
  {
    var k := Due(files, total, limit);
    if SumAgain(files[..k]) <= total { TrimIsExact(files, total, limit); }
  }

  lemma {:induction false} TrimIsExact(files: seq<Item>, total: uint64, limit: nat)
    requires SumAgain(files[..Due(files, total, limit)]) <= total
    ensures var k := Due(files, total, limit);
      RemovedCount(files, total, limit) == k && FinalTotal(files, total, limit) == total - SumAgain(files[..k])
    decreases |files|
  {
    if files != [] && total > limit {
      var k := Due(files, total, limit);
      var size := files[0].entry.sizeAgain;
      assert files[..k][1..] == files[1..][..k - 1];
      TrimIsExact(files[1..], total - size, limit);
    }
  }

  /** Only the last subtraction can wrap; the right files still go exactly when
      it does not, when no file is left, or when even the wrapped total is within
      the limit. */
  lemma {:induction false} RightFilesIff(files: seq<Item>, total: uint64, limit: nat)
    ensures var k := Due(files, total, limit);
      var rest := total - SumAgain(files[..k]);
      && -UINT64 < rest
      && (RemovedCount(files, total, limit) == k <==> rest >= 0 || k == |files| || rest + UINT64 <= limit)
    decreases |files|
  {
    if files != [] && total > limit {
      var k := Due(files, total, limit);
      var size := files[0].entry.sizeAgain;
      assert files[..k][1..] == files[1..][..k - 1];
      if size <= total {
        RightFilesIff(files[1..], total - size, limit);
      } else {
        assert k == 1 && files[1..][..0] == [];
      }
    }
  }

  // ---- The whole of PruneLogStorage

  /** The second size read finds what the first did. */
  predicate Stable(s: seq<Item>) {
    forall i :: 0 <= i < |s| ==> s[i].entry.sizeAgain == s[i].entry.size
  }

  lemma {:induction false} StableSums(s: seq<Item>)
    requires Stable(s)
    ensures SumAgain(s) == SumSize(s)
  {
    if s != [] { StableSums(s[1..]); }
  }

  lemma StableSplit(files: seq<Item>, k: nat)
    requires Stable(files) && k <= |files|
    ensures SumSize(files) - SumAgain(files[..k]) == SumSize(files[k..])
  {
    assert files == files[..k] + files[k..];
    SumSizeAppend(files[..k], files[k..]);
    StableSums(files[..k]);
  }

  /** With stable sizes and an exact start the running total is the bytes that
      survive, and the removed files are the shortest prefix that meets the limit. */
  lemma TrimIsShortest(files: seq<Item>, total: uint64, limit: nat, j: nat)
    requires Stable(files) && total == SumSize(files)
    ensures var k := RemovedCount(files, total, limit);
      && FinalTotal(files, total, limit) == SumSize(files[k..])
      && (SumSize(files[k..]) <= limit || k == |files|)
      && (j < k ==> SumSize(files[j..]) > limit)
  {
    var k := Due(files, total, limit);
    StableSplit(files, k);
    TrimIsExactIff(files, total, limit);
    DueIsShortest(files, total, limit, j);
    if j < k { StableSplit(files, j); }
  }

  /** `r` is older than `k`, or as old and not after it in the order of paths;
      a file dated after now counts as old as it is ahead. */
  predicate NoYounger(now: int, r: Entry, k: Entry) {
    && (r.time <= now && k.time <= now ==> r.time < k.time || (r.time == k.time && r.rank <= k.rank))
    && (now < r.time && now < k.time ==> r.time < k.time || (r.time == k.time && r.rank <= k.rank))
    && (now < r.time && k.time <= now ==> r.time - now < k.time || (r.time - now == k.time && r.rank <= k.rank))
    && (r.time <= now && now < k.time ==> r.time < k.time - now || (r.time == k.time - now && r.rank <= k.rank))
  }

  /** No removed file is younger than a kept one. */
  lemma KeptSortAfterRemoved(now: int, listing: seq<Entry>, removed: seq<Item>, kept: seq<Item>, i: nat, j: nat)
    requires removed + kept == SortItems(Collected(now, listing)) && i < |removed| && j < |kept|
    ensures NoYounger(now, removed[i].entry, kept[j].entry)
  {
    var files := removed + kept;
    SortedPair(files, i, |removed| + j);
    CollectedDated(now, listing);
    SortDated(now, Collected(now, listing));
    assert files[i] == removed[i] && files[|removed| + j] == kept[j];
  }

  /** Removed and kept files together are the listing's log files whose size
      could be read, each as often as it is listed. */
  lemma NoFileIsLost(now: int, listing: seq<Entry>, removed: seq<Item>, kept: seq<Item>, e: Entry)
    requires removed + kept == SortItems(Collected(now, listing))
    ensures multiset(Entries(removed))[e] + multiset(Entries(kept))[e] ==
            if !e.isDirectory && e.isLog && e.sizeOk then multiset(listing)[e] else 0
  {
    SortKeepsEntries(Collected(now, listing));
    CollectedAre(now, listing, e);
    EntriesAppend(removed, kept);
  }

  lemma EntriesAppend(a: seq<Item>, b: seq<Item>)
    ensures Entries(a + b) == Entries(a) + Entries(b)
  {
  }

  /** PruneLogStorage: list, sort, then remove from the front. */
  method Prune(now: int, listing: seq<Entry>, limit: nat) returns (removed: seq<Item>, kept: seq<Item>, total: uint64)
    ensures removed + kept == SortItems(Collected(now, listing))
    ensures var start := ListedTotal(SumSize(removed + kept), Unreadable(listing));
      |removed| == RemovedCount(removed + kept, start, limit) && total == FinalTotal(removed + kept, start, limit)
    ensures Faithful(listing) && SumSize(removed + kept) < UINT64 ==> MeetsCap(removed, kept, total, limit)
    ensures forall e :: multiset(Entries(removed))[e] + multiset(Entries(kept))[e] ==
                        if !e.isDirectory && e.isLog && e.sizeOk then multiset(listing)[e] else 0
    ensures forall i, j :: 0 <= i < |removed| && 0 <= j < |kept| ==> NoYounger(now, removed[i].entry, kept[j].entry)
  {
    hide SumSize, ListedTotal, MeetsCap, Faithful, Collected, NoYounger, Entries;
    var items, size := List(now, listing);
    var files := SortItems(items);
    var n, rest := Trim(files, size, limit);
    removed, kept, total := files[..n], files[n..], rest;
    assert files == removed + kept;
    if Faithful(listing) && SumSize(files) < UINT64 {
      FaithfulListing(now, listing);
      FaithfullyPruned(files, limit);
    }
    forall e
      ensures multiset(Entries(removed))[e] + multiset(Entries(kept))[e] ==
              if !e.isDirectory && e.isLog && e.sizeOk then multiset(listing)[e] else 0
    {
      NoFileIsLost(now, listing, removed, kept, e);
    }
    forall i, j | 0 <= i < |removed| && 0 <= j < |kept| ensures NoYounger(now, removed[i].entry, kept[j].entry) {
      KeptSortAfterRemoved(now, listing, removed, kept, i, j);
    }
  }

  /** The total is the size of what is kept, the cap is met or nothing is left to
      remove, and no shorter prefix would have met it. */
  predicate MeetsCap(removed: seq<Item>, kept: seq<Item>, total: nat, limit: nat) {
    && total == SumSize(kept)
    && (total <= limit || kept == [])
    && (forall j :: 0 <= j < |removed| ==> SumSize((removed + kept)[j..]) > limit)
  }

  lemma FaithfullyPruned(files: seq<Item>, limit: nat)
    requires Stable(files) && SumSize(files) < UINT64
    ensures var start := ListedTotal(SumSize(files), 0);
      var n := RemovedCount(files, start, limit);
      MeetsCap(files[..n], files[n..], FinalTotal(files, start, limit), limit)
  {
    var start := ListedTotal(SumSize(files), 0);
    TotalIsExactIff(SumSize(files), 0);
    hide RemovedCount, FinalTotal, SumSize, ListedTotal;
    var n := RemovedCount(files, start, limit);
    assert files[..n] + files[n..] == files;
    forall j: nat ensures j < n ==> SumSize(files[j..]) > limit {
      TrimIsShortest(files, start, limit, j);
    }
    TrimIsShortest(files, start, limit, 0);
  }

  /** The size reads of log files succeed and find the same size both times. */
  predicate Faithful(listing: seq<Entry>) {
    forall i :: 0 <= i < |listing| && IsLogFile(listing[i]) ==>
      listing[i].sizeOk && listing[i].sizeAgain == listing[i].size
  }

  lemma {:induction false} FaithfulListing(now: int, listing: seq<Entry>)
    requires Faithful(listing)
    ensures Stable(Collected(now, listing)) && Unreadable(listing) == 0
  {
    if listing != [] {
      FaithfulListing(now, listing[..|listing| - 1]);
    }
  }

  /** What the storage cap promises: as many files go as are due, counted from
      the real sum of their sizes, and the total left is the rest of that sum. */
  predicate PrunedRight(files: seq<Item>, start: uint64, limit: nat) {
    var k := Due(files, SumSize(files), limit);
    RemovedCount(files, start, limit) == k && FinalTotal(files, start, limit) == SumSize(files) - SumAgain(files[..k])
  }

  /** The promise is kept exactly when no size read of the listing failed, up to
      2^64 of them, and the sizes read again, of the files due, add up to no more
      than the listing counted. */
  lemma PrunedRightIff(files: seq<Item>, u: nat, limit: nat)
    requires SumSize(files) < UINT64
    ensures PrunedRight(files, ListedTotal(SumSize(files), u), limit) <==>
      u % UINT64 == 0 && SumAgain(files[..Due(files, SumSize(files), limit)]) <= SumSize(files)
  {
    var (sum, start) := (SumSize(files), ListedTotal(SumSize(files), u));
    var k := Due(files, sum, limit);
    TotalIsExactIff(sum, u);
    TotalIsModular(files, start, limit);
    SameModulo(start, sum, SumAgain(files[..k]));
    if start == sum {
      TrimIsExactIff(files, start, limit);
    }
  }

  /** Wrapping or not, the total is right modulo 2^64. */
  lemma {:induction false} TotalIsModular(files: seq<Item>, total: uint64, limit: nat)
    ensures FinalTotal(files, total, limit) == (total - SumAgain(files[..RemovedCount(files, total, limit)])) % UINT64
    decreases |files|
  {
    if files != [] && total > limit {
      var k := RemovedCount(files, total, limit);
      var next := Sub64(total, files[0].entry.sizeAgain);
      assert files[..k][1..] == files[1..][..k - 1];
      TotalIsModular(files[1..], next, limit);
      SubIs(total, files[0].entry.sizeAgain, SumAgain(files[1..][..k - 1]));
    }
  }

  lemma SubIs(x: uint64, y: uint64, z: nat)
    ensures (Sub64(x, y) - z) % UINT64 == (x - y as int - z) % UINT64
  {
    if x < y { assert Sub64(x, y) - z == x - y as int - z + UINT64; }
  }

  lemma SameModulo(x: uint64, y: uint64, z: nat)
    ensures z <= y && (x - z) % UINT64 == y - z ==> x == y
  {
  }

  // ---- The two failing inputs

  /** A file that has grown between its two size reads makes the running total
      wrap, and a file that should have been kept is removed as well. */
  lemma GrownFileUnderflows()
    ensures var grown := Item(1, Entry(false, true, true, 1, 20, 1, 0));
      var other := Item(2, Entry(false, true, true, 10, 10, 2, 0));
      && Due([grown, other], 11, 10) == 1
      && RemovedCount([grown, other], 11, 10) == 2 && FinalTotal([grown, other], 11, 10) == UINT64 - 19
  {
    var grown := Item(1, Entry(false, true, true, 1, 20, 1, 0));
    var other := Item(2, Entry(false, true, true, 10, 10, 2, 0));
    assert [grown, other][1..] == [other] && [other][1..] == [];
    assert RemovedCount([other], UINT64 - 9, 10) == 1 && FinalTotal([other], UINT64 - 9, 10) == UINT64 - 19;
  }

  /** Unreadable log files more than the bytes counted make the first total wrap,
      and files are removed although all of them fit the limit. */
  lemma UnreadableFileWraps(files: seq<Item>, u: nat, limit: nat)
    requires files != [] && SumSize(files) <= limit < UINT64 + SumSize(files) - u && SumSize(files) < u <= UINT64
    ensures Due(files, SumSize(files), limit) == 0
    ensures RemovedCount(files, ListedTotal(SumSize(files), u), limit) >= 1
  {
    assert (SumSize(files) - u) % UINT64 == UINT64 + SumSize(files) - u;
  }
}
