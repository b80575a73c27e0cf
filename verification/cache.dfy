/**
 * The proxy's response cache (proxy_server_with_cache.c:26-32, 302-390): a
 * singly linked list of responses keyed by the client's request text, newest
 * first, and a running byte count `cache_size`.  The list is modelled as a
 * sequence whose element 0 is `head`; relinking `next` pointers becomes
 * slicing.  `time(NULL)` is the parameter `now`.
 */
module ProxyCache {
  import opened Wrappers

  /** MAX_SIZE: the budget for the sum of all entries' footprints. */
  const MaxSize: int := 200 * 0x10_0000

  /** MAX_ELEMENT_SIZE: the largest footprint a single entry may have. */
  const MaxElementSize: int := 10 * 0x10_0000

  /**
   * sizeof(cache_element).  Only its being a fixed positive number matters
   * below; 40 is the size of the struct on an LP64 target.
   */
  const ElementOverhead: nat := 40

  /** One `struct cache_element` without its `next` link. */
  datatype Entry = Entry(data: string, len: int, url: string, lru: int)

  /** What an entry adds to cache_size: `len + 1 + strlen(url) + sizeof(cache_element)`. */
  function Footprint(e: Entry): int {
    e.len + 1 + |e.url| + ElementOverhead
  }

  /** The `element_size` add_cache_element computes for a new response. */
  function ElementSize(size: int, url: string): int {
    size + 1 + |url| + ElementOverhead
  }

  /** The sum of the footprints of a list of entries. */
  function Total(s: seq<Entry>): int {
    if s == [] then 0 else Footprint(s[0]) + Total(s[1..])
  }

  /** Where `find` stops: the first entry whose url equals `url` (strcmp). */
  function FirstUrl(s: seq<Entry>, url: string): (r: Option<nat>)
    ensures r.Some? ==> r.value < |s|
  {
    if s == [] then None
    else if s[0].url == url then Some(0)
    else
      match FirstUrl(s[1..], url)
      case None => None
      case Some(i) => Some(i + 1)
  }

  /** The list after `find(url)` at time `now`: the entry found gets `lru_time_track = now`. */
  function Refresh(s: seq<Entry>, url: string, now: int): (r: seq<Entry>)
    ensures |r| == |s|
  {
    match FirstUrl(s, url)
    case None => s
    case Some(i) => s[i := s[i].(lru := now)]
  }

  /**
   * The entry remove_cache_element picks: the first entry of the list whose
   * timestamp is smaller than every earlier one's, i.e. the oldest, with ties
   * going to the entry nearer the head.
   */
  predicate IsOldest(s: seq<Entry>, k: nat) {
    && k < |s|
    && (forall j :: 0 <= j < |s| ==> s[k].lru <= s[j].lru)
    && (forall j :: 0 <= j < k ==> s[j].lru > s[k].lru)
  }

  /**
   * The index of `temp` after the scan of remove_cache_element over the
   * first |s| entries: a later entry replaces it only when strictly older.
   */
  function OldestIndex(s: seq<Entry>): (k: nat)
    requires s != []
    ensures k < |s|
  {
    if |s| == 1 then 0
    else
      var k := OldestIndex(s[..|s| - 1]);
      if s[|s| - 1].lru < s[k].lru then |s| - 1 else k
  }

  /** remove_cache_element on a non-empty list: unlink the oldest entry, keeping the others in order. */
  function Evict(s: seq<Entry>): (r: seq<Entry>)
    requires s != []
    ensures |r| == |s| - 1
  {
    s[..OldestIndex(s)] + s[OldestIndex(s) + 1..]
  }

  /**
   * The list left by the eviction loop of add_cache_element for an element
   * of `need` bytes: remove the oldest entry while the total does not leave
   * room for it.
   */
  function EvictUntilFits(s: seq<Entry>, need: int): (r: seq<Entry>)
    decreases |s|
  {
    if s != [] && Total(s) + need > MaxSize then EvictUntilFits(Evict(s), need) else s
  }

  // ---------------------------------------------------------------------
  // Properties of the cache list

  /** `find` returns the first entry with the url, and no earlier entry has it. */
  lemma {:induction false} FirstUrlSpec(s: seq<Entry>, url: string)
    ensures FirstUrl(s, url).Some? ==> s[FirstUrl(s, url).value].url == url
    ensures FirstUrl(s, url).Some? ==> forall j :: 0 <= j < FirstUrl(s, url).value ==> s[j].url != url
    ensures FirstUrl(s, url).None? ==> forall j :: 0 <= j < |s| ==> s[j].url != url
  {
    if s != [] && s[0].url != url {
      FirstUrlSpec(s[1..], url);
      assert forall j :: 1 <= j < |s| ==> s[j] == s[1..][j - 1];
    }
  }

  /** The sum of a concatenation. */
  lemma {:induction false} TotalAppend(a: seq<Entry>, b: seq<Entry>)
    ensures Total(a + b) == Total(a) + Total(b)
    decreases |a|
  {
    if a == [] {
      assert a + b == b;
    } else {
      assert (a + b)[1..] == a[1..] + b;
      TotalAppend(a[1..], b);
    }
  }

  /** Inserting an entry at the head adds its footprint. */
  lemma TotalCons(e: Entry, s: seq<Entry>)
    ensures Total([e] + s) == Footprint(e) + Total(s)
  {
    assert ([e] + s)[1..] == s;
  }

  /** Replacing one entry by another changes the sum by the difference of their footprints. */
  lemma TotalUpdate(s: seq<Entry>, i: nat, e: Entry)
    requires i < |s|
    ensures Total(s[i := e]) == Total(s) - Footprint(s[i]) + Footprint(e)
  {
    assert s == s[..i] + [s[i]] + s[i + 1..];
    assert s[i := e] == s[..i] + [e] + s[i + 1..];
    TotalAppend(s[..i] + [s[i]], s[i + 1..]);
    TotalAppend(s[..i], [s[i]]);
    TotalAppend(s[..i] + [e], s[i + 1..]);
    TotalAppend(s[..i], [e]);
    assert Total([s[i]]) == Footprint(s[i]) by { assert [s[i]][1..] == []; }
    assert Total([e]) == Footprint(e) by { assert [e][1..] == []; }
  }

  /** A refresh by `find` leaves cache_size correct: the timestamp is not part of the footprint. */
  lemma RefreshKeepsTotal(s: seq<Entry>, url: string, now: int)
    ensures Total(Refresh(s, url, now)) == Total(s)
  {
    match FirstUrl(s, url)
    case None =>
    case Some(i) =>
      TotalUpdate(s, i, s[i].(lru := now));
  }

  /** A `find` that misses changes nothing; one that hits changes only the timestamp of the entry found. */
  lemma RefreshEffect(s: seq<Entry>, url: string, now: int)
    ensures FirstUrl(s, url).None? ==> Refresh(s, url, now) == s
    ensures FirstUrl(s, url).Some? ==>
      && Refresh(s, url, now)[FirstUrl(s, url).value] == s[FirstUrl(s, url).value].(lru := now)
      && forall j :: 0 <= j < |s| && j != FirstUrl(s, url).value ==> Refresh(s, url, now)[j] == s[j]
  {
  }

  /** One more step of remove_cache_element's scan, from the first `n` entries to the first `n + 1`. */
  lemma OldestIndexStep(s: seq<Entry>, n: nat)
    requires 0 < n < |s|
    ensures OldestIndex(s[..n + 1]) == if s[n].lru < s[OldestIndex(s[..n])].lru then n else OldestIndex(s[..n])
  {
    assert s[..n + 1][..n] == s[..n];
  }

  /** The entry the scan picks is the oldest, and the first one among equally old entries. */
  lemma {:induction false} OldestIndexSpec(s: seq<Entry>)
    requires s != []
    ensures IsOldest(s, OldestIndex(s))
    decreases |s|
  {
    if |s| > 1 {
      var p := s[..|s| - 1];
      OldestIndexSpec(p);
      var k := OldestIndex(p);
      assert forall j :: 0 <= j < |p| ==> p[j] == s[j];
    }
  }

  /** There is only one oldest entry in that sense, so it is the one the scan picks. */
  lemma OldestUnique(s: seq<Entry>, k: nat)
    requires IsOldest(s, k)
    ensures k == OldestIndex(s)
  {
    OldestIndexSpec(s);
    assert s[k].lru == s[OldestIndex(s)].lru;
  }

  /** Eviction takes exactly the oldest entry's footprint off the total. */
  lemma TotalOfEvict(s: seq<Entry>)
    requires s != []
    ensures Total(Evict(s)) == Total(s) - Footprint(s[OldestIndex(s)])
  {
    var k := OldestIndex(s);
    assert s == s[..k] + [s[k]] + s[k + 1..];
    TotalAppend(s[..k] + [s[k]], s[k + 1..]);
    TotalAppend(s[..k], [s[k]]);
    TotalAppend(s[..k], s[k + 1..]);
    assert Total([s[k]]) == Footprint(s[k]) by { assert [s[k]][1..] == []; }
  }

  /**
   * Eviction removes one entry and keeps the rest in list order: the
   * entries before the oldest stay where they were, the ones after it move
   * up by one.
   */
  lemma EvictKeepsOrder(s: seq<Entry>)
    requires s != []
    ensures forall j :: 0 <= j < OldestIndex(s) ==> Evict(s)[j] == s[j]
    ensures forall j :: OldestIndex(s) <= j < |s| - 1 ==> Evict(s)[j] == s[j + 1]
  {
    DropAt(s, OldestIndex(s), Evict(s));
  }

  /** Dropping entry k keeps the others in order. */
  lemma DropAt(s: seq<Entry>, k: nat, r: seq<Entry>)
    requires k < |s| && r == s[..k] + s[k + 1..]
    ensures forall j :: 0 <= j < k ==> r[j] == s[j]
    ensures forall j :: k <= j < |r| ==> r[j] == s[j + 1]
  {
  }

  /** Eviction takes away exactly one occurrence of the oldest entry. */
  lemma EvictRemovesOne(s: seq<Entry>)
    requires s != []
    ensures multiset(Evict(s)) + multiset{s[OldestIndex(s)]} == multiset(s)
  {
    var k := OldestIndex(s);
    var a, b := s[..k], s[k + 1..];
    assert Evict(s) == a + b;
    assert s == a + ([s[k]] + b);
    calc {
      multiset(s);
      multiset(a) + multiset([s[k]] + b);
      multiset(a) + (multiset{s[k]} + multiset(b));
    }
  }

  /**
   * After the eviction loop there is room for the new element, provided the
   * element itself is not over MAX_ELEMENT_SIZE: an empty list has total 0
   * and MAX_ELEMENT_SIZE < MAX_SIZE.
   */
  lemma {:induction false} EvictUntilFitsRoom(s: seq<Entry>, need: int)
    requires need <= MaxElementSize
    ensures Total(EvictUntilFits(s, need)) + need <= MaxSize
    decreases |s|
  {
    if s != [] && Total(s) + need > MaxSize {
      EvictUntilFitsRoom(Evict(s), need);
    }
  }

  /** The eviction loop only removes entries: what is left was in the list, and is no longer. */
  lemma {:induction false} EvictUntilFitsShrinks(s: seq<Entry>, need: int)
    ensures |EvictUntilFits(s, need)| <= |s|
    ensures multiset(EvictUntilFits(s, need)) <= multiset(s)
    decreases |s|
  {
    if s != [] && Total(s) + need > MaxSize {
      EvictUntilFitsShrinks(Evict(s), need);
      EvictRemovesOne(s);
    }
  }

  /**
   * An entry `find` has just refreshed to a time later than every other
   * entry's is not the next one evicted (unless it is the only entry).
   */
  lemma RefreshProtects(s: seq<Entry>, url: string, now: int)
    requires FirstUrl(s, url).Some? && |s| >= 2
    requires forall j :: 0 <= j < |s| ==> s[j].lru < now
    ensures OldestIndex(Refresh(s, url, now)) != FirstUrl(s, url).value
  {
    var i := FirstUrl(s, url).value;
    var r := Refresh(s, url, now);
    var other := if i == 0 then 1 else 0;
    assert r[other] == s[other];
    OldestIndexSpec(r);
    assert r[i].lru == now;
  }

  // The loop-step facts of add_cache_element, stated on the loop's own terms.

  /** One turn of the eviction loop leaves the final list unchanged. */
  lemma EvictStep(s: seq<Entry>, need: int, target: seq<Entry>)
    requires s != [] && Total(s) + need > MaxSize
    requires EvictUntilFits(s, need) == target
    ensures EvictUntilFits(Evict(s), need) == target
  {
  }

  /** The loop stops once the element fits. */
  lemma EvictDone(s: seq<Entry>, need: int, target: seq<Entry>)
    requires Total(s) + need <= MaxSize
    requires EvictUntilFits(s, need) == target
    ensures s == target
  {
  }

  /** The list `head` points to, and the global `cache_size`. */
  class Cache {
    var entries: seq<Entry>
    var cacheSize: int

    /** cache_size is the sum of the entries' footprints. */
    predicate Valid()
      reads this
    {
      cacheSize == Total(entries)
    }

    /** The globals at start-up: `head` is NULL and `cache_size` is 0. */
    constructor()
      ensures Valid() && entries == [] && cacheSize == 0
    {
      entries := [];
      cacheSize := 0;
    }

    /**
     * find: walk the list from `head`; the first entry whose url equals
     * `url` gets the timestamp `now` and is returned; with no match the
     * result is NULL and nothing changes.
     */
    method Find(url: string, now: int) returns (r: Option<Entry>)
      requires Valid()
      modifies this
      ensures Valid()
      ensures entries == Refresh(old(entries), url, now)
      ensures r.None? <==> FirstUrl(old(entries), url).None?
      ensures r.Some? ==> r.value == entries[FirstUrl(old(entries), url).value]
    {
      RefreshKeepsTotal(entries, url, now);
      FirstUrlSpec(entries, url);
      var i := 0;
      while i < |entries|
        invariant i <= |entries| && entries == old(entries) && Valid()
        invariant forall j :: 0 <= j < i ==> entries[j].url != url
      {
        if entries[i].url == url {
          FirstUrlIs(entries, url, i);
          entries := entries[i := entries[i].(lru := now)];
          return Some(entries[i]);
        }
        i := i + 1;
      }
      FirstUrlNone(entries, url);
      return None;
    }

    /**
     * remove_cache_element: scan the list for the oldest entry (a later
     * entry wins only when strictly older), unlink it and take its
     * footprint off cache_size.  Nothing happens on an empty list.
     */
    method RemoveCacheElement()
      requires Valid()
      modifies this
      ensures Valid()
      ensures old(entries) == [] ==> entries == [] && cacheSize == old(cacheSize)
      ensures old(entries) != [] ==> entries == Evict(old(entries))
    {
      if entries == [] {
        return;
      }
      var temp := 0;
      var q := 0;
      assert entries[..1] == [entries[0]];
      while q + 1 < |entries|
        invariant q < |entries| && temp == OldestIndex(entries[..q + 1])
        invariant entries == old(entries) && Valid()
      {
        OldestIndexStep(entries, q + 1);
        if entries[q + 1].lru < entries[temp].lru {
          temp := q + 1;
        }
        q := q + 1;
      }
      assert entries[..q + 1] == entries;
      TotalOfEvict(entries);
      cacheSize := cacheSize - (entries[temp].len + ElementOverhead + |entries[temp].url| + 1);
      entries := entries[..temp] + entries[temp + 1..];
    }

    /**
     * add_cache_element: refuse (0) an element over MAX_ELEMENT_SIZE;
     * otherwise evict the oldest entries until it fits under MAX_SIZE, put
     * it at `head` with `len = size` and timestamp `now`, and return 1.
     */
    method AddCacheElement(data: string, size: int, url: string, now: int) returns (r: int)
      requires Valid()
      modifies this
      ensures Valid()
      ensures ElementSize(size, url) > MaxElementSize ==> r == 0 && entries == old(entries)
      ensures ElementSize(size, url) <= MaxElementSize ==>
        && r == 1
        && entries == [Entry(data, size, url, now)] + EvictUntilFits(old(entries), ElementSize(size, url))
        && cacheSize == Total(EvictUntilFits(old(entries), ElementSize(size, url))) + ElementSize(size, url)
        && cacheSize <= MaxSize
    {
      var elementSize := size + 1 + |url| + ElementOverhead;
      if elementSize > MaxElementSize {
        return 0;
      }
      ghost var target := EvictUntilFits(entries, elementSize);
      EvictUntilFitsRoom(entries, elementSize);
      while cacheSize + elementSize > MaxSize
        invariant Valid() && EvictUntilFits(entries, elementSize) == target
        decreases |entries|
      {
        ghost var before := entries;
        RemoveCacheElement();
        EvictStep(before, elementSize, target);
      }
      EvictDone(entries, elementSize, target);
      TotalCons(Entry(data, size, url, now), entries);
      entries := [Entry(data, size, url, now)] + entries;
      cacheSize := cacheSize + elementSize;
      return 1;
    }
  }

  /** The walk of `find` stopped at its first match. */
  lemma FirstUrlIs(s: seq<Entry>, url: string, i: nat)
    requires i < |s| && s[i].url == url
    requires forall j :: 0 <= j < i ==> s[j].url != url
    ensures FirstUrl(s, url) == Some(i)
  {
    FirstUrlSpec(s, url);
    if FirstUrl(s, url).Some? {
      var k := FirstUrl(s, url).value;
      assert !(k < i) && !(i < k);
    }
  }

  /** The walk of `find` reached the end of the list. */
  lemma FirstUrlNone(s: seq<Entry>, url: string)
    requires forall j :: 0 <= j < |s| ==> s[j].url != url
    ensures FirstUrl(s, url) == None
  {
    FirstUrlSpec(s, url);
  }
}
