/**
 What the response cache keeps over whole runs: the least-recently-used
 guarantee, and agreement with an unbounded store that never evicts.
 */
module CacheLaws {
  import opened Basics
  import opened CacheControl
  import opened ResponseCache

  datatype Op =
    | GetOp(url: string, now: real)
    | SetOp(response: Response, purge: real, now: real)
    | InvalidateOp(url: string)
    | ClearOp

  ghost function Apply(cfg: Config, items: seq<Item>, op: Op): seq<Item> {
    match op
    case GetOp(url, now) => AfterGet(items, url, now)
    case SetOp(r, purge, now) => AfterSet(cfg, items, r, purge, now)
    case InvalidateOp(url) => Without(items, url)
    case ClearOp => []
  }

  ghost function Exec(cfg: Config, items: seq<Item>, ops: seq<Op>): seq<Item>
    decreases |ops|
  {
    if ops == [] then items else Exec(cfg, Apply(cfg, items, ops[0]), ops[1..])
  }

  ghost predicate Sound(cfg: Config, items: seq<Item>) {
    Distinct(items) && (|items| <= cfg.maxEntries || items == [])
  }

  lemma ApplyKeepsSound(cfg: Config, items: seq<Item>, op: Op)
    requires Sound(cfg, items)
    ensures Sound(cfg, Apply(cfg, items, op))
  {
    match op
    case GetOp(url, now) => GetKeeps(items, url, now);
    case SetOp(r, purge, now) => SetKeeps(cfg, items, r, purge, now);
    case InvalidateOp(url) => KeepKeeps(items, (i: Item) => i.url != url);
    case ClearOp =>
  }

  // ---- least recently used ---------------------------------------------------

  /** The items used more recently than `url`. */
  function Behind(items: seq<Item>, url: string): seq<Item> {
    if items == [] then []
    else if items[0].url == url then items[1..]
    else Behind(items[1..], url)
  }

  /** Operations that neither replace, remove nor outlive `url`. */
  predicate Spares(op: Op, url: string, deadline: real) {
    match op
    case GetOp(u, now) => u == url ==> now < deadline
    case SetOp(r, purge, now) => r.url != url && purge < deadline
    case InvalidateOp(u) => u != url
    case ClearOp => false
  }

  /** The URL an operation makes most recently used, if any. */
  ghost function Touched(cfg: Config, items: seq<Item>, op: Op): set<string> {
    match op
    case GetOp(url, now) => if Hit(items, url, now).Some? then {url} else {}
    case SetOp(r, _, _) => if Lifetime(cfg, r).Some? then {r.url} else {}
    case _ => {}
  }

  ghost function TouchedBy(cfg: Config, items: seq<Item>, ops: seq<Op>): set<string>
    decreases |ops|
  {
    if ops == [] then {} else Touched(cfg, items, ops[0]) + TouchedBy(cfg, Apply(cfg, items, ops[0]), ops[1..])
  }

  /** `url` is stored and everything used after it is among `since`. */
  ghost predicate Guarded(items: seq<Item>, url: string, e: CacheEntry, since: set<string>) {
    && Find(items, url) == Some(e)
    && Urls(Behind(items, url)) <= since
    && url !in since
  }

  lemma {:induction false} BehindKeep(items: seq<Item>, url: string, p: Item -> bool)
    requires Find(items, url).Some? && p(Item(url, Find(items, url).value))
    ensures Find(Keep(items, p), url) == Find(items, url)
    ensures Behind(Keep(items, p), url) == Keep(Behind(items, url), p)
  {
    var rest := Keep(items[1..], p);
    assert ([items[0]] + rest)[1..] == rest && [] + rest == rest;
    if items[0].url != url {
      BehindKeep(items[1..], url, p);
    } else {
      assert items[0] == Item(url, items[0].entry);
    }
  }

  lemma {:induction false} BehindAppend(items: seq<Item>, url: string, x: Item)
    requires x.url != url || url !in Urls(items)
    ensures Find(items, url).Some? ==>
              Find(items + [x], url) == Find(items, url) && Behind(items + [x], url) == Behind(items, url) + [x]
    ensures url !in Urls(items) && x.url == url ==>
              Find(items + [x], url) == Some(x.entry) && Behind(items + [x], url) == []
  {
    if items == [] {
      assert items + [x] == [x];
    } else {
      assert (items + [x])[1..] == items[1..] + [x];
      assert items[0] in items;
      assert url !in Urls(items) ==> url !in Urls(items[1..]);
      if items[0].url != url {
        BehindAppend(items[1..], url, x);
      }
    }
  }

  lemma {:induction false} KeptUrls(items: seq<Item>, p: Item -> bool)
    ensures Urls(Keep(items, p)) <= Urls(items)
  {
    KeepKeeps(items, p);
  }

  lemma GuardedWithout(items: seq<Item>, url: string, e: CacheEntry, since: set<string>, gone: string)
    requires Guarded(items, url, e, since) && gone != url
    ensures Guarded(Without(items, gone), url, e, since - {gone})
  {
    var p := (i: Item) => i.url != gone;
    BehindKeep(items, url, p);
    KeepKeeps(Behind(items, url), p);
  }

  lemma GuardedAppend(items: seq<Item>, url: string, e: CacheEntry, since: set<string>, x: Item)
    requires Guarded(items, url, e, since) && x.url != url
    ensures Guarded(items + [x], url, e, since + {x.url})
  {
    BehindAppend(items, url, x);
  }

  /** Making room evicts `url` only when maxEntries others were used after it. */
  lemma GuardedRoom(items: seq<Item>, url: string, e: CacheEntry, since: set<string>, maxEntries: int, now: real)
    requires Guarded(items, url, e, since) && Distinct(items) && now < e.expiresAt
    requires |since| < maxEntries - 1
    ensures Guarded(MakeRoom(items, maxEntries, now), url, e, since)
  {
    var p := (i: Item) => now < i.entry.expiresAt;
    var left := Unexpired(items, now);
    BehindKeep(items, url, p);
    KeptUrls(Behind(items, url), p);
    KeepKeeps(items, p);
    if |left| >= maxEntries && left[0].url == url {
      DistinctUrls(left[1..]);
      CardinalityMonotone(Urls(left[1..]), since);
      assert false;
    }
  }

  lemma {:induction false} CardinalityMonotone(a: set<string>, b: set<string>)
    requires a <= b
    ensures |a| <= |b|
  {
    if a != {} {
      var x :| x in a;
      CardinalityMonotone(a - {x}, b - {x});
    }
  }

  lemma GuardedGet(items: seq<Item>, u: string, now: real, url: string, e: CacheEntry, since: set<string>)
    requires Guarded(items, url, e, since) && (u == url ==> now < e.expiresAt)
    requires Distinct(items)
    ensures Guarded(AfterGet(items, u, now), url, e, since + ((if Hit(items, u, now).Some? then {u} else {}) - {url}))
  {
    hide Distinct;
    FindMeans(items, u);
    if u == url {
      KeepKeeps(items, (i: Item) => i.url != url);
      BehindAppend(Without(items, url), url, Item(url, e));
    } else if Find(items, u).Some? {
      GuardedWithout(items, url, e, since, u);
      var others := Without(items, u);
      assert others + [] == others;
      GuardedAppend(others, url, e, since - {u}, Item(u, Find(items, u).value));
    }
  }

  lemma GuardedSet(cfg: Config, items: seq<Item>, r: Response, purge: real, now: real,
                   url: string, e: CacheEntry, since: set<string>)
    requires Distinct(items) && Guarded(items, url, e, since) && r.url != url && purge < e.expiresAt
    requires Lifetime(cfg, r).Some? ==> |since + {r.url}| < cfg.maxEntries
    ensures Guarded(AfterSet(cfg, items, r, purge, now), url, e,
                    since + (if Lifetime(cfg, r).Some? then {r.url} else {}))
  {
    hide Distinct, Lifetime, Guarded;
    GuardedWithout(items, url, e, since, r.url);
    var others, small := Without(items, r.url), since - {r.url};
    if Lifetime(cfg, r).Some? {
      assert since + {r.url} == small + {r.url};
      KeepKeeps(items, (i: Item) => i.url != r.url);
      GuardedRoom(others, url, e, small, cfg.maxEntries, purge);
      GuardedAppend(MakeRoom(others, cfg.maxEntries, purge), url, e, small,
                    Item(r.url, CacheEntry(r.content, r.contentType, now, now + Lifetime(cfg, r).value)));
    } else {
      GuardedMore(others, url, e, small, since);
      assert since + {} == since;
    }
  }

  lemma GuardedMore(items: seq<Item>, url: string, e: CacheEntry, small: set<string>, large: set<string>)
    requires Guarded(items, url, e, small) && small <= large && url !in large
    ensures Guarded(items, url, e, large)
  {
  }

  lemma GuardedStep(cfg: Config, items: seq<Item>, op: Op, url: string, e: CacheEntry, since: set<string>)
    requires Sound(cfg, items) && Guarded(items, url, e, since) && Spares(op, url, e.expiresAt)
    requires |since + (Touched(cfg, items, op) - {url})| < cfg.maxEntries
    ensures Guarded(Apply(cfg, items, op), url, e, since + (Touched(cfg, items, op) - {url}))
  {
    hide Distinct, Lifetime, Guarded, AfterSet, AfterGet;
    assert url !in since by { GuardedMeans(items, url, e, since); }
    match op
    case InvalidateOp(u) =>
      GuardedWithout(items, url, e, since, u);
      GuardedMore(Without(items, u), url, e, since - {u}, since);
      assert since + ({} - {url}) == since;
    case GetOp(u, now) =>
      GuardedGet(items, u, now, url, e, since);
    case SetOp(r, purge, now) =>
      assert {r.url} - {url} == {r.url};
      var none: set<string> := {};
      assert none - {url} == none;
      GuardedSet(cfg, items, r, purge, now, url, e, since);
  }

  lemma GuardedMeans(items: seq<Item>, url: string, e: CacheEntry, since: set<string>)
    requires Guarded(items, url, e, since)
    ensures url !in since
  {
  }

  lemma {:induction false} GuardedRun(
    cfg: Config, items: seq<Item>, ops: seq<Op>, url: string, e: CacheEntry, since: set<string>)
    requires Sound(cfg, items) && Guarded(items, url, e, since)
    requires forall op <- ops :: Spares(op, url, e.expiresAt)
    requires |since + (TouchedBy(cfg, items, ops) - {url})| < cfg.maxEntries
    ensures Find(Exec(cfg, items, ops), url) == Some(e)
    decreases |ops|
  {
    if ops != [] {
      var now, later := Touched(cfg, items, ops[0]), TouchedBy(cfg, Apply(cfg, items, ops[0]), ops[1..]);
      var since' := since + (now - {url});
      assert since + ((now + later) - {url}) == since' + (later - {url});
      CardinalityMonotone(since', since' + (later - {url}));
      GuardedStep(cfg, items, ops[0], url, e, since);
      ApplyKeepsSound(cfg, items, ops[0]);
      GuardedRun(cfg, Apply(cfg, items, ops[0]), ops[1..], url, e, since');
    }
  }

  /** A touch -- an accepted set or a hit -- makes its URL the most recently used one. */
  lemma TouchIsLast(cfg: Config, items: seq<Item>, op: Op, url: string)
    requires Sound(cfg, items) && url in Touched(cfg, items, op)
    ensures var after := Apply(cfg, items, op);
      Find(after, url).Some? && Behind(after, url) == []
  {
    hide Distinct, Lifetime;
    FindMeans(items, url);
    KeepKeeps(items, (i: Item) => i.url != url);
    var others := Without(items, url);
    match op
    case GetOp(_, now) => BehindAppend(others, url, Item(url, Find(items, url).value));
    case SetOp(r, purge, now) =>
      var room := MakeRoom(others, cfg.maxEntries, purge);
      RoomIsOld(others, cfg.maxEntries, purge);
      BehindAppend(room, url, Item(url, CacheEntry(r.content, r.contentType, now, now + Lifetime(cfg, r).value)));
  }

  lemma RoomIsOld(items: seq<Item>, maxEntries: int, now: real)
    ensures forall i <- MakeRoom(items, maxEntries, now) :: i in items
  {
    KeepKeeps(items, (i: Item) => now < i.entry.expiresAt);
  }

  /**
   Stack distance: after a URL is touched it still hits at any time before its
   expiry, through every later operation that spares it, as long as fewer than
   `maxEntries` distinct other URLs have been touched since.
   */
  lemma LruStackDistance(cfg: Config, items: seq<Item>, touch: Op, ops: seq<Op>, url: string, now: real)
    requires Sound(cfg, items) && url in Touched(cfg, items, touch)
    requires var start := Apply(cfg, items, touch);
      Find(start, url).Some? ==>
        && now < Find(start, url).value.expiresAt
        && (forall op <- ops :: Spares(op, url, Find(start, url).value.expiresAt))
        && |TouchedBy(cfg, start, ops) - {url}| < cfg.maxEntries
    ensures var start := Apply(cfg, items, touch);
      Find(start, url).Some? && Hit(Exec(cfg, start, ops), url, now) == Find(start, url)
  {
    var start := Apply(cfg, items, touch);
    TouchIsLast(cfg, items, touch, url);
    ApplyKeepsSound(cfg, items, touch);
    assert {} + (TouchedBy(cfg, start, ops) - {url}) == TouchedBy(cfg, start, ops) - {url};
    GuardedRun(cfg, start, ops, url, Find(start, url).value, {});
  }

  /** Refreshing a stored URL, even in a full cache, evicts nothing else. */
  lemma RefreshEvictsNothing(cfg: Config, items: seq<Item>, r: Response, purge: real, now: real, other: Item)
    requires Sound(cfg, items) && Find(items, r.url).Some? && other in items && other.url != r.url
    ensures other in AfterSet(cfg, items, r, purge, now)
  {
    FindMeans(items, r.url);
    KeepKeeps(items, (i: Item) => i.url != r.url);
  }

  // ---- agreement with an unbounded store -------------------------------------

  /** The same operations on a map that never evicts and never expires. */
  ghost function StoreStep(cfg: Config, store: map<string, CacheEntry>, op: Op): map<string, CacheEntry> {
    match op
    case GetOp(_, _) => store
    case SetOp(r, _, now) =>
      (match Lifetime(cfg, r)
       case None => store - {r.url}
       case Some(life) => store[r.url := CacheEntry(r.content, r.contentType, now, now + life)])
    case InvalidateOp(url) => store - {url}
    case ClearOp => map[]
  }

  ghost function Store(cfg: Config, ops: seq<Op>): map<string, CacheEntry> {
    if ops == [] then map[] else StoreStep(cfg, Store(cfg, ops[..|ops| - 1]), ops[|ops| - 1])
  }

  ghost predicate Within(items: seq<Item>, store: map<string, CacheEntry>) {
    forall i <- items :: i.url in store && store[i.url] == i.entry
  }

  lemma StepStaysWithin(cfg: Config, items: seq<Item>, store: map<string, CacheEntry>, op: Op)
    requires Sound(cfg, items) && Within(items, store)
    ensures Within(Apply(cfg, items, op), StoreStep(cfg, store, op))
  {
    hide Distinct, Lifetime, Keep, Find;
    match op
    case GetOp(url, now) =>
      FindMeans(items, url);
      KeepKeeps(items, (i: Item) => i.url != url);
    case SetOp(r, purge, now) =>
      var others := Without(items, r.url);
      KeepKeeps(items, (i: Item) => i.url != r.url);
      RoomIsOld(others, cfg.maxEntries, purge);
      assert Within(MakeRoom(others, cfg.maxEntries, purge), store - {r.url});
    case InvalidateOp(url) =>
      KeepKeeps(items, (i: Item) => i.url != url);
    case ClearOp =>
  }

  lemma {:induction false} ExecAppend(cfg: Config, items: seq<Item>, ops: seq<Op>, op: Op)
    ensures Exec(cfg, items, ops + [op]) == Apply(cfg, Exec(cfg, items, ops), op)
    decreases |ops|
  {
    hide Apply;
    if ops == [] {
      assert [op] == ops + [op] && [op][1..] == [];
    } else {
      assert (ops + [op])[1..] == ops[1..] + [op];
      ExecAppend(cfg, Apply(cfg, items, ops[0]), ops[1..], op);
    }
  }

  lemma {:induction false} CacheWithinStore(cfg: Config, ops: seq<Op>)
    ensures Sound(cfg, Exec(cfg, [], ops)) && Within(Exec(cfg, [], ops), Store(cfg, ops))
    decreases |ops|
  {
    hide Apply, StoreStep;
    if ops != [] {
      var front, op := ops[..|ops| - 1], ops[|ops| - 1];
      assert ops == front + [op];
      CacheWithinStore(cfg, front);
      ExecAppend(cfg, [], front, op);
      ApplyKeepsSound(cfg, Exec(cfg, [], front), op);
      StepStaysWithin(cfg, Exec(cfg, [], front), Store(cfg, front), op);
    }
  }

  /** Does an operation decide what is stored under `url`? */
  predicate Decides(op: Op, url: string) {
    match op
    case GetOp(_, _) => false
    case SetOp(r, _, _) => r.url == url
    case InvalidateOp(u) => u == url
    case ClearOp => true
  }

  /** Operation `k` is the accepted set whose entry `e` the history leaves under `url`. */
  ghost predicate IsSource(cfg: Config, ops: seq<Op>, url: string, k: nat, e: CacheEntry) {
    && k < |ops| && ops[k].SetOp? && ops[k].response.url == url
    && (forall j | k < j < |ops| :: !Decides(ops[j], url))
    && var r := ops[k].response;
       Lifetime(cfg, r).Some? && e == CacheEntry(r.content, r.contentType, ops[k].now, ops[k].now + Lifetime(cfg, r).value)
  }

  /** The store holds exactly the latest decision about each URL. */
  lemma {:induction false} StoreIsLatest(cfg: Config, ops: seq<Op>, url: string, e: CacheEntry)
    ensures url in Store(cfg, ops) && Store(cfg, ops)[url] == e <==> exists k :: IsSource(cfg, ops, url, k, e)
    decreases |ops|
  {
    hide Lifetime;
    if ops != [] {
      var n := |ops| - 1;
      var front := ops[..n];
      StoreIsLatest(cfg, front, url, e);
      if Decides(ops[n], url) {
        assert forall k :: IsSource(cfg, ops, url, k, e) ==> k == n;
        if url in Store(cfg, ops) && Store(cfg, ops)[url] == e {
          assert IsSource(cfg, ops, url, n, e);
        }
      } else {
        assert forall k :: IsSource(cfg, ops, url, k, e) <==> IsSource(cfg, front, url, k, e);
      }
    }
  }

  /**
   A hit answers with the latest set of its URL: that set was accepted, nothing
   later replaced or removed it, the entry is unexpired, and its lifetime is at
   most the requested one and at most what the origin granted.
   */
  lemma HitIsLatestSet(cfg: Config, ops: seq<Op>, url: string, now: real, e: CacheEntry)
    requires Hit(Exec(cfg, [], ops), url, now) == Some(e)
    ensures now < e.expiresAt
    ensures exists k: nat ::
      && IsSource(cfg, ops, url, k, e)
      && RequestedTtl(cfg, ops[k].response).Finite?
      && e.expiresAt - e.fetchedAt <= RequestedTtl(cfg, ops[k].response).seconds
      && (HeaderPolicy(ops[k].response.cacheControl).Limited? ==>
            e.expiresAt - e.fetchedAt <= HeaderPolicy(ops[k].response.cacheControl).seconds as real)
  {
    CacheWithinStore(cfg, ops);
    FindMeans(Exec(cfg, [], ops), url);
    StoreIsLatest(cfg, ops, url, e);
    var k :| IsSource(cfg, ops, url, k, e);
    hide HeaderPolicy, ShouldCache;
    assert IsSource(cfg, ops, url, k, e);
  }

  /** A rejected set leaves its URL absent, whatever was stored before. */
  lemma RejectedSetLeavesAbsent(cfg: Config, items: seq<Item>, r: Response, purge: real, now: real, at: real)
    requires Lifetime(cfg, r).None?
    ensures Hit(AfterSet(cfg, items, r, purge, now), r.url, at).None?
  {
    KeepKeeps(items, (i: Item) => i.url != r.url);
    FindMeans(Without(items, r.url), r.url);
  }
}
