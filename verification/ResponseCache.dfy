/**
 The in-memory response cache: an ordered map from URL to entry, least recently
 used first, with a lifetime per entry and a bound on the number of entries.

 Keys are the URLs themselves, so two URLs never share an entry. Times are real
 numbers and need not move forward.
 */
module ResponseCache {
  import opened Basics
  import opened Text
  import opened CacheControl

  datatype CacheEntry = CacheEntry(content: string, contentType: string, fetchedAt: real, expiresAt: real)

  datatype Item = Item(url: string, entry: CacheEntry)

  /** A requested lifetime; NotFinite also stands for values that are no number. */
  datatype Ttl = Finite(seconds: real) | NotFinite

  datatype Response = Response(
    url: string, content: string, contentType: string,
    ttl: Option<Ttl>, cacheControl: Option<string>, vary: Option<string>)

  datatype Config = Config(defaultTtl: int, maxEntries: int, maxEntrySize: int)

  // ---- which responses may be stored, and for how long ----------------------

  predicate ShouldCache(r: Response) {
    && !Contains(Lower(r.contentType), "application/pdf")
    && !Contains(Lower(r.url), "reddit.com/")
    && !Contains(Lower(r.url), ".json")
  }

  function Utf8Length(s: string): nat {
    if s == "" then 0
    else
      var c := s[|s| - 1] as int;
      Utf8Length(s[..|s| - 1]) + (if c < 0x80 then 1 else if c < 0x800 then 2 else if c < 0x1_0000 then 3 else 4)
  }

  function RequestedTtl(cfg: Config, r: Response): Ttl {
    if r.ttl.Some? then r.ttl.value else Finite(cfg.defaultTtl as real)
  }

  function AtMost(ttl: real, policy: Policy): real {
    if policy.Limited? && policy.seconds as real < ttl then policy.seconds as real else ttl
  }

  /** The lifetime a response is stored with; None when it is rejected. */
  ghost function Lifetime(cfg: Config, r: Response): Option<real> {
    var ttl := RequestedTtl(cfg, r);
    var policy := HeaderPolicy(r.cacheControl);
    if || ttl.NotFinite?
       || (r.vary.Some? && Strip(r.vary.value) != "")
       || policy.Refused?
       || AtMost(ttl.seconds, policy) <= 0.0
       || !ShouldCache(r)
       || Utf8Length(r.content) > cfg.maxEntrySize
       || cfg.maxEntries <= 0
    then None
    else Some(AtMost(ttl.seconds, policy))
  }

  // ---- the ordered map -------------------------------------------------------

  function Find(items: seq<Item>, url: string): Option<CacheEntry> {
    if items == [] then None
    else if items[0].url == url then Some(items[0].entry)
    else Find(items[1..], url)
  }

  function Keep(items: seq<Item>, p: Item -> bool): seq<Item> {
    if items == [] then [] else (if p(items[0]) then [items[0]] else []) + Keep(items[1..], p)
  }

  function Without(items: seq<Item>, url: string): seq<Item> {
    Keep(items, (i: Item) => i.url != url)
  }

  function Unexpired(items: seq<Item>, now: real): seq<Item> {
    Keep(items, (i: Item) => now < i.entry.expiresAt)
  }

  function Urls(items: seq<Item>): set<string> {
    set i | i in items :: i.url
  }

  /** No URL twice. */
  predicate Distinct(items: seq<Item>) {
    items == [] || (items[0].url !in Urls(items[1..]) && Distinct(items[1..]))
  }

  // ---- the operations, as functions on the ordered map ----------------------

  function AfterGet(items: seq<Item>, url: string, now: real): seq<Item> {
    match Find(items, url)
    case None => items
    case Some(e) => Without(items, url) + if e.expiresAt <= now then [] else [Item(url, e)]
  }

  function Hit(items: seq<Item>, url: string, now: real): Option<CacheEntry> {
    match Find(items, url)
    case None => None
    case Some(e) => if e.expiresAt <= now then None else Some(e)
  }

  /** Room for one more: purge what has expired, then drop the least recently used. */
  function MakeRoom(items: seq<Item>, maxEntries: int, now: real): seq<Item> {
    if |items| < maxEntries then items
    else
      var left := Unexpired(items, now);
      if |left| < maxEntries || left == [] then left else left[1..]
  }

  ghost function AfterSet(cfg: Config, items: seq<Item>, r: Response, purge: real, now: real): seq<Item> {
    var others := Without(items, r.url);
    match Lifetime(cfg, r)
    case None => others
    case Some(life) =>
      MakeRoom(others, cfg.maxEntries, purge) + [Item(r.url, CacheEntry(r.content, r.contentType, now, now + life))]
  }

  /** The chain of early returns that rejects a response or settles its lifetime. */
  method Admit(cfg: Config, r: Response) returns (life: Option<real>)
    ensures life == Lifetime(cfg, r)
  {
    var ttl := RequestedTtl(cfg, r);
    if ttl.NotFinite? {
      return None;
    }
    if r.vary.Some? && Strip(r.vary.value) != "" {
      return None;
    }
    var policy := CachePolicy(r.cacheControl);
    if policy.Refused? {
      return None;
    }
    var effective := ttl.seconds;
    if policy.Limited? && policy.seconds as real < effective {
      effective := policy.seconds as real;
    }
    if effective <= 0.0 || !ShouldCache(r) || Utf8Length(r.content) > cfg.maxEntrySize || cfg.maxEntries <= 0 {
      return None;
    }
    return Some(effective);
  }

  // ---- the class -------------------------------------------------------------

  class Cache {
    const config: Config
    var items: seq<Item>

    ghost predicate Valid()
      reads this
    {
      Distinct(items) && (|items| <= config.maxEntries || items == [])
    }

    constructor (config: Config)
      ensures Valid() && this.config == config && items == []
    {
      this.config := config;
      items := [];
    }

    method Get(url: string, now: real) returns (entry: Option<CacheEntry>)
      requires Valid()
      modifies this
      ensures Valid()
      ensures items == AfterGet(old(items), url, now) && entry == Hit(old(items), url, now)
    {
      GetKeeps(items, url, now);
      match Find(items, url)
      case None =>
        return None;
      case Some(found) =>
        items := Without(items, url);
        if found.expiresAt <= now {
          assert items + [] == items;
          return None;
        }
        items := items + [Item(url, found)];
        return Some(found);
    }

    /** `purge` and `now` are the two clock readings of one call. */
    method Set(r: Response, purge: real, now: real)
      requires Valid()
      modifies this
      ensures Valid()
      ensures items == AfterSet(config, old(items), r, purge, now)
    {
      SetKeeps(config, items, r, purge, now);
      KeepKeeps(items, (i: Item) => i.url != r.url);
      hide Distinct, Lifetime;
      var life := Admit(config, r);
      items := Without(items, r.url);
      if life.None? {
        return;
      }
      if |items| >= config.maxEntries {
        items := PurgeExpired(items, purge);
        if |items| >= config.maxEntries && items != [] {
          items := items[1..];
        }
      }
      items := items + [Item(r.url, CacheEntry(r.content, r.contentType, now, now + life.value))];
    }

    method Invalidate(url: string)
      requires Valid()
      modifies this
      ensures Valid()
      ensures items == Without(old(items), url)
    {
      KeepKeeps(items, (i: Item) => i.url != url);
      items := Without(items, url);
    }

    method Clear()
      modifies this
      ensures Valid() && items == []
    {
      items := [];
    }
  }

  /** Lists the expired URLs first, then deletes them one by one. */
  method PurgeExpired(items: seq<Item>, now: real) returns (left: seq<Item>)
    requires Distinct(items)
    ensures left == Unexpired(items, now)
  {
    var expired := Keep(items, (i: Item) => i.entry.expiresAt <= now);
    KeepKeeps(items, (i: Item) => i.entry.expiresAt <= now);
    left := items;
    KeepSame(items, (i: Item) => true, (i: Item) => i.url !in Urls(expired[..0]));
    KeepAll(items);
    for k := 0 to |expired|
      invariant left == Keep(items, (i: Item) => i.url !in Urls(expired[..k]))
    {
      var gone := expired[k].url;
      KeepTwice(items, (i: Item) => i.url !in Urls(expired[..k]), (i: Item) => i.url != gone,
                (i: Item) => i.url !in Urls(expired[..k + 1]));
      left := Without(left, gone);
    }
    DistinctUrls(items);
    assert expired[..|expired|] == expired;
    KeepSame(items, (i: Item) => i.url !in Urls(expired[..|expired|]), (i: Item) => now < i.entry.expiresAt);
  }

  // ---- the ordered map's laws ------------------------------------------------

  lemma {:induction false} KeepAppend(a: seq<Item>, b: seq<Item>, p: Item -> bool)
    ensures Keep(a + b, p) == Keep(a, p) + Keep(b, p)
  {
    hide Keep;
    if a == [] {
      assert a + b == b;
      KeepNone(p);
    } else {
      assert (a + b)[1..] == a[1..] + b;
      KeepAppend(a[1..], b, p);
      KeepCons(a, p);
      KeepCons(a + b, p);
    }
  }

  lemma KeepNone(p: Item -> bool)
    ensures Keep([], p) == []
  {
  }

  lemma KeepCons(items: seq<Item>, p: Item -> bool)
    requires items != []
    ensures Keep(items, p) == if p(items[0]) then [items[0]] + Keep(items[1..], p) else Keep(items[1..], p)
  {
  }

  lemma {:induction false} KeepKeeps(items: seq<Item>, p: Item -> bool)
    ensures |Keep(items, p)| <= |items|
    ensures Distinct(items) ==> Distinct(Keep(items, p))
    ensures forall i :: i in Keep(items, p) <==> i in items && p(i)
  {
    if items != [] {
      KeepKeeps(items[1..], p);
      var rest := Keep(items[1..], p);
      assert items[0].url !in Urls(items[1..]) ==> items[0].url !in Urls(rest);
      assert ([items[0]] + rest)[1..] == rest;
      assert [] + rest == rest;
    }
  }

  lemma {:induction false} KeepSame(items: seq<Item>, p: Item -> bool, q: Item -> bool)
    requires forall i <- items :: p(i) == q(i)
    ensures Keep(items, p) == Keep(items, q)
  {
    if items != [] {
      KeepSame(items[1..], p, q);
    }
  }

  lemma {:induction false} KeepAll(items: seq<Item>)
    ensures Keep(items, (i: Item) => true) == items
  {
    if items != [] {
      KeepAll(items[1..]);
    }
  }

  lemma {:induction false} KeepTwice(items: seq<Item>, p: Item -> bool, q: Item -> bool, both: Item -> bool)
    requires forall i <- items :: both(i) == (p(i) && q(i))
    ensures Keep(Keep(items, p), q) == Keep(items, both)
  {
    if items != [] {
      KeepAppend(if p(items[0]) then [items[0]] else [], Keep(items[1..], p), q);
      KeepTwice(items[1..], p, q, both);
    }
  }

  lemma {:induction false} DistinctUrls(items: seq<Item>)
    requires Distinct(items)
    ensures forall i, j | i in items && j in items && i.url == j.url :: i == j
    ensures |Urls(items)| == |items|
  {
    if items != [] {
      DistinctUrls(items[1..]);
      UrlsCons(items);
      hide Urls, Distinct;
      OneMoreUrl(items);
    }
  }

  lemma OneMoreUrl(items: seq<Item>)
    requires items != [] && items[0].url !in Urls(items[1..])
    requires forall i, j | i in items[1..] && j in items[1..] && i.url == j.url :: i == j
    ensures forall i, j | i in items && j in items && i.url == j.url :: i == j
  {
    var head, rest := items[0], items[1..];
    assert forall i <- rest :: i.url != head.url by {
      assert forall i <- rest :: i.url in Urls(rest);
    }
    assert items == [head] + rest;
    assert forall i | i in items :: i == head || i in rest;
  }

  lemma UrlsCons(items: seq<Item>)
    requires items != []
    ensures Urls(items) == {items[0].url} + Urls(items[1..])
    ensures forall i <- items[1..] :: i.url in Urls(items[1..])
  {
    assert items == [items[0]] + items[1..];
  }

  lemma {:induction false} DistinctAppend(items: seq<Item>, x: Item)
    requires Distinct(items) && x.url !in Urls(items)
    ensures Distinct(items + [x])
  {
    if items != [] {
      assert (items + [x])[1..] == items[1..] + [x];
      assert items[0] in items;
      assert Urls(items[1..] + [x]) == Urls(items[1..]) + {x.url};
      DistinctAppend(items[1..], x);
    }
  }

  lemma {:induction false} FindMeans(items: seq<Item>, url: string)
    ensures Find(items, url).None? <==> url !in Urls(items)
    ensures Find(items, url).Some? ==> Item(url, Find(items, url).value) in items
    ensures Find(items, url).Some? ==> |Without(items, url)| < |items|
  {
    if items != [] {
      FindMeans(items[1..], url);
      KeepKeeps(items[1..], (i: Item) => i.url != url);
    }
  }

  lemma GetKeeps(items: seq<Item>, url: string, now: real)
    requires Distinct(items)
    ensures Distinct(AfterGet(items, url, now)) && |AfterGet(items, url, now)| <= |items|
  {
    FindMeans(items, url);
    KeepKeeps(items, (i: Item) => i.url != url);
    match Find(items, url)
    case None =>
    case Some(e) =>
      assert Without(items, url) + [] == Without(items, url);
      DistinctAppend(Without(items, url), Item(url, e));
  }

  lemma MakeRoomKeeps(items: seq<Item>, maxEntries: int, now: real)
    requires Distinct(items) && 0 < maxEntries && |items| <= maxEntries
    ensures Distinct(MakeRoom(items, maxEntries, now)) && |MakeRoom(items, maxEntries, now)| < maxEntries
    ensures forall i <- MakeRoom(items, maxEntries, now) :: i in items
  {
    KeepKeeps(items, (i: Item) => now < i.entry.expiresAt);
  }

  lemma StoredNeedsRoom(cfg: Config, r: Response)
    ensures Lifetime(cfg, r).Some? ==> 0 < cfg.maxEntries
  {
    hide HeaderPolicy, ShouldCache, Utf8Length;
  }

  lemma SetKeeps(cfg: Config, items: seq<Item>, r: Response, purge: real, now: real)
    requires Distinct(items) && (|items| <= cfg.maxEntries || items == [])
    ensures var after := AfterSet(cfg, items, r, purge, now);
      Distinct(after) && (|after| <= cfg.maxEntries || after == [])
  {
    StoredNeedsRoom(cfg, r);
    hide Lifetime, Keep, Distinct, MakeRoom, Urls;
    WithoutKeeps(items, r.url);
    var others := Without(items, r.url);
    match Lifetime(cfg, r)
    case None =>
    case Some(life) =>
      InsertKeeps(others, cfg.maxEntries, purge, Item(r.url, CacheEntry(r.content, r.contentType, now, now + life)));
  }

  lemma InsertKeeps(items: seq<Item>, maxEntries: int, now: real, x: Item)
    requires Distinct(items) && 0 < maxEntries && |items| <= maxEntries && x.url !in Urls(items)
    ensures var after := MakeRoom(items, maxEntries, now) + [x]; Distinct(after) && |after| <= maxEntries
  {
    hide Distinct, MakeRoom, Urls;
    MakeRoomKeeps(items, maxEntries, now);
    UrlsOfPart(MakeRoom(items, maxEntries, now), items, x.url);
    DistinctAppend(MakeRoom(items, maxEntries, now), x);
  }

  lemma WithoutKeeps(items: seq<Item>, url: string)
    requires Distinct(items)
    ensures Distinct(Without(items, url)) && |Without(items, url)| <= |items| && url !in Urls(Without(items, url))
  {
    hide Keep, Distinct;
    KeepKeeps(items, (i: Item) => i.url != url);
  }

  lemma UrlsOfPart(part: seq<Item>, whole: seq<Item>, url: string)
    requires (forall i <- part :: i in whole) && url !in Urls(whole)
    ensures url !in Urls(part)
  {
  }
}
