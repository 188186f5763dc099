/** What gets into the response cache, for how long, and what has to leave for it. */
module CacheAdmission {
  import opened Basics
  import opened Text
  import opened CacheControl
  import opened CacheHeaders
  import opened ResponseCache
  import opened CacheLaws

  /** `s` contains `w` in some mixture of cases. */
  ghost predicate Mentions(s: string, w: string) {
    exists a, m, b :: s == a + m + b && Lower(m) == w
  }

  lemma LowerPart(a: string, m: string, b: string)
    ensures Lower(a + m + b)[|a|..|a| + |m|] == Lower(m)
  {
    var s := a + m + b;
    forall k | 0 <= k < |m|
      ensures Lower(s)[|a| + k] == Lower(m)[k]
    {
      assert s[|a| + k] == m[k];
    }
  }

  lemma Mentioned(a: string, m: string, b: string)
    ensures Contains(Lower(a + m + b), Lower(m))
  {
    LowerPart(a, m, b);
    assert Lower(m) <= Lower(a + m + b)[|a|..];
  }

  lemma MentionedAt(s: string, w: string, i: nat)
    requires i <= |s| && w <= Lower(s)[i..]
    ensures Mentions(s, w)
  {
    var a, m, b := s[..i], s[i..i + |w|], s[i + |w|..];
    assert s == a + m + b;
    LowerPart(a, m, b);
    assert Lower(s)[i..i + |w|] == w;
  }

  lemma MentionsExactly(s: string, w: string)
    ensures Contains(Lower(s), w) <==> Mentions(s, w)
  {
    hide Lower;
    LowerLength(s);
    if i :| 0 <= i <= |Lower(s)| && w <= Lower(s)[i..] {
      MentionedAt(s, w, i);
    }
    if a, m, b :| s == a + m + b && Lower(m) == w {
      Mentioned(a, m, b);
    }
  }

  lemma LowerLength(s: string)
    ensures |Lower(s)| == |s|
  {
  }

  /** The requested lifetime: that of the call, or the configured one. */
  function Requested(cfg: Config, r: Response): Option<real> {
    match r.ttl
    case None => Some(cfg.defaultTtl as real)
    case Some(Finite(seconds)) => Some(seconds)
    case Some(NotFinite) => None
  }

  /** May the response be kept for `seconds` by a shared cache that knows no variants? */
  ghost predicate Keepable(cfg: Config, r: Response, seconds: real) {
    && 0.0 < seconds && 0 < cfg.maxEntries && Utf8Length(r.content) <= cfg.maxEntrySize
    && (r.vary.Some? ==> Spaces(r.vary.value))
    && !Mentions(r.contentType, "application/pdf")
    && !Mentions(r.url, "reddit.com/") && !Mentions(r.url, ".json")
    && match HeaderPolicy(r.cacheControl)
       case Refused => false
       case Unlimited => Requested(cfg, r) == Some(seconds)
       case Limited(n) =>
         && Requested(cfg, r).Some? && seconds <= Requested(cfg, r).value && seconds <= n as real
         && (seconds == Requested(cfg, r).value || seconds == n as real)
  }

  lemma BlankExactly(s: string)
    ensures Strip(s) == "" <==> Spaces(s)
  {
    if Spaces(s) {
      AllSpaces(s);
    }
    var l, r := Pads(s);
    assert Strip(s) == "" ==> s == l + r;
  }

  lemma LifetimeExactly(cfg: Config, r: Response, seconds: real)
    ensures Lifetime(cfg, r) == Some(seconds) <==> Keepable(cfg, r, seconds)
  {
    hide Strip, Contains, Lower, Mentions, Spaces, Utf8Length, HeaderPolicy;
    if r.vary.Some? {
      BlankExactly(r.vary.value);
    }
    MentionsExactly(r.contentType, "application/pdf");
    MentionsExactly(r.url, "reddit.com/");
    MentionsExactly(r.url, ".json");
  }

  /**
   What a set leaves to be hit, exactly: the response, from now until the smaller of
   the requested and the origin's lifetime is over, when it may be kept at all; and
   otherwise nothing, whatever was there before.
   */
  lemma SetThenGet(cfg: Config, items: seq<Item>, r: Response, purge: real, now: real, at: real, e: CacheEntry)
    requires Sound(cfg, items)
    ensures Hit(AfterSet(cfg, items, r, purge, now), r.url, at) == Some(e) <==>
      && Keepable(cfg, r, e.expiresAt - now) && at < e.expiresAt
      && e.content == r.content && e.contentType == r.contentType && e.fetchedAt == now
  {
    hide Lifetime, Keepable, Keep, Distinct, MakeRoom;
    LifetimeExactly(cfg, r, e.expiresAt - now);
    WithoutKeeps(items, r.url);
    match Lifetime(cfg, r)
    case None =>
      RejectedSetLeavesAbsent(cfg, items, r, purge, now, at);
    case Some(life) =>
      LifetimeExactly(cfg, r, life);
      StoredNeedsRoom(cfg, r);
      var others := Without(items, r.url);
      MakeRoomKeeps(others, cfg.maxEntries, purge);
      UrlsOfPart(MakeRoom(others, cfg.maxEntries, purge), others, r.url);
      var stored := CacheEntry(r.content, r.contentType, now, now + life);
      FindLast(MakeRoom(others, cfg.maxEntries, purge), Item(r.url, stored));
  }

  lemma {:induction false} FindLast(items: seq<Item>, x: Item)
    requires x.url !in Urls(items)
    ensures Find(items + [x], x.url) == Some(x.entry)
  {
    if items != [] {
      assert (items + [x])[1..] == items[1..] + [x] && items[0] in items;
      assert forall i <- items[1..] :: i in items;
      FindLast(items[1..], x);
    }
  }

  // ---- the size of a text -------------------------------------------------------

  /** One to four bytes a character, and nothing else counts. */
  lemma {:induction false} SizeAdds(a: string, b: string)
    ensures Utf8Length(a + b) == Utf8Length(a) + Utf8Length(b)
    ensures forall c: char :: (
      Utf8Length([c]) == if c <= '\U{7F}' then 1 else if c <= '\U{7FF}' then 2 else if c <= '\U{FFFF}' then 3 else 4)
    decreases |b|
  {
    forall c: char
      ensures Utf8Length([c]) == if c <= '\U{7F}' then 1 else if c <= '\U{7FF}' then 2 else if c <= '\U{FFFF}' then 3 else 4
    {
      assert [c][..0] == "";
    }
    if b == "" {
      assert a + b == a;
    } else {
      var front := b[..|b| - 1];
      assert (a + b)[..|a + b| - 1] == a + front;
      SizeAdds(a, front);
    }
  }

  // ---- what has to leave -----------------------------------------------------------

  lemma {:induction false} KeepFull(items: seq<Item>, p: Item -> bool)
    ensures |Keep(items, p)| == |items| <==> forall i <- items :: p(i)
    ensures |Keep(items, p)| == |items| ==> Keep(items, p) == items
  {
    hide Keep;
    if items == [] {
      KeepNone(p);
    } else {
      KeepFull(items[1..], p);
      KeepCons(items, p);
      KeepKeeps(items[1..], p);
      assert items == [items[0]] + items[1..];
    }
  }

  /**
   What a stored response displaces, exactly. Room is made only in a cache full of
   others: then everything expired leaves, and if nothing has expired, the one entry
   that was least recently used.
   */
  lemma DisplacesExactly(cfg: Config, items: seq<Item>, r: Response, purge: real, now: real, i: Item)
    requires Sound(cfg, items) && Lifetime(cfg, r).Some? && i in items && i.url != r.url
    ensures var others := Without(items, r.url);
      i !in AfterSet(cfg, items, r, purge, now) <==>
        && |others| >= cfg.maxEntries
        && (i.entry.expiresAt <= purge || ((forall j <- others :: purge < j.entry.expiresAt) && i == others[0]))
  {
    hide Lifetime, Distinct, Keep;
    StoredNeedsRoom(cfg, r);
    WithoutKeeps(items, r.url);
    KeepKeeps(items, (i: Item) => i.url != r.url);
    var others := Without(items, r.url);
    var p := (i: Item) => purge < i.entry.expiresAt;
    KeepKeeps(others, p);
    KeepFull(others, p);
    if |others| >= cfg.maxEntries && |Unexpired(others, purge)| >= cfg.maxEntries {
      assert Unexpired(others, purge) == others;
      HeadOnce(others, i);
    }
  }

  lemma HeadOnce(items: seq<Item>, i: Item)
    requires Distinct(items) && items != []
    ensures i in items[1..] <==> i in items && i != items[0]
  {
    assert items == [items[0]] + items[1..];
    UrlsCons(items);
  }
}
