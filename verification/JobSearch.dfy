/**
 The two job-board searches: page a board, widen the query and merge, filter by
 place and title, cut to the limit and account for every posting examined.

 A board is a fixed function from query and page number to a reply.
 */
module JobSearch {
  import opened Basics
  import opened Jobfilter

  datatype Job = Job(key: Option<string>, title: string, place: string)

  /** A page: an exception, an unusable body, or rows of which some may be no posting. */
  datatype Reply = Raises | Unusable | Page(rows: seq<Option<Job>>, total: nat)

  type Pages = nat -> Reply
  type Board = string -> Pages

  function Take<T>(s: seq<T>, n: nat): seq<T> {
    if n <= |s| then s[..n] else s
  }

  function Jobs(rows: seq<Option<Job>>): seq<Job> {
    if rows == [] then [] else (if rows[0].Some? then [rows[0].value] else []) + Jobs(rows[1..])
  }

  // ---- paging ----------------------------------------------------------------------

  datatype Shape = Shape(pageSize: nat, maxPages: nat)

  const AMAZON := Shape(100, 5)
  const APPLE := Shape(20, 10)

  /** Everything the board serves from page `p` on, and whether serving it ends in an exception. */
  function Served(pages: Pages, shape: Shape, p: nat): (seq<Job>, bool)
    decreases shape.maxPages - p
  {
    if p >= shape.maxPages then ([], false)
    else
      match pages(p)
      case Raises => ([], true)
      case Unusable => ([], false)
      case Page(rows, _) =>
        if |rows| < shape.pageSize || rows == [] then (Jobs(rows), false)
        else
          var (rest, raised) := Served(pages, shape, p + 1);
          (Jobs(rows) + rest, raised)
  }

  function Total(pages: Pages, shape: Shape, limit: nat): nat {
    if limit == 0 || shape.maxPages == 0 then 0 else match pages(0) case Page(_, total) => total case _ => 0
  }

  /** What a walk that wants `limit` jobs returns; None when a page it needs raises. */
  function Walked(pages: Pages, shape: Shape, limit: nat): Option<seq<Job>> {
    var (jobs, raised) := Served(pages, shape, 0);
    if raised && |jobs| < limit then None else Some(Take(jobs, limit))
  }

  lemma TakeFront<T>(a: seq<T>, b: seq<T>, n: nat)
    requires n <= |a|
    ensures Take(a + b, n) == Take(a, n)
  {
    assert (a + b)[..n] == a[..n];
  }

  lemma TakeTake<T>(s: seq<T>, a: nat, b: nat)
    requires a <= b
    ensures Take(Take(s, b), a) == Take(s, a)
  {
    assert b <= |s| ==> s[..b][..a] == s[..a];
  }

  lemma ServedStep(pages: Pages, shape: Shape, p: nat)
    ensures Served(pages, shape, p) ==
      if p >= shape.maxPages then ([], false)
      else match pages(p)
        case Raises => ([], true)
        case Unusable => ([], false)
        case Page(rows, _) =>
          if |rows| < shape.pageSize || rows == [] then (Jobs(rows), false)
          else (Jobs(rows) + Served(pages, shape, p + 1).0, Served(pages, shape, p + 1).1)
  {
  }

  /** The paging loop shared by the boards. */
  method SearchPages(pages: Pages, shape: Shape, limit: nat) returns (found: Option<seq<Job>>, total: nat)
    ensures found == Walked(pages, shape, limit)
    ensures found.Some? ==> total == Total(pages, shape, limit)
  {
    assert Jobs([]) == [];
    hide Take, Served, Jobs;
    ServedStep(pages, shape, 0);
    var collected: seq<Job> := [];
    total := 0;
    var p := 0;
    ghost var all := Served(pages, shape, 0);
    while p < shape.maxPages
      invariant p <= shape.maxPages
      invariant all.0 == collected + Served(pages, shape, p).0 && all.1 == Served(pages, shape, p).1
      invariant total == if p == 0 then 0 else Total(pages, shape, limit)
    {
      if |collected| >= limit {
        TakeFront(collected, Served(pages, shape, p).0, limit);
        return Some(Take(collected, limit)), total;
      }
      ServedStep(pages, shape, p);
      match pages(p)
      case Raises =>
        return None, 0;
      case Unusable =>
        assert all.0 == collected;
        break;
      case Page(rows, pageTotal) =>
        if p == 0 {
          total := pageTotal;
        }
        if rows == [] {
          assert all.0 == collected;
          break;
        }
        assert |rows| >= shape.pageSize ==>
          collected + (Jobs(rows) + Served(pages, shape, p + 1).0) == (collected + Jobs(rows)) + Served(pages, shape, p + 1).0;
        collected := collected + Jobs(rows);
        if |rows| < shape.pageSize {
          assert all.0 == collected && !all.1;
          return Some(Take(collected, limit)), total;
        }
        p := p + 1;
    }
    ServedStep(pages, shape, p);
    assert all.0 == collected && !all.1;
    found := Some(Take(collected, limit));
  }

  /** A walk for fewer jobs is a truncation, and succeeds whenever the longer one does. */
  lemma WalkTruncates(pages: Pages, shape: Shape, a: nat, b: nat)
    requires a <= b && Walked(pages, shape, b).Some?
    ensures Walked(pages, shape, a) == Some(Take(Walked(pages, shape, b).value, a))
  {
    TakeTake(Served(pages, shape, 0).0, a, b);
  }

  // ---- merging and filtering -----------------------------------------------------------

  function Keys(jobs: seq<Job>): set<Option<string>> {
    set j <- jobs :: j.key
  }

  /** The jobs of `extra` whose key is new, each key once, in order. */
  function NewJobs(seen: set<Option<string>>, extra: seq<Job>): seq<Job>
    decreases |extra|
  {
    if extra == [] then []
    else if extra[0].key in seen then NewJobs(seen, extra[1..])
    else [extra[0]] + NewJobs(seen + {extra[0].key}, extra[1..])
  }

  method Merge(jobs: seq<Job>, extra: seq<Job>) returns (merged: seq<Job>)
    ensures merged == jobs + NewJobs(Keys(jobs), extra)
  {
    merged := jobs;
    var seen := Keys(jobs);
    for i := 0 to |extra|
      invariant jobs + NewJobs(Keys(jobs), extra) == merged + NewJobs(seen, extra[i..])
    {
      assert extra[i..][1..] == extra[i + 1..];
      if extra[i].key !in seen {
        seen := seen + {extra[i].key};
        merged := merged + [extra[i]];
      }
    }
  }

  /** Merging repeats no key among what it adds, loses no key, and adds nothing foreign. */
  lemma {:induction false} NewJobsMeans(seen: set<Option<string>>, extra: seq<Job>)
    ensures var added := NewJobs(seen, extra);
      && (forall j <- added :: j in extra && j.key !in seen)
      && (forall i, j | 0 <= i < j < |added| :: added[i].key != added[j].key)
      && (forall j <- extra :: j.key in seen || j.key in Keys(added))
    decreases |extra|
  {
    if extra != [] {
      var head := extra[0];
      if head.key in seen {
        NewJobsMeans(seen, extra[1..]);
      } else {
        NewJobsMeans(seen + {head.key}, extra[1..]);
        var rest := NewJobs(seen + {head.key}, extra[1..]);
        assert ([head] + rest)[0] == head;
        assert forall j <- rest :: j in [head] + rest && j.key in Keys([head] + rest);
        assert head in [head] + rest && head.key in Keys([head] + rest);
      }
    }
  }

  function Filter(jobs: seq<Job>, keep: Job -> bool): (kept: seq<Job>)
    ensures |kept| <= |jobs|
  {
    if jobs == [] then [] else (if keep(jobs[0]) then [jobs[0]] else []) + Filter(jobs[1..], keep)
  }

  lemma {:induction false} FilterMeans(jobs: seq<Job>, keep: Job -> bool)
    ensures forall j :: j in Filter(jobs, keep) <==> j in jobs && keep(j)
  {
    if jobs != [] {
      FilterMeans(jobs[1..], keep);
    }
  }

  lemma {:induction false} FilterAppend(a: seq<Job>, b: seq<Job>, keep: Job -> bool)
    ensures Filter(a + b, keep) == Filter(a, keep) + Filter(b, keep)
  {
    hide Filter;
    if a == [] {
      assert a + b == b;
      FilterNone(keep);
    } else {
      assert (a + b)[1..] == a[1..] + b;
      FilterAppend(a[1..], b, keep);
      FilterCons(a, keep);
      FilterCons(a + b, keep);
    }
  }

  lemma FilterNone(keep: Job -> bool)
    ensures Filter([], keep) == []
  {
  }

  lemma FilterCons(jobs: seq<Job>, keep: Job -> bool)
    requires jobs != []
    ensures Filter(jobs, keep) == if keep(jobs[0]) then [jobs[0]] + Filter(jobs[1..], keep) else Filter(jobs[1..], keep)
  {
  }

  predicate TitleOk(title: string, job: Job) {
    TitleMatches(Tokens(job.title), Tokens(title))
  }

  // ---- the searches ----------------------------------------------------------------------

  /** `nearby` re-checks a posting's own place; `resolved` says the board took the location itself. */
  datatype Query = Query(
    title: string, location: string, strictTitle: bool, strictLocation: bool, resolved: bool, nearby: Job -> bool)

  datatype Outcome =
    | Failed
    | Found(jobs: seq<Job>, truncated: nat, droppedByTitle: nat, droppedByLocation: nat, examined: nat, hits: nat)

  /** `max(1, min(int(limit or 25), 100))` */
  function Effective(limit: int): nat {
    var asked := if limit == 0 then 25 else limit;
    if asked < 1 then 1 else if asked > 100 then 100 else asked
  }

  predicate TitleFilters(q: Query) {
    q.strictTitle && q.title != ""
  }

  /** How many postings a search may examine. */
  function AmazonWindow(q: Query, limit: nat): nat {
    if TitleFilters(q) || (q.strictLocation && q.location != "") then 300 else limit
  }

  function AppleWindow(q: Query, limit: nat): nat {
    if TitleFilters(q) then 100 else limit
  }

  predicate PlaceOk(q: Query, apple: bool, job: Job) {
    (if apple then q.location != "" && !q.resolved else q.strictLocation && q.location != "") ==> q.nearby(job)
  }

  /** Apple's JSON interface first, its pages when that found nothing. */
  function AppleWalked(api: Pages, page: Pages, limit: nat): Option<seq<Job>> {
    match Walked(api, APPLE, limit)
    case None => None
    case Some(jobs) =>
      if jobs != [] then Some(jobs)
      else match Walked(page, APPLE, limit) case None => None case Some(more) => Some(more)
  }

  type Walk = (string, nat) -> Option<seq<Job>>

  function AmazonWalk(board: Board): Walk {
    (query: string, limit: nat) => Walked(board(query), AMAZON, limit)
  }

  function AppleWalk(api: Board, page: Board): Walk {
    (query: string, limit: nat) => AppleWalked(api(query), page(query), limit)
  }

  /** First pass, widened by the stemmed query when it came back thin. */
  function Pool(walk: Walk, q: Query, window: nat): Option<seq<Job>> {
    match walk(q.title, window)
    case None => None
    case Some(jobs) =>
      var wider := BroadenedQuery(q.title);
      if TitleFilters(q) && |jobs| < window && wider.Some? then
        match walk(wider.value, window)
        case None => None
        case Some(extra) => Some(jobs + NewJobs(Keys(jobs), extra))
      else Some(jobs)
  }

  function Placed(q: Query, apple: bool, pool: seq<Job>): seq<Job> {
    Filter(pool, j => PlaceOk(q, apple, j))
  }

  function Titled(q: Query, jobs: seq<Job>): seq<Job> {
    if TitleFilters(q) then Filter(jobs, j => TitleOk(q.title, j)) else jobs
  }

  /** The jobs a search shows. */
  function Shown(walk: Walk, q: Query, apple: bool, window: nat, limit: nat): Option<seq<Job>> {
    match Pool(walk, q, window)
    case None => None
    case Some(pool) => Some(Take(Titled(q, Placed(q, apple, pool)), limit))
  }

  function AmazonShown(board: Board, q: Query, limit: int): Option<seq<Job>> {
    Shown(AmazonWalk(board), q, false, AmazonWindow(q, Effective(limit)), Effective(limit))
  }

  function AppleShown(api: Board, page: Board, q: Query, limit: int): Option<seq<Job>> {
    Shown(AppleWalk(api, page), q, true, AppleWindow(q, Effective(limit)), Effective(limit))
  }

  /** The board's own count: the larger of the two queries' when the search was widened. */
  function Hits(walk: Walk, totals: (string, nat) -> nat, q: Query, window: nat): nat {
    var first := totals(q.title, window);
    match walk(q.title, window)
    case None => first
    case Some(jobs) =>
      var wider := BroadenedQuery(q.title);
      if TitleFilters(q) && |jobs| < window && wider.Some? && totals(wider.value, window) > first
      then totals(wider.value, window) else first
  }

  function AppleTotal(api: Pages, page: Pages, limit: nat): nat {
    var fromApi, fromPage := Walked(api, APPLE, limit), Walked(page, APPLE, limit);
    if fromApi == Some([]) && fromPage.Some? && fromPage.value != [] then Total(page, APPLE, limit) else Total(api, APPLE, limit)
  }

  /** The whole answer for a pool: what is shown, and where everything else went. */
  function Report(pool: seq<Job>, hits: nat, q: Query, apple: bool, limit: nat): Outcome {
    var placed := Placed(q, apple, pool);
    var titled := Titled(q, placed);
    var shown := Take(titled, limit);
    Found(shown, |titled| - |shown|, |placed| - |titled|,
          if apple then 0 else |pool| - |placed|, if apple then |placed| else |pool|, hits)
  }

  function AmazonReport(board: Board, q: Query, limit: int): Outcome {
    var window := AmazonWindow(q, Effective(limit));
    match Pool(AmazonWalk(board), q, window)
    case None => Failed
    case Some(pool) =>
      var hits := Hits(AmazonWalk(board), (query: string, n: nat) => Total(board(query), AMAZON, n), q, window);
      Report(pool, hits, q, false, Effective(limit))
  }

  function AppleReport(api: Board, page: Board, q: Query, limit: int): Outcome {
    var window := AppleWindow(q, Effective(limit));
    match Pool(AppleWalk(api, page), q, window)
    case None => Failed
    case Some(pool) =>
      var hits := Hits(AppleWalk(api, page), (query: string, n: nat) => AppleTotal(api(query), page(query), n), q, window);
      Report(pool, hits, q, true, Effective(limit))
  }

  method SearchAmazon(board: Board, q: Query, limit: int) returns (r: Outcome)
    ensures r == AmazonReport(board, q, limit)
  {
    hide BroadenedQuery, NewJobs, Filter, Walked, Total, Effective;
    var limit' := Effective(limit);
    var window := AmazonWindow(q, limit');
    var first, hits := SearchPages(board(q.title), AMAZON, window);
    if first.None? {
      return Failed;
    }
    var jobs := first.value;
    if TitleFilters(q) && |jobs| < window {
      var wider := BroadenedQuery(q.title);
      if wider.Some? {
        var extra, extraHits := SearchPages(board(wider.value), AMAZON, window);
        if extra.None? {
          return Failed;
        }
        jobs := Merge(jobs, extra.value);
        hits := if extraHits > hits then extraHits else hits;
      }
    }
    var examined := |jobs|;
    var placed := Placed(q, false, jobs);
    var byLocation := |jobs| - |placed|;
    jobs := Titled(q, placed);
    var byTitle := |placed| - |jobs|;
    var matched := |jobs|;
    jobs := Take(jobs, limit');
    return Found(jobs, matched - |jobs|, byTitle, byLocation, examined, hits);
  }

  method SearchApplePages(api: Pages, page: Pages, limit: nat) returns (found: Option<seq<Job>>, total: nat)
    ensures found == AppleWalked(api, page, limit)
    ensures found.Some? ==> total == AppleTotal(api, page, limit)
  {
    found, total := SearchPages(api, APPLE, limit);
    if found.None? || found.value != [] {
      return;
    }
    var pageFound, pageTotal := SearchPages(page, APPLE, limit);
    if pageFound.None? {
      return None, 0;
    }
    if pageFound.value != [] {
      return pageFound, pageTotal;
    }
  }

  method SearchApple(api: Board, page: Board, q: Query, limit: int) returns (r: Outcome)
    ensures r == AppleReport(api, page, q, limit)
  {
    hide BroadenedQuery, NewJobs, Filter, AppleWalked, AppleTotal, Effective;
    var limit' := Effective(limit);
    var window := AppleWindow(q, limit');
    var first, total := SearchApplePages(api(q.title), page(q.title), window);
    if first.None? {
      return Failed;
    }
    var jobs := first.value;
    if TitleFilters(q) && |jobs| < window {
      var wider := BroadenedQuery(q.title);
      if wider.Some? {
        var extra, extraTotal := SearchApplePages(api(wider.value), page(wider.value), window);
        if extra.None? {
          return Failed;
        }
        jobs := Merge(jobs, extra.value);
        total := if extraTotal > total then extraTotal else total;
      }
    }
    jobs := Placed(q, true, jobs);
    var examined := |jobs|;
    jobs := Titled(q, jobs);
    var byTitle := examined - |jobs|;
    var matched := |jobs|;
    jobs := Take(jobs, limit');
    return Found(jobs, matched - |jobs|, byTitle, 0, examined, total);
  }

  /**
   The counts reconcile, and no posting is lost silently: what is shown, cut off
   and dropped is what was examined, and a posting of the pool that passes both
   filters is among the matches of which the first `limit` are shown.
   */
  lemma CountsReconcile(pool: seq<Job>, hits: nat, q: Query, apple: bool, limit: nat)
    ensures var r := Report(pool, hits, q, apple, limit);
      && |r.jobs| + r.truncated + r.droppedByTitle + r.droppedByLocation == r.examined
      && |r.jobs| <= limit && (r.truncated > 0 ==> |r.jobs| == limit)
      && (forall j <- r.jobs :: j in pool && PlaceOk(q, apple, j) && (TitleFilters(q) ==> TitleOk(q.title, j)))
      && (r.truncated == 0 ==>
            forall j <- pool :: PlaceOk(q, apple, j) && (TitleFilters(q) ==> TitleOk(q.title, j)) ==> j in r.jobs)
  {
    var placed := Placed(q, apple, pool);
    FilterMeans(pool, j => PlaceOk(q, apple, j));
    FilterMeans(placed, j => TitleOk(q.title, j));
    var titled := Titled(q, placed);
    assert forall j <- Take(titled, limit) :: j in titled;
  }

  // ---- the limit only truncates ------------------------------------------------------------

  lemma {:induction false} FilterTakesPrefix(jobs: seq<Job>, keep: Job -> bool, n: nat)
    ensures Filter(Take(jobs, n), keep) <= Filter(jobs, keep)
  {
    if n <= |jobs| {
      assert jobs == jobs[..n] + jobs[n..];
      FilterAppend(jobs[..n], jobs[n..], keep);
    }
  }

  /** A walk whose shorter runs are truncations of its longer ones. */
  ghost predicate Truncating(walk: Walk) {
    forall query, a: nat, b: nat ::
      1 <= a <= b && walk(query, b).Some? ==> walk(query, a) == Some(Take(walk(query, b).value, a))
  }

  lemma AmazonTruncates(board: Board)
    ensures Truncating(AmazonWalk(board))
  {
    forall query, a: nat, b: nat | 1 <= a <= b && AmazonWalk(board)(query, b).Some?
      ensures AmazonWalk(board)(query, a) == Some(Take(AmazonWalk(board)(query, b).value, a))
    {
      WalkTruncates(board(query), AMAZON, a, b);
    }
  }

  /** The fallback is taken for one limit exactly when it is taken for the other. */
  lemma AppleTruncates(api: Board, page: Board)
    ensures Truncating(AppleWalk(api, page))
  {
    forall query, a: nat, b: nat | 1 <= a <= b && AppleWalk(api, page)(query, b).Some?
      ensures AppleWalk(api, page)(query, a) == Some(Take(AppleWalk(api, page)(query, b).value, a))
    {
      AppleWalkTruncates(api(query), page(query), a, b);
    }
  }

  lemma AppleWalkTruncates(api: Pages, page: Pages, a: nat, b: nat)
    requires 1 <= a <= b && AppleWalked(api, page, b).Some?
    ensures AppleWalked(api, page, a) == Some(Take(AppleWalked(api, page, b).value, a))
  {
    hide Walked;
    WalkTruncates(api, APPLE, a, b);
    if Walked(api, APPLE, b) == Some([]) {
      WalkTruncates(page, APPLE, a, b);
    }
  }

  /**
   With a window that does not depend on the limit, or no filter at all, what a
   smaller limit shows is a truncation of what a larger one shows.
   */
  lemma TruncatesExactly(walk: Walk, q: Query, apple: bool, a: nat, wa: nat, b: nat, wb: nat)
    requires Truncating(walk) && 1 <= a <= b
    requires wa == wb || (wa == a && wb == b && !TitleFilters(q) && forall j :: PlaceOk(q, apple, j))
    requires Shown(walk, q, apple, wb, b).Some?
    ensures Shown(walk, q, apple, wa, a) == Some(Take(Shown(walk, q, apple, wb, b).value, a))
  {
    var pool := Pool(walk, q, wb).value;
    if wa == wb {
      TakeTake(Titled(q, Placed(q, apple, pool)), a, b);
    } else {
      AllKept(pool, j => PlaceOk(q, apple, j));
      AllKept(Take(pool, a), j => PlaceOk(q, apple, j));
      TakeTake(pool, a, b);
      TakeTake(pool, a, a);
    }
  }

  lemma {:induction false} AllKept(jobs: seq<Job>, keep: Job -> bool)
    requires forall j <- jobs :: keep(j)
    ensures Filter(jobs, keep) == jobs
  {
    if jobs != [] {
      AllKept(jobs[1..], keep);
    }
  }

  /** amazon.jobs: a smaller limit truncates, and cannot fail where a larger one succeeds. */
  lemma AmazonLimitTruncates(board: Board, q: Query, a: int, b: int)
    requires Effective(a) <= Effective(b) && AmazonShown(board, q, b).Some?
    ensures AmazonShown(board, q, a) == Some(Take(AmazonShown(board, q, b).value, Effective(a)))
  {
    var ea, eb := Effective(a), Effective(b);
    AmazonTruncates(board);
    TruncatesExactly(AmazonWalk(board), q, false, ea, AmazonWindow(q, ea), eb, AmazonWindow(q, eb));
  }

  /** jobs.apple.com: the same, unless an unresolved place is filtered in a window as small as the limit. */
  lemma AppleLimitTruncates(api: Board, page: Board, q: Query, a: int, b: int)
    requires Effective(a) <= Effective(b) && AppleShown(api, page, q, b).Some?
    requires TitleFilters(q) || q.location == "" || q.resolved
    ensures AppleShown(api, page, q, a) == Some(Take(AppleShown(api, page, q, b).value, Effective(a)))
  {
    var ea, eb := Effective(a), Effective(b);
    AppleTruncates(api, page);
    TruncatesExactly(AppleWalk(api, page), q, true, ea, AppleWindow(q, ea), eb, AppleWindow(q, eb));
  }

  /** In every case the smaller limit shows a prefix of what the larger one shows. */
  lemma AppleLimitIsPrefix(api: Board, page: Board, q: Query, a: int, b: int)
    requires Effective(a) <= Effective(b) && AppleShown(api, page, q, b).Some?
    ensures AppleShown(api, page, q, a).Some? && AppleShown(api, page, q, a).value <= AppleShown(api, page, q, b).value
  {
    var ea, eb := Effective(a), Effective(b);
    var walk := AppleWalk(api, page);
    AppleTruncates(api, page);
    if TitleFilters(q) || q.location == "" || q.resolved {
      AppleLimitTruncates(api, page, q, a, b);
    } else {
      assert Pool(walk, q, eb) == walk(q.title, eb) && Pool(walk, q, ea) == walk(q.title, ea);
      var big := walk(q.title, eb).value;
      FilterTakesPrefix(big, j => PlaceOk(q, true, j), ea);
      FilterMeans(Take(big, ea), j => PlaceOk(q, true, j));
      FilterMeans(big, j => PlaceOk(q, true, j));
      WalkIsShort(api, page, q.title, eb);
      WalkIsShort(api, page, q.title, ea);
    }
  }

  lemma WalkIsShort(api: Board, page: Board, query: string, n: nat)
    requires AppleWalk(api, page)(query, n).Some?
    ensures |AppleWalk(api, page)(query, n).value| <= n
  {
    assert AppleWalk(api, page)(query, n) == AppleWalked(api(query), page(query), n);
  }

  /** When the effective limits are ordered like the requested ones: unless 0 means 25. */
  lemma EffectiveOrder(a: int, b: int)
    requires a <= b
    ensures Effective(a) <= Effective(b) <==> !(a == 0 && 0 < b < 25)
  {
  }

  /** A board that serves the same hundred jobs on every page. */
  function FullBoard(job: Job): Board {
    (query: string) => (p: nat) => Page(seq(100, _ => Some(job)), 100)
  }

  lemma {:induction false} RowsAreJobs(job: Job, n: nat)
    ensures Jobs(seq(n, _ => Some(job))) == seq(n, _ => job)
  {
    if n > 0 {
      var rows := seq(n, _ => Some(job));
      assert rows[1..] == seq(n - 1, _ => Some(job));
      RowsAreJobs(job, n - 1);
      assert [job] + seq(n - 1, _ => job) == seq(n, _ => job);
    }
  }

  /** A posting that passes every filter of the search. */
  predicate Accepts(q: Query, apple: bool, job: Job) {
    PlaceOk(q, apple, job) && (TitleFilters(q) ==> TitleOk(q.title, job))
  }

  /**
   So the prefix property of raw limits holds on every board exactly when the
   effective limits are ordered: where they are not, any posting the search
   accepts, served over and over, refutes it.
   */
  lemma AmazonPrefixExact(q: Query, job: Job, a: int, b: int)
    requires Accepts(q, false, job)
    ensures Effective(a) <= Effective(b) <==>
            forall board :: AmazonShown(board, q, b).Some? ==>
              AmazonShown(board, q, a).Some? && AmazonShown(board, q, a).value <= AmazonShown(board, q, b).value
  {
    if Effective(a) <= Effective(b) {
      forall board | AmazonShown(board, q, b).Some?
        ensures AmazonShown(board, q, a).Some? && AmazonShown(board, q, a).value <= AmazonShown(board, q, b).value
      {
        AmazonLimitTruncates(board, q, a, b);
      }
    } else {
      AmazonBoardFills(q, job, a);
      AmazonBoardFills(q, job, b);
    }
  }

  lemma ApplePrefixExact(q: Query, job: Job, a: int, b: int)
    requires Accepts(q, true, job)
    ensures Effective(a) <= Effective(b) <==>
            forall api, page :: AppleShown(api, page, q, b).Some? ==>
              AppleShown(api, page, q, a).Some? && AppleShown(api, page, q, a).value <= AppleShown(api, page, q, b).value
  {
    hide AppleShown, Effective;
    if Effective(a) <= Effective(b) {
      forall api, page | AppleShown(api, page, q, b).Some?
        ensures AppleShown(api, page, q, a).Some? && AppleShown(api, page, q, a).value <= AppleShown(api, page, q, b).value
      {
        AppleLimitIsPrefix(api, page, q, a, b);
      }
    } else {
      var board := FullBoard(job);
      AppleBoardFills(q, job, a);
      AppleBoardFills(q, job, b);
      assert AppleShown(board, board, q, b).Some?;
    }
  }

  lemma AmazonBoardFills(q: Query, job: Job, limit: int)
    requires Accepts(q, false, job)
    ensures AmazonShown(FullBoard(job), q, limit).Some?
    ensures |AmazonShown(FullBoard(job), q, limit).value| == Effective(limit)
  {
    var n, board := Effective(limit), FullBoard(job);
    var window := AmazonWindow(q, n);
    FullServes(job, AMAZON, 0);
    TakeRepeated(job, 500, window);
    assert AmazonWalk(board)(q.title, window) == Some(Repeated(job, window));
    FullShows(AmazonWalk(board), q, false, job, window, n);
  }

  lemma AppleBoardFills(q: Query, job: Job, limit: int)
    requires Accepts(q, true, job)
    ensures AppleShown(FullBoard(job), FullBoard(job), q, limit).Some?
    ensures |AppleShown(FullBoard(job), FullBoard(job), q, limit).value| == Effective(limit)
  {
    var n, board := Effective(limit), FullBoard(job);
    var window := AppleWindow(q, n);
    FullServes(job, APPLE, 0);
    TakeRepeated(job, 100 * APPLE.maxPages, window);
    assert Walked(board(q.title), APPLE, window) == Some(Repeated(job, window));
    assert AppleWalk(board, board)(q.title, window) == Some(Repeated(job, window));
    FullShows(AppleWalk(board, board), q, true, job, window, n);
  }

  function Repeated(job: Job, n: nat): seq<Job> {
    seq(n, _ => job)
  }

  lemma TakeRepeated(job: Job, n: nat, k: nat)
    requires k <= n
    ensures Take(Repeated(job, n), k) == Repeated(job, k)
  {
  }

  lemma {:induction false} FullServes(job: Job, shape: Shape, p: nat)
    requires p <= shape.maxPages && shape.pageSize <= 100
    ensures Served(FullBoard(job)(""), shape, p) == (Repeated(job, 100 * (shape.maxPages - p)), false)
    decreases shape.maxPages - p
  {
    if p < shape.maxPages {
      FullServes(job, shape, p + 1);
      RowsAreJobs(job, 100);
      hide Served, Jobs;
      ServedStep(FullBoard(job)(""), shape, p);
      assert Repeated(job, 100) + Repeated(job, 100 * (shape.maxPages - p - 1)) == Repeated(job, 100 * (shape.maxPages - p));
    } else {
      assert 100 * (shape.maxPages - p) == 0;
      assert Repeated(job, 0) == [];
    }
  }

  lemma FullShows(walk: Walk, q: Query, apple: bool, job: Job, window: nat, n: nat)
    requires Accepts(q, apple, job) && n <= window && walk(q.title, window) == Some(Repeated(job, window))
    ensures Shown(walk, q, apple, window, n) == Some(Repeated(job, n))
  {
    hide BroadenedQuery, NewJobs, Filter, PlaceOk, TitleOk;
    var pool := Repeated(job, window);
    assert Pool(walk, q, window) == Some(pool);
    AllKept(pool, j => PlaceOk(q, apple, j));
    if TitleFilters(q) {
      AllKept(pool, j => TitleOk(q.title, j));
    }
    TakeRepeated(job, window, n);
  }

  function FarRows(there: Job, here: Job, n: nat): seq<Option<Job>> {
    seq(n, _ => Some(there)) + [Some(here)]
  }

  /** A board of one page: `n` postings elsewhere, then one nearby. */
  function FarBoard(there: Job, here: Job, n: nat): Board {
    (query: string) => (p: nat) => Page(if p == 0 then FarRows(there, here, n) else [], n + 1)
  }

  lemma {:induction false} JobsAppend(a: seq<Option<Job>>, b: seq<Option<Job>>)
    ensures Jobs(a + b) == Jobs(a) + Jobs(b)
  {
    hide Jobs;
    if a == [] {
      assert a + b == b;
      NoJobs();
    } else {
      JobsAppend(a[1..], b);
      assert (a + b)[1..] == a[1..] + b;
      JobsCons(a);
      JobsCons(a + b);
    }
  }

  lemma JobsCons(rows: seq<Option<Job>>)
    requires rows != []
    ensures Jobs(rows) == if rows[0].Some? then [rows[0].value] + Jobs(rows[1..]) else Jobs(rows[1..])
  {
  }

  lemma NoJobs()
    ensures Jobs([]) == []
  {
  }

  lemma FarServes(there: Job, here: Job, n: nat)
    ensures Served(FarBoard(there, here, n)(""), APPLE, 0) == (Repeated(there, n) + [here], false)
  {
    hide Served, Jobs, FarRows;
    var pages := FarBoard(there, here, n)("");
    FarJobs(there, here, n);
    NoJobs();
    ServedStep(pages, APPLE, 0);
    ServedStep(pages, APPLE, 1);
    assert Repeated(there, n) + [here] + [] == Repeated(there, n) + [here];
  }

  lemma FarJobs(there: Job, here: Job, n: nat)
    ensures Jobs(FarRows(there, here, n)) == Repeated(there, n) + [here] && FarRows(there, here, n) != []
  {
    hide Jobs;
    RowsAreJobs(there, n);
    var rows := seq(n, _ => Some(there));
    assert FarRows(there, here, n) == rows + [Some(here)];
    JobsAppend(rows, [Some(here)]);
    assert [Some(here)][1..] == [];
    JobsCons([Some(here)]);
    NoJobs();
    assert Repeated(there, n) == seq(n, _ => there);
  }

  lemma {:induction false} NoneKept(job: Job, n: nat, keep: Job -> bool)
    requires !keep(job)
    ensures Filter(Repeated(job, n), keep) == []
  {
    if n > 0 {
      assert Repeated(job, n)[1..] == Repeated(job, n - 1);
      NoneKept(job, n - 1, keep);
    }
  }

  lemma FarKept(there: Job, here: Job, n: nat, window: nat, keep: Job -> bool)
    requires keep(here) && !keep(there)
    ensures Filter(Take(Repeated(there, n) + [here], window), keep) == if window <= n then [] else [here]
  {
    hide Filter;
    var served := Repeated(there, n) + [here];
    if window <= n {
      assert Take(served, window) == Repeated(there, window);
      NoneKept(there, window, keep);
    } else {
      assert Take(served, window) == served;
      NoneKept(there, n, keep);
      FilterAppend(Repeated(there, n), [here], keep);
      KeepsOne(here, keep);
    }
  }

  /** On that board a search for `limit` jobs shows the nearby one only when its window reaches it. */
  lemma FarShows(there: Job, here: Job, n: nat, q: Query, limit: int)
    requires !TitleFilters(q) && q.location != "" && !q.resolved && q.nearby(here) && !q.nearby(there) && 0 < n
    ensures var board := FarBoard(there, here, n);
      AppleShown(board, board, q, limit) == Some(if Effective(limit) <= n then [] else [here])
  {
    hide Filter, Served, Jobs, Take, FarBoard, Effective;
    EffectiveIsPositive(limit);
    var board, window := FarBoard(there, here, n), Effective(limit);
    FarWalked(there, here, n, window, q.title);
    ShownByPlace(AppleWalk(board, board), q, window, Take(Repeated(there, n) + [here], window));
    FarKept(there, here, n, window, j => PlaceOk(q, true, j));
    TakeFew(here, window);
  }

  lemma TakeFew(job: Job, n: nat)
    requires 0 < n
    ensures Take<Job>([], n) == [] && Take([job], n) == [job]
  {
  }

  lemma FarWalked(there: Job, here: Job, n: nat, window: nat, query: string)
    requires 0 < n && 0 < window
    ensures var board := FarBoard(there, here, n);
      AppleWalk(board, board)(query, window) == Some(Take(Repeated(there, n) + [here], window))
  {
    hide Served, Jobs, FarRows;
    FarServes(there, here, n);
    var board := FarBoard(there, here, n);
    assert board(query) == board("");
    assert Walked(board(query), APPLE, window) == Some(Take(Repeated(there, n) + [here], window));
    assert |Take(Repeated(there, n) + [here], window)| > 0;
  }

  lemma ShownByPlace(walk: Walk, q: Query, window: nat, pool: seq<Job>)
    requires !TitleFilters(q) && walk(q.title, window) == Some(pool)
    ensures Shown(walk, q, true, window, window) == Some(Take(Filter(pool, j => PlaceOk(q, true, j)), window))
  {
    hide Filter, Take, BroadenedQuery, PlaceOk;
    assert Pool(walk, q, window) == Some(pool);
  }

  lemma KeepsOne(job: Job, keep: Job -> bool)
    ensures Filter([job], keep) == if keep(job) then [job] else []
  {
  }

  /**
   When the Apple search's window is independent of the limit, exactly. For any two
   limits that differ, a smaller one truncates what a larger one shows on every
   board if and only if the title is filtered, or no location is asked for, or the
   board resolved it. Otherwise a board with as many postings elsewhere as the
   smaller limit, and then one nearby, refutes it.
   */
  lemma AppleTruncatesExactly(q: Query, here: Job, there: Job, a: int, b: int)
    requires Effective(a) < Effective(b) && q.nearby(here) && !q.nearby(there)
    ensures (TitleFilters(q) || q.location == "" || q.resolved) <==>
            forall api, page :: AppleShown(api, page, q, b).Some? ==>
              AppleShown(api, page, q, a) == Some(Take(AppleShown(api, page, q, b).value, Effective(a)))
  {
    hide AppleShown, Effective;
    if TitleFilters(q) || q.location == "" || q.resolved {
      forall api, page | AppleShown(api, page, q, b).Some?
        ensures AppleShown(api, page, q, a) == Some(Take(AppleShown(api, page, q, b).value, Effective(a)))
      {
        AppleLimitTruncates(api, page, q, a, b);
      }
    } else {
      var n := Effective(a);
      EffectiveIsPositive(a);
      var board := FarBoard(there, here, n);
      FarShows(there, here, n, q, a);
      FarShows(there, here, n, q, b);
      assert AppleShown(board, board, q, b) == Some([here]) && AppleShown(board, board, q, a) == Some([]);
      assert |Take([here], n)| == 1;
    }
  }

  lemma EffectiveIsPositive(limit: int)
    ensures 1 <= Effective(limit) <= 100
  {
  }
}
