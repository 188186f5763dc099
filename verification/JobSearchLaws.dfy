/** What a job search finds, in terms of what the board's pages hold. */
module JobSearchLaws {
  import opened Basics
  import opened Jobfilter
  import opened JobSearch

  // ---- one walk ------------------------------------------------------------------

  /** Page `p` fills its page size, so the walk goes on behind it. */
  predicate FullPage(pages: Pages, shape: Shape, p: nat) {
    pages(p).Page? && pages(p).rows != [] && |pages(p).rows| >= shape.pageSize
  }

  /** The postings of the first `n` pages. */
  function Gathered(pages: Pages, n: nat): seq<Job> {
    if n == 0 then [] else Gathered(pages, n - 1) + (if pages(n - 1).Page? then Jobs(pages(n - 1).rows) else [])
  }

  /** The walk gets to page `n` and not beyond it. */
  ghost predicate EndsAt(pages: Pages, shape: Shape, n: nat) {
    && n <= shape.maxPages && (forall p: nat | p < n :: FullPage(pages, shape, p))
    && (n < shape.maxPages ==> !FullPage(pages, shape, n))
  }

  lemma {:induction false} EndExists(pages: Pages, shape: Shape, n: nat) returns (end: nat)
    requires n <= shape.maxPages && forall p: nat | p < n :: FullPage(pages, shape, p)
    ensures EndsAt(pages, shape, end)
    decreases shape.maxPages - n
  {
    if n < shape.maxPages && FullPage(pages, shape, n) {
      end := EndExists(pages, shape, n + 1);
    } else {
      end := n;
    }
  }

  lemma {:induction false} ServedBehindFull(pages: Pages, shape: Shape, n: nat)
    requires n <= shape.maxPages && forall p: nat | p < n :: FullPage(pages, shape, p)
    ensures Served(pages, shape, 0) ==
      (Gathered(pages, n) + Served(pages, shape, n).0, Served(pages, shape, n).1)
  {
    hide Served, Jobs;
    if n == 0 {
      assert [] + Served(pages, shape, 0).0 == Served(pages, shape, 0).0;
    } else {
      ServedBehindFull(pages, shape, n - 1);
      ServedStep(pages, shape, n - 1);
      assert FullPage(pages, shape, n - 1);
      var a, b, c := Gathered(pages, n - 1), Jobs(pages(n - 1).rows), Served(pages, shape, n).0;
      assert a + (b + c) == (a + b) + c;
    }
  }

  /**
   A walk, exactly. It goes through full pages up to the first that is not full, or
   to the last page. It fails if and only if that page raises while postings are
   still wanted, and otherwise returns the first `limit` postings up to and with it.
   */
  lemma WalkExactly(pages: Pages, shape: Shape, limit: nat, n: nat)
    requires EndsAt(pages, shape, n)
    ensures var found := Gathered(pages, if n < shape.maxPages && pages(n).Page? then n + 1 else n);
      Walked(pages, shape, limit) ==
        if n < shape.maxPages && pages(n).Raises? && |found| < limit then None
        else Some(if |found| <= limit then found else found[..limit])
    ensures limit > 0 && shape.maxPages > 0 && pages(0).Page? ==> Total(pages, shape, limit) == pages(0).total
  {
    hide Served, Jobs, Gathered, FullPage;
    ServedBehindFull(pages, shape, n);
    LastPage(pages, shape, n);
    var found := Gathered(pages, if n < shape.maxPages && pages(n).Page? then n + 1 else n);
    assert found[..|found|] == found;
  }

  lemma LastPage(pages: Pages, shape: Shape, n: nat)
    requires EndsAt(pages, shape, n)
    ensures Served(pages, shape, n).1 <==> n < shape.maxPages && pages(n).Raises?
    ensures Gathered(pages, n) + Served(pages, shape, n).0 ==
      Gathered(pages, if n < shape.maxPages && pages(n).Page? then n + 1 else n)
  {
    hide Served, Jobs;
    NoJobs();
    ServedStep(pages, shape, n);
    assert Gathered(pages, n) + [] == Gathered(pages, n);
  }

  // ---- a whole search ------------------------------------------------------------

  /** What a posting has to satisfy to be shown. */
  predicate Passes(q: Query, apple: bool, job: Job) {
    && (q.strictTitle && q.title != "" ==> TitleMatches(Tokens(job.title), Tokens(q.title)))
    && (apple && q.location != "" && !q.resolved ==> q.nearby(job))
    && (!apple && q.location != "" && q.strictLocation ==> q.nearby(job))
  }

  /** The first pass came back thin and the title broadens to `wider`. */
  predicate Widens(walk: Walk, q: Query, window: nat, wider: string) {
    && q.strictTitle && q.title != "" && BroadenedQuery(q.title) == Some(wider)
    && walk(q.title, window).Some? && |walk(q.title, window).value| < window
  }

  predicate HasKey(jobs: seq<Job>, key: Option<string>) {
    exists p <- jobs :: p.key == key
  }

  lemma PoolWidens(walk: Walk, q: Query, window: nat, wider: string)
    requires Widens(walk, q, window, wider)
    ensures Pool(walk, q, window).Some? <==> walk(wider, window).Some?
    ensures walk(wider, window).Some? ==>
      var first, extra, pool := walk(q.title, window).value, walk(wider, window).value, Pool(walk, q, window).value;
      && first <= pool
      && (forall j <- pool :: j in first || j in extra)
      && (forall j <- extra :: HasKey(pool, j.key))
  {
    hide BroadenedQuery, NewJobs;
    if walk(wider, window).Some? {
      var first, extra := walk(q.title, window).value, walk(wider, window).value;
      var added := NewJobs(Keys(first), extra);
      NewJobsMeans(Keys(first), extra);
      var pool := first + added;
      forall j | j in extra
        ensures HasKey(pool, j.key)
      {
        if j.key in Keys(first) {
          var p :| p in first && p.key == j.key;
          assert p in pool;
        } else {
          assert j.key in Keys(added);
          var p :| p in added && p.key == j.key;
          assert p in pool;
        }
      }
    }
  }

  lemma PoolIsFirst(walk: Walk, q: Query, window: nat)
    requires forall wider :: !Widens(walk, q, window, wider)
    ensures Pool(walk, q, window) == walk(q.title, window)
  {
    hide BroadenedQuery, NewJobs;
    var wider := BroadenedQuery(q.title);
    if wider.Some? {
      assert !Widens(walk, q, window, wider.value);
    }
  }

  lemma ReportShows(pool: seq<Job>, hits: nat, q: Query, apple: bool, limit: nat)
    ensures var r := Report(pool, hits, q, apple, limit);
      && r.Found? && |r.jobs| <= limit && r.hits == hits
      && (forall j <- r.jobs :: j in pool && Passes(q, apple, j))
      && (r.truncated == 0 ==> forall j <- pool :: Passes(q, apple, j) ==> j in r.jobs)
      && (r.truncated > 0 ==> |r.jobs| == limit)
  {
    CountsReconcile(pool, hits, q, apple, limit);
    hide Tokens, TitleMatches, Filter;
  }

  /**
   What a search finds: `r` shows only postings of the two passes that satisfy the
   query, and unless the limit cut some off, every such posting of the first pass,
   and for every posting of the wider pass one with the same key that was examined,
   when that satisfies the query.
   */
  ghost predicate Finds(walk: Walk, totals: (string, nat) -> nat, q: Query, apple: bool, window: nat, r: Outcome) {
    match r
    case Failed =>
      walk(q.title, window).None? || exists wider :: Widens(walk, q, window, wider) && walk(wider, window).None?
    case Found(_, _, _, _, _, _) =>
      && walk(q.title, window).Some?
      && ShowsPassing(q, apple, walk(q.title, window).value, r)
      && ((forall wider :: !Widens(walk, q, window, wider)) ==>
            r.hits == totals(q.title, window) && forall j <- r.jobs :: j in walk(q.title, window).value)
      && (forall wider | Widens(walk, q, window, wider) ::
            && walk(wider, window).Some?
            && ShowsWider(q, apple, walk(q.title, window).value, walk(wider, window).value, r)
            && r.hits >= totals(q.title, window) && r.hits >= totals(wider, window))
  }

  ghost predicate ShowsPassing(q: Query, apple: bool, first: seq<Job>, r: Outcome)
    requires r.Found?
  {
    && (forall j <- r.jobs :: Passes(q, apple, j))
    && (r.truncated == 0 ==> forall j <- first :: Passes(q, apple, j) ==> j in r.jobs)
  }

  ghost predicate ShowsWider(q: Query, apple: bool, first: seq<Job>, extra: seq<Job>, r: Outcome)
    requires r.Found?
  {
    && (forall j <- r.jobs :: j in first || j in extra)
    && forall j <- extra :: ShowsKey(q, apple, j, first, extra, r)
  }

  /** Some posting with the key of `j` was examined, and is shown if it satisfies the query. */
  ghost predicate ShowsKey(q: Query, apple: bool, j: Job, first: seq<Job>, extra: seq<Job>, r: Outcome)
    requires r.Found?
  {
    exists p :: SameExamined(p, j, first, extra) && (r.truncated == 0 && Passes(q, apple, p) ==> p in r.jobs)
  }

  predicate SameExamined(p: Job, j: Job, first: seq<Job>, extra: seq<Job>) {
    p.key == j.key && (p in first || p in extra)
  }

  function ReportOf(walk: Walk, totals: (string, nat) -> nat, q: Query, apple: bool, window: nat, limit: nat): Outcome {
    match Pool(walk, q, window)
    case None => Failed
    case Some(pool) => Report(pool, Hits(walk, totals, q, window), q, apple, limit)
  }

  lemma SearchFinds(walk: Walk, totals: (string, nat) -> nat, q: Query, apple: bool, window: nat, limit: nat)
    ensures Finds(walk, totals, q, apple, window, ReportOf(walk, totals, q, apple, window, limit))
  {
    hide BroadenedQuery, Report, Passes, NewJobs, Hits, ShowsWider;
    if wider :| Widens(walk, q, window, wider) {
      PoolWidens(walk, q, window, wider);
      assert forall w | Widens(walk, q, window, w) :: w == wider;
      if walk(wider, window).Some? {
        WideSearchFinds(walk, totals, q, apple, window, limit, wider);
      }
    } else {
      PoolIsFirst(walk, q, window);
      if walk(q.title, window).Some? {
        ReportShows(walk(q.title, window).value, Hits(walk, totals, q, window), q, apple, limit);
        HitsOfFirst(walk, totals, q, window);
      }
    }
  }

  lemma WideSearchFinds(
    walk: Walk, totals: (string, nat) -> nat, q: Query, apple: bool, window: nat, limit: nat, wider: string)
    requires Widens(walk, q, window, wider) && walk(wider, window).Some?
    ensures var first, extra := walk(q.title, window).value, walk(wider, window).value;
      var r := ReportOf(walk, totals, q, apple, window, limit);
      && r.Found? && ShowsPassing(q, apple, first, r) && ShowsWider(q, apple, first, extra, r)
      && r.hits >= totals(q.title, window) && r.hits >= totals(wider, window)
  {
    hide BroadenedQuery, Report, Passes, NewJobs;
    PoolWidens(walk, q, window, wider);
    var first, extra, pool := walk(q.title, window).value, walk(wider, window).value, Pool(walk, q, window).value;
    ReportShows(pool, Hits(walk, totals, q, window), q, apple, limit);
    var r := ReportOf(walk, totals, q, apple, window, limit);
    assert forall j <- first :: j in pool;
    forall j | j in extra
      ensures ShowsKey(q, apple, j, first, extra, r)
    {
      var p :| p in pool && p.key == j.key;
      assert SameExamined(p, j, first, extra);
    }
  }

  lemma HitsOfFirst(walk: Walk, totals: (string, nat) -> nat, q: Query, window: nat)
    requires forall wider :: !Widens(walk, q, window, wider)
    ensures Hits(walk, totals, q, window) == totals(q.title, window)
  {
    hide BroadenedQuery;
    var wider := BroadenedQuery(q.title);
    if wider.Some? {
      assert !Widens(walk, q, window, wider.value);
    }
  }

  lemma AmazonFinds(board: Board, q: Query, limit: int)
    ensures Finds((query: string, n: nat) => Walked(board(query), Shape(100, 5), n),
                  (query: string, n: nat) => Total(board(query), Shape(100, 5), n), q, false,
                  if (q.strictTitle && q.title != "") || (q.strictLocation && q.location != "") then 300 else Effective(limit),
                  AmazonReport(board, q, limit))
  {
    hide Report, Finds, Pool, Hits, Effective;
    var window := AmazonWindow(q, Effective(limit));
    SearchFinds(AmazonWalk(board), (query: string, n: nat) => Total(board(query), AMAZON, n), q, false, window, Effective(limit));
  }

  lemma AppleFinds(api: Board, page: Board, q: Query, limit: int)
    ensures Finds((query: string, n: nat) => AppleWalked(api(query), page(query), n),
                  (query: string, n: nat) => AppleTotal(api(query), page(query), n), q, true,
                  if q.strictTitle && q.title != "" then 100 else Effective(limit),
                  AppleReport(api, page, q, limit))
  {
    hide Report, Finds, Pool, Hits, Effective;
    var window := AppleWindow(q, Effective(limit));
    SearchFinds(AppleWalk(api, page), (query: string, n: nat) => AppleTotal(api(query), page(query), n), q, true, window, Effective(limit));
  }

  // ---- how much is shown ------------------------------------------------------------

  /** On a board that has nothing but acceptable postings, as many are shown as were asked for. */
  lemma ShowsWhatIsAskedFor(q: Query, job: Job, limit: int)
    ensures var n := if limit == 0 then 25 else if limit < 1 then 1 else if limit > 100 then 100 else limit;
      && (Passes(q, false, job) ==>
            AmazonShown(FullBoard(job), q, limit).Some? && |AmazonShown(FullBoard(job), q, limit).value| == n)
      && (Passes(q, true, job) ==>
            AppleShown(FullBoard(job), FullBoard(job), q, limit).Some?
            && |AppleShown(FullBoard(job), FullBoard(job), q, limit).value| == n)
  {
    hide AmazonShown, AppleShown, Tokens, TitleMatches;
    if Passes(q, false, job) {
      AmazonBoardFills(q, job, limit);
    }
    if Passes(q, true, job) {
      AppleBoardFills(q, job, limit);
    }
  }

  // ---- the fallback ------------------------------------------------------------------

  /** A board without a single posting. */
  function NoBoard(): Board {
    (query: string) => (p: nat) => Page([], 0)
  }

  lemma NothingWalked(query: string, limit: nat)
    ensures Walked(NoBoard()(query), APPLE, limit) == Some([])
  {
    hide Served;
    ServedStep(NoBoard()(query), APPLE, 0);
    NoJobs();
  }

  /** When the JSON interface knows nothing, the pages answer like an interface would. */
  lemma PagesStandIn(page: Board, query: string, limit: nat)
    ensures AppleWalk(NoBoard(), page)(query, limit) == Walked(page(query), Shape(20, 10), limit)
    ensures AppleWalk(page, NoBoard())(query, limit) == Walked(page(query), Shape(20, 10), limit)
    ensures var found := Walked(page(query), Shape(20, 10), limit);
      found.Some? && found.value != [] ==>
        && AppleTotal(NoBoard()(query), page(query), limit) == Total(page(query), Shape(20, 10), limit)
        && AppleTotal(page(query), NoBoard()(query), limit) == Total(page(query), Shape(20, 10), limit)
  {
    NothingWalked(query, limit);
    hide Walked, NoBoard;
  }
}
