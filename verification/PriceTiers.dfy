/**
 Quantity price tiers: raw tiers are validated, sorted by minimum and thinned
 greedily to a chain of disjoint intervals.

 `positive` stands for the price-text check and `compact` for the text clean-up;
 both are parameters.
 */
module PriceTiers {
  import opened Basics

  const MAX_TIERS: nat := 20
  const DIGIT_BOUND: int := 100_000_000_000_000_000_000   // twenty digits

  // ---- raw values -----------------------------------------------------------------

  /** A decoded JSON value, as far as the integer reading looks at it. */
  datatype Raw =
    | Null
    | Bool(b: bool)
    | Int(n: int)
    | Float(integral: bool, n: int)     // finite; `n` is its value when integral
    | NonFinite
    | Text(blank: bool, number: Option<int>)   // blank: the empty string; number: a signed decimal of at most 20 digits
    | Other

  function BoundedInteger(v: Raw): Option<int> {
    match v
    case Int(n) => if -DIGIT_BOUND < n < DIGIT_BOUND then Some(n) else None
    case Float(integral, n) => if integral && -DIGIT_BOUND < n < DIGIT_BOUND then Some(n) else None
    case Text(_, number) => number
    case _ => None
  }

  /** An upper end: None is no valid value, Some(None) is open. */
  function TierMaximum(v: Raw): Option<Option<int>> {
    if v.Null? || (v.Text? && v.blank) then Some(None)
    else if v.Bool? then None
    else
      match BoundedInteger(v)
      case None => None
      case Some(n) => if n == 0 || n == -1 then Some(None) else Some(Some(n))
  }

  datatype RawTier = NotATier | RawTier(min: Raw, max: Raw, price: string)

  datatype Tier = Tier(min: int, max: Option<int>, price: string)

  /** The tests a price text is put through, and the text that is kept. */
  datatype PriceRules = PriceRules(compact: string -> string, positive: string -> bool)

  predicate Reasonable(rules: PriceRules, price: string) {
    rules.positive(rules.compact(price))
  }

  /** One raw tier as a candidate, when it is valid. */
  function Candidate(rules: PriceRules, raw: RawTier): Option<Tier> {
    if raw.NotATier? then None
    else
      var min, max := BoundedInteger(raw.min), TierMaximum(raw.max);
      if || min.None? || min.value <= 0 || max.None?
         || (max.value.Some? && max.value.value < min.value)
         || !Reasonable(rules, raw.price)
      then None
      else Some(Tier(min.value, max.value, rules.compact(raw.price)))
  }

  function Candidates(rules: PriceRules, raws: seq<RawTier>): seq<Tier> {
    if raws == [] then []
    else
      var rest := Candidates(rules, raws[..|raws| - 1]);
      match Candidate(rules, raws[|raws| - 1])
      case None => rest
      case Some(t) => rest + [t]
  }

  // ---- sorting: stable, by minimum ---------------------------------------------------

  predicate Sorted(ts: seq<Tier>) {
    forall i, j | 0 <= i < j < |ts| :: ts[i].min <= ts[j].min
  }

  function Insert(t: Tier, ts: seq<Tier>): seq<Tier> {
    if ts == [] || t.min < ts[0].min then [t] + ts else [ts[0]] + Insert(t, ts[1..])
  }

  function Sort(ts: seq<Tier>): seq<Tier> {
    if ts == [] then [] else Insert(ts[|ts| - 1], Sort(ts[..|ts| - 1]))
  }

  /** The tiers with one minimum, in order: what stability keeps. */
  function At(ts: seq<Tier>, min: int): seq<Tier> {
    if ts == [] then [] else (if ts[0].min == min then [ts[0]] else []) + At(ts[1..], min)
  }

  lemma {:induction false} InsertPermutes(t: Tier, ts: seq<Tier>)
    ensures multiset(Insert(t, ts)) == multiset(ts) + multiset{t}
    ensures forall x :: x in Insert(t, ts) <==> x == t || x in ts
  {
    if ts != [] && !(t.min < ts[0].min) {
      assert ts == [ts[0]] + ts[1..];
      InsertPermutes(t, ts[1..]);
    }
  }

  lemma {:induction false} InsertSorts(t: Tier, ts: seq<Tier>)
    requires Sorted(ts)
    ensures Sorted(Insert(t, ts))
  {
    if ts != [] && !(t.min < ts[0].min) {
      var rest := Insert(t, ts[1..]);
      InsertSorts(t, ts[1..]);
      InsertPermutes(t, ts[1..]);
      hide Insert;
      forall j | 0 <= j < |rest|
        ensures ts[0].min <= rest[j].min
      {
        assert rest[j] in rest && (rest[j] == t || rest[j] in ts[1..]);
      }
    }
  }

  lemma {:induction false} InsertIsStable(t: Tier, ts: seq<Tier>, min: int)
    requires Sorted(ts)
    ensures At(Insert(t, ts), min) == if t.min == min then At(ts, min) + [t] else At(ts, min)
  {
    hide At;
    if ts == [] || t.min < ts[0].min {
      assert ([t] + ts)[1..] == ts;
      AtCons([t] + ts, min);
      if t.min == min {
        NoneAt(ts, min);
      }
    } else {
      InsertIsStable(t, ts[1..], min);
      AtCons(ts, min);
      AtCons([ts[0]] + Insert(t, ts[1..]), min);
      assert ([ts[0]] + Insert(t, ts[1..]))[1..] == Insert(t, ts[1..]);
    }
  }

  lemma {:induction false} NoneAt(ts: seq<Tier>, min: int)
    requires forall t <- ts :: t.min > min
    ensures At(ts, min) == []
  {
    if ts != [] {
      NoneAt(ts[1..], min);
    }
  }

  lemma {:induction false} AtAppend(ts: seq<Tier>, t: Tier, min: int)
    ensures At(ts + [t], min) == At(ts, min) + (if t.min == min then [t] else [])
  {
    AtNone(min);
    hide At;
    if ts == [] {
      assert ts + [t] == [t] && [t][1..] == [];
      AtCons([t], min);
    } else {
      assert (ts + [t])[1..] == ts[1..] + [t];
      AtAppend(ts[1..], t, min);
      AtCons(ts, min);
      AtCons(ts + [t], min);
    }
  }

  lemma AtNone(min: int)
    ensures At([], min) == []
  {
  }

  lemma AtCons(ts: seq<Tier>, min: int)
    requires ts != []
    ensures At(ts, min) == if ts[0].min == min then [ts[0]] + At(ts[1..], min) else At(ts[1..], min)
  {
  }

  /** Sorted, a permutation, and stable: equal minima keep their order. */
  lemma {:induction false} SortMeans(ts: seq<Tier>, min: int)
    ensures Sorted(Sort(ts)) && multiset(Sort(ts)) == multiset(ts)
    ensures At(Sort(ts), min) == At(ts, min)
  {
    if ts != [] {
      var front, last := ts[..|ts| - 1], ts[|ts| - 1];
      assert ts == front + [last];
      SortMeans(front, min);
      InsertPermutes(last, Sort(front));
      InsertSorts(last, Sort(front));
      InsertIsStable(last, Sort(front), min);
      AtAppend(front, last, min);
    }
  }

  // ---- thinning -------------------------------------------------------------------------

  /** Where the chain ends: 0 before any tier, None when it is open. */
  function End(kept: seq<Tier>): Option<int> {
    if kept == [] then Some(0) else kept[|kept| - 1].max
  }

  predicate Fits(kept: seq<Tier>, t: Tier) {
    End(kept).Some? && End(kept).value < t.min
  }

  function Thin(ts: seq<Tier>): seq<Tier> {
    if ts == [] then []
    else
      var kept := Thin(ts[..|ts| - 1]);
      if Fits(kept, ts[|ts| - 1]) then kept + [ts[|ts| - 1]] else kept
  }

  function Normalized(rules: PriceRules, raws: seq<RawTier>): seq<Tier> {
    Thin(Sort(Candidates(rules, if |raws| <= MAX_TIERS then raws else raws[..MAX_TIERS])))
  }

  method NormalizedPriceTiers(rules: PriceRules, raws: seq<RawTier>) returns (normalized: seq<Tier>)
    ensures normalized == Normalized(rules, raws)
  {
    var first := if |raws| <= MAX_TIERS then raws else raws[..MAX_TIERS];
    var candidates: seq<Tier> := [];
    for i := 0 to |first|
      invariant candidates == Candidates(rules, first[..i])
    {
      assert first[..i + 1][..i] == first[..i];
      var raw := first[i];
      if raw.NotATier? {
        continue;
      }
      var min := BoundedInteger(raw.min);
      var max := TierMaximum(raw.max);
      var price := rules.compact(raw.price);
      if || min.None? || min.value <= 0 || max.None?
         || (max.value.Some? && max.value.value < min.value)
         || !rules.positive(price) {
        continue;
      }
      candidates := candidates + [Tier(min.value, max.value, price)];
    }
    assert first[..|first|] == first;
    var sorted := Sort(candidates);
    normalized := [];
    var previousMax := Some(0);
    for i := 0 to |sorted|
      invariant normalized == Thin(sorted[..i]) && previousMax == End(normalized)
    {
      assert sorted[..i + 1][..i] == sorted[..i];
      if previousMax.None? || sorted[i].min <= previousMax.value {
        continue;
      }
      normalized := normalized + [sorted[i]];
      previousMax := sorted[i].max;
    }
    assert sorted[..|sorted|] == sorted;
  }

  // ---- the result is a maximal disjoint chain ------------------------------------------------

  predicate Overlap(a: Tier, b: Tier) {
    (a.max.None? || b.min <= a.max.value) && (b.max.None? || a.min <= b.max.value)
  }

  predicate WellFormed(t: Tier) {
    0 < t.min && (t.max.Some? ==> t.min <= t.max.value)
  }

  /** Each tier closes before the next one opens. */
  predicate Chain(ts: seq<Tier>) {
    && (forall t <- ts :: WellFormed(t))
    && forall i, j | 0 <= i < j < |ts| :: ts[i].max.Some? && ts[i].max.value < ts[j].min
  }

  lemma {:induction false} ThinIsChain(ts: seq<Tier>)
    requires forall t <- ts :: WellFormed(t)
    ensures Chain(Thin(ts)) && |Thin(ts)| <= |ts|
    ensures forall t <- Thin(ts) :: t in ts
  {
    if ts != [] {
      var front, last := ts[..|ts| - 1], ts[|ts| - 1];
      assert (forall t <- front :: t in ts) && last in ts && ts == front + [last];
      ThinIsChain(front);
      ThinAppend(front, last);
      hide Thin, Chain, Fits;
      if Fits(Thin(front), last) {
        ChainAppend(Thin(front), last);
      }
    }
  }

  lemma ThinAppend(front: seq<Tier>, last: Tier)
    ensures Thin(front + [last]) == if Fits(Thin(front), last) then Thin(front) + [last] else Thin(front)
  {
    assert (front + [last])[..|front|] == front;
  }

  lemma ChainAppend(kept: seq<Tier>, t: Tier)
    requires Chain(kept) && Fits(kept, t) && WellFormed(t)
    ensures Chain(kept + [t])
  {
    if kept != [] {
      var n := |kept| - 1;
      assert kept[n] in kept;
      assert forall i | 0 <= i < n :: kept[i].max.Some? && kept[i].max.value < kept[n].min;
    }
  }

  /** A candidate is kept, or overlaps a kept tier that starts no later. */
  predicate Accounted(c: Tier, kept: seq<Tier>) {
    c in kept || exists k <- kept :: k.min <= c.min && Overlap(k, c)
  }

  lemma {:induction false} ThinIsMaximal(ts: seq<Tier>)
    requires Sorted(ts) && forall t <- ts :: WellFormed(t)
    ensures forall c <- ts :: Accounted(c, Thin(ts))
  {
    if ts != [] {
      var front, last := ts[..|ts| - 1], ts[|ts| - 1];
      assert (forall t <- front :: t in ts) && last in ts && ts == front + [last];
      ThinIsMaximal(front);
      ThinIsChain(front);
      ThinAppend(front, last);
      LastAccounted(front, last);
      hide Thin, Chain, Accounted, Fits;
      forall c | c in ts
        ensures Accounted(c, Thin(ts))
      {
        assert c in front || c == last;
        if c in front {
          MoreAccounts(c, Thin(front), Thin(ts));
        }
      }
    }
  }

  lemma LastAccounted(front: seq<Tier>, last: Tier)
    requires Sorted(front + [last]) && WellFormed(last) && forall t <- front :: WellFormed(t)
    ensures Accounted(last, Thin(front + [last]))
  {
    ThinIsChain(front);
    ThinAppend(front, last);
    hide Thin, Chain;
    var kept := Thin(front);
    if Fits(kept, last) {
      assert last in kept + [last];
    } else {
      var k := kept[|kept| - 1];
      assert k in kept && k in front;
      var i :| 0 <= i < |front| && front[i] == k;
      assert (front + [last])[i] == k && (front + [last])[|front|] == last;
      assert k.min <= last.min && Overlap(k, last);
    }
  }

  lemma MoreAccounts(c: Tier, few: seq<Tier>, many: seq<Tier>)
    requires Accounted(c, few) && forall k <- few :: k in many
    ensures Accounted(c, many)
  {
  }

  lemma {:induction false} CandidatesAreWellFormed(rules: PriceRules, raws: seq<RawTier>)
    ensures |Candidates(rules, raws)| <= |raws|
    ensures forall t :: t in Candidates(rules, raws) <==> exists r <- raws :: Candidate(rules, r) == Some(t)
    ensures forall t <- Candidates(rules, raws) :: WellFormed(t)
  {
    if raws != [] {
      var front, last := raws[..|raws| - 1], raws[|raws| - 1];
      CandidatesAreWellFormed(rules, front);
      assert forall r :: r in raws <==> r in front || r == last;
    }
  }

  /**
   The tiers form a maximal disjoint chain: strictly sorted, pairwise disjoint,
   all taken from the valid candidates, and every valid candidate among the
   first twenty is kept or overlaps a kept tier starting no later.
   */
  lemma TiersAreMaximalChain(rules: PriceRules, raws: seq<RawTier>)
    ensures var tiers := Normalized(rules, raws);
      && |tiers| <= MAX_TIERS
      && Chain(tiers)
      && (forall i, j | 0 <= i < j < |tiers| :: tiers[i].min < tiers[j].min && !Overlap(tiers[i], tiers[j]))
      && (forall t <- tiers :: exists r <- raws :: Candidate(rules, r) == Some(t))
      && (forall n, t | 0 <= n < |raws| && n < MAX_TIERS && Candidate(rules, raws[n]) == Some(t) :: Accounted(t, tiers))
  {
    var first := if |raws| <= MAX_TIERS then raws else raws[..MAX_TIERS];
    var candidates := Candidates(rules, first);
    CandidatesAreWellFormed(rules, first);
    SortMeans(candidates, 0);
    SamePopulation(Sort(candidates), candidates);
    ThinIsChain(Sort(candidates));
    ThinIsMaximal(Sort(candidates));
    var tiers := Thin(Sort(candidates));
    ChainSpreads(tiers);
    forall t | t in tiers
      ensures exists r <- raws :: Candidate(rules, r) == Some(t)
    {
      var r :| r in first && Candidate(rules, r) == Some(t);
      assert r in raws;
    }
    forall n, t | 0 <= n < |raws| && n < MAX_TIERS && Candidate(rules, raws[n]) == Some(t)
      ensures Accounted(t, tiers)
    {
      assert first[n] in first;
    }
  }

  lemma SamePopulation(a: seq<Tier>, b: seq<Tier>)
    requires multiset(a) == multiset(b)
    ensures |a| == |b| && forall t :: t in a <==> t in b
  {
    assert |multiset(a)| == |a| && |multiset(b)| == |b|;
    assert forall t :: t in a <==> t in multiset(a);
    assert forall t :: t in b <==> t in multiset(b);
  }

  lemma ChainSpreads(ts: seq<Tier>)
    requires Chain(ts)
    ensures forall i, j | 0 <= i < j < |ts| :: ts[i].min < ts[j].min && !Overlap(ts[i], ts[j])
  {
    assert forall i | 0 <= i < |ts| :: ts[i] in ts;
  }

  /** `v` is the integer `n`, written as a number without a fraction or as text, in at most twenty digits. */
  predicate Says(v: Raw, n: int) {
    || (v == Int(n) && -100_000_000_000_000_000_000 < n < 100_000_000_000_000_000_000)
    || (v == Float(true, n) && -100_000_000_000_000_000_000 < n < 100_000_000_000_000_000_000)
    || (v.Text? && v.number == Some(n))
  }

  /** An upper end that stands for "and more": absent, empty, 0 or -1. */
  predicate SaysOpen(v: Raw) {
    v.Null? || (v.Text? && v.blank) || Says(v, 0) || Says(v, -1)
  }

  /**
   Which raw tiers are valid, and as what: a positive minimum, an upper end that is
   open or not below it, and a positive price.
   */
  lemma CandidateExactly(rules: PriceRules, raw: RawTier, t: Tier)
    ensures Candidate(rules, raw) == Some(t) <==>
      && raw.RawTier? && Says(raw.min, t.min) && 0 < t.min
      && (if t.max.None? then SaysOpen(raw.max) else Says(raw.max, t.max.value) && !SaysOpen(raw.max) && t.min <= t.max.value)
      && t.price == rules.compact(raw.price) && rules.positive(t.price)
  {
  }

  /** A valid tier that stands alone is the answer, and only the first twenty raw tiers are looked at. */
  lemma LoneTierStays(rules: PriceRules, raw: RawTier, raws: seq<RawTier>)
    ensures Normalized(rules, [raw]) == (match Candidate(rules, raw) case None => [] case Some(t) => [t])
    ensures |raws| > 20 ==> Normalized(rules, raws) == Normalized(rules, raws[..20])
  {
    hide Candidate, Candidates, Sort, Thin;
    CandidatesOne(rules, raw);
    SortAndThinOne(Candidate(rules, raw));
    if |raws| > 20 {
      assert raws[..20][..20] == raws[..20];
    }
  }

  lemma CandidatesOne(rules: PriceRules, raw: RawTier)
    ensures Candidates(rules, [raw]) == (match Candidate(rules, raw) case None => [] case Some(t) => [t])
    ensures forall t :: Candidate(rules, raw) == Some(t) ==> 0 < t.min
  {
    forall t | Candidate(rules, raw) == Some(t)
      ensures 0 < t.min
    {
      CandidateExactly(rules, raw, t);
    }
    hide Candidate;
    assert [raw][..0] == [];
    assert Candidates(rules, [raw][..0]) == [];
  }

  lemma SortAndThinOne(t: Option<Tier>)
    requires t.Some? ==> 0 < t.value.min
    ensures Thin(Sort([])) == []
    ensures t.Some? ==> Thin(Sort([t.value])) == [t.value]
  {
    if t.Some? {
      var ts := [t.value];
      assert ts[..0] == [] && Sort(ts) == Insert(t.value, []) == ts;
      assert Thin(ts) == [] + ts;
    }
  }

  /** Any quantity lies in at most one tier, so the order-quantity price is unambiguous. */
  lemma OneTierPerQuantity(rules: PriceRules, raws: seq<RawTier>, quantity: int, i: nat, j: nat)
    requires i < |Normalized(rules, raws)| && j < |Normalized(rules, raws)|
    requires var t := Normalized(rules, raws)[i]; t.min <= quantity && (t.max.Some? ==> quantity <= t.max.value)
    requires var t := Normalized(rules, raws)[j]; t.min <= quantity && (t.max.Some? ==> quantity <= t.max.value)
    ensures i == j
  {
    TiersAreMaximalChain(rules, raws);
  }

  // ---- normalizing again changes nothing ------------------------------------------------------

  /** A tier as it is read back from the first normalization. */
  function AsRaw(t: Tier): RawTier {
    RawTier(Int(t.min), if t.max.None? then Null else Int(t.max.value), t.price)
  }

  function AsRaws(ts: seq<Tier>): seq<RawTier> {
    seq(|ts|, i requires 0 <= i < |ts| => AsRaw(ts[i]))
  }

  predicate InRange(rules: PriceRules, t: Tier) {
    && -DIGIT_BOUND < t.min < DIGIT_BOUND
    && (t.max.Some? ==> -DIGIT_BOUND < t.max.value < DIGIT_BOUND)
    && rules.compact(t.price) == t.price && rules.positive(t.price)
  }

  lemma CandidateInRange(rules: PriceRules, raw: RawTier, t: Tier)
    requires Candidate(rules, raw) == Some(t)
    requires forall s :: rules.compact(rules.compact(s)) == rules.compact(s)
    requires TextFits(raw.min) && TextFits(raw.max)
    ensures InRange(rules, t) && Candidate(rules, AsRaw(t)) == Some(t)
  {
  }

  /** A text's number has at most twenty digits. */
  predicate TextFits(v: Raw) {
    v.Text? && v.number.Some? ==> -DIGIT_BOUND < v.number.value < DIGIT_BOUND
  }

  lemma {:induction false} CandidatesOfTiers(rules: PriceRules, ts: seq<Tier>)
    requires forall t <- ts :: Candidate(rules, AsRaw(t)) == Some(t)
    ensures Candidates(rules, AsRaws(ts)) == ts
  {
    if ts != [] {
      var front, last := ts[..|ts| - 1], ts[|ts| - 1];
      assert AsRaws(ts)[..|ts| - 1] == AsRaws(front) && last in ts && forall t <- front :: t in ts;
      CandidatesOfTiers(rules, front);
    }
  }

  lemma {:induction false} InsertLast(t: Tier, ts: seq<Tier>)
    requires forall x <- ts :: x.min <= t.min
    ensures Insert(t, ts) == ts + [t]
  {
    if ts != [] {
      InsertLast(t, ts[1..]);
    }
  }

  lemma ChainEnds(front: seq<Tier>, last: Tier)
    requires Chain(front + [last])
    ensures Chain(front) && Fits(front, last) && forall x <- front :: x.min <= last.min
  {
    var ts, n := front + [last], |front|;
    assert forall x <- front :: x in ts;
    assert ts[n] == last && last in ts;
    assert forall i | 0 <= i < n :: ts[i] == front[i] && ts[i].max.Some? && ts[i].max.value < last.min;
    assert forall x <- front :: WellFormed(x);
  }

  lemma {:induction false} ChainIsFixed(ts: seq<Tier>)
    requires Chain(ts)
    ensures Sort(ts) == ts && Thin(ts) == ts
  {
    hide Chain, Fits;
    if ts != [] {
      var front, last := ts[..|ts| - 1], ts[|ts| - 1];
      assert ts == front + [last];
      ChainEnds(front, last);
      ChainIsFixed(front);
      InsertLast(last, front);
    }
  }

  /** Normalizing the normalized tiers changes nothing. */
  lemma NormalizingIsIdempotent(rules: PriceRules, raws: seq<RawTier>)
    requires forall s :: rules.compact(rules.compact(s)) == rules.compact(s)
    requires forall r <- raws :: r.RawTier? ==> TextFits(r.min) && TextFits(r.max)
    ensures Normalized(rules, AsRaws(Normalized(rules, raws))) == Normalized(rules, raws)
  {
    var tiers := Normalized(rules, raws);
    TiersAreMaximalChain(rules, raws);
    forall t | t in tiers
      ensures Candidate(rules, AsRaw(t)) == Some(t)
    {
      var r :| r in raws && Candidate(rules, r) == Some(t);
      CandidateInRange(rules, r, t);
    }
    CandidatesOfTiers(rules, tiers);
    ChainIsFixed(tiers);
  }
}
