/**
 The Cache-Control policy of a shared cache that cannot revalidate
 (sections 1.2.2 and 5.2.2 of RFC 9111).
 */
module CacheControl {
  import opened Basics
  import opened Text

  const MAX_DELTA: nat := 2_147_483_648

  datatype AgeKind = MaxAge | SMaxAge

  datatype Directive =
    | Blank
    | Restricts                          // private, no-cache, no-store
    | BadAge                             // an age without a usable value
    | Age(kind: AgeKind, seconds: nat)   // clamped
    | Unknown

  datatype Policy = Refused | Unlimited | Limited(seconds: nat)

  // ---- one directive -------------------------------------------------------

  /** The zeros of some decimal digit blocks; `\d` accepts every script's digits. */
  const ZEROS: seq<char> := ['0', '\U{660}', '\U{6F0}', '\U{966}', '\U{FF10}']

  predicate IsDigit(c: char) {
    exists z | z in ZEROS :: z <= c <= z + 9 as char
  }

  function DigitValue(c: char): (d: nat)
    requires IsDigit(c)
    ensures d <= 9
    ensures d == 0 <==> c in ZEROS
  {
    if '0' <= c <= '9' then (c - '0') as nat
    else if '\U{660}' <= c <= '\U{669}' then (c - '\U{660}') as nat
    else if '\U{6F0}' <= c <= '\U{6F9}' then (c - '\U{6F0}') as nat
    else if '\U{966}' <= c <= '\U{96F}' then (c - '\U{966}') as nat
    else (c - '\U{FF10}') as nat
  }

  predicate AllDigits(s: string) {
    forall c <- s :: IsDigit(c)
  }

  /** What `int` makes of a digit string. */
  function Value(s: string): nat
    requires AllDigits(s)
  {
    if s == "" then 0 else 10 * Value(s[..|s| - 1]) + DigitValue(s[|s| - 1])
  }

  function StripZeros(s: string): string {
    if s != "" && s[0] == '0' then StripZeros(s[1..]) else s
  }

  function Min(a: nat, b: nat): nat {
    if a <= b then a else b
  }

  /** The length-based clamp: more than ten significant digits are not even read. */
  function Clamp(s: string): nat
    requires AllDigits(s)
  {
    var significant := StripZeros(s);
    SignificantDigits(s);
    if |significant| > 10 then MAX_DELTA else Min(Value(significant), MAX_DELTA)
  }

  lemma {:induction false} SignificantDigits(s: string)
    requires AllDigits(s)
    ensures AllDigits(StripZeros(s))
  {
    if s != "" && s[0] == '0' {
      assert forall c <- s[1..] :: c in s;
      SignificantDigits(s[1..]);
    }
  }

  /** The digits of an age value: bare or in one pair of quotes, spaces around. */
  function AgeText(value: string): Option<string> {
    var v := Strip(value);
    var inner := if |v| >= 2 && v[0] == '"' && v[|v| - 1] == '"' then v[1..|v| - 1] else v;
    if inner != "" && AllDigits(inner) then Some(inner) else None
  }

  function Classify(raw: string): Directive {
    var directive := Strip(raw);
    var k := IndexOf(directive, '=', 0);
    var name := Lower(Strip(directive[..k]));
    if directive == "" then Blank
    else if name in {"private", "no-cache", "no-store"} then Restricts
    else if name !in {"max-age", "s-maxage"} then Unknown
    else if k == |directive| then BadAge
    else
      match AgeText(directive[k + 1..])
      case None => BadAge
      case Some(digits) => Age(if name == "max-age" then MaxAge else SMaxAge, Clamp(digits))
  }

  // ---- the whole field: a reference that only looks at the set --------------

  ghost predicate Refuses(ds: set<Directive>) {
    || Restricts in ds
    || BadAge in ds
    || (exists kind :: Age(kind, 0) in ds)
    || (exists kind, a, b :: a != b && Age(kind, a) in ds && Age(kind, b) in ds)
  }

  ghost predicate HasAge(ds: set<Directive>, kind: AgeKind) {
    exists a :: Age(kind, a) in ds
  }

  ghost function PolicyOf(ds: set<Directive>): Policy {
    if Refuses(ds) then Refused
    else if HasAge(ds, SMaxAge) then var a :| Age(SMaxAge, a) in ds; Limited(a)
    else if HasAge(ds, MaxAge) then var a :| Age(MaxAge, a) in ds; Limited(a)
    else Unlimited
  }

  ghost function Directives(raws: seq<string>): set<Directive> {
    set raw <- raws :: Classify(raw)
  }

  ghost function HeaderPolicy(header: Option<string>): Policy {
    if header.None? || header.value == "" then Unlimited else PolicyOf(Directives(Split(header.value, ',')))
  }

  ghost predicate Gathered(seen: set<Directive>, kind: AgeKind, ages: seq<nat>) {
    forall a :: Age(kind, a) in seen <==> a in ages
  }

  predicate AllSame(ages: seq<nat>) {
    forall i | 0 <= i < |ages| :: ages[i] == ages[0]
  }

  /** The loop of the cache: it stops at the first refusal it meets. */
  method CachePolicy(header: Option<string>) returns (policy: Policy)
    ensures policy == HeaderPolicy(header)
  {
    if header.None? || header.value == "" {
      return Unlimited;
    }
    var raws := Split(header.value, ',');
    var maxAges: seq<nat>, sMaxAges: seq<nat> := [], [];
    ghost var all := Directives(raws);
    ghost var seen: set<Directive> := {};
    for i := 0 to |raws|
      invariant seen == Directives(raws[..i]) && seen <= all
      invariant Restricts !in seen && BadAge !in seen
      invariant 0 !in maxAges && 0 !in sMaxAges
      invariant Gathered(seen, MaxAge, maxAges) && Gathered(seen, SMaxAge, sMaxAges)
    {
      var d := Classify(raws[i]);
      assert raws[i] in raws;
      assert raws[..i + 1] == raws[..i] + [raws[i]];
      assert Directives(raws[..i + 1]) == seen + {d};
      seen := seen + {d};
      match d
      case Blank | Unknown =>
      case Restricts | BadAge =>
        return Refused;
      case Age(kind, seconds) =>
        if seconds == 0 {
          assert Age(kind, 0) in all;
          return Refused;
        }
        if kind == MaxAge {
          maxAges := maxAges + [seconds];
        } else {
          sMaxAges := sMaxAges + [seconds];
        }
    }
    assert raws[..|raws|] == raws;
    if !AllSame(maxAges) || !AllSame(sMaxAges) {
      ConflictRefuses(all, maxAges, sMaxAges);
      return Refused;
    }
    var selected := if sMaxAges != [] then sMaxAges else maxAges;
    AgreementAccepts(all, maxAges, sMaxAges);
    policy := if selected != [] then Limited(selected[0]) else Unlimited;
  }

  lemma ConflictRefuses(ds: set<Directive>, maxAges: seq<nat>, sMaxAges: seq<nat>)
    requires Gathered(ds, MaxAge, maxAges) && Gathered(ds, SMaxAge, sMaxAges)
    requires !AllSame(maxAges) || !AllSame(sMaxAges)
    ensures Refuses(ds)
  {
    var kind, ages := if !AllSame(maxAges) then MaxAge else SMaxAge, if !AllSame(maxAges) then maxAges else sMaxAges;
    var i :| 0 <= i < |ages| && ages[i] != ages[0];
    assert Age(kind, ages[i]) in ds && Age(kind, ages[0]) in ds;
  }

  lemma AgreementAccepts(ds: set<Directive>, maxAges: seq<nat>, sMaxAges: seq<nat>)
    requires Gathered(ds, MaxAge, maxAges) && Gathered(ds, SMaxAge, sMaxAges)
    requires AllSame(maxAges) && AllSame(sMaxAges) && 0 !in maxAges && 0 !in sMaxAges
    requires Restricts !in ds && BadAge !in ds
    ensures PolicyOf(ds) == if sMaxAges != [] then Limited(sMaxAges[0])
                            else if maxAges != [] then Limited(maxAges[0]) else Unlimited
  {
    forall kind, a, b | Age(kind, a) in ds && Age(kind, b) in ds
      ensures a == b && a != 0
    {
      var ages := if kind == MaxAge then maxAges else sMaxAges;
      assert a in ages && b in ages;
    }
    assert sMaxAges != [] ==> Age(SMaxAge, sMaxAges[0]) in ds;
    assert maxAges != [] ==> Age(MaxAge, maxAges[0]) in ds;
  }

  // ---- order-free and fail-closed ------------------------------------------

  /** The early return for an empty header is no special case. */
  lemma TextPolicy(header: string)
    ensures HeaderPolicy(Some(header)) == PolicyOf(Directives(Split(header, ',')))
  {
    if header == "" {
      assert Split(header, ',') == [""];
      assert Directives([""]) == {Blank} by {
        assert "" in [""];
      }
    }
  }

  function Members(raws: seq<string>): set<string> {
    set raw | raw in raws
  }

  /** Permuting or repeating directives never changes the answer. */
  lemma OrderFree(a: seq<string>, b: seq<string>)
    requires a != [] && b != [] && (forall raw <- a + b :: ',' !in raw)
    requires Members(a) == Members(b)
    ensures HeaderPolicy(Some(Join(a, ','))) == HeaderPolicy(Some(Join(b, ',')))
  {
    assert forall raw <- a :: raw in a + b;
    assert forall raw <- b :: raw in a + b;
    TextPolicy(Join(a, ','));
    TextPolicy(Join(b, ','));
    SplitJoin(a, ',');
    SplitJoin(b, ',');
    forall raw
      ensures raw in a <==> raw in b
    {
      assert raw in Members(a) <==> raw in Members(b);
    }
    assert Directives(a) == Directives(b);
  }

  lemma RefusesMonotone(small: set<Directive>, large: set<Directive>)
    requires small <= large && Refuses(small)
    ensures Refuses(large)
  {
  }

  /** Whatever is appended or prepended to a refused header, it stays refused. */
  lemma FailClosed(header: string, more: string)
    requires HeaderPolicy(Some(header)).Refused?
    ensures HeaderPolicy(Some(header + "," + more)).Refused?
    ensures HeaderPolicy(Some(more + "," + header)).Refused?
  {
    SplitAppend(header, ',', more);
    SplitAppend(more, ',', header);
    var ds, es := Directives(Split(header, ',')), Directives(Split(more, ','));
    RefusesMonotone(ds, Directives(Split(header, ',') + Split(more, ',')));
    RefusesMonotone(ds, Directives(Split(more, ',') + Split(header, ',')));
  }

  /** An accepted s-maxage decides alone; max-age only speaks in its absence. */
  lemma SharedAgeOverrides(ds: set<Directive>, a: nat)
    requires !Refuses(ds) && Age(SMaxAge, a) in ds
    ensures PolicyOf(ds) == Limited(a)
    ensures PolicyOf(ds - (set d | d in ds && d.Age? && d.kind == MaxAge)) == Limited(a)
  {
    var rest := ds - (set d | d in ds && d.Age? && d.kind == MaxAge);
    assert Age(SMaxAge, a) in rest;
    if Refuses(rest) {
      RefusesMonotone(rest, ds);
    }
  }

  /** A granted lifetime is positive, at most 2^31 and stated by the origin. */
  lemma GrantedAgeIsStated(raws: seq<string>, a: nat)
    requires PolicyOf(Directives(raws)) == Limited(a)
    ensures 0 < a <= MAX_DELTA
    ensures exists raw <- raws, kind :: Classify(raw) == Age(kind, a)
  {
    var ds := Directives(raws);
    var kind :| Age(kind, a) in ds;
    var raw :| raw in raws && Classify(raw) == Age(kind, a);
    assert a != 0;
  }

  // ---- the clamp -----------------------------------------------------------

  function Pow10(n: nat): nat {
    if n == 0 then 1 else 10 * Pow10(n - 1)
  }

  /** Zeros of any script stripped from the left. */
  function StripAnyZeros(s: string): (t: string)
    ensures t != "" ==> t[0] !in ZEROS
  {
    if s != "" && s[0] in ZEROS then StripAnyZeros(s[1..]) else s
  }

  lemma {:induction false} LeadingZero(s: string)
    requires AllDigits(s) && s != "" && s[0] in ZEROS
    ensures AllDigits(s[1..]) && Value(s[1..]) == Value(s)
  {
    assert forall c <- s[1..] :: c in s;
    assert s[0] in s;
    if |s| > 1 {
      var front := s[..|s| - 1];
      assert forall c <- front :: c in s;
      LeadingZero(front);
      assert front[1..] == s[1..][..|s| - 2];
    }
  }

  lemma {:induction false} ZerosWorthNothing(s: string)
    requires AllDigits(s)
    ensures AllDigits(StripZeros(s)) && Value(StripZeros(s)) == Value(s)
    ensures AllDigits(StripAnyZeros(s)) && Value(StripAnyZeros(s)) == Value(s)
    ensures StripAnyZeros(StripZeros(s)) == StripAnyZeros(s)
    ensures |StripAnyZeros(s)| <= |StripZeros(s)|
  {
    if s != "" && s[0] in ZEROS {
      LeadingZero(s);
      ZerosWorthNothing(s[1..]);
      StripAnyShortens(s[1..]);
    }
  }

  lemma {:induction false} StripAnyShortens(s: string)
    ensures |StripAnyZeros(s)| <= |s|
  {
    if s != "" && s[0] in ZEROS {
      StripAnyShortens(s[1..]);
    }
  }

  lemma {:induction false} ValueSize(s: string)
    requires AllDigits(s)
    ensures Value(s) < Pow10(|s|)
    ensures s != "" && s[0] !in ZEROS ==> Pow10(|s| - 1) <= Value(s)
  {
    if s != "" {
      var front := s[..|s| - 1];
      assert forall c <- front :: c in s;
      assert s[|s| - 1] in s;
      ValueSize(front);
    }
  }

  lemma {:induction false} Pow10Grows(m: nat, n: nat)
    requires m <= n
    ensures Pow10(m) <= Pow10(n)
  {
    if m < n {
      Pow10Grows(m, n - 1);
    }
  }

  lemma Pow10Facts()
    ensures Pow10(9) == 1_000_000_000 && Pow10(10) == 10_000_000_000
  {
    assert Pow10(4) == 10_000;
    assert Pow10(8) == 100_000_000;
  }

  /** A digit string's own magnitude, readable off its length and leading digits. */
  predicate ReachesDelta(s: string)
    requires AllDigits(s)
  {
    ZerosWorthNothing(s);
    var t := StripAnyZeros(s);
    |t| > 10 || (|t| == 10 && Value(t) >= MAX_DELTA)
  }

  /**
   When the length-based clamp is min(value, 2^31): exactly when at most ten
   characters are left after the ASCII zeros, or the number really is that big.
   */
  lemma ClampExact(s: string)
    requires AllDigits(s)
    ensures Clamp(s) == Min(Value(s), MAX_DELTA) <==> |StripZeros(s)| <= 10 || ReachesDelta(s)
  {
    ZerosWorthNothing(s);
    Pow10Facts();
    var t := StripAnyZeros(s);
    ValueSize(t);
    if |t| > 10 {
      Pow10Grows(10, |t| - 1);
    } else if |t| < 10 {
      Pow10Grows(|t|, 9);
    }
  }

  /** It is right on every string of ASCII digits, however long. */
  lemma ClampOnAscii(s: string)
    requires forall c <- s :: '0' <= c <= '9'
    ensures AllDigits(s) && Clamp(s) == Min(Value(s), MAX_DELTA)
  {
    assert forall c <- s :: '0' in ZEROS && IsDigit(c);
    ClampExact(s);
    AsciiZeros(s);
  }

  lemma {:induction false} AsciiZeros(s: string)
    requires forall c <- s :: '0' <= c <= '9'
    ensures StripAnyZeros(s) == StripZeros(s)
  {
    if s != "" {
      assert s[0] in s;
      assert forall c <- s[1..] :: c in s;
      AsciiZeros(s[1..]);
    }
  }

  /** A five behind `n` Arabic-Indic zeros. */
  function PaddedFive(n: nat): string {
    seq(n, _ => '\U{660}') + "5"
  }

  lemma {:induction false} PaddedFiveIsFive(n: nat)
    ensures AllDigits(PaddedFive(n)) && Value(PaddedFive(n)) == 5
  {
    var s := PaddedFive(n);
    assert '0' in ZEROS && '\U{660}' in ZEROS;
    if n > 0 {
      assert s[1..] == PaddedFive(n - 1);
      PaddedFiveIsFive(n - 1);
      assert s == [s[0]] + s[1..];
      LeadingZero(s);
    }
  }

  /** ... but not in general: ten Arabic-Indic zeros and a five are read as 2^31. */
  lemma ClampOvershoots(n: nat)
    requires n >= 10
    ensures AllDigits(PaddedFive(n)) && Value(PaddedFive(n)) == 5 && Clamp(PaddedFive(n)) == MAX_DELTA
  {
    hide Value;
    PaddedFiveIsFive(n);
    assert StripZeros(PaddedFive(n)) == PaddedFive(n);
  }
}
