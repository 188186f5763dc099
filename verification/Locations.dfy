/**
 Matching a board's location value against a wanted place, with every spelling
 of a country meaning the same constraint.

 The tables are parameters: the spellings of each country, and the subdivisions
 by name and by abbreviation.
 */
module Locations {
  import opened Jobfilter

  type Words = seq<string>

  /** One country: its code and every token spelling of it. */
  datatype Country = Country(code: string, spellings: seq<Words>)

  // ---- variants of the wanted words ----------------------------------------------

  predicate OccursAt(words: Words, w: Words, k: nat) {
    k + |w| <= |words| && words[k..k + |w|] == w
  }

  function Respelled(words: Words, k: nat, size: nat, other: Words): Words
    requires k + size <= |words|
  {
    words[..k] + other + words[k + size..]
  }

  /** `v` is `wanted` with one spelling of some country replaced by another of its spellings. */
  ghost predicate RespelledAs(country: Country, wanted: Words, v: Words) {
    exists alias, k: nat, other ::
      && alias in country.spellings && other in country.spellings && other != alias
      && OccursAt(wanted, alias, k) && v == Respelled(wanted, k, |alias|, other)
  }

  ghost predicate IsVariant(table: seq<Country>, wanted: Words, v: Words) {
    v == wanted || exists country <- table :: RespelledAs(country, wanted, v)
  }

  ghost predicate RespelledAt(country: Country, alias: Words, k: nat, wanted: Words, v: Words) {
    && OccursAt(wanted, alias, k)
    && exists other <- country.spellings :: other != alias && v == Respelled(wanted, k, |alias|, other)
  }

  /** The innermost loop: all other spellings at one occurrence. */
  method OthersAt(country: Country, alias: Words, k: nat, wanted: Words) returns (vs: seq<Words>)
    requires OccursAt(wanted, alias, k)
    ensures forall v :: v in vs <==> RespelledAt(country, alias, k, wanted, v)
  {
    vs := [];
    for n := 0 to |country.spellings|
      invariant forall v :: v in vs <==>
                  exists m | 0 <= m < n :: country.spellings[m] != alias && v == Respelled(wanted, k, |alias|, country.spellings[m])
    {
      if country.spellings[n] != alias {
        vs := vs + [Respelled(wanted, k, |alias|, country.spellings[n])];
      }
    }
  }

  /** The loop over start positions for one spelling. */
  method VariantsOf(country: Country, alias: Words, wanted: Words) returns (vs: seq<Words>)
    ensures forall v :: v in vs <==> exists k: nat :: RespelledAt(country, alias, k, wanted, v)
  {
    vs := [];
    if |alias| > |wanted| {
      return;
    }
    for k := 0 to |wanted| - |alias| + 1
      invariant forall v :: v in vs <==> exists j: nat | j < k :: RespelledAt(country, alias, j, wanted, v)
    {
      if wanted[k..k + |alias|] == alias {
        var more := OthersAt(country, alias, k, wanted);
        vs := vs + more;
      }
    }
  }

  method CountryVariants(table: seq<Country>, wanted: Words) returns (vs: seq<Words>)
    ensures forall v :: v in vs <==> IsVariant(table, wanted, v)
  {
    vs := [wanted];
    for i := 0 to |table|
      invariant forall v :: v in vs <==> v == wanted || exists c <- table[..i] :: RespelledAs(c, wanted, v)
    {
      var country := table[i];
      var own: seq<Words> := [];
      for n := 0 to |country.spellings|
        invariant forall v :: v in own <==>
                    exists m: nat, k: nat | m < n :: RespelledAt(country, country.spellings[m], k, wanted, v)
      {
        var more := VariantsOf(country, country.spellings[n], wanted);
        own := own + more;
      }
      forall v
        ensures v in own <==> RespelledAs(country, wanted, v)
      {
        OwnVariants(country, wanted, v);
      }
      assert table[..i + 1] == table[..i] + [country];
      vs := vs + own;
    }
    assert table[..|table|] == table;
  }

  lemma OwnVariants(country: Country, wanted: Words, v: Words)
    ensures RespelledAs(country, wanted, v) <==>
            exists m: nat, k: nat | m < |country.spellings| :: RespelledAt(country, country.spellings[m], k, wanted, v)
  {
    if RespelledAs(country, wanted, v) {
      var alias, k: nat, other :|
        && alias in country.spellings && other in country.spellings && other != alias
        && OccursAt(wanted, alias, k) && v == Respelled(wanted, k, |alias|, other);
      var m :| 0 <= m < |country.spellings| && country.spellings[m] == alias;
      assert RespelledAt(country, country.spellings[m], k, wanted, v);
    }
    if m: nat, k: nat :| m < |country.spellings| && RespelledAt(country, country.spellings[m], k, wanted, v) {
      var other :| other in country.spellings && other != country.spellings[m]
        && v == Respelled(wanted, k, |country.spellings[m]|, other);
      assert country.spellings[m] in country.spellings;
    }
  }

  // ---- matching --------------------------------------------------------------------

  /** The value's words, plus every spelling of the countries its subdivisions imply. */
  function Extended(table: seq<Country>, have: Words, implied: set<string>): Words {
    if table == [] then have
    else Extended(table[..|table| - 1], have, implied)
         + (if table[|table| - 1].code in implied then Flat(table[|table| - 1].spellings) else [])
  }

  function Flat(spellings: seq<Words>): Words {
    if spellings == [] then [] else spellings[0] + Flat(spellings[1..])
  }

  ghost predicate Matches(table: seq<Country>, have: Words, implied: set<string>, wanted: Words) {
    || wanted == []
    || (have != [] && exists v :: IsVariant(table, wanted, v) && AllHit(v, Extended(table, have, implied)))
  }

  method LocationMatches(table: seq<Country>, value: Words, implied: set<string>, wanted: Words) returns (matches: bool)
    ensures matches <==> Matches(table, value, implied, wanted)
  {
    if wanted == [] {
      return true;
    }
    if value == [] {
      return false;
    }
    var have := value;
    for i := 0 to |table|
      invariant have == Extended(table[..i], value, implied)
    {
      assert table[..i + 1][..i] == table[..i];
      if table[i].code in implied {
        have := have + Flat(table[i].spellings);
      }
    }
    assert table[..|table|] == table;
    var variants := CountryVariants(table, wanted);
    for n := 0 to |variants|
      invariant forall m | 0 <= m < n :: !AllHit(variants[m], have)
    {
      if AllHit(variants[n], have) {
        assert IsVariant(table, wanted, variants[n]);
        return true;
      }
    }
    forall v | IsVariant(table, wanted, v)
      ensures !AllHit(v, have)
    {
      assert v in variants;
    }
    return false;
  }

  // ---- country spellings are interchangeable -----------------------------------------

  /**
   However the one country in `head + spelling + tail` is spelled, every spelling
   that occurs in the words lies inside that spelling and belongs to the country.
   */
  ghost predicate OneCountry(table: seq<Country>, country: Country, head: Words, tail: Words) {
    && country in table
    && forall x, other, alias, k: nat ::
         x in country.spellings && other in table && alias in other.spellings && OccursAt(head + x + tail, alias, k) ==>
           other == country && |head| <= k && k + |alias| <= |head| + |x|
  }

  lemma FewerWordsHit(few: Words, many: Words, have: Words)
    requires AllHit(many, have) && forall w <- few :: w in many
    ensures AllHit(few, have)
  {
  }

  lemma RespelledInside(head: Words, a: Words, tail: Words, alias: Words, k: nat, o: Words)
    requires |head| <= k && k + |alias| <= |head| + |a|
    ensures forall w <- head + o + tail :: w in Respelled(head + a + tail, k, |alias|, o)
  {
    var wanted := head + a + tail;
    var v := Respelled(wanted, k, |alias|, o);
    assert wanted[..k][..|head|] == head;
    assert wanted[k + |alias|..][|head| + |a| - k - |alias|..] == tail;
  }

  /** Every variant still contains head, tail and some whole spelling of the country. */
  lemma VariantContainsSpelling(table: seq<Country>, country: Country, head: Words, a: Words, tail: Words, v: Words, have: Words)
    requires OneCountry(table, country, head, tail) && a in country.spellings
    requires IsVariant(table, head + a + tail, v) && AllHit(v, have)
    ensures exists o <- country.spellings :: AllHit(head + o + tail, have)
  {
    hide AllHit;
    var wanted := head + a + tail;
    if v == wanted {
      assert AllHit(head + a + tail, have);
    } else {
      var other :| other in table && RespelledAs(other, wanted, v);
      var alias, k: nat, o :|
        && alias in other.spellings && o in other.spellings && o != alias
        && OccursAt(wanted, alias, k) && v == Respelled(wanted, k, |alias|, o);
      assert other == country && |head| <= k && k + |alias| <= |head| + |a|;
      RespelledInside(head, a, tail, alias, k, o);
      FewerWordsHit(head + o + tail, v, have);
      assert o in country.spellings && AllHit(head + o + tail, have);
    }
  }

  lemma SpellingIsVariant(table: seq<Country>, country: Country, head: Words, b: Words, tail: Words, o: Words)
    requires country in table && b in country.spellings && o in country.spellings
    ensures IsVariant(table, head + b + tail, head + o + tail)
  {
    var wanted := head + b + tail;
    if o != b {
      assert OccursAt(wanted, b, |head|);
      assert Respelled(wanted, |head|, |b|, o) == head + o + tail;
      assert RespelledAs(country, wanted, head + o + tail);
    }
  }

  /** Any spelling of a country answers like any other, also inside a longer place. */
  lemma SpellingsInterchange(
    table: seq<Country>, country: Country, head: Words, a: Words, b: Words, tail: Words, value: Words, implied: set<string>)
    requires OneCountry(table, country, head, tail) && a in country.spellings && b in country.spellings
    requires a != [] && b != []
    ensures Matches(table, value, implied, head + a + tail) <==> Matches(table, value, implied, head + b + tail)
  {
    if Matches(table, value, implied, head + a + tail) {
      OneDirection(table, country, head, a, b, tail, value, implied);
    }
    if Matches(table, value, implied, head + b + tail) {
      OneDirection(table, country, head, b, a, tail, value, implied);
    }
  }

  lemma OneDirection(
    table: seq<Country>, country: Country, head: Words, a: Words, b: Words, tail: Words, value: Words, implied: set<string>)
    requires OneCountry(table, country, head, tail) && a in country.spellings && b in country.spellings
    requires a != [] && Matches(table, value, implied, head + a + tail)
    ensures Matches(table, value, implied, head + b + tail)
  {
    var have := Extended(table, value, implied);
    assert |head + a + tail| > 0;
    var v :| IsVariant(table, head + a + tail, v) && AllHit(v, have);
    VariantContainsSpelling(table, country, head, a, tail, v, have);
    var o :| o in country.spellings && AllHit(head + o + tail, have);
    SpellingIsVariant(table, country, head, b, tail, o);
  }

  /** The table's own hypothesis: no spelling of another country occurs inside this one's. */
  ghost predicate NoForeignSpelling(table: seq<Country>, country: Country) {
    forall x, other, alias, k: nat ::
      x in country.spellings && other in table && other != country && alias in other.spellings ==> !OccursAt(x, alias, k)
  }

  /** `location="Canada"`, `"CAN"` and `"ca"` are one constraint, for every value. */
  lemma CountryNamesInterchange(table: seq<Country>, country: Country, a: Words, b: Words, value: Words, implied: set<string>)
    requires country in table && NoForeignSpelling(table, country)
    requires a in country.spellings && b in country.spellings && a != [] && b != []
    ensures Matches(table, value, implied, a) <==> Matches(table, value, implied, b)
  {
    forall x, other, alias, k: nat |
      x in country.spellings && other in table && alias in other.spellings && OccursAt([] + x + [], alias, k)
      ensures other == country && 0 <= k && k + |alias| <= |x|
    {
      assert [] + x + [] == x;
    }
    assert OneCountry(table, country, [], []);
    SpellingsInterchange(table, country, [], a, b, [], value, implied);
    assert [] + a + [] == a && [] + b + [] == b;
  }

  const USA := Country("USA", [["us"], ["usa"]])
  const CAN := Country("CAN", [["can"], ["canada"]])

  lemma {:induction false} NothingImplied(table: seq<Country>, have: Words)
    ensures Extended(table, have, {}) == have
  {
    if table != [] {
      NothingImplied(table[..|table| - 1], have);
    }
  }

  // ---- when two spellings agree, exactly ----------------------------------------------

  /** Every variant of `a` contains, as words, all of some variant of `b`. */
  ghost predicate Covers(table: seq<Country>, a: Words, b: Words) {
    forall v :: IsVariant(table, a, v) ==> exists w :: IsVariant(table, b, w) && Within(w, v)
  }

  predicate Within(few: Words, many: Words) {
    forall x <- few :: x in many
  }

  /** No word of a variant of `b` is hit by a different word of a variant of `a`. */
  ghost predicate HitOnlyAsEqual(table: seq<Country>, a: Words, b: Words) {
    forall v, w, x, y :: IsVariant(table, a, v) && IsVariant(table, b, w) && x in v && y in w && Hit(y, x) ==> x == y
  }

  ghost predicate NoEmptyVariant(table: seq<Country>, a: Words) {
    forall v :: IsVariant(table, a, v) ==> v != []
  }

  lemma CoveredMatches(table: seq<Country>, a: Words, b: Words, value: Words, implied: set<string>)
    requires a != [] && Covers(table, a, b) && Matches(table, value, implied, a)
    ensures Matches(table, value, implied, b)
  {
    hide IsVariant, AllHit, Extended;
    var have := Extended(table, value, implied);
    var v :| IsVariant(table, a, v) && AllHit(v, have);
    var w :| IsVariant(table, b, w) && Within(w, v);
    FewerWordsHit(w, v, have);
  }

  /** Taken as a value, a variant matches its own words, so it has to match the other ones too. */
  lemma AgreementCovers(table: seq<Country>, a: Words, b: Words, v: Words)
    requires b != [] && v != [] && IsVariant(table, a, v) && HitOnlyAsEqual(table, a, b)
    requires Matches(table, v, {}, a) ==> Matches(table, v, {}, b)
    ensures exists w :: IsVariant(table, b, w) && Within(w, v)
  {
    hide IsVariant, Hit;
    NothingImplied(table, v);
    HitsItself(v);
    assert Matches(table, v, {}, a);
    var w :| IsVariant(table, b, w) && AllHit(w, v);
    forall y | y in w
      ensures y in v
    {
      assert TokenHit(y, v);
      var x :| x in v && Hit(y, x);
    }
  }

  /** `a` and `b` give the same answer for every value, whatever its subdivisions imply. */
  ghost predicate Agree(table: seq<Country>, a: Words, b: Words) {
    forall value, implied :: Matches(table, value, implied, a) <==> Matches(table, value, implied, b)
  }

  lemma CoversAgree(table: seq<Country>, a: Words, b: Words)
    requires a != [] && b != [] && Covers(table, a, b) && Covers(table, b, a)
    ensures Agree(table, a, b)
  {
    hide Matches, Covers;
    forall value, implied
      ensures Matches(table, value, implied, a) <==> Matches(table, value, implied, b)
    {
      if Matches(table, value, implied, a) {
        CoveredMatches(table, a, b, value, implied);
      }
      if Matches(table, value, implied, b) {
        CoveredMatches(table, b, a, value, implied);
      }
    }
  }

  lemma AgreeCovers(table: seq<Country>, a: Words, b: Words)
    requires a != [] && b != [] && NoEmptyVariant(table, a) && HitOnlyAsEqual(table, a, b)
    requires Agree(table, a, b) || Agree(table, b, a)
    ensures Covers(table, a, b)
  {
    hide Matches, IsVariant, HitOnlyAsEqual, Within;
    forall v | IsVariant(table, a, v)
      ensures exists w :: IsVariant(table, b, w) && Within(w, v)
    {
      AgreementCovers(table, a, b, v);
    }
  }

  /**
   Two ways to write a place give the same answer for every value if and only if
   every variant of either contains, as words, some variant of the other.
   */
  lemma SpellingsAgreeExactly(table: seq<Country>, a: Words, b: Words)
    requires a != [] && b != [] && NoEmptyVariant(table, a) && NoEmptyVariant(table, b)
    requires HitOnlyAsEqual(table, a, b) && HitOnlyAsEqual(table, b, a)
    ensures Agree(table, a, b) <==> Covers(table, a, b) && Covers(table, b, a)
  {
    hide Agree, Covers, IsVariant, NoEmptyVariant, HitOnlyAsEqual;
    if Covers(table, a, b) && Covers(table, b, a) {
      CoversAgree(table, a, b);
    }
    if Agree(table, a, b) {
      AgreeCovers(table, a, b);
      AgreeCovers(table, b, a);
    }
  }

  /** One respelled word leaves the other of two words in place. */
  lemma OtherWordStays(table: seq<Country>, wanted: Words, v: Words)
    requires |wanted| == 2 && IsVariant(table, wanted, v)
    requires forall c, alias | c in table && alias in c.spellings :: |alias| == 1
    ensures wanted[0] in v || wanted[1] in v
  {
    if v == wanted {
      assert v[0] == wanted[0];
    } else {
      var c :| c in table && RespelledAs(c, wanted, v);
      var alias, k: nat, o :|
        && alias in c.spellings && o in c.spellings && o != alias
        && OccursAt(wanted, alias, k) && v == Respelled(wanted, k, |alias|, o);
      if k == 0 {
        assert v[|v| - 1] == wanted[1];
      } else {
        assert v[0] == wanted[0];
      }
    }
  }

  lemma SingleWordsAreForeign(table: seq<Country>, country: Country)
    requires forall c, alias | c in table && alias in c.spellings :: |alias| == 1
    requires country in table
    requires forall x, c, alias | x in country.spellings && c in table && c != country && alias in c.spellings :: x != alias
    ensures NoForeignSpelling(table, country)
  {
    forall x, other, alias, k: nat |
      x in country.spellings && other in table && other != country && alias in other.spellings
      ensures !OccursAt(x, alias, k)
    {
      assert |x| == 1 && |alias| == 1 && x != alias;
      assert k == 0 ==> x[0..1] == x;
    }
  }

  /** With a second country among the wanted words the spelling does matter. */
  lemma TwoCountriesDiffer()
    ensures NoForeignSpelling([USA, CAN], USA) && NoForeignSpelling([USA, CAN], CAN)
    ensures Matches([USA, CAN], ["usa", "can"], {}, ["usa", "canada"])
    ensures !Matches([USA, CAN], ["usa", "can"], {}, ["us", "canada"])
  {
    hide NoForeignSpelling, IsVariant, AllHit;
    SingleWordsAreForeign([USA, CAN], USA);
    SingleWordsAreForeign([USA, CAN], CAN);
    var have: Words := ["usa", "can"];
    NothingImplied([USA, CAN], have);
    SpellingIsVariant([USA, CAN], CAN, ["usa"], ["canada"], [], ["can"]);
    assert ["usa"] + ["canada"] + [] == ["usa", "canada"] && ["usa"] + ["can"] + [] == have;
    HitsItself(have);
    forall v | IsVariant([USA, CAN], ["us", "canada"], v)
      ensures !AllHit(v, have)
    {
      OtherWordStays([USA, CAN], ["us", "canada"], v);
      MissesBoth(v);
    }
  }

  lemma HitsItself(words: Words)
    ensures AllHit(words, words)
  {
    assert forall w :: Hit(w, w);
  }

  lemma MissesBoth(v: Words)
    requires "us" in v || "canada" in v
    ensures !AllHit(v, ["usa", "can"])
  {
    assert !TokenHit("us", ["usa", "can"]) && !TokenHit("canada", ["usa", "can"]);
  }

  // ---- the country a value's subdivisions imply --------------------------------------

  /** Codes by subdivision name, by subdivision abbreviation and by two-letter country code. */
  datatype Subdivisions = Subdivisions(byName: map<Words, string>, byAbbreviation: map<string, string>, alpha2: map<string, string>)

  function Options(t: Subdivisions, abbreviation: string): set<string> {
    (if abbreviation in t.byAbbreviation then {t.byAbbreviation[abbreviation]} else {})
    + (if abbreviation in t.alpha2 then {t.alpha2[abbreviation]} else {})
  }

  predicate InAll(code: string, sets: seq<set<string>>) {
    forall s <- sets :: code in s
  }

  function Intersection(sets: seq<set<string>>): (common: set<string>)
    requires sets != []
    ensures forall code :: code in common <==> InAll(code, sets)
  {
    if |sets| == 1 then sets[0] else sets[0] * Intersection(sets[1..])
  }

  /** The `size` words from `i` on name a subdivision of `code`. */
  predicate NamedAt(t: Subdivisions, have: Words, size: nat, i: nat, code: string) {
    i + size <= |have| && have[i..i + size] in t.byName && t.byName[have[i..i + size]] == code
  }

  ghost predicate Named(t: Subdivisions, have: Words, longest: nat, code: string) {
    exists size: nat, i: nat :: 0 < size <= longest && NamedAt(t, have, size, i, code)
  }

  /** The nested loop over window sizes, longest first, and start positions. */
  method NamedSubdivisions(t: Subdivisions, have: Words, longest: nat) returns (codes: seq<string>)
    ensures forall code :: code in codes <==> Named(t, have, longest, code)
  {
    codes := [];
    var size := longest;
    while size > 0
      invariant 0 <= size <= longest
      invariant forall code :: code in codes <==>
                  (exists n: nat, i: nat :: size < n <= longest && NamedAt(t, have, n, i, code))
    {
      ghost var before := codes;
      var start := 0;
      while start + size <= |have|
        invariant forall code :: code in codes <==>
                    (code in before || (exists i: nat :: i < start && NamedAt(t, have, size, i, code)))
      {
        if have[start..start + size] in t.byName {
          assert NamedAt(t, have, size, start, t.byName[have[start..start + size]]);
          codes := codes + [t.byName[have[start..start + size]]];
        }
        start := start + 1;
      }
      size := size - 1;
    }
  }

  function Singletons(codes: seq<string>): seq<set<string>> {
    seq(|codes|, i requires 0 <= i < |codes| => {codes[i]})
  }

  /** The sets the abbreviations could denote, for those that denote anything. */
  function AllOptions(t: Subdivisions, abbreviations: seq<string>): seq<set<string>> {
    if abbreviations == [] then []
    else
      AllOptions(t, abbreviations[..|abbreviations| - 1])
      + (var o := Options(t, abbreviations[|abbreviations| - 1]); if o == {} then [] else [o])
  }

  function AsSubdivisions(t: Subdivisions, abbreviations: seq<string>): seq<string> {
    if abbreviations == [] then []
    else
      AsSubdivisions(t, abbreviations[..|abbreviations| - 1])
      + (var a := abbreviations[|abbreviations| - 1]; if a in t.byAbbreviation then [t.byAbbreviation[a]] else [])
  }

  /** Everything the value says, names and abbreviations in either reading, allows `code`. */
  ghost predicate Candidate(t: Subdivisions, have: Words, longest: nat, abbreviations: seq<string>, code: string) {
    && (forall named :: Named(t, have, longest, named) ==> named == code)
    && (forall a <- abbreviations :: Options(t, a) != {} ==> code in Options(t, a))
    && (Named(t, have, longest, code) || exists a <- abbreviations :: code in Options(t, a))
  }

  /** Everything read as a subdivision says `code`. */
  ghost predicate SubdivisionReading(t: Subdivisions, have: Words, longest: nat, abbreviations: seq<string>, code: string) {
    && (forall named :: Named(t, have, longest, named) ==> named == code)
    && (forall a <- abbreviations :: a in t.byAbbreviation ==> t.byAbbreviation[a] == code)
    && (Named(t, have, longest, code) || exists a <- abbreviations :: a in t.byAbbreviation)
  }

  ghost predicate Settled(t: Subdivisions, have: Words, longest: nat, abbreviations: seq<string>) {
    exists c :: Candidate(t, have, longest, abbreviations, c)
             && forall d :: Candidate(t, have, longest, abbreviations, d) ==> d == c
  }

  /** The unique candidate, or else what the subdivisions agree on. */
  ghost predicate Implies(t: Subdivisions, have: Words, longest: nat, abbreviations: seq<string>, code: string) {
    if Settled(t, have, longest, abbreviations) then Candidate(t, have, longest, abbreviations, code)
    else SubdivisionReading(t, have, longest, abbreviations, code)
  }

  lemma {:induction false} OptionsListed(t: Subdivisions, abbreviations: seq<string>)
    ensures forall o :: o in AllOptions(t, abbreviations) <==> o != {} && exists a <- abbreviations :: o == Options(t, a)
    ensures forall c :: c in AsSubdivisions(t, abbreviations) <==>
              exists a <- abbreviations :: a in t.byAbbreviation && c == t.byAbbreviation[a]
  {
    if abbreviations != [] {
      var front, last := abbreviations[..|abbreviations| - 1], abbreviations[|abbreviations| - 1];
      OptionsListed(t, front);
      assert forall a :: a in abbreviations <==> a in front || a == last;
    }
  }

  lemma SingletonsListed(codes: seq<string>)
    ensures forall s :: s in Singletons(codes) <==> exists c <- codes :: s == {c}
    ensures forall code :: InAll(code, Singletons(codes)) <==> forall c <- codes :: c == code
  {
    forall s
      ensures s in Singletons(codes) <==> exists c <- codes :: s == {c}
    {
      if c :| c in codes && s == {c} {
        var i :| 0 <= i < |codes| && codes[i] == c;
        assert Singletons(codes)[i] == s;
      }
    }
    forall code
      ensures InAll(code, Singletons(codes)) <==> forall c <- codes :: c == code
    {
      if InAll(code, Singletons(codes)) {
        forall c | c in codes
          ensures c == code
        {
          assert {c} in Singletons(codes);
        }
      }
    }
  }

  /** The two intersections, in terms of what the value says. */
  lemma ReadingsMeet(t: Subdivisions, have: Words, longest: nat, names: seq<string>, abbreviations: seq<string>)
    requires forall code :: code in names <==> Named(t, have, longest, code)
    ensures var either := Singletons(names) + AllOptions(t, abbreviations);
      forall code :: either != [] && InAll(code, either) <==> Candidate(t, have, longest, abbreviations, code)
    ensures var subdivision := names + AsSubdivisions(t, abbreviations);
      forall code :: subdivision != [] && InAll(code, Singletons(subdivision)) <==>
                     SubdivisionReading(t, have, longest, abbreviations, code)
  {
    hide Named, Options;
    OptionsListed(t, abbreviations);
    SingletonsListed(names);
    var options := AllOptions(t, abbreviations);
    var either := Singletons(names) + options;
    forall code
      ensures either != [] && InAll(code, either) <==> Candidate(t, have, longest, abbreviations, code)
    {
      assert InAll(code, either) <==> InAll(code, Singletons(names)) && InAll(code, options) by {
        assert forall s :: s in either <==> s in Singletons(names) || s in options;
      }
      assert InAll(code, options) <==> forall a <- abbreviations :: Options(t, a) != {} ==> code in Options(t, a);
      if InAll(code, either) && either != [] {
        if names != [] {
          assert names[0] in names;
        } else {
          assert options[0] in options;
        }
      }
      if Candidate(t, have, longest, abbreviations, code) {
        if Named(t, have, longest, code) {
          assert {code} in Singletons(names);
        } else {
          var a :| a in abbreviations && code in Options(t, a);
          assert Options(t, a) in options;
        }
      }
    }
    forall code
      ensures var subdivision := names + AsSubdivisions(t, abbreviations);
        subdivision != [] && InAll(code, Singletons(subdivision)) <==>
        SubdivisionReading(t, have, longest, abbreviations, code)
    {
      SubdivisionsMeet(t, have, longest, names, abbreviations, code);
    }
  }

  lemma SubdivisionsMeet(t: Subdivisions, have: Words, longest: nat, names: seq<string>, abbreviations: seq<string>, code: string)
    requires forall c :: c in names <==> Named(t, have, longest, c)
    ensures var subdivision := names + AsSubdivisions(t, abbreviations);
      subdivision != [] && InAll(code, Singletons(subdivision)) <==>
      SubdivisionReading(t, have, longest, abbreviations, code)
  {
    hide Named, Options;
    OptionsListed(t, abbreviations);
    var readings := AsSubdivisions(t, abbreviations);
    var all := names + readings;
    SingletonsListed(all);
    assert forall c :: c in all <==> c in names || c in readings;
    if all != [] && InAll(code, Singletons(all)) {
      assert all[0] in all && all[0] == code;
      assert forall a <- abbreviations :: a in t.byAbbreviation ==> t.byAbbreviation[a] in readings;
    }
    if SubdivisionReading(t, have, longest, abbreviations, code) {
      if Named(t, have, longest, code) {
        assert code in names;
      } else {
        var a :| a in abbreviations && a in t.byAbbreviation;
        assert t.byAbbreviation[a] in readings;
      }
    }
  }

  lemma OneOrManyCandidates(sets: set<string>)
    ensures |sets| == 1 <==> exists c :: c in sets && forall d :: d in sets ==> d == c
  {
    if |sets| == 1 {
      var c :| c in sets;
      assert |sets - {c}| == 0;
      assert forall d :: d in sets ==> d == c;
    }
    if c :| c in sets && forall d :: d in sets ==> d == c {
      assert sets == {c};
    }
  }

  /**
   The countries a value implies: the one country everything it says allows, if
   that is unique, and otherwise what the subdivisions alone agree on. Never two.
   `abbreviations` are its upper-case pairs after a comma, lower-cased.
   */
  method ImpliedCountries(t: Subdivisions, have: Words, longest: nat, abbreviations: seq<string>) returns (implied: set<string>)
    ensures |implied| <= 1
    ensures forall code :: code in implied <==> Implies(t, have, longest, abbreviations, code)
  {
    hide Candidate, SubdivisionReading, Options;
    var names := NamedSubdivisions(t, have, longest);
    var subdivision, either := names, Singletons(names);
    for n := 0 to |abbreviations|
      invariant subdivision == names + AsSubdivisions(t, abbreviations[..n])
      invariant either == Singletons(names) + AllOptions(t, abbreviations[..n])
    {
      assert abbreviations[..n + 1][..n] == abbreviations[..n];
      var options := Options(t, abbreviations[n]);
      if options != {} {
        either := either + [options];
      }
      if abbreviations[n] in t.byAbbreviation {
        subdivision := subdivision + [t.byAbbreviation[abbreviations[n]]];
      }
    }
    assert abbreviations[..|abbreviations|] == abbreviations;
    ReadingsMeet(t, have, longest, names, abbreviations);
    if either == [] {
      assert subdivision == [] by { EvidenceIsShared(t, names, abbreviations); }
      return {};
    }
    implied := Intersection(either);
    OneOrManyCandidates(implied);
    if |implied| == 1 {
      return;
    }
    if subdivision == [] {
      return {};
    }
    implied := Intersection(Singletons(subdivision));
    SingletonsListed(subdivision);
    assert implied <= {subdivision[0]};
    AtMostOne(implied, subdivision[0]);
  }

  lemma AtMostOne(s: set<string>, x: string)
    requires s <= {x}
    ensures |s| <= 1
  {
    assert s == {} || s == {x};
  }

  /** Whatever is read as a subdivision is also among the options. */
  lemma EvidenceIsShared(t: Subdivisions, names: seq<string>, abbreviations: seq<string>)
    requires Singletons(names) + AllOptions(t, abbreviations) == []
    ensures names + AsSubdivisions(t, abbreviations) == []
  {
    OptionsListed(t, abbreviations);
    var readings := AsSubdivisions(t, abbreviations);
    assert forall a <- abbreviations :: Options(t, a) == {} by {
      assert forall a <- abbreviations :: Options(t, a) != {} ==> Options(t, a) in AllOptions(t, abbreviations);
    }
    forall a
      ensures Options(t, a) == {} ==> a !in t.byAbbreviation
    {
      OptionsHaveReading(t, a);
    }
    assert forall c :: c !in readings;
  }

  lemma OptionsHaveReading(t: Subdivisions, a: string)
    ensures a in t.byAbbreviation ==> t.byAbbreviation[a] in Options(t, a)
  {
  }
}
