/** Which places a location value answers for, by its words and by what they imply. */
module LocationLaws {
  import opened Jobfilter
  import opened Locations

  lemma {:induction false} FlatExactly(spellings: seq<Words>, x: string)
    ensures x in Flat(spellings) <==> exists w <- spellings :: x in w
  {
    if spellings != [] {
      FlatExactly(spellings[1..], x);
      assert spellings == [spellings[0]] + spellings[1..];
    }
  }

  /** The value's own words, and every word of every spelling of each implied country; nothing else. */
  lemma {:induction false} ExtendedExactly(table: seq<Country>, value: Words, implied: set<string>, x: string)
    ensures x in Extended(table, value, implied) <==>
      x in value || exists c, w :: c in table && c.code in implied && w in c.spellings && x in w
  {
    if table != [] {
      var front, last := table[..|table| - 1], table[|table| - 1];
      assert table == front + [last];
      ExtendedExactly(front, value, implied, x);
      FlatExactly(last.spellings, x);
    }
  }

  lemma WordsHit(wanted: Words, have: Words)
    requires forall x <- wanted :: x in have
    ensures AllHit(wanted, have)
  {
    assert forall x :: Hit(x, x);
  }

  /** A value that implies a country answers every spelling of it, whatever its words. */
  lemma ImpliedCountryMatches(table: seq<Country>, country: Country, spelling: Words, value: Words, implied: set<string>)
    requires country in table && country.code in implied && spelling in country.spellings && value != []
    ensures Matches(table, value, implied, spelling)
  {
    var have := Extended(table, value, implied);
    forall x | x in spelling
      ensures x in have
    {
      ExtendedExactly(table, value, implied, x);
    }
    WordsHit(spelling, have);
    assert IsVariant(table, spelling, spelling);
  }

  /** What the words alone answer is answered with any countries implied, too. */
  lemma ImplyingOnlyWidens(table: seq<Country>, value: Words, implied: set<string>, wanted: Words)
    requires Matches(table, value, {}, wanted)
    ensures Matches(table, value, implied, wanted)
  {
    hide IsVariant, Hit;
    if wanted != [] {
      NothingImplied(table, value);
      var v :| IsVariant(table, wanted, v) && AllHit(v, value);
      var have := Extended(table, value, implied);
      forall x | x in v
        ensures TokenHit(x, have)
      {
        var c :| c in value && Hit(x, c);
        ExtendedExactly(table, value, implied, c);
      }
    }
  }

  /** A value answers a place its words spell out: all of the place's words are among them. */
  lemma OwnWordsMatch(table: seq<Country>, value: Words, implied: set<string>, wanted: Words)
    requires value != [] && forall x <- wanted :: x in value
    ensures Matches(table, value, implied, wanted)
  {
    NothingImplied(table, value);
    WordsHit(wanted, value);
    assert IsVariant(table, wanted, wanted);
    ImplyingOnlyWidens(table, value, implied, wanted);
  }

  /** An empty wish is always met, and a value without words meets no other. */
  lemma EmptyCases(table: seq<Country>, value: Words, implied: set<string>, wanted: Words)
    ensures wanted == [] ==> Matches(table, value, implied, wanted)
    ensures wanted != [] && value == [] ==> !Matches(table, value, implied, wanted)
  {
  }

  // ---- what is implied -------------------------------------------------------------

  /** The readings of an abbreviation: a subdivision of a country, or the country itself. */
  predicate Reads(t: Subdivisions, abbreviation: string, code: string) {
    || (abbreviation in t.byAbbreviation && t.byAbbreviation[abbreviation] == code)
    || (abbreviation in t.alpha2 && t.alpha2[abbreviation] == code)
  }

  predicate Means(t: Subdivisions, abbreviation: string) {
    abbreviation in t.byAbbreviation || abbreviation in t.alpha2
  }

  lemma OptionsExactly(t: Subdivisions, a: string)
    ensures forall code :: code in Options(t, a) <==> Reads(t, a, code)
    ensures Options(t, a) == {} <==> !Means(t, a)
  {
    if Means(t, a) {
      var code := if a in t.byAbbreviation then t.byAbbreviation[a] else t.alpha2[a];
      assert code in Options(t, a);
    }
  }

  lemma CandidateExactly(t: Subdivisions, have: Words, longest: nat, abbreviations: seq<string>, code: string)
    ensures Candidate(t, have, longest, abbreviations, code) <==>
      && (forall named :: Named(t, have, longest, named) ==> named == code)
      && (forall a <- abbreviations :: Means(t, a) ==> Reads(t, a, code))
      && (Named(t, have, longest, code) || exists a <- abbreviations :: Reads(t, a, code))
  {
    hide Options, Named;
    forall a
      ensures Options(t, a) == {} <==> !Means(t, a)
      ensures code in Options(t, a) <==> Reads(t, a, code)
    {
      OptionsExactly(t, a);
    }
  }

  /**
   A value that names subdivisions of one country only, with no abbreviation that
   speaks against it, implies that country alone.
   */
  lemma NamedCountryImplied(t: Subdivisions, have: Words, longest: nat, abbreviations: seq<string>, code: string, other: string)
    requires Named(t, have, longest, code) && forall named :: Named(t, have, longest, named) ==> named == code
    requires forall a <- abbreviations :: Means(t, a) ==> Reads(t, a, code)
    ensures Implies(t, have, longest, abbreviations, other) <==> other == code
  {
    hide Named, Reads, Means;
    CandidateExactly(t, have, longest, abbreviations, code);
    CandidateExactly(t, have, longest, abbreviations, other);
    hide Candidate;
    forall d | Candidate(t, have, longest, abbreviations, d)
      ensures d == code
    {
      CandidateExactly(t, have, longest, abbreviations, d);
    }
    assert Candidate(t, have, longest, abbreviations, code);
  }

  /**
   One abbreviation and no names: the subdivision reading wins over the country
   reading, which counts only in its absence.
   */
  lemma SingleAbbreviation(t: Subdivisions, have: Words, longest: nat, a: string, code: string)
    requires forall named :: !Named(t, have, longest, named)
    ensures Implies(t, have, longest, [a], code) <==>
      if a in t.byAbbreviation then code == t.byAbbreviation[a] else a in t.alpha2 && code == t.alpha2[a]
  {
    hide Named;
    assert a in [a];
    forall d
      ensures Candidate(t, have, longest, [a], d) <==> Reads(t, a, d)
    {
      CandidateExactly(t, have, longest, [a], d);
    }
    hide Candidate;
    if a in t.byAbbreviation {
      assert Reads(t, a, t.byAbbreviation[a]);
    }
    if a in t.alpha2 {
      assert Reads(t, a, t.alpha2[a]);
    }
  }

  /** A neighbour with one reading settles an abbreviation that could be read that way. */
  lemma NeighbourSettles(t: Subdivisions, have: Words, longest: nat, a: string, b: string, code: string, other: string)
    requires forall named :: !Named(t, have, longest, named)
    requires Reads(t, a, code) && Reads(t, b, code) && forall d :: Reads(t, b, d) ==> d == code
    ensures Implies(t, have, longest, [a, b], other) <==> other == code
    ensures Implies(t, have, longest, [b, a], other) <==> other == code
  {
    hide Named, Reads, Means;
    assert a in [a, b] && b in [a, b] && a in [b, a] && b in [b, a];
    ReadsMean(t, a, code);
    ReadsMean(t, b, code);
    forall d
      ensures Candidate(t, have, longest, [a, b], d) <==> d == code
      ensures Candidate(t, have, longest, [b, a], d) <==> d == code
    {
      CandidateExactly(t, have, longest, [a, b], d);
      CandidateExactly(t, have, longest, [b, a], d);
    }
    hide Candidate;
    assert Candidate(t, have, longest, [a, b], code) && Candidate(t, have, longest, [b, a], code);
  }

  lemma ReadsMean(t: Subdivisions, a: string, code: string)
    requires Reads(t, a, code)
    ensures Means(t, a)
  {
  }

  /**
   "Ontario - Remote" answers "Canada": a value that names subdivisions of one country
   only, and nothing against it, answers every spelling of that country.
   */
  lemma SubdivisionAnswersCountry(
    table: seq<Country>, country: Country, spelling: Words,
    t: Subdivisions, value: Words, longest: nat, abbreviations: seq<string>, implied: set<string>)
    requires country in table && spelling in country.spellings && value != []
    requires Named(t, value, longest, country.code)
    requires forall named :: Named(t, value, longest, named) ==> named == country.code
    requires forall a <- abbreviations :: Means(t, a) ==> Reads(t, a, country.code)
    requires forall code :: code in implied <==> Implies(t, value, longest, abbreviations, code)
    ensures implied == {country.code}
    ensures Matches(table, value, implied, spelling)
  {
    hide Matches, Named, Implies, Reads, Means;
    forall code
      ensures code in implied <==> code == country.code
    {
      NamedCountryImplied(t, value, longest, abbreviations, country.code, code);
    }
    ImpliedCountryMatches(table, country, spelling, value, implied);
  }
}
