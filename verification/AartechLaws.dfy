/** What a caller's own words in an Aartech query do, parameter by parameter. */
module AartechLaws {
  import opened Basics
  import opened Text
  import opened Aartech

  /** A parameter name that needs no decoding. */
  predicate PlainName(w: string) {
    w != "" && '%' !in w && '+' !in w && '=' !in w && '&' !in w
  }

  function Parameter(w: string, value: string): string {
    w + "=" + value
  }

  /** The ways to ask for a search term. */
  predicate AsksForTerm(w: string) {
    || Lower(w) == "q" || Lower(w) == "query" || Lower(w) == "search"
    || Lower(w) == "keyword" || Lower(w) == "keywords" || Lower(w) == "term"
  }

  lemma ParameterRead(rd: Reader, w: string, value: string)
    requires Sane(rd) && PlainName(w) && '&' !in value
    ensures Key(rd, Parameter(w, value)) == Lower(w) && Value(Parameter(w, value)) == value
    ensures '&' !in Parameter(w, value) && Parameter(w, value) != ""
  {
    PlainKey(rd, w, value);
  }

  lemma TermKeysAre(w: string)
    ensures Lower(w) in TERM_KEYS <==> AsksForTerm(w)
  {
    hide Lower;
  }

  /** A parameter added at the end of a query is its last segment. */
  lemma Added(query: string, x: string)
    requires x != "" && '&' !in x
    ensures Segments(query + "&" + x) == Segments(query) + [x]
    ensures Segments(x) == [x]
  {
    hide Split, NonEmpty;
    assert query + "&" + x == query + ['&'] + x;
    SplitAppend(query, '&', x);
    OneSegment(x);
    NonEmptyConcat(Split(query, '&'), Split(x, '&'));
  }

  /** Whatever a query said before, a term added under any of the six names is its term. */
  lemma TermGiven(rd: Reader, query: string, w: string, term: string)
    requires Sane(rd) && PlainName(w) && '&' !in term && AsksForTerm(w)
    ensures Term(rd, Segments(query + "&" + Parameter(w, term))) == term
    ensures Term(rd, Segments(Parameter(w, term))) == term
    ensures Kept(rd, Segments(query + "&" + Parameter(w, term))) == Kept(rd, Segments(query))
  {
    hide Lower, Key, LastOf, Kept, Segments;
    var x := Parameter(w, term);
    ParameterRead(rd, w, term);
    TermKeysAre(w);
    Added(query, x);
    LastOfAppend(rd, Segments(query), x, TERM_KEYS);
    LastOfAppend(rd, [], x, TERM_KEYS);
    KeptAppend(rd, Segments(query), x);
    assert [] + [x] == [x];
  }

  /** A query that is a term alone becomes this page's control and the default limit. */
  lemma TermAlone(rd: Reader, w: string, term: string, id: string)
    requires Sane(rd) && PlainName(w) && '&' !in term && AsksForTerm(w) && term != "" && ControlId(id)
    ensures Normalized(rd, Parameter(w, term), Some(id)) == Some("controls[" + id + "]=" + term + "&limit=24")
  {
    hide Lower, Key, Segments, TERM_KEYS, Kept, Term, WindowOf, Decimal, Normalized, AsksForTerm;
    var x := Parameter(w, term);
    ParameterRead(rd, w, term);
    TermKeysAre(w);
    Added("", x);
    NamesDiffer(w);
    OnlyTerm(rd, x);
    TermGiven(rd, "", w, term);
    LowerQ();
    hide Parameter;
    SentAlone(rd, x, term, id);
  }

  lemma NamesDiffer(w: string)
    requires AsksForTerm(w)
    ensures Lower(w) != "limit" && Lower(w) != "page"
  {
    hide Lower;
    assert |"limit"| == 5 && |"page"| == 4 && "term"[0] == 't' && "page"[0] == 'p' && "query"[0] == 'q' && "limit"[0] == 'l';
  }

  lemma OnlyTerm(rd: Reader, x: string)
    requires Key(rd, x) in TERM_KEYS && Key(rd, x) != "limit" && Key(rd, x) != "page"
    ensures Kept(rd, [x]) == [] && WindowOf(rd, [x]) == Window(1, 24)
  {
    hide Key, TERM_KEYS, LastOf, Kept;
    NothingYet(rd);
    KeptAppend(rd, [], x);
    WindowAppend(rd, [], x);
    assert [] + [x] == [x];
  }

  lemma GlueLimit(control: string)
    ensures control + "&" + "limit=24" == control + "&limit=24"
  {
    assert "&" + "limit=24" == "&limit=24";
    assert control + "&" + "limit=24" == control + ("&" + "limit=24");
  }

  lemma SentAlone(rd: Reader, x: string, term: string, id: string)
    requires Segments(x) == [x] && Term(rd, [x]) == term != "" && Kept(rd, [x]) == [] && id != ""
    requires WindowOf(rd, [x]).limit == 24 && Decimal(24) == "24"
    ensures Normalized(rd, x, Some(id)) == Some("controls[" + id + "]=" + term + "&limit=24")
  {
    hide Kept, Term, WindowOf, Segments, Decimal, IsControl;
    var control, limit := ControlSegment(id, term), LimitSegment(24);
    assert !HasControl([]);
    assert limit == "limit=24";
    assert [] + [control] + [limit] == [control, limit];
    assert Sent(rd, [x], Some(id)) == Some([control, limit]);
    assert [control, limit][1..] == [limit];
    assert Join([control, limit], '&') == control + "&" + limit;
    GlueLimit(control);
  }

  /** Every other parameter, except the limit, is carried through as it was written. */
  lemma OthersCarriedThrough(rd: Reader, query: string, w: string, value: string)
    requires Sane(rd) && PlainName(w) && '&' !in value && !AsksForTerm(w) && Lower(w) != "limit"
    ensures Kept(rd, Segments(query + "&" + Parameter(w, value))) == Kept(rd, Segments(query)) + [Parameter(w, value)]
    ensures Term(rd, Segments(query + "&" + Parameter(w, value))) == Term(rd, Segments(query))
  {
    hide Lower, Key, LastOf, Kept, Segments;
    var x := Parameter(w, value);
    ParameterRead(rd, w, value);
    TermKeysAre(w);
    Added(query, x);
    KeptAppend(rd, Segments(query), x);
    LastOfAppend(rd, Segments(query), x, TERM_KEYS);
  }

  /** An added limit is clamped to 1 to 100, an added page to at least 1; what is no number falls back to 24 and 1. */
  lemma WindowGiven(rd: Reader, query: string, w: string, value: string)
    requires Sane(rd) && PlainName(w) && '&' !in value
    ensures var before, after := WindowOf(rd, Segments(query)), WindowOf(rd, Segments(query + "&" + Parameter(w, value)));
      && (Lower(w) == "limit" ==>
            after.page == before.page && after.limit == (match rd.number(value)
              case None => 24 case Some(n) => if n < 1 then 1 else if n > 100 then 100 else n))
      && (Lower(w) == "page" ==>
            after.limit == before.limit && after.page == (match rd.number(value)
              case None => 1 case Some(n) => if n < 1 then 1 else n))
      && (Lower(w) != "limit" && Lower(w) != "page" ==> after == before)
    ensures WindowOf(rd, Segments("")) == Window(1, 24)
  {
    hide Lower, Key, LastOf, Segments;
    NoSegments();
    NothingYet(rd);
    ParameterRead(rd, w, value);
    Added(query, Parameter(w, value));
    WindowAppend(rd, Segments(query), Parameter(w, value));
    assert "limit" != "page" by {
      assert |"limit"| != |"page"|;
    }
  }

  /** A caller's control is one that begins so in any case, bracket written or escaped. */
  lemma ControlsExactly(segment: string)
    ensures IsControl(segment) <==>
      exists head, rest :: segment == head + rest && (Lower(head) == "controls[" || Lower(head) == "controls%5b")
  {
    if IsControl(segment) {
      var n := if "controls[" <= Lower(segment) then 9 else 11;
      var head, rest := segment[..n], segment[n..];
      assert segment == head + rest && Lower(head) == Lower(segment)[..n];
    }
    if head, rest :| segment == head + rest && (Lower(head) == "controls[" || Lower(head) == "controls%5b") {
      assert Lower(segment)[..|head|] == Lower(head);
    }
  }

  /** What a page says is still to come is what following its hint then shows. */
  lemma RemainingIsWhatFollows(rd: Reader, url: string, control: Option<string>, total: nat)
    requires Sane(rd) && Addable(url) && (control.Some? ==> ControlId(control.value))
    requires Normalized(rd, Query(url), control).Some?
    ensures Addable(NextUrl(rd, url)) && Normalized(rd, Query(NextUrl(rd, url)), control).Some?
    ensures var rows := Answer(Fetched(rd, url, control), total);
      var listing := Rendered(rd, url, |rows|, total);
      && listing.seen == Offset(At(rd, url)) + |rows|
      && listing.remaining == (if listing.hinted then |Visited(rd, NextUrl(rd, url), control, total)| else 0)
      && (listing.hinted <==> rows != [] && rows[|rows| - 1] + 1 < total)
  {
    hide Key, LastOf, Kept, WindowOf, Lower, Query, Segments, NextUrl, Normalized;
    Follows(rd, url, control, total);
    HintsReachEveryRow(rd, NextUrl(rd, url), control, total);
  }
}
