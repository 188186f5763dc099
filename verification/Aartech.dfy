/**
 The Aartech listing client: the window a query string names, its rewriting into
 the search API's vocabulary, and the next-page hint.

 Percent-decoding and Python's `int` are given functions, of which only what
 `Sane` says is used.
 */
module Aartech {
  import opened Basics
  import opened Text

  const DEFAULT_LIMIT := 24
  const MAX_LIMIT := 100
  const TERM_KEYS: set<string> := {"q", "query", "search", "keyword", "keywords", "term"}

  datatype Reader = Reader(unquote: string -> string, number: string -> Option<int>)

  datatype Window = Window(page: int, limit: int)

  function Digit(d: nat): char
    requires d < 10
  {
    '0' + d as char
  }

  function Decimal(n: nat): (s: string)
    ensures s != "" && forall c <- s :: '0' <= c <= '9'
  {
    if n < 10 then [Digit(n)] else Decimal(n / 10) + [Digit(n % 10)]
  }

  /** Decoding leaves plain text alone, and `int` reads back what `str` wrote. */
  ghost predicate Sane(rd: Reader) {
    && (forall s: string | '%' !in s && '+' !in s :: rd.unquote(s) == s)
    && (forall n: nat :: rd.number(Decimal(n)) == Some(n))
  }

  function ReadDecimal(s: string): Option<int> {
    if s == "" || !('0' <= s[|s| - 1] <= '9') then None
    else
      var d := (s[|s| - 1] - '0') as int;
      if |s| == 1 then Some(d)
      else match ReadDecimal(s[..|s| - 1]) case None => None case Some(n) => Some(10 * n + d)
  }

  lemma {:induction false} ReadsDecimal(n: nat)
    ensures ReadDecimal(Decimal(n)) == Some(n)
  {
    if n >= 10 {
      var s := Decimal(n);
      assert s[..|s| - 1] == Decimal(n / 10);
      ReadsDecimal(n / 10);
    }
  }

  /** The assumptions about the given functions can be met. */
  lemma SaneReaderExists()
    ensures Sane(Reader(s => s, ReadDecimal))
  {
    forall n: nat
      ensures ReadDecimal(Decimal(n)) == Some(n)
    {
      ReadsDecimal(n);
    }
  }

  // ---- segments ----------------------------------------------------------------------

  function Key(rd: Reader, segment: string): string {
    Lower(rd.unquote(segment[..IndexOf(segment, '=', 0)]))
  }

  function Value(segment: string): string {
    var k := IndexOf(segment, '=', 0);
    if k == |segment| then "" else segment[k + 1..]
  }

  function NonEmpty(pieces: seq<string>): (r: seq<string>)
    ensures forall p <- r :: p != "" && p in pieces
  {
    if pieces == [] then []
    else NonEmpty(pieces[..|pieces| - 1]) + (if pieces[|pieces| - 1] == "" then [] else [pieces[|pieces| - 1]])
  }

  function Segments(query: string): seq<string> {
    NonEmpty(Split(query, '&'))
  }

  /** The value of the last segment whose key is one of `keys`. */
  function LastOf(rd: Reader, segments: seq<string>, keys: set<string>): Option<string> {
    if segments == [] then None
    else
      var last := segments[|segments| - 1];
      if Key(rd, last) in keys then Some(Value(last)) else LastOf(rd, segments[..|segments| - 1], keys)
  }

  /** The segments carried through as they are. */
  function Kept(rd: Reader, segments: seq<string>): (r: seq<string>)
    ensures forall p <- r :: p in segments && Key(rd, p) != "limit" && Key(rd, p) !in TERM_KEYS
  {
    if segments == [] then []
    else
      var last := segments[|segments| - 1];
      Kept(rd, segments[..|segments| - 1]) +
      (if Key(rd, last) == "limit" || Key(rd, last) in TERM_KEYS then [] else [last])
  }

  // ---- the window --------------------------------------------------------------------

  function Clamped(n: int): int {
    if n < 1 then 1 else if n > MAX_LIMIT then MAX_LIMIT else n
  }

  function LimitOf(rd: Reader, value: Option<string>): (n: int)
    ensures 1 <= n <= MAX_LIMIT
  {
    if value.None? then DEFAULT_LIMIT
    else match rd.number(value.value) case Some(n) => Clamped(n) case None => DEFAULT_LIMIT
  }

  function PageOf(rd: Reader, value: Option<string>): (n: int)
    ensures n >= 1
  {
    if value.None? then 1
    else match rd.number(value.value) case Some(n) => (if n < 1 then 1 else n) case None => 1
  }

  /** The last `page` and the last `limit` decide, whatever the earlier ones said. */
  function WindowOf(rd: Reader, segments: seq<string>): (w: Window)
    ensures w.page >= 1 && 1 <= w.limit <= MAX_LIMIT
  {
    Window(PageOf(rd, LastOf(rd, segments, {"page"})), LimitOf(rd, LastOf(rd, segments, {"limit"})))
  }

  method ResolveWindow(rd: Reader, query: string) returns (w: Window)
    ensures w == WindowOf(rd, Segments(query))
  {
    hide Key, LastOf, NonEmpty;
    var page, limit := 1, DEFAULT_LIMIT;
    assert WindowOf(rd, NonEmpty([])) == Window(1, DEFAULT_LIMIT) by { NothingYet(rd); }
    var pieces := Split(query, '&');
    for i := 0 to |pieces|
      invariant Window(page, limit) == WindowOf(rd, NonEmpty(pieces[..i]))
    {
      var segment := pieces[i];
      assert pieces[..i + 1] == pieces[..i] + [segment];
      NonEmptyAppend(pieces[..i], segment);
      WindowAppend(rd, NonEmpty(pieces[..i]), segment);
      if segment != "" {
        var lowered, value := Key(rd, segment), Value(segment);
        if lowered == "limit" {
          var n := rd.number(value);
          limit := if n.Some? then Clamped(n.value) else DEFAULT_LIMIT;
        } else if lowered == "page" {
          var n := rd.number(value);
          page := if n.None? || n.value < 1 then 1 else n.value;
        }
      }
    }
    assert pieces[..|pieces|] == pieces;
    return Window(page, limit);
  }

  // ---- the rewriting -----------------------------------------------------------------

  /** A segment that already addresses the API's search controls. */
  predicate IsControl(segment: string) {
    "controls[" <= Lower(segment) || "controls%5b" <= Lower(segment)
  }

  predicate HasControl(segments: seq<string>) {
    exists s <- segments :: IsControl(s)
  }

  function ControlSegment(id: string, term: string): string {
    "controls[" + id + "]=" + term
  }

  function LimitSegment(limit: int): string
    requires limit >= 1
  {
    "limit=" + Decimal(limit)
  }

  /** The search term: empty when none is given. */
  function Term(rd: Reader, segments: seq<string>): string {
    match LastOf(rd, segments, TERM_KEYS) case Some(t) => t case None => ""
  }

  /** The segments sent: `None` stands for the `LookupError`. */
  function Sent(rd: Reader, segments: seq<string>, control: Option<string>): Option<seq<string>> {
    var kept, term := Kept(rd, segments), Term(rd, segments);
    var limit := [LimitSegment(WindowOf(rd, segments).limit)];
    if term == "" then Some(kept + limit)
    else if control in {None, Some("")} then None
    else if HasControl(kept) then Some(kept + limit)
    else Some(kept + [ControlSegment(control.value, term)] + limit)
  }

  function Normalized(rd: Reader, query: string, control: Option<string>): Option<string> {
    match Sent(rd, Segments(query), control)
    case None => None
    case Some(sent) => Some(Join(sent, '&'))
  }

  method NormalizeQuery(rd: Reader, query: string, control: Option<string>) returns (r: Option<string>)
    ensures r == Normalized(rd, query, control)
    ensures r.None? <==> Term(rd, Segments(query)) != "" && control in {None, Some("")}
  {
    hide Key, LastOf, NonEmpty, WindowOf, TERM_KEYS, IsControl, Decimal, Kept;
    NothingYet(rd);
    ControlKeys();
    var w := ResolveWindow(rd, query);
    var kept: seq<string>, term := [], "";
    var pieces := Split(query, '&');
    for i := 0 to |pieces|
      invariant kept == Kept(rd, NonEmpty(pieces[..i])) && term == Term(rd, NonEmpty(pieces[..i]))
    {
      var segment := pieces[i];
      assert pieces[..i + 1] == pieces[..i] + [segment];
      NonEmptyAppend(pieces[..i], segment);
      if segment != "" {
        KeptAppend(rd, NonEmpty(pieces[..i]), segment);
        LastOfAppend(rd, NonEmpty(pieces[..i]), segment, TERM_KEYS);
        var lowered := Key(rd, segment);
        if lowered == "limit" {
        } else if lowered in TERM_KEYS {
          term := Value(segment);
        } else {
          kept := kept + [segment];
        }
      }
    }
    assert pieces[..|pieces|] == pieces;
    if term != "" {
      if control in {None, Some("")} {
        return None;
      }
      if !HasControl(kept) {
        kept := kept + [ControlSegment(control.value, term)];
      }
    }
    kept := kept + [LimitSegment(w.limit)];
    return Some(Join(kept, '&'));
  }

  // ---- lists of segments -------------------------------------------------------------

  lemma NonEmptyAppend(pieces: seq<string>, x: string)
    ensures NonEmpty(pieces + [x]) == if x == "" then NonEmpty(pieces) else NonEmpty(pieces) + [x]
  {
    assert (pieces + [x])[..|pieces|] == pieces;
  }

  lemma {:induction false} NonEmptyConcat(a: seq<string>, b: seq<string>)
    ensures NonEmpty(a + b) == NonEmpty(a) + NonEmpty(b)
    decreases |b|
  {
    assert NonEmpty([]) == [];
    hide NonEmpty;
    if b == [] {
      assert a + b == a;
    } else {
      var front, last := b[..|b| - 1], b[|b| - 1];
      assert b == front + [last] && a + b == (a + front) + [last];
      NonEmptyAppend(a + front, last);
      NonEmptyAppend(front, last);
      NonEmptyConcat(a, front);
    }
  }

  lemma {:induction false} NonEmptyAll(pieces: seq<string>)
    requires forall p <- pieces :: p != ""
    ensures NonEmpty(pieces) == pieces
  {
    if pieces != [] {
      var front, last := pieces[..|pieces| - 1], pieces[|pieces| - 1];
      forall p <- front ensures p != "" { assert p in pieces; }
      assert last in pieces && pieces == front + [last];
      NonEmptyAll(front);
    }
  }

  lemma LastOfAppend(rd: Reader, segments: seq<string>, x: string, keys: set<string>)
    ensures LastOf(rd, segments + [x], keys) ==
      if Key(rd, x) in keys then Some(Value(x)) else LastOf(rd, segments, keys)
  {
    assert (segments + [x])[..|segments|] == segments;
  }

  lemma KeptAppend(rd: Reader, segments: seq<string>, x: string)
    ensures Kept(rd, segments + [x]) ==
      if Key(rd, x) == "limit" || Key(rd, x) in TERM_KEYS then Kept(rd, segments) else Kept(rd, segments) + [x]
  {
    assert (segments + [x])[..|segments|] == segments;
  }

  lemma NothingYet(rd: Reader)
    ensures NonEmpty([]) == [] && Kept(rd, []) == []
    ensures WindowOf(rd, []) == Window(1, DEFAULT_LIMIT) && Term(rd, []) == ""
  {
  }

  lemma WindowAppend(rd: Reader, segments: seq<string>, x: string)
    ensures var w := WindowOf(rd, segments);
      WindowOf(rd, segments + [x]) == (
      if Key(rd, x) == "limit" then w.(limit := LimitOf(rd, Some(Value(x))))
      else if Key(rd, x) == "page" then w.(page := PageOf(rd, Some(Value(x)))) else w)
  {
    hide Key, LastOf;
    LastOfAppend(rd, segments, x, {"page"});
    LastOfAppend(rd, segments, x, {"limit"});
  }

  /** Dropping other keys does not move the last `page`. */
  lemma {:induction false} LastPageKept(rd: Reader, segments: seq<string>)
    ensures LastOf(rd, Kept(rd, segments), {"page"}) == LastOf(rd, segments, {"page"})
  {
    if segments != [] {
      var front, last := segments[..|segments| - 1], segments[|segments| - 1];
      LastPageKept(rd, front);
      ControlKeys();
      assert "page" != "limit" by { assert |"page"| != |"limit"|; }
      assert segments == front + [last];
      LastOfAppend(rd, front, last, {"page"});
      KeptAppend(rd, front, last);
      if Key(rd, last) != "limit" && Key(rd, last) !in TERM_KEYS {
        LastOfAppend(rd, Kept(rd, front), last, {"page"});
      }
    }
  }

  lemma {:induction false} LastOfNone(rd: Reader, segments: seq<string>, keys: set<string>)
    requires forall s <- segments :: Key(rd, s) !in keys
    ensures LastOf(rd, segments, keys) == None
  {
    if segments != [] {
      assert segments[|segments| - 1] in segments;
      LastOfNone(rd, segments[..|segments| - 1], keys);
    }
  }

  lemma {:induction false} KeptAll(rd: Reader, segments: seq<string>)
    requires forall s <- segments :: Key(rd, s) != "limit" && Key(rd, s) !in TERM_KEYS
    ensures Kept(rd, segments) == segments
  {
    hide Key, TERM_KEYS;
    if segments != [] {
      var front, last := segments[..|segments| - 1], segments[|segments| - 1];
      assert last in segments && segments == front + [last];
      forall s <- front ensures Key(rd, s) != "limit" && Key(rd, s) !in TERM_KEYS { assert s in segments; }
      hide Key, Kept, TERM_KEYS;
      KeptAppend(rd, front, last);
      KeptAll(rd, front);
    }
  }

  // ---- the segments the client writes ------------------------------------------------

  /** The shape the page's `searchControlId` is read in. */
  predicate ControlId(id: string) {
    id != "" && forall c <- id :: '0' <= c <= '9'
  }

  lemma PlainKey(rd: Reader, key: string, value: string)
    requires Sane(rd) && '=' !in key && '%' !in key && '+' !in key
    ensures Key(rd, key + "=" + value) == Lower(key) && Value(key + "=" + value) == value
  {
    var s := key + "=" + value;
    IndexOfIs(s, '=', 0, |key|);
    assert s[..|key|] == key;
    assert s[|key| + 1..] == value;
  }

  lemma LowerWords()
    ensures Lower("limit") == "limit" && Lower("page") == "page" && Lower("?page") == "?page"
  {
  }

  lemma LimitRead(rd: Reader, limit: nat)
    requires Sane(rd) && limit >= 1
    ensures Key(rd, LimitSegment(limit)) == "limit" && Value(LimitSegment(limit)) == Decimal(limit)
    ensures '&' !in LimitSegment(limit) && LimitSegment(limit) != ""
  {
    LowerWords();
    hide Lower, Key, Decimal;
    assert LimitSegment(limit) == "limit" + "=" + Decimal(limit);
    PlainKey(rd, "limit", Decimal(limit));
  }

  lemma ControlRead(rd: Reader, id: string, term: string)
    requires Sane(rd) && ControlId(id) && '&' !in term
    ensures var key := Key(rd, ControlSegment(id, term)); |key| > 4 && key[0] == 'c'
    ensures '&' !in ControlSegment(id, term) && ControlSegment(id, term) != ""
    ensures IsControl(ControlSegment(id, term))
  {
    hide Lower, Key, IsControl;
    var key := "controls[" + id + "]";
    assert ControlSegment(id, term) == key + "=" + term;
    PlainKey(rd, key, term);
    ControlStarts(id, term);
    LowerStart(key);
  }

  lemma LowerStart(key: string)
    requires |key| > 4 && key[0] == 'c'
    ensures |Lower(key)| > 4 && Lower(key)[0] == 'c'
  {
  }

  lemma ControlStarts(id: string, term: string)
    ensures IsControl(ControlSegment(id, term))
  {
    var s := ControlSegment(id, term);
    assert s[..9] == "controls[";
    assert Lower(s)[..9] == "controls[" by {
      forall i | 0 <= i < 9 ensures Lower(s)[i] == s[i] { assert s[i] == "controls["[i]; }
    }
  }

  /** The control segment is neither a window key nor a term key. */
  lemma ControlIsOther(key: string)
    requires |key| > 4 && key[0] == 'c'
    ensures key != "limit" && key != "page" && key !in TERM_KEYS
  {
    assert forall k <- TERM_KEYS :: k[0] != 'c';
  }

  // ---- what the rewriting keeps ------------------------------------------------------

  lemma {:induction false} SplitFree(s: string, sep: char)
    ensures forall p <- Split(s, sep) :: sep !in p
    decreases |s|
  {
    var k := IndexOf(s, sep, 0);
    if k < |s| {
      SplitFree(s[k + 1..], sep);
      assert Split(s, sep) == [s[..k]] + Split(s[k + 1..], sep);
    }
  }

  ghost predicate Clean(segments: seq<string>) {
    forall s <- segments :: s != "" && '&' !in s
  }

  lemma SegmentsClean(query: string)
    ensures Clean(Segments(query))
  {
    SplitFree(query, '&');
  }

  lemma SegmentsOfJoin(segments: seq<string>)
    requires segments != [] && Clean(segments)
    ensures Segments(Join(segments, '&')) == segments
  {
    SplitJoin(segments, '&');
    NonEmptyAll(segments);
  }

  lemma {:induction false} TermClean(rd: Reader, segments: seq<string>)
    requires Clean(segments)
    ensures '&' !in Term(rd, segments)
  {
    if segments != [] {
      var front, last := segments[..|segments| - 1], segments[|segments| - 1];
      assert last in segments;
      assert forall s <- front :: s in segments;
      TermClean(rd, front);
      assert forall c <- Value(last) :: c in last;
    }
  }

  /** What is sent ahead of the limit: the kept segments and perhaps the control. */
  ghost predicate Ahead(rd: Reader, segments: seq<string>, ahead: seq<string>) {
    && Clean(ahead)
    && (forall s <- ahead :: Key(rd, s) != "limit" && Key(rd, s) !in TERM_KEYS)
    && LastOf(rd, ahead, {"page"}) == LastOf(rd, segments, {"page"})
  }

  lemma SentShape(rd: Reader, segments: seq<string>, control: Option<string>)
    requires Sane(rd) && Clean(segments) && (control.Some? ==> ControlId(control.value))
    requires Sent(rd, segments, control).Some?
    ensures var sent := Sent(rd, segments, control).value;
      |sent| > 0 && Clean(sent) && Ahead(rd, segments, sent[..|sent| - 1]) &&
      sent[|sent| - 1] == LimitSegment(WindowOf(rd, segments).limit)
  {
    hide Lower, Key, LastOf, TERM_KEYS;
    var sent := Sent(rd, segments, control).value;
    var kept, term, limit := Kept(rd, segments), Term(rd, segments), WindowOf(rd, segments).limit;
    LastPageKept(rd, segments);
    LimitRead(rd, limit);
    if sent == kept + [LimitSegment(limit)] {
      assert sent[..|sent| - 1] == kept;
    } else {
      var c := ControlSegment(control.value, term);
      TermClean(rd, segments);
      ControlRead(rd, control.value, term);
      ControlIsOther(Key(rd, c));
      LastOfAppend(rd, kept, c, {"page"});
      assert sent[..|sent| - 1] == kept + [c];
    }
  }

  lemma SentReadsBack(rd: Reader, segments: seq<string>, ahead: seq<string>)
    requires Sane(rd) && Ahead(rd, segments, ahead)
    ensures var limit := WindowOf(rd, segments).limit; var sent := ahead + [LimitSegment(limit)];
      && WindowOf(rd, sent) == WindowOf(rd, segments)
      && Kept(rd, sent) == ahead && Term(rd, sent) == ""
  {
    hide Key, LastOf, Kept;
    var limit := WindowOf(rd, segments).limit;
    var last := LimitSegment(limit);
    LimitRead(rd, limit);
    LastOfAppend(rd, ahead, last, {"page"});
    LastOfAppend(rd, ahead, last, {"limit"});
    LastOfAppend(rd, ahead, last, TERM_KEYS);
    LastOfNone(rd, ahead, TERM_KEYS);
    KeptAppend(rd, ahead, last);
    KeptAll(rd, ahead);
    assert "limit" !in TERM_KEYS;
  }

  /** The window fetched is the window asked for, for every query that normalises. */
  lemma WindowSurvives(rd: Reader, query: string, control: Option<string>)
    requires Sane(rd) && (control.Some? ==> ControlId(control.value))
    requires Normalized(rd, query, control).Some?
    ensures WindowOf(rd, Segments(Normalized(rd, query, control).value)) == WindowOf(rd, Segments(query))
  {
    hide Key, LastOf, Kept, WindowOf, Lower, TERM_KEYS;
    SentAgain(rd, query, control);
  }

  lemma SentAgain(rd: Reader, query: string, control: Option<string>)
    requires Sane(rd) && (control.Some? ==> ControlId(control.value))
    requires Normalized(rd, query, control).Some?
    ensures var sent := Sent(rd, Segments(query), control).value; var ahead := sent[..|sent| - 1];
      && sent == ahead + [LimitSegment(WindowOf(rd, Segments(query)).limit)]
      && Segments(Normalized(rd, query, control).value) == sent
      && WindowOf(rd, sent) == WindowOf(rd, Segments(query))
      && Kept(rd, sent) == ahead && Term(rd, sent) == ""
  {
    hide Key, LastOf, Kept, WindowOf, Lower, TERM_KEYS, Sent, Segments;
    SegmentsClean(query);
    SentShape(rd, Segments(query), control);
    var sent := Sent(rd, Segments(query), control).value;
    SegmentsOfJoin(sent);
    SentReadsBack(rd, Segments(query), sent[..|sent| - 1]);
  }

  /** Normalising what was normalised changes nothing, whatever control the page names then. */
  lemma NormalizingIsIdempotent(rd: Reader, query: string, control: Option<string>, later: Option<string>)
    requires Sane(rd) && (control.Some? ==> ControlId(control.value))
    requires Normalized(rd, query, control).Some?
    ensures var once := Normalized(rd, query, control).value; Normalized(rd, once, later) == Some(once)
  {
    hide Key, LastOf, Kept, WindowOf, Lower, TERM_KEYS, Segments;
    SentAgain(rd, query, control);
  }

  // ---- when the term arrives ---------------------------------------------------------

  /**
   No term key survives. The last term given, when it is not empty, reaches the
   API as this page's control exactly when the caller had written no other
   control segment.
   */
  lemma TermArrives(rd: Reader, query: string, id: string)
    requires Sane(rd) && ControlId(id)
    ensures var r, term := Normalized(rd, query, Some(id)), Term(rd, Segments(query));
      && r.Some?
      && (forall s <- Segments(r.value) :: Key(rd, s) !in TERM_KEYS)
      && (term != "" ==>
            (ControlSegment(id, term) in Segments(r.value) <==>
              !HasControl(Kept(rd, Segments(query))) || ControlSegment(id, term) in Segments(query)))
  {
    hide Lower, LastOf, WindowOf, Segments, TERM_KEYS, Key;
    var segments := Segments(query);
    var sent, term := Sent(rd, segments, Some(id)).value, Term(rd, segments);
    SegmentsClean(query);
    SentShape(rd, segments, Some(id));
    SegmentsOfJoin(sent);
    LimitRead(rd, WindowOf(rd, segments).limit);
    assert "limit" !in TERM_KEYS by { ControlKeys(); }
    if term != "" {
      TermClean(rd, segments);
      ControlRead(rd, id, term);
      ControlIsOther(Key(rd, ControlSegment(id, term)));
      KeptHas(rd, segments, ControlSegment(id, term));
    }
  }

  lemma LimitIsNoControl(limit: nat)
    requires limit >= 1
    ensures !IsControl(LimitSegment(limit))
  {
    var s := LimitSegment(limit);
    assert s[0] == 'l' && Lower(s)[0] == 'l';
  }

  lemma HasControlConcat(a: seq<string>, b: seq<string>)
    ensures HasControl(a + b) <==> HasControl(a) || HasControl(b)
  {
    hide IsControl;
    if HasControl(a) {
      var s :| s in a && IsControl(s);
      assert s in a + b;
    }
    if HasControl(b) {
      var s :| s in b && IsControl(s);
      assert s in a + b;
    }
  }

  lemma HasControlSingle(s: string)
    ensures HasControl([s]) <==> IsControl(s)
  {
    hide IsControl;
    assert s in [s];
  }

  /**
   The query sent addresses some control, instead of asking for the whole
   catalogue, exactly when the last term is not empty or the caller wrote a control.
   */
  lemma FilteredExactly(rd: Reader, query: string, control: Option<string>)
    requires Sane(rd) && (control.Some? ==> ControlId(control.value))
    requires Normalized(rd, query, control).Some?
    ensures HasControl(Segments(Normalized(rd, query, control).value)) <==>
      Term(rd, Segments(query)) != "" || HasControl(Kept(rd, Segments(query)))
  {
    hide Lower, LastOf, WindowOf, Segments, TERM_KEYS, Key, Kept, IsControl, HasControl;
    var segments := Segments(query);
    var kept, term, limit := Kept(rd, segments), Term(rd, segments), LimitSegment(WindowOf(rd, segments).limit);
    SentAgain(rd, query, control);
    LimitIsNoControl(WindowOf(rd, segments).limit);
    HasControlSingle(limit);
    HasControlConcat(kept, [limit]);
    if term != "" && !HasControl(kept) {
      var c := ControlSegment(control.value, term);
      ControlStarts(control.value, term);
      HasControlSingle(c);
      HasControlConcat(kept, [c]);
      HasControlConcat(kept + [c], [limit]);
    }
  }

  /** An empty term behind a real one wins: the whole catalogue is asked for, and nothing fails. */
  lemma TermLostBehindEmpty(rd: Reader, control: Option<string>)
    requires Sane(rd)
    ensures Normalized(rd, "q=cat6&q=", control) == Some("limit=24")
  {
    hide Lower, Key, Split, NonEmpty, Decimal, Kept, Term, WindowOf, TERM_KEYS, HasControl, LastOf;
    var a, b := "q" + "=" + "cat6", "q" + "=" + "";
    PlainKey(rd, "q", "cat6");
    PlainKey(rd, "q", "");
    LowerQ();
    OneSegment(a);
    OneSegment(b);
    SplitAppend(a, '&', b);
    assert "q=cat6&q=" == a + ['&'] + b;
    NonEmptyAll([a, b]);
    assert [a] + [b] == [a, b];
    assert Segments("q=cat6&q=") == [a, b];
    TermLostIn(rd, a, b);
    assert [] + [LimitSegment(24)] == [LimitSegment(24)];
    assert Sent(rd, [a, b], control) == Some([LimitSegment(24)]);
    assert LimitSegment(24) == "limit=24";
  }

  lemma LowerQ()
    ensures Lower("q") == "q" && "q" in TERM_KEYS && Decimal(24) == "24"
  {
    assert Decimal(2) == "2";
  }

  lemma TermLostIn(rd: Reader, a: string, b: string)
    requires Key(rd, a) == Key(rd, b) == "q" && Value(b) == ""
    ensures Kept(rd, [a, b]) == [] && Term(rd, [a, b]) == ""
    ensures WindowOf(rd, [a, b]) == Window(1, DEFAULT_LIMIT)
  {
    LowerQ();
    assert "q" != "limit" && "q" != "page" by { assert |"q"| != |"limit"| && |"q"| != |"page"|; }
    hide Key, Lower, Kept, LastOf, TERM_KEYS;
    assert [a, b] == [a] + [b] && [a] == [] + [a];
    NothingYet(rd);
    KeptAppend(rd, [a], b);
    KeptAppend(rd, [], a);
    LastOfAppend(rd, [a], b, TERM_KEYS);
    LastOfNone(rd, [a, b], {"page"});
    LastOfNone(rd, [a, b], {"limit"});
  }

  lemma ControlKeys()
    ensures "limit" !in TERM_KEYS && "page" !in TERM_KEYS
  {
  }

  lemma {:induction false} KeptHas(rd: Reader, segments: seq<string>, s: string)
    requires Key(rd, s) != "limit" && Key(rd, s) !in TERM_KEYS
    ensures s in Kept(rd, segments) <==> s in segments
  {
    if segments != [] {
      var front, last := segments[..|segments| - 1], segments[|segments| - 1];
      assert segments == front + [last];
      KeptHas(rd, front, s);
    }
  }

  // ---- URLs and the hint -------------------------------------------------------------

  /** The query of a URL: behind the first `?`, ahead of the first `#`. */
  function Query(url: string): string {
    var u := url[..IndexOf(url, '#', 0)];
    var k := IndexOf(u, '?', 0);
    if k == |u| then "" else u[k + 1..]
  }

  function At(rd: Reader, url: string): (w: Window)
    ensures w.page >= 1 && 1 <= w.limit <= MAX_LIMIT
  {
    WindowOf(rd, Segments(Query(url)))
  }

  function PageSegment(n: nat): string {
    "page=" + Decimal(n)
  }

  /** The URL the hint tells the caller to build. */
  function NextUrl(rd: Reader, url: string): string {
    url + (if Query(url) != "" then "&" else "?") + PageSegment(At(rd, url).page + 1)
  }

  /** A parameter can be added at the end of this URL. */
  predicate Addable(url: string) {
    '#' !in url && (Query(url) == "" ==> '?' !in url)
  }

  lemma PageRead(rd: Reader, n: nat)
    requires Sane(rd)
    ensures Key(rd, PageSegment(n)) == "page" && Value(PageSegment(n)) == Decimal(n)
    ensures Clean([PageSegment(n)])
  {
    LowerWords();
    hide Lower, Key, Decimal;
    assert PageSegment(n) == "page" + "=" + Decimal(n);
    PlainKey(rd, "page", Decimal(n));
  }

  /** One more `page` segment moves the page and nothing else. */
  lemma PageAppended(rd: Reader, segments: seq<string>, n: nat)
    requires Sane(rd) && n >= 1
    ensures var longer := segments + [PageSegment(n)];
      && WindowOf(rd, longer) == Window(n, WindowOf(rd, segments).limit)
      && Term(rd, longer) == Term(rd, segments)
  {
    hide Key, LastOf, Kept;
    var x := PageSegment(n);
    PageRead(rd, n);
    LastOfAppend(rd, segments, x, {"page"});
    LastOfAppend(rd, segments, x, {"limit"});
    LastOfAppend(rd, segments, x, TERM_KEYS);
    ControlKeys();
  }

  lemma QueryOf(head: string, tail: string)
    requires '#' !in head && '#' !in tail && '?' !in head
    ensures Query(head + "?" + tail) == tail && Query(head) == ""
  {
    var url := head + "?" + tail;
    assert url[|head|] == '?';
    IndexOfIs(url, '#', 0, |url|);
    IndexOfIs(url, '?', 0, |head|);
    assert url[..|url|] == url && url[|head| + 1..] == tail;
    IndexOfIs(head, '#', 0, |head|);
    IndexOfIs(head, '?', 0, |head|);
    assert head[..|head|] == head;
  }

  lemma AddableForm(url: string)
    requires '#' !in url && '?' in url
    ensures exists head, tail :: (
      '?' !in head && '#' !in head && '#' !in tail && url == head + "?" + tail && Query(url) == tail)
  {
    var k := IndexOf(url, '?', 0);
    var head, tail := url[..k], url[k + 1..];
    assert url == head + "?" + tail;
    QueryOf(head, tail);
  }

  /** The segments of the next URL, and that it is again addable. */
  lemma NextSegments(rd: Reader, url: string)
    requires Sane(rd) && Addable(url)
    ensures var x := PageSegment(At(rd, url).page + 1);
      Segments(Query(NextUrl(rd, url))) == Segments(Query(url)) + [x] && Addable(NextUrl(rd, url))
  {
    hide Key, LastOf, Kept, WindowOf, Lower, Query, Split, NonEmpty;
    var x := PageSegment(At(rd, url).page + 1);
    PageRead(rd, At(rd, url).page + 1);
    assert '#' !in x;
    OneSegment(x);
    if '?' in url {
      QueryExtended(url, x);
      SplitAppend(Query(url), '&', x);
      NonEmptyConcat(Split(Query(url), '&'), Split(x, '&'));
    } else {
      QueryOf(url, x);
      NoSegments();
    }
  }

  lemma QueryExtended(url: string, x: string)
    requires '#' !in url && '?' in url && '#' !in x
    ensures Query(url + "&" + x) == Query(url) + ['&'] + x && '#' !in url + "&" + x
  {
    hide Query;
    AddableForm(url);
    var head, tail :| '?' !in head && '#' !in head && '#' !in tail
      && url == head + "?" + tail && Query(url) == tail;
    var longer := tail + ['&'] + x;
    assert url + "&" + x == head + "?" + longer;
    QueryOf(head, longer);
  }

  lemma NoSegments()
    ensures Segments("") == []
  {
  }

  lemma OneSegment(x: string)
    requires x != "" && '&' !in x
    ensures Split(x, '&') == [x] && NonEmpty([x]) == [x] && Segments(x) == [x]
  {
    IndexOfIs(x, '&', 0, |x|);
    assert [x][..0] == [];
  }

  /**
   The hint leads to the next page exactly when the URL has no fragment and does
   not end in a bare `?`; behind either of those it leads to the same window again.
   */
  lemma HintAdvancesExactly(rd: Reader, url: string)
    requires Sane(rd)
    ensures var w, next := At(rd, url), At(rd, NextUrl(rd, url));
      next == if Addable(url) then Window(w.page + 1, w.limit) else w
  {
    hide Key, LastOf, WindowOf, Query, Segments, Lower;
    if Addable(url) {
      NextSegments(rd, url);
      PageAppended(rd, Segments(Query(url)), At(rd, url).page + 1);
    } else if '#' in url {
      BehindFragment(url, NextUrl(rd, url));
    } else {
      BareQuestion(rd, url);
    }
  }

  lemma BehindFragment(url: string, longer: string)
    requires '#' in url && url <= longer
    ensures Query(longer) == Query(url)
  {
    var k := IndexOf(url, '#', 0);
    assert k < |url|;
    assert forall i | 0 <= i < k :: longer[i] == url[i];
    IndexOfIs(longer, '#', 0, k);
    assert longer[..k] == url[..k];
  }

  lemma BareQuestion(rd: Reader, url: string)
    requires Sane(rd) && '#' !in url && '?' in url && Query(url) == ""
    ensures At(rd, url) == Window(1, DEFAULT_LIMIT) == At(rd, NextUrl(rd, url))
  {
    hide Key, Query, Split, Decimal, Segments;
    NoSegments();
    assert At(rd, url) == Window(1, DEFAULT_LIMIT);
    var x := "?page" + "=" + Decimal(2);
    assert NextUrl(rd, url) == url + x;
    BareExtended(url, x);
    PageRead(rd, 2);
    OneSegment(x);
    NotAPage(rd, x);
  }

  lemma BareExtended(url: string, x: string)
    requires '#' !in url && '?' in url && Query(url) == "" && '#' !in x
    ensures Query(url + x) == x
  {
    hide Query;
    AddableForm(url);
    var head, tail :| '?' !in head && '#' !in head && '#' !in tail
      && url == head + "?" + tail && Query(url) == tail;
    assert url + x == head + "?" + x;
    QueryOf(head, x);
  }

  lemma NotAPage(rd: Reader, x: string)
    requires Sane(rd) && x == "?page" + "=" + Decimal(2)
    ensures WindowOf(rd, [x]) == Window(1, DEFAULT_LIMIT)
  {
    LowerWords();
    hide Lower, Key, Decimal, Value;
    PlainKey(rd, "?page", Decimal(2));
    LastOfNone(rd, [x], {"page"});
    LastOfNone(rd, [x], {"limit"});
  }

  // ---- following the hints -----------------------------------------------------------

  function Span(from: nat, to: nat): (r: seq<nat>)
    ensures |r| == (if from < to then to - from else 0)
    ensures forall i | 0 <= i < |r| :: r[i] == from + i
  {
    if from < to then seq(to - from, i requires 0 <= i => from + i) else []
  }

  /** Rows a server that fills each window answers with, out of `total`. */
  function Answer(w: Window, total: nat): seq<nat>
    requires w.page >= 1 && w.limit >= 1
  {
    var first, past := (w.page - 1) * w.limit, w.page * w.limit;
    Span(first, if past < total then past else total)
  }

  /** The window fetched for a URL: that of the query string sent. */
  function Fetched(rd: Reader, url: string, control: Option<string>): (w: Window)
    requires Normalized(rd, Query(url), control).Some?
    ensures w.page >= 1 && 1 <= w.limit <= MAX_LIMIT
  {
    WindowOf(rd, Segments(Normalized(rd, Query(url), control).value))
  }

  datatype Listing = Listing(seen: nat, remaining: nat, hinted: bool)

  /** The arithmetic of a rendered page of `items` rows. */
  function Rendered(rd: Reader, url: string, items: nat, total: nat): Listing {
    var w := At(rd, url);
    var seen := Offset(w) + items;
    var more := items > 0 && total > seen;
    Listing(seen, if more then total - seen else 0, more)
  }

  function Offset(w: Window): nat
    requires w.page >= 1 && w.limit >= 1
  {
    (w.page - 1) * w.limit
  }

  /** What one page is, and what is left behind it. */
  lemma PageAnswered(w: Window, total: nat)
    requires w.page >= 1 && w.limit >= 1
    ensures var rows, next := Answer(w, total), Window(w.page + 1, w.limit);
      && Offset(next) == Offset(w) + w.limit
      && rows == Span(Offset(w), if Offset(next) < total then Offset(next) else total)
      && (|rows| > 0 && total > Offset(w) + |rows| <==> Offset(next) < total)
  {
    assert w.page * w.limit == (w.page - 1) * w.limit + w.limit;
  }

  /** The query behind a followed hint still normalises. */
  lemma NextNormalizes(rd: Reader, url: string, control: Option<string>)
    requires Sane(rd) && Addable(url) && Normalized(rd, Query(url), control).Some?
    ensures Normalized(rd, Query(NextUrl(rd, url)), control).Some?
  {
    hide Key, LastOf, Kept, WindowOf, Lower, Query, Segments, NextUrl;
    NextSegments(rd, url);
    PageAppended(rd, Segments(Query(url)), At(rd, url).page + 1);
  }

  /** Every row shown to a caller who keeps following the hint. */
  ghost function Visited(rd: Reader, url: string, control: Option<string>, total: nat): seq<nat>
    requires Sane(rd) && Addable(url) && (control.Some? ==> ControlId(control.value))
    requires Normalized(rd, Query(url), control).Some?
    decreases if Offset(At(rd, url)) < total then total - Offset(At(rd, url)) else 0
  {
    var rows := Answer(Fetched(rd, url, control), total);
    if !Rendered(rd, url, |rows|, total).hinted then rows
    else
      Follows(rd, url, control, total);
      rows + Visited(rd, NextUrl(rd, url), control, total)
  }

  /** A step along the hints: same limit, next offset, and the page it left was full. */
  lemma Follows(rd: Reader, url: string, control: Option<string>, total: nat)
    requires Sane(rd) && Addable(url) && (control.Some? ==> ControlId(control.value))
    requires Normalized(rd, Query(url), control).Some?
    ensures var w, next := At(rd, url), NextUrl(rd, url);
      && Fetched(rd, url, control) == w && Addable(next)
      && Normalized(rd, Query(next), control).Some?
      && At(rd, next) == Window(w.page + 1, w.limit)
      && Offset(At(rd, next)) == Offset(w) + w.limit
      && (Rendered(rd, url, |Answer(w, total)|, total).hinted <==> Offset(At(rd, next)) < total)
      && Answer(w, total) == Span(Offset(w), if Offset(At(rd, next)) < total then Offset(At(rd, next)) else total)
  {
    hide Key, LastOf, Kept, WindowOf, Lower, Query, Segments, NextUrl, Normalized, Answer;
    WindowSurvives(rd, Query(url), control);
    HintAdvancesExactly(rd, url);
    NextNormalizes(rd, url, control);
    NextSegments(rd, url);
    PageAnswered(At(rd, url), total);
  }

  /** Following the hints shows every row from the first page's offset on, in order and once. */
  lemma {:induction false} HintsReachEveryRow(rd: Reader, url: string, control: Option<string>, total: nat)
    requires Sane(rd) && Addable(url) && (control.Some? ==> ControlId(control.value))
    requires Normalized(rd, Query(url), control).Some?
    ensures Visited(rd, url, control, total) == Span(Offset(At(rd, url)), total)
    ensures At(rd, url).page == 1 ==>
      |Visited(rd, url, control, total)| == total &&
      forall k | 0 <= k < total :: Visited(rd, url, control, total)[k] == k
    decreases if Offset(At(rd, url)) < total then total - Offset(At(rd, url)) else 0
  {
    hide Key, LastOf, Kept, WindowOf, Lower, Query, Segments, NextUrl, Normalized, Answer;
    Follows(rd, url, control, total);
    if Offset(At(rd, NextUrl(rd, url))) < total {
      HintsReachEveryRow(rd, NextUrl(rd, url), control, total);
    }
  }
}
