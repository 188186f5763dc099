/**
 What the text of a Cache-Control field means: directives in any case, with any
 spaces around and any value behind, and the ages they state, bare or quoted.
 */
module CacheHeaders {
  import opened Basics
  import opened Text
  import opened CacheControl

  predicate Spaces(s: string) {
    forall c <- s :: IsSpace(c)
  }

  predicate Solid(s: string) {
    s != "" && !IsSpace(s[0]) && !IsSpace(s[|s| - 1])
  }

  /** One directive as it is written. */
  datatype Written = Written(lead: string, name: string, trail: string, value: Option<string>)

  predicate Valid(w: Written) {
    && Spaces(w.lead) && Spaces(w.trail) && Solid(w.name) && '=' !in w.name && ',' !in w.name
    && (w.value.Some? ==> ',' !in w.value.value)
  }

  function Print(w: Written): string {
    w.lead + w.name + w.trail + (if w.value.Some? then "=" + w.value.value else "")
  }

  function PrintAll(ws: seq<Written>): seq<string> {
    seq(|ws|, i requires 0 <= i < |ws| => Print(ws[i]))
  }

  // ---- what a directive says, read off the way it is written -----------------

  predicate Forbids(w: Written) {
    Lower(w.name) == "private" || Lower(w.name) == "no-cache" || Lower(w.name) == "no-store"
  }

  predicate Names(w: Written, kind: AgeKind) {
    Lower(w.name) == match kind case MaxAge => "max-age" case SMaxAge => "s-maxage"
  }

  /** `value` is `digits` with spaces around, bare or in quotes. */
  ghost predicate Reads(value: string, digits: string) {
    && digits != "" && AllDigits(digits)
    && exists l, r :: Spaces(l) && Spaces(r) && (value == l + digits + r || value == l + ("\"" + digits + "\"") + r)
  }

  ghost predicate States(w: Written, kind: AgeKind, seconds: nat) {
    && Names(w, kind) && w.value.Some?
    && exists digits :: Reads(w.value.value, digits) && seconds == Clamp(digits)
  }

  /** An age without a value, or with one that is no number. */
  ghost predicate Garbled(w: Written) {
    && (Names(w, MaxAge) || Names(w, SMaxAge))
    && (w.value.Some? ==> forall digits :: !Reads(w.value.value, digits))
  }

  // ---- spaces ------------------------------------------------------------------

  lemma {:induction false} StripLeftPadded(l: string, m: string)
    requires Spaces(l) && (m == "" || !IsSpace(m[0]))
    ensures StripLeft(l + m) == m
  {
    if l == "" {
      assert l + m == m;
    } else {
      assert (l + m)[1..] == l[1..] + m && l[0] in l;
      assert forall c <- l[1..] :: c in l;
      StripLeftPadded(l[1..], m);
    }
  }

  lemma {:induction false} StripRightPadded(m: string, r: string)
    requires Spaces(r) && (m == "" || !IsSpace(m[|m| - 1]))
    ensures StripRight(m + r) == m
  {
    if r == "" {
      assert m + r == m;
    } else {
      var n := |r| - 1;
      assert (m + r)[..|m + r| - 1] == m + r[..n] && r[n] in r && (m + r)[|m + r| - 1] == r[n];
      assert forall c <- r[..n] :: c in r;
      StripRightPadded(m, r[..n]);
    }
  }

  lemma StripPadded(l: string, m: string, r: string)
    requires Spaces(l) && Spaces(r) && Solid(m)
    ensures Strip(l + m + r) == m
  {
    assert l + m + r == l + (m + r);
    StripLeftPadded(l, m + r);
    StripRightPadded(m, r);
  }

  lemma {:induction false} LeftPad(s: string) returns (l: string)
    ensures Spaces(l) && s == l + StripLeft(s) && (StripLeft(s) == "" || !IsSpace(StripLeft(s)[0]))
  {
    l := "";
    if s != "" && IsSpace(s[0]) {
      var rest := LeftPad(s[1..]);
      l := [s[0]] + rest;
    }
  }

  lemma {:induction false} RightPad(s: string) returns (r: string)
    ensures Spaces(r) && s == StripRight(s) + r && (StripRight(s) == "" || !IsSpace(StripRight(s)[|StripRight(s)| - 1]))
  {
    r := "";
    if s != "" && IsSpace(s[|s| - 1]) {
      var rest := RightPad(s[..|s| - 1]);
      r := rest + [s[|s| - 1]];
    }
  }

  lemma Pads(s: string) returns (l: string, r: string)
    ensures Spaces(l) && Spaces(r) && s == l + Strip(s) + r
  {
    l := LeftPad(s);
    r := RightPad(StripLeft(s));
    assert l + Strip(s) + r == l + (Strip(s) + r);
  }

  // ---- ages ----------------------------------------------------------------------

  lemma DigitsAreSolid(digits: string)
    requires digits != "" && AllDigits(digits)
    ensures Solid(digits) && '"' !in digits
  {
    assert forall c <- digits :: IsDigit(c) && !IsSpace(c) && c != '"';
    assert digits[0] in digits && digits[|digits| - 1] in digits;
  }

  lemma AgeTextExactly(value: string, digits: string)
    ensures AgeText(value) == Some(digits) <==> Reads(value, digits)
  {
    if AgeText(value) == Some(digits) {
      var l, r := Pads(value);
      var v := Strip(value);
      assert v == digits || v == "\"" + digits + "\"";
      assert Reads(value, digits);
    }
    if Reads(value, digits) {
      DigitsAreSolid(digits);
      var l, r :| Spaces(l) && Spaces(r) && (value == l + digits + r || value == l + ("\"" + digits + "\"") + r);
      ReadBack(l, digits, r);
    }
  }

  lemma ReadBack(l: string, digits: string, r: string)
    requires Spaces(l) && Spaces(r) && digits != "" && AllDigits(digits) && Solid(digits) && '"' !in digits
    ensures AgeText(l + digits + r) == Some(digits)
    ensures AgeText(l + ("\"" + digits + "\"") + r) == Some(digits)
  {
    hide Strip, AllDigits;
    StripPadded(l, digits, r);
    assert digits[0] in digits;
    var quoted := "\"" + digits + "\"";
    StripPadded(l, quoted, r);
    assert quoted[1..|quoted| - 1] == digits;
  }

  lemma AgeTextStripped(value: string)
    ensures AgeText(StripRight(value)) == AgeText(value)
  {
    hide Strip, StripRight;
    StripStripped(value);
  }

  lemma StripStripped(value: string)
    ensures Strip(StripRight(value)) == Strip(value)
  {
    hide StripLeft, StripRight;
    var r := RightPad(value);
    var t := StripRight(value);
    var l := LeftPad(t);
    var m := StripLeft(t);
    if m == "" {
      assert t == l;
      assert Spaces(value);
      AllSpaces(value);
      AllSpaces(t);
    } else {
      assert t[|t| - 1] == m[|m| - 1];
      assert value == l + m + r && t == l + m + "";
      StripPadded(l, m, r);
      StripPadded(l, m, "");
    }
  }

  lemma {:induction false} AllSpaces(s: string)
    requires Spaces(s)
    ensures Strip(s) == ""
  {
    assert s + "" == s;
    StripLeftPadded(s, "");
  }

  // ---- a written directive is read for what it is ----------------------------------

  lemma StripWritten(w: Written)
    requires Valid(w)
    ensures Strip(Print(w)) == if w.value.Some? then w.name + w.trail + "=" + StripRight(w.value.value) else w.name
  {
    if w.value.None? {
      assert Print(w) == w.lead + w.name + w.trail;
      StripPadded(w.lead, w.name, w.trail);
    } else {
      var r := RightPad(w.value.value);
      var m := w.name + w.trail + "=" + StripRight(w.value.value);
      assert m[0] == w.name[0];
      assert Print(w) == w.lead + m + r;
      StripPadded(w.lead, m, r);
    }
  }

  lemma NameRead(w: Written)
    requires Valid(w)
    ensures var d := Strip(Print(w)); var k := IndexOf(d, '=', 0);
      && d != "" && Strip(d[..k]) == w.name
      && (w.value.None? <==> k == |d|)
      && (w.value.Some? ==> d[k + 1..] == StripRight(w.value.value))
  {
    hide StripLeft, StripRight;
    StripWritten(w);
    var d := Strip(Print(w));
    assert forall c <- w.trail :: IsSpace(c) && c != '=';
    if w.value.None? {
      IndexOfIs(d, '=', 0, |d|);
      assert d[..|d|] == d && "" + w.name + "" == w.name;
      StripPadded("", w.name, "");
    } else {
      var k := |w.name + w.trail|;
      assert forall i | 0 <= i < k :: d[i] == (w.name + w.trail)[i] && (d[i] in w.name || d[i] in w.trail);
      IndexOfIs(d, '=', 0, k);
      assert d[..k] == "" + w.name + w.trail;
      StripPadded("", w.name, w.trail);
    }
  }

  lemma WrittenIsRead(w: Written)
    requires Valid(w)
    ensures Classify(Print(w)) == Restricts <==> Forbids(w)
    ensures Classify(Print(w)) == BadAge <==> Garbled(w)
    ensures forall kind, n :: Classify(Print(w)) == Age(kind, n) <==> States(w, kind, n)
  {
    NameRead(w);
    LiteralNames();
    if w.value.Some? {
      AgeTextStripped(w.value.value);
      forall digits
        ensures AgeText(w.value.value) == Some(digits) <==> Reads(w.value.value, digits)
      {
        AgeTextExactly(w.value.value, digits);
      }
    }
    hide AgeText, Reads, Strip, Lower, Print, Clamp;
    WrittenIsReadAs(w);
  }

  lemma WrittenIsReadAs(w: Written)
    requires var d := Strip(Print(w)); var k := IndexOf(d, '=', 0);
      && d != "" && Strip(d[..k]) == w.name
      && (w.value.None? <==> k == |d|)
      && (w.value.Some? ==> AgeText(d[k + 1..]) == AgeText(w.value.value))
    requires w.value.Some? ==> forall digits :: AgeText(w.value.value) == Some(digits) <==> Reads(w.value.value, digits)
    ensures Classify(Print(w)) == Restricts <==> Forbids(w)
    ensures Classify(Print(w)) == BadAge <==> Garbled(w)
    ensures forall kind, n :: Classify(Print(w)) == Age(kind, n) <==> States(w, kind, n)
  {
    hide AgeText, Reads, Strip, Lower, Print, Clamp;
    LiteralNames();
  }

  lemma LiteralNames()
    ensures "max-age" != "s-maxage" && "private" != "max-age" && "no-cache" != "max-age" && "no-store" != "max-age"
    ensures "private" != "s-maxage" && "no-cache" != "s-maxage" && "no-store" != "s-maxage"
  {
    assert |"max-age"| == 7 && |"s-maxage"| == 8 && |"private"| == 7 && |"no-cache"| == 8 && |"no-store"| == 8;
    assert "private"[0] == 'p' && "max-age"[0] == 'm' && "no-cache"[0] == 'n' && "no-store"[0] == 'n' && "s-maxage"[0] == 's';
  }

  // ---- the whole field -------------------------------------------------------------

  /** Some directive forbids storing, is garbled, states a zero, or contradicts another. */
  ghost predicate Refusing(ws: seq<Written>) {
    || (exists w <- ws :: Forbids(w) || Garbled(w))
    || (exists w <- ws, kind :: States(w, kind, 0))
    || (exists v <- ws, w <- ws, kind, a, b :: a != b && States(v, kind, a) && States(w, kind, b))
  }

  ghost predicate Stated(ws: seq<Written>, kind: AgeKind, seconds: nat) {
    exists w <- ws :: States(w, kind, seconds)
  }

  lemma PrintedFreeOfComma(ws: seq<Written>)
    requires forall w <- ws :: Valid(w)
    ensures forall raw <- PrintAll(ws) :: ',' !in raw
  {
    forall raw | raw in PrintAll(ws)
      ensures ',' !in raw
    {
      var i :| 0 <= i < |ws| && raw == Print(ws[i]);
      assert ws[i] in ws && forall c | IsSpace(c) :: c != ',';
    }
  }

  lemma DirectivesStated(ws: seq<Written>)
    requires forall w <- ws :: Valid(w)
    ensures var ds := Directives(PrintAll(ws));
      && (Restricts in ds <==> exists w <- ws :: Forbids(w))
      && (BadAge in ds <==> exists w <- ws :: Garbled(w))
      && forall kind, n :: Age(kind, n) in ds <==> Stated(ws, kind, n)
  {
    hide Classify, Forbids, Garbled, States, Print;
    var raws := PrintAll(ws);
    var ds := Directives(raws);
    forall w | w in ws
      ensures Classify(Print(w)) in ds
      ensures Classify(Print(w)) == Restricts <==> Forbids(w)
      ensures Classify(Print(w)) == BadAge <==> Garbled(w)
      ensures forall kind, n :: Classify(Print(w)) == Age(kind, n) <==> States(w, kind, n)
    {
      WrittenIsRead(w);
      var i :| 0 <= i < |ws| && ws[i] == w;
      assert raws[i] == Print(w) && raws[i] in raws;
    }
    forall d | d in ds
      ensures exists w <- ws :: Classify(Print(w)) == d
    {
      var raw :| raw in raws && Classify(raw) == d;
      var i :| 0 <= i < |ws| && raw == Print(ws[i]);
      assert ws[i] in ws;
    }
  }

  /**
   A written field, exactly. It refuses if and only if some directive -- in any case,
   with any spaces and value -- is `private`, `no-cache` or `no-store`, or an age is
   garbled or zero, or two ages of one kind differ. It grants a lifetime if and only
   if it does not refuse and s-maxage, or in its absence max-age, states that number;
   and it sets no limit if and only if it does neither.
   */
  lemma FieldMeans(ws: seq<Written>, seconds: nat)
    requires ws != [] && forall w <- ws :: Valid(w)
    ensures var policy := HeaderPolicy(Some(Join(PrintAll(ws), ',')));
      && (policy == Refused <==> Refusing(ws))
      && (policy == Limited(seconds) <==>
            && !Refusing(ws)
            && (Stated(ws, SMaxAge, seconds) ||
                ((forall n :: !Stated(ws, SMaxAge, n)) && Stated(ws, MaxAge, seconds))))
      && (policy == Unlimited <==> !Refusing(ws) && forall kind, n :: !Stated(ws, kind, n))
  {
    hide States, Forbids, Garbled, Classify, Print;
    PrintedFreeOfComma(ws);
    SplitJoin(PrintAll(ws), ',');
    TextPolicy(Join(PrintAll(ws), ','));
    DirectivesStated(ws);
    RefusingExactly(ws);
    PolicyExactly(Directives(PrintAll(ws)), seconds);
  }

  lemma RefusingExactly(ws: seq<Written>)
    requires forall w <- ws :: Valid(w)
    ensures Refusing(ws) <==> Refuses(Directives(PrintAll(ws)))
  {
    hide States, Forbids, Garbled, Classify, Print, Directives, PrintAll;
    DirectivesStated(ws);
    var ds := Directives(PrintAll(ws));
    if kind, a, b :| a != b && Age(kind, a) in ds && Age(kind, b) in ds {
      assert Stated(ws, kind, a) && Stated(ws, kind, b);
    }
    if kind :| Age(kind, 0) in ds {
      assert Stated(ws, kind, 0);
    }
    if v, w, kind, a, b :| v in ws && w in ws && a != b && States(v, kind, a) && States(w, kind, b) {
      assert Stated(ws, kind, a) && Stated(ws, kind, b);
    }
    if w, kind :| w in ws && States(w, kind, 0) {
      assert Stated(ws, kind, 0);
    }
  }

  lemma PolicyExactly(ds: set<Directive>, seconds: nat)
    ensures PolicyOf(ds) == Refused <==> Refuses(ds)
    ensures PolicyOf(ds) == Limited(seconds) <==>
      !Refuses(ds) && (Age(SMaxAge, seconds) in ds || ((forall n :: Age(SMaxAge, n) !in ds) && Age(MaxAge, seconds) in ds))
    ensures PolicyOf(ds) == Unlimited <==> !Refuses(ds) && forall kind, n :: Age(kind, n) !in ds
  {
    if kind, n :| Age(kind, n) in ds {
      assert HasAge(ds, kind) && (kind == MaxAge || kind == SMaxAge);
    }
  }

  /** In particular, a field with `no-store`, `no-cache` or `private` anywhere in it is never stored. */
  lemma ForbiddenFieldRefuses(before: string, w: Written, after: string)
    requires Valid(w) && Forbids(w)
    ensures HeaderPolicy(Some(Print(w))) == Refused
    ensures HeaderPolicy(Some(before + "," + Print(w) + "," + after)) == Refused
  {
    hide Forbids, Print, HeaderPolicy;
    FieldMeans([w], 0);
    assert w in [w] && PrintAll([w]) == [Print(w)];
    assert Join([Print(w)], ',') == Print(w);
    FailClosed(Print(w), after);
    FailClosed(Print(w) + "," + after, before);
    assert before + "," + (Print(w) + "," + after) == before + "," + Print(w) + "," + after;
  }
}
