/**
 The string-aware brace scanner that cuts a JSON object out of a page, and the
 JSON grammar it has to agree with (sections 2 to 7 of RFC 8259).
 */
module JsonExtract {
  import opened Basics

  // ---- the scanner -----------------------------------------------------------

  datatype Scan = Scan(depth: int, inString: bool, escapeNext: bool)

  const OUTSIDE := Scan(0, false, false)

  function Read(s: Scan, ch: char): Scan {
    if s.escapeNext then s.(escapeNext := false)
    else if ch == '\\' && s.inString then s.(escapeNext := true)
    else if ch == '"' then s.(inString := !s.inString)
    else if s.inString then s
    else if ch == '{' then s.(depth := s.depth + 1)
    else if ch == '}' then s.(depth := s.depth - 1)
    else s
  }

  function ReadAll(s: Scan, text: string): Scan {
    if text == "" then s else Read(ReadAll(s, text[..|text| - 1]), text[|text| - 1])
  }

  /** Does reading `ch` in state `s` hand the text so far to the decoder? */
  predicate Closes(s: Scan, ch: char) {
    ch == '}' && !s.inString && !s.escapeNext && s.depth == 1
  }

  /** `text` is string-aware balanced: its last character closes what its braces opened. */
  predicate Complete(text: string) {
    text != "" && Closes(ReadAll(OUTSIDE, text[..|text| - 1]), text[|text| - 1])
  }

  /** The characters the scan may look at. */
  function Window(html: string, start: nat, maxScan: int): string {
    var end := if start + maxScan < |html| then start + maxScan else |html|;
    if start < end then html[start..end] else ""
  }

  /** The shortest complete prefix of `text` of length at least `k`. */
  function ShortestFrom(text: string, k: nat): Option<string>
    requires k <= |text|
    decreases |text| - k
  {
    if Complete(text[..k]) then Some(text[..k])
    else if k == |text| then None
    else ShortestFrom(text, k + 1)
  }

  function Shortest(text: string): Option<string> {
    ShortestFrom(text, 0)
  }

  /** The text handed to the JSON decoder, if any. */
  method Extract(html: string, start: nat, maxScan: int) returns (handed: Option<string>)
    ensures handed == Shortest(Window(html, start, maxScan))
  {
    var depth, inString, escapeNext := 0, false, false;
    var end := if start + maxScan < |html| then start + maxScan else |html|;
    ghost var window := Window(html, start, maxScan);
    for i := start to if start < end then end else start
      invariant Scan(depth, inString, escapeNext) == ReadAll(OUTSIDE, window[..i - start])
      invariant Shortest(window) == ShortestFrom(window, i - start)
      invariant !Complete(window[..i - start])
    {
      var ch := html[i];
      ghost var text := window[..i - start + 1];
      assert text[..|text| - 1] == window[..i - start] && text[|text| - 1] == ch;
      if escapeNext {
        escapeNext := false;
      } else if ch == '\\' && inString {
        escapeNext := true;
      } else if ch == '"' {
        inString := !inString;
      } else if !inString {
        if ch == '{' {
          depth := depth + 1;
        } else if ch == '}' {
          depth := depth - 1;
          if depth == 0 {
            assert html[start..i + 1] == text;
            return Some(html[start..i + 1]);
          }
        }
      }
    }
    return None;
  }

  /** What is handed over is complete, lies in the window, and nothing shorter is complete. */
  lemma {:induction false} ShortestMeans(text: string, k: nat)
    requires k <= |text|
    ensures match ShortestFrom(text, k)
      case Some(w) =>
        && k <= |w| <= |text| && w == text[..|w|] && Complete(w)
        && forall n | k <= n < |w| :: !Complete(text[..n])
      case None => forall n | k <= n <= |text| :: !Complete(text[..n])
    decreases |text| - k
  {
    if !Complete(text[..k]) && k < |text| {
      ShortestMeans(text, k + 1);
    }
  }

  lemma {:induction false} ShortestIs(text: string, k: nat, n: nat)
    requires k <= n <= |text| && Complete(text[..n])
    requires forall m | k <= m < n :: !Complete(text[..m])
    ensures ShortestFrom(text, k) == Some(text[..n])
    decreases n - k
  {
    if k < n {
      ShortestIs(text, k + 1, n);
    }
  }

  // ---- the grammar -----------------------------------------------------------

  /** One element of a string literal; `hex` is the four digits of a \u escape. */
  datatype Unit = Plain(c: char) | Escape(c: char) | Unicode(hex: string)

  /** Concrete JSON texts: every choice of whitespace, escapes and number spelling. */
  datatype Json =
    | Word(text: string)                                     // true, false, null or a number
    | Str(units: seq<Unit>)
    | Arr(items: List, pad: string)                          // pad: blanks of an empty array
    | Obj(members: List, pad: string)

  /** Array items, or object members when `key` is used; blanks around every token. */
  datatype List = Nil | Cons(before: string, key: seq<Unit>, colon: string, gap: string, value: Json, after: string, rest: List)

  predicate Blank(s: string) {
    forall c <- s :: c == ' ' || c == '\t' || c == '\n' || c == '\r'
  }

  predicate WordText(s: string) {
    s in {"true", "false", "null"}
    || forall c <- s :: '0' <= c <= '9' || c == '-' || c == '+' || c == '.' || c == 'e' || c == 'E'
  }

  predicate HexDigits(s: string) {
    |s| == 4 && forall c <- s :: '0' <= c <= '9' || 'a' <= c <= 'f' || 'A' <= c <= 'F'
  }

  predicate ValidUnit(u: Unit) {
    match u
    case Plain(c) => c != '"' && c != '\\' && c >= ' '
    case Escape(c) => c in ['"', '\\', '/', 'b', 'f', 'n', 'r', 't']
    case Unicode(hex) => HexDigits(hex)
  }

  predicate ValidUnits(units: seq<Unit>) {
    forall u <- units :: ValidUnit(u)
  }

  predicate Valid(j: Json) {
    match j
    case Word(text) => WordText(text)
    case Str(units) => ValidUnits(units)
    case Arr(items, pad) => ValidList(items) && Blank(pad)
    case Obj(members, pad) => ValidList(members) && Blank(pad)
  }

  predicate ValidList(l: List) {
    l.Cons? ==>
      && Blank(l.before) && ValidUnits(l.key) && Blank(l.colon) && Blank(l.gap)
      && Valid(l.value) && Blank(l.after) && ValidList(l.rest)
  }

  function PrintUnit(u: Unit): string {
    match u
    case Plain(c) => [c]
    case Escape(c) => ['\\', c]
    case Unicode(hex) => "\\u" + hex
  }

  function PrintUnits(units: seq<Unit>): string {
    if units == [] then "" else PrintUnit(units[0]) + PrintUnits(units[1..])
  }

  function Quoted(units: seq<Unit>): string {
    "\"" + PrintUnits(units) + "\""
  }

  function Print(j: Json): string {
    match j
    case Word(text) => text
    case Str(units) => Quoted(units)
    case Arr(items, pad) => "[" + (if items.Nil? then pad else PrintList(items, false)) + "]"
    case Obj(members, pad) => "{" + (if members.Nil? then pad else PrintList(members, true)) + "}"
  }

  function PrintList(l: List, keyed: bool): string {
    match l
    case Nil => ""
    case Cons(before, key, colon, gap, value, after, rest) =>
      before + (if keyed then Quoted(key) + colon + ":" + gap else "") + Print(value) + after
      + (if rest.Nil? then "" else "," + PrintList(rest, keyed))
  }

  // ---- the scanner undoes the printer ----------------------------------------

  lemma {:induction false} ReadConcat(s: Scan, a: string, b: string)
    ensures ReadAll(s, a + b) == ReadAll(ReadAll(s, a), b)
    decreases |b|
  {
    if b == "" {
      assert a + b == a;
    } else {
      assert (a + b)[..|a + b| - 1] == a + b[..|b| - 1];
      ReadConcat(s, a, b[..|b| - 1]);
    }
  }

  /** Reading `text` in state `s` ends where it began and hands nothing over on the way. */
  ghost predicate Neutral(s: Scan, text: string) {
    && ReadAll(s, text) == s
    && forall k | 0 <= k < |text| :: !Closes(ReadAll(s, text[..k]), text[k])
  }

  lemma NeutralConcat(s: Scan, a: string, b: string)
    requires Neutral(s, a) && Neutral(s, b)
    ensures Neutral(s, a + b)
  {
    ReadConcat(s, a, b);
    forall k | 0 <= k < |a + b|
      ensures !Closes(ReadAll(s, (a + b)[..k]), (a + b)[k])
    {
      if k < |a| {
        assert (a + b)[..k] == a[..k];
      } else {
        assert (a + b)[..k] == a + b[..k - |a|];
        ReadConcat(s, a, b[..k - |a|]);
      }
    }
  }

  /** Between an opener and its closer the inner state may differ from the outer one. */
  lemma NeutralBracketed(s: Scan, open: char, inner: Scan, body: string, close: char)
    requires Read(s, open) == inner && Read(inner, close) == s
    requires !Closes(s, open) && !Closes(inner, close) && Neutral(inner, body)
    ensures Neutral(s, [open] + body + [close])
  {
    var text := [open] + body + [close];
    assert [open][..0] == "" && ReadAll(s, [open]) == inner;
    ReadConcat(s, [open], body);
    assert text[..|text| - 1] == [open] + body;
    forall k | 0 <= k < |text|
      ensures !Closes(ReadAll(s, text[..k]), text[k])
    {
      if 0 < k <= |body| {
        assert text[..k] == [open] + body[..k - 1];
        ReadConcat(s, [open], body[..k - 1]);
      } else if k == |body| + 1 {
        assert text[..k] == [open] + body;
      }
    }
  }

  predicate Outside(s: Scan) {
    !s.inString && !s.escapeNext && s.depth >= 1
  }

  predicate Inert(text: string) {
    forall c <- text :: c != '"' && c != '{' && c != '}'
  }

  lemma {:induction false} InertIsNeutral(s: Scan, text: string)
    requires Outside(s) && Inert(text)
    ensures Neutral(s, text)
  {
    if text != "" {
      var front := text[..|text| - 1];
      assert text[|text| - 1] in text && forall c <- front :: c in text;
      InertIsNeutral(s, front);
      assert text == front + [text[|text| - 1]];
      assert forall k | 0 <= k < |front| :: text[..k] == front[..k];
    }
  }

  lemma UnitIsNeutral(s: Scan, u: Unit)
    requires s.inString && !s.escapeNext && ValidUnit(u)
    ensures Neutral(s, PrintUnit(u))
  {
    match u
    case Plain(c) =>
      assert [c][..0] == "";
    case Escape(c) =>
      EscapeIsNeutral(s, c);
    case Unicode(hex) =>
      EscapeIsNeutral(s, 'u');
      assert forall c <- hex :: c != '"' && c != '\\';
      InStringIsNeutral(s, hex);
      NeutralConcat(s, "\\u", hex);
  }

  lemma EscapeIsNeutral(s: Scan, c: char)
    requires s.inString && !s.escapeNext
    ensures Neutral(s, ['\\', c])
  {
    var text := ['\\', c];
    assert text[..0] == "" && text[..1] == "\\" && "\\"[..0] == "";
    assert ReadAll(s, text[..1]) == s.(escapeNext := true);
  }

  lemma {:induction false} InStringIsNeutral(s: Scan, text: string)
    requires s.inString && !s.escapeNext && forall c <- text :: c != '"' && c != '\\'
    ensures Neutral(s, text)
  {
    hide Neutral;
    if text == "" {
      NeutralEmpty(s);
    } else {
      var front, last := text[..|text| - 1], text[|text| - 1];
      assert text == front + [last];
      assert last in text && forall c <- front :: c in text;
      InStringIsNeutral(s, front);
      NeutralOne(s, last);
      NeutralConcat(s, front, [last]);
    }
  }

  lemma NeutralEmpty(s: Scan)
    ensures Neutral(s, "")
  {
  }

  lemma NeutralOne(s: Scan, c: char)
    requires Read(s, c) == s && !Closes(s, c)
    ensures Neutral(s, [c])
  {
    assert [c][..0] == "" && [c] == "" + [c];
  }

  lemma {:induction false} UnitsAreNeutral(s: Scan, units: seq<Unit>)
    requires s.inString && !s.escapeNext && ValidUnits(units)
    ensures Neutral(s, PrintUnits(units))
  {
    if units != [] {
      assert units[0] in units;
      UnitIsNeutral(s, units[0]);
      UnitsAreNeutral(s, units[1..]);
      NeutralConcat(s, PrintUnit(units[0]), PrintUnits(units[1..]));
    }
  }

  lemma QuotedIsNeutral(s: Scan, units: seq<Unit>)
    requires Outside(s) && ValidUnits(units)
    ensures Neutral(s, Quoted(units))
  {
    var inner := s.(inString := true);
    UnitsAreNeutral(inner, units);
    NeutralBracketed(s, '"', inner, PrintUnits(units), '"');
  }

  lemma {:induction false} ValueIsNeutral(s: Scan, j: Json)
    requires Outside(s) && Valid(j)
    ensures Neutral(s, Print(j))
    decreases j, 1
  {
    match j
    case Word(text) => InertIsNeutral(s, text);
    case Str(units) => QuotedIsNeutral(s, units);
    case Arr(items, pad) =>
      BodyIsNeutral(s, items, pad, false);
      NeutralBracketed(s, '[', s, if items.Nil? then pad else PrintList(items, false), ']');
    case Obj(members, pad) =>
      var inner := s.(depth := s.depth + 1);
      BodyIsNeutral(inner, members, pad, true);
      NeutralBracketed(s, '{', inner, if members.Nil? then pad else PrintList(members, true), '}');
  }

  lemma {:induction false} BodyIsNeutral(s: Scan, l: List, pad: string, keyed: bool)
    requires Outside(s) && ValidList(l) && Blank(pad)
    ensures Neutral(s, if l.Nil? then pad else PrintList(l, keyed))
    decreases l, 1
  {
    if l.Nil? {
      InertIsNeutral(s, pad);
    } else {
      ListIsNeutral(s, l, keyed);
    }
  }

  lemma {:induction false} ListIsNeutral(s: Scan, l: List, keyed: bool)
    requires Outside(s) && ValidList(l)
    ensures Neutral(s, PrintList(l, keyed))
    decreases l, 0
  {
    if l.Cons? {
      var key := if keyed then Quoted(l.key) + l.colon + ":" + l.gap else "";
      var tail := if l.rest.Nil? then "" else "," + PrintList(l.rest, keyed);
      KeyIsNeutral(s, l, keyed);
      ValueIsNeutral(s, l.value);
      ListIsNeutral(s, l.rest, keyed);
      InertIsNeutral(s, l.before);
      InertIsNeutral(s, l.after);
      InertIsNeutral(s, ",");
      InertIsNeutral(s, "");
      NeutralConcat(s, ",", PrintList(l.rest, keyed));
      NeutralConcat(s, l.before, key);
      NeutralConcat(s, l.before + key, Print(l.value));
      NeutralConcat(s, l.before + key + Print(l.value), l.after);
      NeutralConcat(s, l.before + key + Print(l.value) + l.after, tail);
    } else {
      InertIsNeutral(s, "");
    }
  }

  lemma KeyIsNeutral(s: Scan, l: List, keyed: bool)
    requires Outside(s) && l.Cons? && ValidList(l)
    ensures Neutral(s, if keyed then Quoted(l.key) + l.colon + ":" + l.gap else "")
  {
    InertIsNeutral(s, "");
    InertIsNeutral(s, l.colon);
    InertIsNeutral(s, ":");
    InertIsNeutral(s, l.gap);
    QuotedIsNeutral(s, l.key);
    NeutralConcat(s, Quoted(l.key), l.colon);
    NeutralConcat(s, Quoted(l.key) + l.colon, ":");
    NeutralConcat(s, Quoted(l.key) + l.colon + ":", l.gap);
  }

  const INSIDE := Scan(1, false, false)

  lemma AfterBrace(body: string, n: nat)
    requires n <= |body|
    ensures ReadAll(OUTSIDE, "{" + body[..n]) == ReadAll(INSIDE, body[..n])
  {
    assert "{"[..0] == "" && ReadAll(OUTSIDE, "{") == INSIDE;
    ReadConcat(OUTSIDE, "{", body[..n]);
  }

  lemma BracedIsComplete(body: string, text: string)
    requires Neutral(INSIDE, body) && text == "{" + body + "}"
    ensures Complete(text)
    ensures forall k | 0 <= k < |text| :: !Complete(text[..k])
  {
    hide ReadAll;
    AfterBrace(body, |body|);
    assert body[..|body|] == body;
    assert text[..|text| - 1] == "{" + body;
    forall k | 0 <= k < |text|
      ensures !Complete(text[..k])
    {
      if k == 1 {
        assert text[..1] == "{";
      } else if k > 1 {
        assert text[..k][..k - 1] == "{" + body[..k - 2];
        AfterBrace(body, k - 2);
        assert text[..k][k - 1] == body[k - 2];
      }
    }
  }

  /** A printed object is complete, and no shorter prefix of it is. */
  lemma ObjectIsComplete(j: Json)
    requires j.Obj? && Valid(j)
    ensures Complete(Print(j))
    ensures forall k | 0 <= k < |Print(j)| :: !Complete(Print(j)[..k])
  {
    var body := if j.members.Nil? then j.pad else PrintList(j.members, true);
    BodyIsNeutral(INSIDE, j.members, j.pad, true);
    BracedIsComplete(body, Print(j));
  }

  /**
   The scanner undoes the printer: for every JSON object in every spelling, with
   any text before and after it, the substring handed to the decoder is exactly
   the printed object when that fits in the scan limit, and there is none when
   it does not.
   */
  lemma ScannerUndoesPrinter(before: string, j: Json, after: string, maxScan: int)
    requires j.Obj? && Valid(j)
    ensures Shortest(Window(before + Print(j) + after, |before|, maxScan))
         == if |Print(j)| <= maxScan then Some(Print(j)) else None
  {
    var html, text := before + Print(j) + after, Print(j);
    var window := Window(html, |before|, maxScan);
    ObjectIsComplete(j);
    if |text| <= maxScan {
      assert window[..|text|] == text;
      assert forall k | 0 <= k < |text| :: window[..k] == text[..k];
      ShortestIs(window, 0, |text|);
    } else {
      assert window == text[..|window|];
      assert forall k | 0 <= k <= |window| :: window[..k] == text[..k];
      ShortestMeans(window, 0);
    }
  }
}
