/**
 Linear removal of tags and comments: tags and comments become one space, an
 unterminated comment swallows the rest, an unterminated tag is text, and stray
 comment closers become spaces at the end.
 */
module HtmlText {

  // ---- the meaning, as a function on the text --------------------------------

  /** The four texts the stripper looks for: `<`, `>`, `<!--` and `-->`. */
  datatype Mark = TagOpen | TagClose | CommentOpen | CommentClose

  function Size(m: Mark): nat {
    match m
    case TagOpen | TagClose => 1
    case CommentOpen => 4
    case CommentClose => 3
  }

  /** Does mark `m` start at index `k`? */
  predicate At(s: string, m: Mark, k: nat) {
    && k + Size(m) <= |s|
    && match m
       case TagOpen => s[k] == '<'
       case TagClose => s[k] == '>'
       case CommentOpen => s[k] == '<' && s[k + 1] == '!' && s[k + 2] == '-' && s[k + 3] == '-'
       case CommentClose => s[k] == '-' && s[k + 1] == '-' && s[k + 2] == '>'
  }

  /** First index at or after `from` where `m` starts, or |s| when there is none. */
  function FindText(s: string, m: Mark, from: nat): (k: nat)
    requires from <= |s|
    ensures from <= k <= |s|
    ensures k < |s| ==> At(s, m, k)
    ensures forall j | from <= j < k :: !At(s, m, j)
    decreases |s| - from
  {
    if from == |s| || At(s, m, from) then from else FindText(s, m, from + 1)
  }

  /** The pieces from `cursor` on, joined. */
  function StripFrom(s: string, cursor: nat): string
    requires cursor <= |s|
    decreases |s| - cursor
  {
    var k := FindText(s, TagOpen, cursor);
    if k == |s| then s[cursor..]
    else if At(s, CommentOpen, k) then
      var e := FindText(s, CommentClose, k + 4);
      s[cursor..k] + " " + (if e == |s| then "" else StripFrom(s, e + 3))
    else
      var e := FindText(s, TagClose, k + 1);
      if e == |s| then s[cursor..] else s[cursor..k] + " " + StripFrom(s, e + 1)
  }

  function ReplaceFrom(s: string, i: nat): string
    requires i <= |s|
    decreases |s| - i
  {
    if i == |s| then ""
    else if At(s, CommentClose, i) then " " + ReplaceFrom(s, i + 3)
    else [s[i]] + ReplaceFrom(s, i + 1)
  }

  function Strip(s: string): string {
    ReplaceFrom(StripFrom(s, 0), 0)
  }

  // ---- the loop, with every look at a character counted ----------------------

  method Find(s: string, m: Mark, from: nat) returns (k: nat, looks: nat)
    requires from <= |s|
    ensures k == FindText(s, m, from)
    ensures looks <= Size(m) * (k - from + 1)
  {
    k, looks := from, 0;
    while k < |s|
      invariant from <= k <= |s|
      invariant FindText(s, m, from) == FindText(s, m, k)
      invariant looks <= Size(m) * (k - from)
      decreases |s| - k
    {
      looks := looks + Size(m);
      if At(s, m, k) {
        assert Size(m) * (k - from + 1) == Size(m) * (k - from) + Size(m);
        return;
      }
      assert Size(m) * (k + 1 - from) == Size(m) * (k - from) + Size(m);
      k := k + 1;
    }
    assert Size(m) * (k - from) <= Size(m) * (k - from + 1);
  }

  lemma ReplaceEnd(s: string)
    ensures ReplaceFrom(s, |s|) == ""
  {
  }

  lemma ReplaceStep(s: string, i: nat)
    requires i < |s|
    ensures ReplaceFrom(s, i) == if At(s, CommentClose, i) then " " + ReplaceFrom(s, i + 3)
                                 else [s[i]] + ReplaceFrom(s, i + 1)
    ensures At(s, CommentClose, i) ==> i + 3 <= |s|
  {
  }

  method ReplaceAll(s: string) returns (out: string, looks: nat)
    ensures out == ReplaceFrom(s, 0)
    ensures looks <= 3 * |s|
  {
    hide ReplaceFrom, At;
    ReplaceEnd(s);
    out, looks := "", 0;
    var i := 0;
    while i < |s|
      invariant 0 <= i <= |s|
      invariant ReplaceFrom(s, 0) == out + ReplaceFrom(s, i)
      invariant looks <= 3 * i
    {
      ReplaceStep(s, i);
      looks := looks + 3;
      var piece, next := [s[i]], i + 1;
      if At(s, CommentClose, i) {
        piece, next := " ", i + 3;
      }
      assert out + (piece + ReplaceFrom(s, next)) == (out + piece) + ReplaceFrom(s, next);
      out, i := out + piece, next;
    }
  }

  lemma AtEnd(s: string)
    ensures StripFrom(s, |s|) == ""
  {
  }

  lemma AtText(s: string, c: nat)
    requires c <= |s| && FindText(s, TagOpen, c) == |s|
    ensures StripFrom(s, c) == s[c..] == s[c..] + StripFrom(s, |s|)
  {
  }

  lemma AtComment(s: string, c: nat, k: nat, e: nat)
    requires c <= k < |s| && k == FindText(s, TagOpen, c) && At(s, CommentOpen, k) && e == FindText(s, CommentClose, k + 4)
    ensures StripFrom(s, c) == s[c..k] + " " + StripFrom(s, if e == |s| then e else e + 3)
  {
    hide FindText, At;
    AtEnd(s);
  }

  lemma AtTag(s: string, c: nat, k: nat, e: nat)
    requires c <= k < |s| && k == FindText(s, TagOpen, c) && !(At(s, CommentOpen, k)) && e == FindText(s, TagClose, k + 1)
    ensures StripFrom(s, c) == if e == |s| then s[c..] else s[c..k] + " " + StripFrom(s, e + 1)
  {
    hide FindText, At, StripFrom;
    if e == |s| {
      AtOpenEnd(s, c, k);
    } else {
      AtClosed(s, c, k, e);
    }
  }

  lemma AtOpenEnd(s: string, c: nat, k: nat)
    requires c <= k < |s| && k == FindText(s, TagOpen, c) && !At(s, CommentOpen, k) && FindText(s, TagClose, k + 1) == |s|
    ensures StripFrom(s, c) == s[c..]
  {
    hide FindText, At;
  }

  lemma AtClosed(s: string, c: nat, k: nat, e: nat)
    requires c <= k < |s| && k == FindText(s, TagOpen, c) && !At(s, CommentOpen, k)
    requires e == FindText(s, TagClose, k + 1) && e < |s|
    ensures StripFrom(s, c) == s[c..k] + " " + StripFrom(s, e + 1)
  {
    hide FindText, At;
  }

  lemma Spans(s: string, m: Mark, i: nat)
    ensures At(s, m, i) ==> i + Size(m) <= |s|
  {
  }

  lemma AtOpenTag(s: string, c: nat, k: nat)
    requires c <= k <= |s| && StripFrom(s, c) == s[c..]
    ensures StripFrom(s, c) == s[c..k] + s[k..] + StripFrom(s, |s|)
  {
    AtEnd(s);
  }

  /** One turn of the loop: the text it appends and where it moves the cursor. */
  method NextPiece(value: string, cursor: nat) returns (piece: string, next: nat, looks: nat)
    requires cursor < |value|
    ensures cursor < next <= |value| && |piece| <= next - cursor
    ensures StripFrom(value, cursor) == piece + StripFrom(value, next)
    ensures looks <= 9 * (next - cursor)
  {
    hide StripFrom, FindText, At;
    var opener, l0 := Find(value, TagOpen, cursor);
    looks := l0 + (opener - cursor);
    if opener == |value| {
      AtText(value, cursor);
      return value[cursor..], |value|, looks;
    }
    looks := looks + 4;
    var l;
    if At(value, CommentOpen, opener) {
      piece, next, l := CommentPiece(value, cursor, opener);
    } else {
      piece, next, l := TagPiece(value, cursor, opener);
    }
    looks := looks + l;
  }

  method CommentPiece(value: string, cursor: nat, opener: nat) returns (piece: string, next: nat, looks: nat)
    requires cursor <= opener < |value| && opener == FindText(value, TagOpen, cursor) && At(value, CommentOpen, opener)
    ensures opener + 4 <= next <= |value| && |piece| == opener + 1 - cursor
    ensures StripFrom(value, cursor) == piece + StripFrom(value, next)
    ensures looks <= 3 * (next - opener - 3)
  {
    hide StripFrom, FindText, At;
    Spans(value, CommentOpen, opener);
    var end;
    end, looks := Find(value, CommentClose, opener + 4);
    Spans(value, CommentClose, end);
    AtComment(value, cursor, opener, end);
    piece := value[cursor..opener] + " ";
    next := if end == |value| then end else end + 3;
  }

  method TagPiece(value: string, cursor: nat, opener: nat) returns (piece: string, next: nat, looks: nat)
    requires cursor <= opener < |value| && opener == FindText(value, TagOpen, cursor) && !At(value, CommentOpen, opener)
    ensures opener < next <= |value| && |piece| <= next - cursor
    ensures StripFrom(value, cursor) == piece + StripFrom(value, next)
    ensures looks <= 2 * (next - opener)
  {
    hide StripFrom, FindText, At;
    var end;
    end, looks := Find(value, TagClose, opener + 1);
    AtTag(value, cursor, opener, end);
    if end == |value| {
      looks := looks + (|value| - opener);
      AtOpenTag(value, cursor, opener);
      piece, next := value[cursor..opener] + value[opener..], |value|;
    } else {
      piece, next := value[cursor..opener] + " ", end + 1;
    }
  }

  /** Strips `value`; `looks` bounds the characters examined, copies included. */
  method StripMarkup(value: string) returns (out: string, looks: nat)
    ensures out == Strip(value)
    ensures looks <= 12 * |value|
  {
    var joined := "";
    var cursor := 0;
    looks := 0;
    while cursor < |value|
      invariant 0 <= cursor <= |value|
      invariant StripFrom(value, 0) == joined + StripFrom(value, cursor)
      invariant |joined| <= cursor
      invariant looks <= 9 * cursor
      decreases |value| - cursor
    {
      var piece, next, l := NextPiece(value, cursor);
      joined, cursor, looks := joined + piece, next, looks + l;
    }
    assert StripFrom(value, |value|) == "" && joined + "" == joined;
    var l2;
    out, l2 := ReplaceAll(joined);
    looks := looks + l2;
  }

  // ---- what is left ----------------------------------------------------------

  /** From `i` on: nothing after a `<` is a `>`, and the first `<` opens no comment. */
  ghost predicate CleanFrom(s: string, i: nat)
    requires i <= |s|
  {
    && (forall a, b | i <= a < b < |s| && s[a] == '<' :: s[b] != '>')
    && (forall a | i <= a < |s| && s[a] == '<' && (forall b | i <= b < a :: s[b] != '<') :: !At(s, CommentOpen, a))
  }

  lemma CleanPrepend(front: string, t: string)
    requires '<' !in front && CleanFrom(t, 0)
    ensures CleanFrom(front + t, 0)
  {
    CloserPrepend(front, t);
    var s, n := front + t, |front|;
    assert forall a | 0 <= a < n :: s[a] in front;
    forall a | 0 <= a < |s| && s[a] == '<' && (forall b | 0 <= b < a :: s[b] != '<')
      ensures !At(s, CommentOpen, a)
    {
      assert forall b | 0 <= b < a - n :: t[b] == s[b + n];
      assert !At(t, CommentOpen, a - n);
    }
  }

  lemma CloserPrepend(front: string, t: string)
    requires '<' !in front && forall a, b | 0 <= a < b < |t| && t[a] == '<' :: t[b] != '>'
    ensures forall a, b | 0 <= a < b < |front + t| && (front + t)[a] == '<' :: (front + t)[b] != '>'
  {
    assert forall k | 0 <= k < |front| :: front[k] in front && (front + t)[k] == front[k];
    forall a, b | 0 <= a < b < |front + t| && (front + t)[a] == '<'
      ensures (front + t)[b] != '>'
    {
      assert a >= |front|;
      assert t[a - |front|] == '<' && (front + t)[b] == t[b - |front|];
    }
  }

  lemma CleanBehind(s: string, c: nat, k: nat, t: string)
    requires c <= k <= |s| && '<' !in s[c..k] && CleanFrom(t, 0)
    ensures CleanFrom(s[c..k] + " " + t, 0)
  {
    hide CleanFrom;
    CleanPrepend(s[c..k] + " ", t);
  }

  lemma TextIsClean(s: string, c: nat)
    requires c <= |s| && '<' !in s[c..|s|]
    ensures CleanFrom(s[c..], 0)
  {
    var t := s[c..];
    assert forall a | 0 <= a < |t| :: t[a] in s[c..|s|];
  }

  lemma NoOpener(s: string, c: nat, k: nat)
    requires c <= k <= |s| && forall j | c <= j < k :: !At(s, TagOpen, j)
    ensures '<' !in s[c..k]
  {
    assert forall j | c <= j < k :: !At(s, TagOpen, j) && s[j] == s[c..k][j - c];
  }

  lemma CommentIsClean(s: string, c: nat, k: nat, e: nat, next: nat)
    requires c <= k < |s| && k == FindText(s, TagOpen, c) && At(s, CommentOpen, k) && e == FindText(s, CommentClose, k + 4)
    requires next == (if e == |s| then e else e + 3) && next <= |s| && CleanFrom(StripFrom(s, next), 0)
    ensures CleanFrom(StripFrom(s, c), 0)
  {
    hide StripFrom, FindText, At, CleanFrom;
    NoOpener(s, c, k);
    AtComment(s, c, k, e);
    CleanBehind(s, c, k, StripFrom(s, next));
  }

  lemma TagIsClean(s: string, c: nat, k: nat, e: nat)
    requires c <= k < |s| && k == FindText(s, TagOpen, c) && !At(s, CommentOpen, k) && e == FindText(s, TagClose, k + 1)
    requires e < |s| && CleanFrom(StripFrom(s, e + 1), 0)
    ensures CleanFrom(StripFrom(s, c), 0)
  {
    hide StripFrom, FindText, At, CleanFrom;
    NoOpener(s, c, k);
    AtTag(s, c, k, e);
    CleanBehind(s, c, k, StripFrom(s, e + 1));
  }

  lemma {:induction false} StripFromIsClean(s: string, c: nat)
    requires c <= |s|
    ensures CleanFrom(StripFrom(s, c), 0)
    decreases |s| - c
  {
    hide StripFrom, FindText, At, CleanFrom;
    var k := FindText(s, TagOpen, c);
    if k == |s| {
      NoOpener(s, c, k);
      AtText(s, c);
      TextIsClean(s, c);
    } else if At(s, CommentOpen, k) {
      Spans(s, CommentOpen, k);
      var e := FindText(s, CommentClose, k + 4);
      Spans(s, CommentClose, e);
      var next := if e == |s| then e else e + 3;
      StripFromIsClean(s, next);
      CommentIsClean(s, c, k, e, next);
    } else {
      var e := FindText(s, TagClose, k + 1);
      if e == |s| {
        NoOpener(s, c, k);
        AtTag(s, c, k, e);
        UnterminatedIsClean(s, c, k);
      } else {
        StripFromIsClean(s, e + 1);
        TagIsClean(s, c, k, e);
      }
    }
  }

  lemma UnterminatedIsClean(s: string, c: nat, k: nat)
    requires c <= k < |s| && At(s, TagOpen, k) && '<' !in s[c..k] && !At(s, CommentOpen, k)
    requires FindText(s, TagClose, k + 1) == |s|
    ensures CleanFrom(s[c..], 0)
  {
    var t, m := s[c..], k - c;
    assert forall j | k < j < |s| :: !At(s, TagClose, j) && t[j - c] == s[j];
    assert forall b | m < b < |t| :: t[b] == s[b + c] && !At(s, TagClose, b + c);
    assert forall a | 0 <= a < m :: t[a] == s[c..k][a];
    assert !At(t, CommentOpen, m);
  }

  lemma {:induction false} NoCloserNoReplace(s: string, i: nat)
    requires i <= |s| && forall j | i <= j < |s| :: !At(s, CommentClose, j)
    ensures ReplaceFrom(s, i) == s[i..]
    decreases |s| - i
  {
    if i < |s| {
      NoCloserNoReplace(s, i + 1);
    }
  }

  lemma {:induction false} ReplaceKeepsClean(s: string, i: nat)
    requires i <= |s| && CleanFrom(s, i)
    ensures CleanFrom(ReplaceFrom(s, i), 0)
    decreases |s| - i
  {
    if i < |s| {
      if At(s, CommentClose, i) {
        ReplaceKeepsClean(s, i + 3);
        CleanPrepend(" ", ReplaceFrom(s, i + 3));
      } else if s[i] != '<' {
        ReplaceKeepsClean(s, i + 1);
        CleanPrepend([s[i]], ReplaceFrom(s, i + 1));
      } else {
        OpenedHasNoCloser(s, i);
        NoCloserNoReplace(s, i);
        CleanSuffix(s, i);
      }
    }
  }

  lemma OpenedHasNoCloser(s: string, i: nat)
    requires i < |s| && s[i] == '<' && CleanFrom(s, i)
    ensures forall j | i <= j < |s| :: !At(s, CommentClose, j)
  {
  }

  lemma CleanSuffix(s: string, i: nat)
    requires i < |s| && s[i] == '<' && CleanFrom(s, i)
    ensures CleanFrom(s[i..], 0)
  {
    var t := s[i..];
    assert !At(s, CommentOpen, i);
    assert t[0] == '<';
  }

  lemma {:induction false} ReplaceLeavesNoCloser(s: string, i: nat)
    requires i <= |s|
    ensures forall j: nat :: !At(ReplaceFrom(s, i), CommentClose, j)
    decreases |s| - i
  {
    if i < |s| {
      var next := if At(s, CommentClose, i) then i + 3 else i + 1;
      ReplaceLeavesNoCloser(s, next);
      var out, rest := ReplaceFrom(s, i), ReplaceFrom(s, next);
      assert out == [out[0]] + rest;
      FirstTwo(s, next);
      forall j: nat
        ensures !At(out, CommentClose, j)
      {
        if j > 0 {
          assert !At(rest, CommentClose, j - 1);
        }
      }
    }
  }

  /** Output that starts with `->` comes from input that does. */
  lemma FirstTwo(s: string, i: nat)
    requires i <= |s|
    ensures var out := ReplaceFrom(s, i);
      |out| >= 2 && out[0] == '-' && out[1] == '>' ==> i + 2 <= |s| && s[i] == '-' && s[i + 1] == '>'
  {
  }

  /** In the output no `>` follows a `<`, and no comment closer remains. */
  lemma NothingLeft(s: string)
    ensures forall a, b | 0 <= a < b < |Strip(s)| && Strip(s)[a] == '<' :: Strip(s)[b] != '>'
    ensures forall j: nat :: !At(Strip(s), CommentClose, j)
  {
    StripFromIsClean(s, 0);
    ReplaceKeepsClean(StripFrom(s, 0), 0);
    ReplaceLeavesNoCloser(StripFrom(s, 0), 0);
  }

  lemma CleanIsFixed(s: string)
    requires CleanFrom(s, 0)
    ensures StripFrom(s, 0) == s
  {
    var k := FindText(s, TagOpen, 0);
    NoOpener(s, 0, k);
    if k == |s| {
      AtText(s, 0);
    } else {
      assert forall b | 0 <= b < k :: s[b] == s[0..k][b];
      var e := FindText(s, TagClose, k + 1);
      AtTag(s, 0, k, e);
    }
  }

  /** Stripping twice is stripping once. */
  lemma StripIsIdempotent(s: string)
    ensures Strip(Strip(s)) == Strip(s)
  {
    NothingLeft(s);
    StripFromIsClean(s, 0);
    ReplaceKeepsClean(StripFrom(s, 0), 0);
    CleanIsFixed(Strip(s));
    NoCloserNoReplace(Strip(s), 0);
  }
}
