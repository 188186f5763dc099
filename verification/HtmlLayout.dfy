/**
 Markup laid out piece by piece, and what the stripper leaves of it. Every text is
 such a layout, so this determines the stripper on every input.
 */
module HtmlLayout {
  import opened HtmlText

  datatype Segment = Text(text: string) | Tag(body: string) | Comment(body: string)

  predicate Valid(g: Segment) {
    match g
    case Text(t) => '<' !in t
    case Tag(b) => '>' !in b && !("!--" <= b)
    case Comment(b) => forall j | 0 <= j <= |b| :: !At(b, CommentClose, j)
  }

  function Print(g: Segment): string {
    match g
    case Text(t) => t
    case Tag(b) => "<" + b + ">"
    case Comment(b) => "<!--" + b + "-->"
  }

  function PrintAll(gs: seq<Segment>): string {
    if gs == [] then "" else Print(gs[0]) + PrintAll(gs[1..])
  }

  /** What a segment leaves behind. */
  function Shown(g: Segment): string {
    match g
    case Text(t) => t
    case Tag(_) | Comment(_) => " "
  }

  function Plain(gs: seq<Segment>): string {
    if gs == [] then "" else Shown(gs[0]) + Plain(gs[1..])
  }

  lemma {:induction false} FindIs(s: string, m: Mark, from: nat, k: nat)
    requires from <= k < |s| && At(s, m, k) && forall j | from <= j < k :: !At(s, m, j)
    ensures FindText(s, m, from) == k
    decreases k - from
  {
    if from < k {
      FindIs(s, m, from + 1, k);
    }
  }

  lemma {:induction false} FindSkips(s: string, c: nat, d: nat)
    requires c <= d <= |s| && forall j | c <= j < d :: !At(s, TagOpen, j)
    ensures FindText(s, TagOpen, c) == FindText(s, TagOpen, d)
    decreases d - c
  {
    if c < d {
      FindSkips(s, c + 1, d);
    }
  }

  lemma NoOpenerIn(s: string, c: nat, d: nat)
    requires c <= d <= |s| && forall j | c <= j < d :: s[j] != '<'
    ensures forall j | c <= j < d :: !At(s, TagOpen, j)
  {
  }

  lemma SkipText(s: string, c: nat, t: string)
    requires c + |t| <= |s| && s[c..c + |t|] == t && Valid(Text(t))
    ensures StripFrom(s, c) == t + StripFrom(s, c + |t|)
  {
    hide StripFrom, FindText, At;
    var d := c + |t|;
    var k := FindText(s, TagOpen, d);
    assert forall j | c <= j < d :: s[j] == t[j - c] && t[j - c] in t;
    NoOpenerIn(s, c, d);
    FindSkips(s, c, d);
    SkipSlices(s, c, t, k);
    if k == |s| {
      AtText(s, c);
      AtText(s, d);
    } else if At(s, CommentOpen, k) {
      Spans(s, CommentOpen, k);
      var e := FindText(s, CommentClose, k + 4);
      Spans(s, CommentClose, e);
      AtComment(s, c, k, e);
      AtComment(s, d, k, e);
      Regroup(t, s[d..k], StripFrom(s, if e == |s| then e else e + 3));
    } else {
      var e := FindText(s, TagClose, k + 1);
      AtTag(s, c, k, e);
      AtTag(s, d, k, e);
      if e < |s| {
        Regroup(t, s[d..k], StripFrom(s, e + 1));
      }
    }
  }

  lemma Regroup(a: string, b: string, c: string)
    ensures a + b + " " + c == a + (b + " " + c)
  {
  }

  lemma SkipSlices(s: string, c: nat, t: string, k: nat)
    requires c + |t| <= k <= |s| && s[c..c + |t|] == t
    ensures s[c..k] == t + s[c + |t|..k] && s[c..] == t + s[c + |t|..]
  {
  }

  lemma TagVanishes(s: string, c: nat, b: string)
    requires c + |b| + 2 <= |s| && s[c..c + |b| + 2] == Print(Tag(b)) && Valid(Tag(b))
    ensures StripFrom(s, c) == " " + StripFrom(s, c + |b| + 2)
  {
    hide StripFrom, FindText;
    var e, tag := c + 1 + |b|, Print(Tag(b));
    assert forall j | c <= j <= e :: s[j] == tag[j - c];
    FindIs(s, TagOpen, c, c);
    assert !At(s, CommentOpen, c) by {
      if |b| >= 3 {
        assert b[0] != '!' || b[1] != '-' || b[2] != '-';
      }
    }
    FindIs(s, TagClose, c + 1, e);
    AtTag(s, c, c, e);
    assert s[c..c] == "";
  }

  lemma CommentVanishes(s: string, c: nat, b: string)
    requires c + |b| + 7 <= |s| && s[c..c + |b| + 7] == Print(Comment(b)) && Valid(Comment(b))
    ensures StripFrom(s, c) == " " + StripFrom(s, c + |b| + 7)
  {
    hide StripFrom, FindText;
    var e, comment := c + 4 + |b|, Print(Comment(b));
    assert forall j | c <= j < e + 3 :: s[j] == comment[j - c];
    FindIs(s, TagOpen, c, c);
    forall j | c + 4 <= j < e
      ensures !At(s, CommentClose, j)
    {
      assert !At(b, CommentClose, j - c - 4);
    }
    FindIs(s, CommentClose, c + 4, e);
    AtComment(s, c, c, e);
    assert s[c..c] == "";
  }

  lemma SegmentIsShown(s: string, c: nat, g: Segment)
    requires c + |Print(g)| <= |s| && s[c..c + |Print(g)|] == Print(g) && Valid(g)
    ensures StripFrom(s, c) == Shown(g) + StripFrom(s, c + |Print(g)|)
  {
    hide StripFrom, At;
    match g
    case Text(t) => SkipText(s, c, t);
    case Tag(b) => TagVanishes(s, c, b);
    case Comment(b) => CommentVanishes(s, c, b);
  }

  /** What may be left open at the end: a tag, which stays as text, or a comment, which swallows it. */
  datatype Tail = Closed | OpenTag(body: string) | OpenComment(body: string)

  predicate ValidTail(t: Tail) {
    match t
    case Closed => true
    case OpenTag(b) => '>' !in b && !("!--" <= b)
    case OpenComment(b) => forall j | 0 <= j <= |b| :: !At(b, CommentClose, j)
  }

  function PrintTail(t: Tail): string {
    match t
    case Closed => ""
    case OpenTag(b) => "<" + b
    case OpenComment(b) => "<!--" + b
  }

  function ShownTail(t: Tail): string {
    match t
    case Closed => ""
    case OpenTag(b) => "<" + b
    case OpenComment(_) => " "
  }

  lemma {:induction false} FindNone(s: string, m: Mark, from: nat)
    requires from <= |s| && forall j | from <= j < |s| :: !At(s, m, j)
    ensures FindText(s, m, from) == |s|
    decreases |s| - from
  {
    if from < |s| {
      FindNone(s, m, from + 1);
    }
  }

  lemma OpenTagStays(s: string, c: nat, b: string)
    requires c <= |s| && s[c..] == "<" + b && ValidTail(OpenTag(b))
    ensures StripFrom(s, c) == "<" + b
  {
    hide StripFrom, FindText;
    assert forall j | c < j < |s| :: s[j] == ("<" + b)[j - c] == b[j - c - 1] && b[j - c - 1] in b;
    assert s[c] == ("<" + b)[0];
    FindIs(s, TagOpen, c, c);
    assert !At(s, CommentOpen, c) by {
      if |b| >= 3 {
        assert b[0] != '!' || b[1] != '-' || b[2] != '-';
      }
    }
    FindNone(s, TagClose, c + 1);
    AtTag(s, c, c, |s|);
  }

  lemma OpenCommentSwallows(s: string, c: nat, b: string)
    requires c <= |s| && s[c..] == "<!--" + b && ValidTail(OpenComment(b))
    ensures StripFrom(s, c) == " "
  {
    hide StripFrom, FindText;
    var text := "<!--" + b;
    assert forall j | c <= j < |s| :: s[j] == text[j - c];
    FindIs(s, TagOpen, c, c);
    forall j | c + 4 <= j < |s|
      ensures !At(s, CommentClose, j)
    {
      assert !At(b, CommentClose, j - c - 4);
    }
    FindNone(s, CommentClose, c + 4);
    AtComment(s, c, c, |s|);
    AtEnd(s);
    assert s[c..c] == "";
  }

  lemma TailIsShown(s: string, c: nat, t: Tail)
    requires c <= |s| && s[c..] == PrintTail(t) && ValidTail(t)
    ensures StripFrom(s, c) == ShownTail(t)
  {
    hide StripFrom, ValidTail;
    match t
    case Closed =>
      assert c == |s|;
      AtEnd(s);
    case OpenTag(b) => OpenTagStays(s, c, b);
    case OpenComment(b) => OpenCommentSwallows(s, c, b);
  }

  /** The loop's share: from behind `before`, one space is left per tag or comment, and the tail. */
  lemma {:induction false} StripFromUndoesPrinter(before: string, gs: seq<Segment>, t: Tail)
    requires ValidTail(t) && forall g <- gs :: Valid(g)
    ensures StripFrom(before + PrintAll(gs) + PrintTail(t), |before|) == Plain(gs) + ShownTail(t)
    decreases |gs|
  {
    hide StripFrom, Valid, Print, Shown, ValidTail, PrintTail, ShownTail;
    var s, c := before + PrintAll(gs) + PrintTail(t), |before|;
    if gs == [] {
      assert s[c..] == PrintTail(t) && Plain(gs) + ShownTail(t) == ShownTail(t);
      TailIsShown(s, c, t);
    } else {
      var g := gs[0];
      assert g in gs && forall x <- gs[1..] :: x in gs;
      PrintCons(gs);
      hide PrintAll, Plain;
      assert s == before + Print(g) + PrintAll(gs[1..]) + PrintTail(t);
      StripFromUndoesPrinter(before + Print(g), gs[1..], t);
      SegmentIsShown(s, c, g);
      assert Shown(g) + (Plain(gs[1..]) + ShownTail(t)) == Plain(gs) + ShownTail(t);
    }
  }

  lemma PrintCons(gs: seq<Segment>)
    requires gs != []
    ensures PrintAll(gs) == Print(gs[0]) + PrintAll(gs[1..]) && Plain(gs) == Shown(gs[0]) + Plain(gs[1..])
  {
  }

  /**
   Whatever text, tags and comments are laid out, and whatever is left open behind
   them, stripping leaves the text with one space per tag or comment if and only if
   that text holds no comment closer; otherwise its closers become spaces too.
   */
  lemma StripUndoesPrinter(gs: seq<Segment>, t: Tail)
    requires ValidTail(t) && forall g <- gs :: Valid(g)
    ensures var text, plain := PrintAll(gs) + PrintTail(t), Plain(gs) + ShownTail(t);
      && Strip(text) == ReplaceFrom(plain, 0)
      && (Strip(text) == plain <==> forall j: nat :: !At(plain, CommentClose, j))
  {
    hide At, StripFrom, ReplaceFrom, Valid, ValidTail, PrintAll, Plain, PrintTail, ShownTail;
    var text, plain := PrintAll(gs) + PrintTail(t), Plain(gs) + ShownTail(t);
    assert "" + PrintAll(gs) + PrintTail(t) == text;
    StripFromUndoesPrinter("", gs, t);
    NothingLeft(text);
    if forall j: nat :: !At(plain, CommentClose, j) {
      NoCloserNoReplace(plain, 0);
    }
  }

  /** Every text is laid out in that way, so the law above covers every input. */
  lemma {:induction false} EveryTextIsLaidOut(s: string) returns (gs: seq<Segment>, t: Tail)
    ensures (forall g <- gs :: Valid(g)) && ValidTail(t) && s == PrintAll(gs) + PrintTail(t)
    decreases |s|
  {
    hide FindText, At, Valid, ValidTail, Print, PrintAll, PrintTail;
    var k := FirstOpener(s);
    var head, rest := Text(s[..k]), s[k..];
    PlainText(s[..k]);
    if rest == "" {
      gs, t := [head], Closed;
      PrintOne(head);
      assert s[..k] == s;
    } else {
      var g, behind, open := FirstMarkup(rest);
      if open != Closed {
        gs, t := [head], open;
        PrintOne(head);
      } else {
        var more;
        more, t := EveryTextIsLaidOut(behind);
        gs := [head, g] + more;
        PrintTwo(head, g, more);
        assert s == s[..k] + (Print(g) + behind);
      }
    }
  }

  lemma FirstOpener(s: string) returns (k: nat)
    ensures k <= |s| && '<' !in s[..k] && (k < |s| ==> s[k] == '<')
  {
    k := FindText(s, TagOpen, 0);
    NoOpener(s, 0, k);
    assert s[0..k] == s[..k];
  }

  lemma PlainText(text: string)
    requires '<' !in text
    ensures Valid(Text(text)) && Print(Text(text)) == text && ValidTail(Closed) && PrintTail(Closed) == ""
  {
  }

  lemma PrintOne(g: Segment)
    ensures PrintAll([g]) == Print(g)
  {
    PrintCons([g]);
    assert [g][1..] == [] && PrintAll([]) == "";
  }

  lemma PrintTwo(g: Segment, h: Segment, gs: seq<Segment>)
    ensures PrintAll([g, h] + gs) == Print(g) + (Print(h) + PrintAll(gs))
  {
    hide PrintAll, Print;
    var all := [g, h] + gs;
    PrintCons(all);
    PrintCons(all[1..]);
    assert all[1..] == [h] + gs && all[1..][1..] == gs;
  }

  lemma FirstMarkup(s: string) returns (g: Segment, behind: string, open: Tail)
    requires s != "" && s[0] == '<'
    ensures ValidTail(open)
    ensures open == Closed ==> Valid(g) && s == Print(g) + behind && |behind| < |s|
    ensures open != Closed ==> s == PrintTail(open)
  {
    if At(s, CommentOpen, 0) {
      g, behind, open := FirstComment(s);
    } else {
      g, behind, open := FirstTag(s);
    }
  }

  lemma FirstComment(s: string) returns (g: Segment, behind: string, open: Tail)
    requires At(s, CommentOpen, 0)
    ensures ValidTail(open)
    ensures open == Closed ==> Valid(g) && s == Print(g) + behind && |behind| < |s|
    ensures open != Closed ==> s == PrintTail(open)
  {
    g, behind, open := Text(""), s, Closed;
    assert s[..4] == "<!--";
    var e := FindText(s, CommentClose, 4);
    var b := s[4..e];
    assert forall j | 0 <= j <= |b| && At(b, CommentClose, j) :: At(s, CommentClose, j + 4);
    if e == |s| {
      open := OpenComment(b);
      assert s == "<!--" + b;
    } else {
      assert s[e..e + 3] == "-->";
      g, behind := Comment(b), s[e + 3..];
      assert s == "<!--" + b + "-->" + behind;
    }
  }

  lemma FirstTag(s: string) returns (g: Segment, behind: string, open: Tail)
    requires s != "" && s[0] == '<' && !At(s, CommentOpen, 0)
    ensures ValidTail(open)
    ensures open == Closed ==> Valid(g) && s == Print(g) + behind && |behind| < |s|
    ensures open != Closed ==> s == PrintTail(open)
  {
    g, behind, open := Text(""), s, Closed;
    var e := FindText(s, TagClose, 1);
    var b := s[1..e];
    assert forall j | 0 <= j < |b| :: !At(s, TagClose, j + 1) && s[j + 1] == b[j];
    assert '>' !in b;
    if |b| >= 3 {
      assert b[..3][0] == s[1] && b[..3][1] == s[2] && b[..3][2] == s[3];
    }
    if e == |s| {
      open := OpenTag(b);
      assert s == "<" + b;
    } else {
      g, behind := Tag(b), s[e + 1..];
      assert s == "<" + b + ">" + behind;
    }
  }

  lemma {:induction false} ReplaceBehind(a: string, b: string, i: nat)
    requires i <= |b|
    ensures ReplaceFrom(a + b, |a| + i) == ReplaceFrom(b, i)
    decreases |b| - i
  {
    hide ReplaceFrom, At;
    if i < |b| {
      ReplaceStep(b, i);
      ReplaceStep(a + b, |a| + i);
      MarkBehind(a, b, i);
      ReplaceBehind(a, b, if At(b, CommentClose, i) then i + 3 else i + 1);
    } else {
      assert |a + b| == |a| + i;
      ReplaceEnd(b);
      ReplaceEnd(a + b);
    }
  }

  lemma MarkBehind(a: string, b: string, i: nat)
    requires i < |b|
    ensures At(a + b, CommentClose, |a| + i) <==> At(b, CommentClose, i)
    ensures (a + b)[|a| + i] == b[i]
  {
  }

  /** A stray comment closer becomes one space; text before it is untouched. */
  lemma {:induction false} CloserBecomesSpace(a: string, b: string)
    requires forall j | 0 <= j < |a| :: !At(a + "-->" + b, CommentClose, j)
    ensures ReplaceFrom(a + "-->" + b, 0) == a + " " + ReplaceFrom(b, 0)
  {
    hide ReplaceFrom, At;
    CloserFrom(a, b, 0);
    assert a[0..] == a;
  }

  lemma {:induction false} CloserFrom(a: string, b: string, i: nat)
    requires i <= |a| && forall j | 0 <= j < |a| :: !At(a + "-->" + b, CommentClose, j)
    ensures ReplaceFrom(a + "-->" + b, i) == a[i..] + " " + ReplaceFrom(b, 0)
    decreases |a| - i
  {
    var s := a + "-->" + b;
    assert At(s, CommentClose, |a|);
    hide ReplaceFrom, At;
    ReplaceStep(s, i);
    if i < |a| {
      CloserFrom(a, b, i + 1);
      assert s[i] == a[i] && [a[i]] + a[i + 1..] == a[i..];
    } else {
      ReplaceBehind(a + "-->", b, 0);
      assert a[i..] == "";
    }
  }
}
