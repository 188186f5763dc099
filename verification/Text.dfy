/** The few string operations the models need, on code points. */
module Text {

  predicate IsSpace(c: char) {
    c == ' ' || '\t' <= c <= '\r' || '\U{1C}' <= c <= '\U{1F}' || c == '\U{85}' || c == '\U{A0}'
  }

  /** Space, tab and the line breaks are spaces; nothing printable in ASCII is. */
  lemma SpaceKinds(c: char)
    ensures c in {' ', '\t', '\n', '\r', '\U{0B}', '\U{0C}'} ==> IsSpace(c)
    ensures '!' <= c <= '~' ==> !IsSpace(c)
  {
  }

  /** ASCII lower case. */
  function Lower(s: string): string {
    seq(|s|, i requires 0 <= i < |s| => if 'A' <= s[i] <= 'Z' then s[i] + 32 as char else s[i])
  }

  /** Two texts have the same lower case exactly when they differ in ASCII case at most. */
  lemma LowerFoldsCase(s: string, t: string)
    ensures Lower(s) == Lower(t) <==>
      |s| == |t| && forall i | 0 <= i < |s| ::
        s[i] == t[i] || ('A' <= s[i] <= 'Z' && t[i] == s[i] + 32 as char) || ('A' <= t[i] <= 'Z' && s[i] == t[i] + 32 as char)
    ensures Lower(Lower(s)) == Lower(s)
  {
    if Lower(s) == Lower(t) {
      assert |Lower(s)| == |Lower(t)|;
      forall i | 0 <= i < |s|
        ensures s[i] == t[i] || ('A' <= s[i] <= 'Z' && t[i] == s[i] + 32 as char) || ('A' <= t[i] <= 'Z' && s[i] == t[i] + 32 as char)
      {
        assert Lower(s)[i] == Lower(t)[i];
      }
    }
  }

  function StripLeft(s: string): string {
    if s != "" && IsSpace(s[0]) then StripLeft(s[1..]) else s
  }

  function StripRight(s: string): string {
    if s != "" && IsSpace(s[|s| - 1]) then StripRight(s[..|s| - 1]) else s
  }

  function Strip(s: string): string {
    StripRight(StripLeft(s))
  }

  /** The first index of `c` at or after `from`, or |s|. */
  function IndexOf(s: string, c: char, from: nat): (k: nat)
    requires from <= |s|
    ensures from <= k <= |s|
    ensures k < |s| ==> s[k] == c
    ensures forall i | from <= i < k :: s[i] != c
    decreases |s| - from
  {
    if from == |s| || s[from] == c then from else IndexOf(s, c, from + 1)
  }

  /** Python's `s.split(sep)`: never empty, pieces free of `sep`. */
  function Split(s: string, sep: char): (pieces: seq<string>)
    ensures pieces != []
    decreases |s|
  {
    var k := IndexOf(s, sep, 0);
    if k == |s| then [s] else [s[..k]] + Split(s[k + 1..], sep)
  }

  function Join(pieces: seq<string>, sep: char): string {
    if pieces == [] then ""
    else if |pieces| == 1 then pieces[0]
    else pieces[0] + [sep] + Join(pieces[1..], sep)
  }

  lemma {:induction false} IndexOfIs(s: string, c: char, from: nat, k: nat)
    requires from <= k <= |s| && (k < |s| ==> s[k] == c)
    requires forall i | from <= i < k :: s[i] != c
    ensures IndexOf(s, c, from) == k
  {
  }

  /** Splitting undoes joining, for pieces that do not contain the separator. */
  lemma {:induction false} SplitJoin(pieces: seq<string>, sep: char)
    requires pieces != [] && forall p <- pieces :: sep !in p
    ensures Split(Join(pieces, sep), sep) == pieces
  {
    var s := Join(pieces, sep);
    assert pieces[0] in pieces;
    if |pieces| == 1 {
      IndexOfIs(s, sep, 0, |s|);
    } else {
      var k := |pieces[0]|;
      IndexOfIs(s, sep, 0, k);
      assert s[..k] == pieces[0] && s[k + 1..] == Join(pieces[1..], sep);
      SplitJoin(pieces[1..], sep);
    }
  }

  /** Text appended behind a separator only appends pieces. */
  lemma {:induction false} SplitAppend(s: string, sep: char, t: string)
    ensures Split(s + [sep] + t, sep) == Split(s, sep) + Split(t, sep)
    decreases |s|
  {
    var k := IndexOf(s, sep, 0);
    var all := s + [sep] + t;
    IndexOfIs(all, sep, 0, k);
    assert all[..k] == s[..k];
    if k == |s| {
      assert all[k + 1..] == t && s[..k] == s;
    } else {
      assert all[k + 1..] == s[k + 1..] + [sep] + t;
      SplitAppend(s[k + 1..], sep, t);
      assert [s[..k]] + (Split(s[k + 1..], sep) + Split(t, sep)) == Split(s, sep) + Split(t, sep);
    }
  }

  predicate Contains(s: string, w: string) {
    exists i | 0 <= i <= |s| :: w <= s[i..]
  }
}
