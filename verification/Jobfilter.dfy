/**
 Title matching on word tokens, and the stemmer that widens a query.

 Texts are taken after Unicode folding and case folding.
 */
module Jobfilter {
  import opened Basics

  const STOPWORDS: set<string> := {"a", "an", "and", "for", "in", "of", "or", "the", "to", "with", "at", "on"}
  const MIN_PREFIX: nat := 4
  const SUFFIXES: seq<string> := ["ers", "ing", "er", "s"]
  const MIN_STEM: nat := 4

  // ---- tokens ------------------------------------------------------------------

  predicate Wordy(c: char) {
    'a' <= c <= 'z' || '0' <= c <= '9' || c == '+' || c == '#'
  }

  /** The end of the run of word characters that starts at `from`. */
  function RunEnd(s: string, from: nat): (k: nat)
    requires from <= |s|
    ensures from <= k <= |s|
    ensures forall j | from <= j < k :: Wordy(s[j])
    ensures k < |s| ==> !Wordy(s[k])
    decreases |s| - from
  {
    if from == |s| || !Wordy(s[from]) then from else RunEnd(s, from + 1)
  }

  /** All maximal runs of word characters. */
  function FindAll(s: string): seq<string>
    decreases |s|
  {
    if s == "" then []
    else if !Wordy(s[0]) then FindAll(s[1..])
    else
      var k := RunEnd(s, 0);
      [s[..k]] + FindAll(s[k..])
  }

  function Signal(words: seq<string>): seq<string> {
    if words == [] then [] else (if words[0] in STOPWORDS then [] else [words[0]]) + Signal(words[1..])
  }

  function Tokens(text: string): seq<string> {
    Signal(FindAll(text))
  }

  predicate IsWord(w: string) {
    w != "" && forall c <- w :: Wordy(c)
  }

  lemma {:induction false} FoundAreWords(s: string)
    ensures forall w <- FindAll(s) :: IsWord(w)
    decreases |s|
  {
    if s != "" {
      FoundAreWords(if Wordy(s[0]) then s[RunEnd(s, 0)..] else s[1..]);
    }
  }

  lemma {:induction false} SignalKeeps(words: seq<string>)
    ensures forall w <- Signal(words) :: w in words && w !in STOPWORDS
  {
    if words != [] {
      SignalKeeps(words[1..]);
    }
  }

  function JoinWords(words: seq<string>): string {
    if words == [] then "" else if |words| == 1 then words[0] else words[0] + " " + JoinWords(words[1..])
  }

  lemma {:induction false} RunEndIs(s: string, from: nat, k: nat)
    requires from <= k <= |s| && (forall j | from <= j < k :: Wordy(s[j])) && (k < |s| ==> !Wordy(s[k]))
    ensures RunEnd(s, from) == k
    decreases k - from
  {
    if from < k {
      RunEndIs(s, from + 1, k);
    }
  }

  lemma FindAllFirst(s: string, k: nat)
    requires 0 < k <= |s| && Wordy(s[0]) && RunEnd(s, 0) == k
    ensures FindAll(s) == [s[..k]] + FindAll(s[k..])
  {
    hide Wordy, RunEnd;
  }

  lemma FindAllRest(s: string)
    requires s == "" || s[0] == ' '
    ensures FindAll(s) == if s == "" then [] else FindAll(s[1..])
  {
  }

  /** Words joined by spaces are found again, in order. */
  lemma {:induction false} FindAllJoin(words: seq<string>)
    requires forall w <- words :: IsWord(w)
    ensures FindAll(JoinWords(words)) == words
  {
    hide FindAll, RunEnd;
    if words != [] {
      var s, k := JoinWords(words), |words[0]|;
      assert IsWord(words[0]);
      assert forall j | 0 <= j < k :: s[j] == words[0][j];
      assert forall w <- words[1..] :: w in words;
      RunEndIs(s, 0, k);
      FindAllJoin(words[1..]);
      assert s[..k] == words[0];
      FindAllFirst(s, k);
      if |words| == 1 {
        assert s[k..] == "" && words[1..] == [];
        FindAllRest("");
      } else {
        assert s[k..][0] == ' ' && s[k..][1..] == JoinWords(words[1..]);
        FindAllRest(s[k..]);
      }
    } else {
      FindAllRest("");
    }
  }

  // ---- matching ------------------------------------------------------------------

  /** Two tokens match when equal, or when the shorter is a long enough prefix. */
  predicate Hit(wanted: string, candidate: string) {
    || wanted == candidate
    || (|wanted| <= |candidate| && |wanted| >= MIN_PREFIX && wanted <= candidate)
    || (|candidate| < |wanted| && |candidate| >= MIN_PREFIX && candidate <= wanted)
  }

  predicate TokenHit(wanted: string, have: seq<string>) {
    exists c <- have :: Hit(wanted, c)
  }

  predicate AllHit(wanted: seq<string>, have: seq<string>) {
    forall w <- wanted :: TokenHit(w, have)
  }

  predicate TitleMatches(have: seq<string>, wanted: seq<string>) {
    wanted == [] || (have != [] && AllHit(wanted, have))
  }

  // ---- stemming ------------------------------------------------------------------

  predicate Strips(token: string, suffix: string) {
    |suffix| + MIN_STEM <= |token| && token[|token| - |suffix|..] == suffix
  }

  /** The first suffix of the list that may be stripped. */
  function FirstSuffix(token: string, k: nat): (n: nat)
    requires k <= |SUFFIXES|
    ensures k <= n <= |SUFFIXES|
    ensures n < |SUFFIXES| ==> Strips(token, SUFFIXES[n])
    ensures forall j | k <= j < n :: !Strips(token, SUFFIXES[j])
    decreases |SUFFIXES| - k
  {
    if k == |SUFFIXES| || Strips(token, SUFFIXES[k]) then k else FirstSuffix(token, k + 1)
  }

  function Stem(token: string): string
    decreases |token|
  {
    var n := FirstSuffix(token, 0);
    if n == |SUFFIXES| then token else Stem(token[..|token| - |SUFFIXES[n]|])
  }

  lemma StemStep(token: string)
    ensures var n := FirstSuffix(token, 0);
      n <= |SUFFIXES| && if n == |SUFFIXES| then Stem(token) == token
      else
        && MIN_STEM <= |token| - |SUFFIXES[n]| < |token|
        && Stem(token) == Stem(token[..|token| - |SUFFIXES[n]|])
  {
    hide FirstSuffix;
  }

  /** The nested loop: strip a suffix, start over, stop when none applies. */
  method StemLoop(word: string) returns (token: string)
    ensures token == Stem(word)
  {
    hide Stem, FirstSuffix;
    token := word;
    var changed := true;
    while changed
      invariant Stem(token) == Stem(word)
      invariant !changed ==> Stem(token) == token
      decreases |token|, changed
    {
      StemStep(token);
      token, changed := DropSuffix(token);
    }
  }

  /** The inner loop: drops the first suffix that may go. */
  method DropSuffix(token: string) returns (rest: string, changed: bool)
    ensures var n := FirstSuffix(token, 0);
      changed == (n < |SUFFIXES|) && rest == if changed then token[..|token| - |SUFFIXES[n]|] else token
  {
    for k := 0 to |SUFFIXES|
      invariant FirstSuffix(token, 0) == FirstSuffix(token, k)
    {
      if Strips(token, SUFFIXES[k]) {
        return token[..|token| - |SUFFIXES[k]|], true;
      }
    }
    return token, false;
  }

  /** A stem is a prefix, never shorter than four characters unless it is the word, and final. */
  lemma {:induction false} StemMeans(word: string)
    ensures Stem(word) <= word
    ensures Stem(word) == word || |Stem(word)| >= MIN_STEM
    ensures Stem(Stem(word)) == Stem(word)
    ensures FirstSuffix(Stem(word), 0) == |SUFFIXES|
    decreases |word|
  {
    hide Stem, FirstSuffix, Strips;
    StemStep(word);
    var n := FirstSuffix(word, 0);
    if n < |SUFFIXES| {
      StemMeans(word[..|word| - |SUFFIXES[n]|]);
    }
  }

  function Stems(words: seq<string>): seq<string> {
    seq(|words|, i requires 0 <= i < |words| => Stem(words[i]))
  }

  lemma StemHits(wanted: string, candidate: string)
    requires Hit(wanted, candidate)
    ensures Hit(Stem(wanted), candidate)
  {
    StemMeans(wanted);
  }

  /** Stemming only widens: a title that matches the words matches their stems. */
  lemma StemmingWidens(have: seq<string>, wanted: seq<string>)
    requires TitleMatches(have, wanted)
    ensures TitleMatches(have, Stems(wanted))
  {
    forall s | s in Stems(wanted)
      ensures TokenHit(s, have)
    {
      var i :| 0 <= i < |wanted| && s == Stem(wanted[i]);
      assert wanted[i] in wanted && TokenHit(wanted[i], have);
      var c :| c in have && Hit(wanted[i], c);
      StemHits(wanted[i], c);
    }
  }

  // ---- the widened query -----------------------------------------------------------

  function BroadenedQuery(title: string): Option<string> {
    var original := Tokens(title);
    if original == [] || Stems(original) == original then None else Some(JoinWords(Stems(original)))
  }

  /** The tokens of a broadened query are its stems, minus any that are stopwords. */
  lemma BroadenedTokens(title: string)
    requires BroadenedQuery(title).Some?
    ensures Tokens(BroadenedQuery(title).value) == Signal(Stems(Tokens(title)))
  {
    var original := Tokens(title);
    var stems := Stems(original);
    FoundAreWords(title);
    SignalKeeps(FindAll(title));
    forall s | s in stems
      ensures IsWord(s)
    {
      var i :| 0 <= i < |original| && s == Stem(original[i]);
      assert original[i] in original && IsWord(original[i]);
      StemMeans(original[i]);
      assert forall j | 0 <= j < |s| :: s[j] == original[i][j] && original[i][j] in original[i];
    }
    FindAllJoin(stems);
  }

  /** Broadening reaches its fixpoint in one step: a broadened query broadens to nothing. */
  lemma BroadeningStops(title: string)
    requires BroadenedQuery(title).Some?
    ensures BroadenedQuery(BroadenedQuery(title).value).None?
  {
    BroadenedTokens(title);
    var words := Signal(Stems(Tokens(title)));
    SignalKeeps(Stems(Tokens(title)));
    forall i | 0 <= i < |words|
      ensures Stem(words[i]) == words[i]
    {
      assert words[i] in words && words[i] in Stems(Tokens(title));
      var j :| 0 <= j < |Tokens(title)| && words[i] == Stem(Tokens(title)[j]);
      StemMeans(Tokens(title)[j]);
    }
    assert Stems(words) == words;
  }
}
