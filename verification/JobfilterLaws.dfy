/** What the words of a title are, which words meet, and when a query broadens. */
module JobfilterLaws {
  import opened Jobfilter

  predicate WordText(w: string) {
    w != "" && forall i | 0 <= i < |w| :: 'a' <= w[i] <= 'z' || '0' <= w[i] <= '9' || w[i] == '+' || w[i] == '#'
  }

  predicate Separates(c: char) {
    !('a' <= c <= 'z') && !('0' <= c <= '9') && c != '+' && c != '#'
  }

  predicate CarriesNoSignal(w: string) {
    || w == "a" || w == "an" || w == "and" || w == "for" || w == "in" || w == "of"
    || w == "or" || w == "the" || w == "to" || w == "with" || w == "at" || w == "on"
  }

  lemma FindAllStep(s: string)
    requires s != ""
    ensures FindAll(s) == if Wordy(s[0]) then [s[..RunEnd(s, 0)]] + FindAll(s[RunEnd(s, 0)..]) else FindAll(s[1..])
    ensures Wordy(s[0]) ==> RunEnd(s, 0) > 0
    ensures FindAll("") == []
  {
    hide Wordy;
  }

  lemma {:induction false} FindAllSplits(a: string, c: char, b: string)
    requires !Wordy(c)
    ensures FindAll(a + [c] + b) == FindAll(a) + FindAll(b)
    decreases |a|
  {
    hide FindAll, RunEnd, Wordy;
    var s := a + [c] + b;
    FindAllStep(s);
    if a == "" {
      assert s[1..] == b;
      FindAllNothing();
      assert [] + FindAll(b) == FindAll(b);
    } else if !Wordy(a[0]) {
      assert s[1..] == a[1..] + [c] + b;
      FindAllSplits(a[1..], c, b);
      FindAllStep(a);
    } else {
      FindAllStep(a);
      var k := RunEnd(a, 0);
      assert forall j | 0 <= j < k :: s[j] == a[j];
      assert k < |a| ==> s[k] == a[k];
      RunEndIs(s, 0, k);
      assert s[..k] == a[..k] && s[k..] == a[k..] + [c] + b;
      FindAllSplits(a[k..], c, b);
      assert [a[..k]] + (FindAll(a[k..]) + FindAll(b)) == ([a[..k]] + FindAll(a[k..])) + FindAll(b);
    }
  }

  lemma FindAllNothing()
    ensures FindAll("") == []
  {
  }

  lemma {:induction false} SignalConcat(a: seq<string>, b: seq<string>)
    ensures Signal(a + b) == Signal(a) + Signal(b)
  {
    hide Signal;
    if a == [] {
      assert a + b == b;
      SignalNothing();
    } else {
      assert (a + b)[1..] == a[1..] + b;
      SignalConcat(a[1..], b);
      SignalStep(a);
      SignalStep(a + b);
    }
  }

  lemma SignalNothing()
    ensures Signal([]) == []
  {
  }

  lemma SignalStep(words: seq<string>)
    requires words != []
    ensures Signal(words) == if words[0] in STOPWORDS then Signal(words[1..]) else [words[0]] + Signal(words[1..])
  {
  }

  lemma StopwordsAre(w: string)
    ensures w in STOPWORDS <==> CarriesNoSignal(w)
  {
  }

  /**
   The words of a text: any character but a letter, a digit, `+` and `#` separates, and
   a run of those is one word, dropped when it carries no signal. These two facts
   determine the words of every text.
   */
  lemma WordsOfText(a: string, c: char, b: string, w: string)
    ensures Separates(c) ==> Tokens(a + [c] + b) == Tokens(a) + Tokens(b)
    ensures WordText(w) ==> Tokens(w) == if CarriesNoSignal(w) then [] else [w]
    ensures Tokens("") == []
  {
    if Separates(c) {
      FindAllSplits(a, c, b);
      SignalConcat(FindAll(a), FindAll(b));
    }
    if WordText(w) {
      OneWord(w);
    }
  }

  lemma OneWord(w: string)
    requires WordText(w)
    ensures Tokens(w) == if CarriesNoSignal(w) then [] else [w]
  {
    assert IsWord(w) && JoinWords([w]) == w;
    FindAllJoin([w]);
    StopwordsAre(w);
    hide FindAll, CarriesNoSignal, Signal;
    assert [w][1..] == [];
    SignalStep([w]);
    SignalNothing();
  }

  /** Two words meet when they are equal, or one is a prefix of the other and neither is shorter than four. */
  lemma HitExactly(wanted: string, candidate: string)
    ensures Hit(wanted, candidate) <==>
      wanted == candidate || (|wanted| >= 4 && |candidate| >= 4 && (wanted <= candidate || candidate <= wanted))
    ensures Hit(wanted, candidate) <==> Hit(candidate, wanted)
  {
  }

  // ---- suffixes ----------------------------------------------------------------

  predicate MayDrop(suffix: string) {
    suffix == "ers" || suffix == "ing" || suffix == "er" || suffix == "s"
  }

  /** `word` is `base` with one of the four suffixes behind it, and `base` is long enough to stand alone. */
  predicate Carries(word: string, base: string, suffix: string) {
    MayDrop(suffix) && |base| >= 4 && word == base + suffix
  }

  lemma SuffixesAre()
    ensures |SUFFIXES| == 4 && SUFFIXES[0] == "ers" && SUFFIXES[1] == "ing" && SUFFIXES[2] == "er" && SUFFIXES[3] == "s"
  {
  }

  lemma StripsExactly(word: string, suffix: string)
    ensures Strips(word, suffix) <==> exists base :: |base| >= 4 && word == base + suffix
  {
    if Strips(word, suffix) {
      var base := word[..|word| - |suffix|];
      assert word == base + suffix;
    }
  }

  lemma DropsFirst(word: string) returns (base: string, suffix: string)
    requires FirstSuffix(word, 0) < |SUFFIXES|
    ensures Carries(word, base, suffix) && Stem(word) == Stem(base)
  {
    StemStep(word);
    SuffixesAre();
    var n := FirstSuffix(word, 0);
    suffix := SUFFIXES[n];
    base := word[..|word| - |suffix|];
    assert word == base + suffix;
  }

  lemma DropsNone(word: string)
    requires FirstSuffix(word, 0) == |SUFFIXES|
    ensures forall base, suffix :: !Carries(word, base, suffix)
  {
    SuffixesAre();
    assert forall k | 0 <= k < 4 :: !Strips(word, SUFFIXES[k]);
    assert !Strips(word, "ers") && !Strips(word, "ing") && !Strips(word, "er") && !Strips(word, "s");
    forall base, suffix
      ensures !Carries(word, base, suffix)
    {
      StripsExactly(word, suffix);
    }
  }

  /** A word is its own stem exactly when no suffix can be dropped from it. */
  lemma StemChangesExactly(word: string)
    ensures Stem(word) != word <==> exists base, suffix :: Carries(word, base, suffix)
  {
    hide Strips, Carries;
    StemStep(word);
    if FirstSuffix(word, 0) < |SUFFIXES| {
      var base, suffix := DropsFirst(word);
      StemMeans(base);
      CarriedIsShorter(word, base, suffix);
    } else {
      DropsNone(word);
    }
  }

  lemma CarriedIsShorter(word: string, base: string, suffix: string)
    requires Carries(word, base, suffix)
    ensures |base| < |word|
  {
  }

  /** A word and the word with one of the four suffixes have the same stem. */
  lemma {:induction false} SuffixDoesNotMatter(base: string, suffix: string)
    requires MayDrop(suffix) && |base| >= 4
    ensures Stem(base + suffix) == Stem(base)
    decreases |base|
  {
    var word := base + suffix;
    if FirstSuffix(word, 0) == |SUFFIXES| {
      DropsNone(word);
      assert Carries(word, base, suffix);
    } else {
      var other, dropped := DropsFirst(word);
      TwoReadings(base, suffix, other, dropped);
      if |dropped| < |suffix| {
        // "ers" read as "s": the first that may be dropped is dropped, so this cannot be.
        FirstIsLongest(base, suffix, other, dropped);
      } else if dropped != suffix {
        // "...er" + "s" read as "..." + "ers"
        SuffixDoesNotMatter(other, "er");
      }
    }
  }

  lemma TwoReadings(base: string, suffix: string, other: string, dropped: string)
    requires MayDrop(suffix) && MayDrop(dropped) && base + suffix == other + dropped && |base| >= 4 && |other| >= 4
    ensures dropped == suffix ==> other == base
    ensures |dropped| < |suffix| ==> suffix == "ers" && dropped == "s"
    ensures |dropped| >= |suffix| && dropped != suffix ==> suffix == "s" && dropped == "ers" && base == other + "er"
  {
    var word := base + suffix;
    assert word[|word| - 1] == suffix[|suffix| - 1] == dropped[|dropped| - 1];
    assert word[|word| - |suffix|..] == suffix && word[|word| - |dropped|..] == dropped;
    assert word[..|base|] == base && word[..|other|] == other;
    if |dropped| > |suffix| && suffix == "s" && dropped == "ers" {
      assert base == word[..|other| + 2] && word[|other|..|other| + 2] == dropped[..2] == "er";
    }
  }

  lemma FirstIsLongest(base: string, suffix: string, other: string, dropped: string)
    requires suffix == "ers" && dropped == "s" && base + suffix == other + dropped && |base| >= 4
    ensures Strips(base + suffix, SUFFIXES[0])
  {
    StripsExactly(base + suffix, "ers");
  }

  /** A title broadens exactly when one of its words carries a suffix that can be dropped. */
  lemma BroadensExactly(title: string)
    ensures BroadenedQuery(title).Some? <==> exists w <- Tokens(title), base, suffix :: Carries(w, base, suffix)
  {
    hide Carries, Tokens, Stem;
    var words := Tokens(title);
    forall w
      ensures Stem(w) != w <==> exists base, suffix :: Carries(w, base, suffix)
    {
      StemChangesExactly(w);
    }
    if Stems(words) != words {
      var i :| 0 <= i < |words| && Stems(words)[i] != words[i];
      assert words[i] in words;
    }
    if w, base, suffix :| w in words && Carries(w, base, suffix) {
      var i :| 0 <= i < |words| && words[i] == w;
      assert Stems(words)[i] == Stem(w) != w;
    }
  }
}
