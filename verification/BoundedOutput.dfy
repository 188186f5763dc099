/**
 Joining whole items under an output cap, with a marker naming any omission. The
 length is kept as a running number through every append and every pop.

 The product page joins lines with one newline; the search page joins items
 with two behind a prefix.
 */
module BoundedOutput {
  import opened Text

  const MAX_CHARS: nat := 100_000
  const PRODUCT_MARKER := "[Additional product fields omitted to enforce the output limit.]"
  const SEARCH_MARKER := "[Additional products omitted to enforce the search output limit.]"

  const NO_PRODUCTS := "No products found."
  const MAX_PRODUCTS: nat := 60

  function Joined(items: seq<string>, separator: string): string {
    if items == [] then ""
    else if |items| == 1 then items[0]
    else Joined(items[..|items| - 1], separator) + separator + items[|items| - 1]
  }

  /** The length of `items` joined by a separator of `gap` characters. */
  function Length(items: seq<string>, gap: nat): nat {
    if items == [] then 0
    else if |items| == 1 then |items[0]|
    else Length(items[..|items| - 1], gap) + gap + |items[|items| - 1]|
  }

  lemma {:induction false} LengthIsJoined(items: seq<string>, separator: string)
    ensures |Joined(items, separator)| == Length(items, |separator|)
  {
    if |items| > 1 {
      LengthIsJoined(items[..|items| - 1], separator);
    }
  }

  /** Joining two lists puts one separator between them, and a single item is itself. */
  lemma {:induction false} JoinedConcat(a: seq<string>, b: seq<string>, separator: string)
    requires a != [] && b != []
    ensures Joined(a + b, separator) == Joined(a, separator) + separator + Joined(b, separator)
    ensures forall x :: Joined([x], separator) == x
    decreases |b|
  {
    var n := |b| - 1;
    assert (a + b)[..|a + b| - 1] == a + b[..n] && (a + b)[|a + b| - 1] == b[n];
    if n == 0 {
      assert a + b[..0] == a;
    } else {
      JoinedConcat(a, b[..n], separator);
    }
  }

  lemma LengthAppend(items: seq<string>, x: string, gap: nat)
    ensures Length(items + [x], gap) == Length(items, gap) + (if items == [] then 0 else gap) + |x|
  {
    assert (items + [x])[..|items|] == items;
  }

  lemma {:induction false} LengthGrows(items: seq<string>, n: nat, gap: nat)
    requires n <= |items|
    ensures Length(items[..n], gap) <= Length(items, gap)
    decreases |items|
  {
    if n < |items| {
      var front := items[..|items| - 1];
      assert items == front + [items[|items| - 1]] && front[..n] == items[..n];
      LengthAppend(front, items[|items| - 1], gap);
      LengthGrows(front, n, gap);
    } else {
      assert items[..n] == items;
    }
  }

  /** Where and how the joined text goes: behind `start` characters, up to `cap`. */
  datatype Frame = Frame(start: nat, gap: nat, marker: string, cap: nat)

  predicate Room(f: Frame, items: seq<string>) {
    f.start + Length(items, f.gap) <= f.cap
  }

  /** How many items fit before the first one that does not. */
  function Fitting(f: Frame, items: seq<string>, n: nat): (k: nat)
    requires n <= |items|
    ensures n <= k <= |items|
    ensures k < |items| ==> !Room(f, items[..k + 1])
    ensures forall j | n < j <= k :: Room(f, items[..j])
    decreases |items| - n
  {
    if n == |items| || !Room(f, items[..n + 1]) then n else Fitting(f, items, n + 1)
  }

  /** The largest prefix shorter than `n` that leaves room for the marker; 0 when none does. */
  function Kept(f: Frame, items: seq<string>, n: nat): (m: nat)
    requires n <= |items|
    ensures m <= n && (n > 0 ==> m < n)
    ensures m > 0 ==> Room(f, items[..m] + [f.marker])
    ensures forall j | m < j < n :: !Room(f, items[..j] + [f.marker])
  {
    if n <= 1 || Room(f, items[..n - 1] + [f.marker]) then (if n == 0 then 0 else n - 1)
    else Kept(f, items, n - 1)
  }

  function Output(f: Frame, items: seq<string>): seq<string> {
    var n := Fitting(f, items, 0);
    if n == |items| then items else items[..Kept(f, items, n)] + [f.marker]
  }

  /** The outer loop: append while there is room. */
  method Assemble(f: Frame, items: seq<string>) returns (output: seq<string>)
    ensures output == Output(f, items)
  {
    hide Joined, Kept;
    output := [];
    var running := f.start;
    for i := 0 to |items|
      invariant output == items[..i] && Fitting(f, items, 0) == Fitting(f, items, i)
      invariant running == f.start + Length(output, f.gap)
    {
      var item := items[i];
      var separator := if output != [] then f.gap else 0;
      LengthAppend(output, item, f.gap);
      assert items[..i + 1] == items[..i] + [item];
      if running + separator + |item| > f.cap {
        output := MakeRoom(f, items, i, running);
        output := output + [f.marker];
        return;
      }
      output := output + [item];
      running := running + separator + |item|;
    }
    assert items[..|items|] == items;
  }

  /** The inner loop: pop until the marker fits. */
  method MakeRoom(f: Frame, items: seq<string>, n: nat, length: nat) returns (output: seq<string>)
    requires n <= |items| && length == f.start + Length(items[..n], f.gap)
    ensures output == items[..Kept(f, items, n)]
  {
    hide Length, Joined;
    output := items[..n];
    var running, fits := length, false;
    while output != [] && !fits
      invariant |output| <= n && output == items[..|output|]
      invariant running == f.start + Length(output, f.gap)
      invariant if fits then |output| == Kept(f, items, n) else Kept(f, items, |output|) == Kept(f, items, n)
      decreases |output|, !fits
    {
      var k := |output| - 1;
      var removed := output[k];
      assert output == items[..k] + [removed];
      LengthAppend(items[..k], removed, f.gap);
      output := output[..k];
      assert output == items[..k];
      running := running - (|removed| + (if output != [] then f.gap else 0));
      LengthAppend(output, f.marker, f.gap);
      fits := running + (if output != [] then f.gap else 0) + |f.marker| <= f.cap;
    }
  }

  // ---- what the output is ------------------------------------------------------------

  /** Given a start and marker that fit, the cap holds. */
  lemma CapHolds(f: Frame, items: seq<string>)
    requires f.start + |f.marker| <= f.cap
    ensures Room(f, Output(f, items))
  {
    var n := Fitting(f, items, 0);
    if n == |items| {
      assert items[..|items|] == items;
      assert n > 0 ==> Room(f, items[..n]);
    } else if Kept(f, items, n) == 0 {
      LengthAppend([], f.marker, f.gap);
      assert items[..0] == [];
    }
  }

  /**
   The marker is there exactly when the whole does not fit, and then what is in
   front of it is a proper prefix of the items.
   */
  lemma MarkerMeansOmission(f: Frame, items: seq<string>)
    ensures if items == [] || Room(f, items) then Output(f, items) == items
            else exists m: nat :: m < |items| && Output(f, items) == items[..m] + [f.marker]
  {
    var n := Fitting(f, items, 0);
    assert items[..|items|] == items;
    if items != [] && Room(f, items) && n < |items| {
      LengthGrows(items, n + 1, f.gap);
    }
    if n < |items| {
      assert Output(f, items) == items[..Kept(f, items, n)] + [f.marker];
    }
  }

  /** How long a prefix could have been kept in front of the marker. */
  ghost predicate Longest(f: Frame, items: seq<string>, m: nat) {
    && m < |items|
    && forall j | m < j < |items| :: !Room(f, items[..j] + [f.marker])
  }

  /**
   One item is always given up before the marker is tried. So the kept prefix is
   the longest that leaves room for the marker exactly when the marker would not
   have fitted behind everything appended so far.
   */
  lemma KeptPrefixExact(f: Frame, items: seq<string>)
    requires items != [] && !Room(f, items)
    ensures var n := Fitting(f, items, 0);
      n < |items| &&
      (Longest(f, items, Kept(f, items, n)) <==> n == 0 || !Room(f, items[..n] + [f.marker]))
  {
    hide Length, Room;
    var n := Fitting(f, items, 0);
    assert items[..|items|] == items;
    forall j | n < j < |items|
      ensures !Room(f, items[..j] + [f.marker])
    {
      TooLong(f, items, n + 1, j);
    }
  }

  lemma TooLong(f: Frame, items: seq<string>, n: nat, j: nat)
    requires 0 < n <= j <= |items| && !Room(f, items[..n])
    ensures !Room(f, items[..j] + [f.marker])
  {
    hide Length;
    LengthGrows(items[..j], n, f.gap);
    assert items[..j][..n] == items[..n];
    LengthAppend(items[..j], f.marker, f.gap);
  }

  /** Such a loss exists: a short line that fits with the marker goes with the long one that does not. */
  lemma ShortLineLost(line: string, long: string)
    requires |line| == 1 && |long| == 100_000
    ensures var f := Frame(0, 1, PRODUCT_MARKER, MAX_CHARS);
      Output(f, [line, long]) == [PRODUCT_MARKER] && Room(f, [line] + [PRODUCT_MARKER])
  {
    hide Length, Kept;
    var f, items := Frame(0, 1, PRODUCT_MARKER, MAX_CHARS), [line, long];
    assert items[..1] == [line] && items[..2] == [line] + [long] && items[..0] == [];
    LengthOne(line, 1);
    LengthAppend([line], long, 1);
    LengthAppend([line], PRODUCT_MARKER, 1);
    assert |PRODUCT_MARKER| < 100;
    assert Fitting(f, items, 1) == 1;
    assert Fitting(f, items, 0) == 1;
    KeptOfOne(f, items);
    assert [] + [PRODUCT_MARKER] == [PRODUCT_MARKER];
  }

  lemma LengthOne(x: string, gap: nat)
    ensures Length([x], gap) == |x|
  {
  }

  lemma KeptOfOne(f: Frame, items: seq<string>)
    requires |items| >= 1
    ensures Kept(f, items, 1) == 0
  {
  }

  // ---- the two pages ---------------------------------------------------------------------

  method ProductOutput(lines: seq<string>) returns (text: string)
    ensures text == Strip(Joined(Output(Frame(0, 1, PRODUCT_MARKER, 100_000), lines), "\n"))
    ensures |text| <= 100_000
  {
    var f := Frame(0, 1, PRODUCT_MARKER, MAX_CHARS);
    var output := Assemble(f, lines);
    CapHolds(f, lines);
    LengthIsJoined(output, "\n");
    StripShortens(Joined(output, "\n"));
    text := Strip(Joined(output, "\n"));
  }

  /** The items of page `page`, numbered on from the pages before it. */
  function Numbered<P>(products: seq<P>, page: nat, item: (int, P) -> string): seq<string> {
    var shown := if |products| <= MAX_PRODUCTS then |products| else MAX_PRODUCTS;
    seq(shown, i requires 0 <= i < shown => item(i + 1 + (page - 1) * MAX_PRODUCTS, products[i]))
  }

  /** At most sixty products a page, and the numbers run on from page to page. */
  lemma NumberedAcrossPages<P>(products: seq<P>, page: nat, item: (int, P) -> string)
    ensures |Numbered(products, page, item)| == if |products| < 60 then |products| else 60
    ensures forall k | 0 <= k < |products| && k < 60 :: Numbered(products, page, item)[k] == item(60 * page - 59 + k, products[k])
  {
  }

  method SearchOutput<P>(header: string, products: seq<P>, page: nat, item: (int, P) -> string) returns (text: string)
    ensures var prefix := header + "\n\n";
      text == if products == [] then prefix + NO_PRODUCTS
        else prefix + Joined(Output(Frame(|prefix|, 2, SEARCH_MARKER, 100_000), Numbered(products, page, item)), "\n\n")
    ensures |header| + 2 + |SEARCH_MARKER| <= 100_000 ==> |text| <= 100_000
  {
    var prefix := header + "\n\n";
    if products == [] {
      return prefix + NO_PRODUCTS;
    }
    var items := Numbered(products, page, item);
    var f := Frame(|prefix|, 2, SEARCH_MARKER, MAX_CHARS);
    var output := Assemble(f, items);
    LengthIsJoined(output, "\n\n");
    if |prefix| + |SEARCH_MARKER| <= MAX_CHARS {
      CapHolds(f, items);
    }
    text := prefix + Joined(output, "\n\n");
  }

  lemma StripShortens(s: string)
    ensures |Strip(s)| <= |s|
  {
    StripLeftShortens(s);
    StripRightShortens(StripLeft(s));
  }

  lemma {:induction false} StripLeftShortens(s: string)
    ensures |StripLeft(s)| <= |s|
  {
    if s != "" && IsSpace(s[0]) {
      StripLeftShortens(s[1..]);
    }
  }

  lemma {:induction false} StripRightShortens(s: string)
    ensures |StripRight(s)| <= |s|
  {
    if s != "" && IsSpace(s[|s| - 1]) {
      StripRightShortens(s[..|s| - 1]);
    }
  }
}
