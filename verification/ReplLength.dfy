/**
 * How long a printed list can be: each number that is printed is charged to a number of the text it
 * was read from. An octal-looking numeral that runs directly into a digit 8 or 9 is read as two
 * numbers by `strtoul`; only these can make the printed list longer than the text.
 */
module ReplLength {
  import opened CText
  import opened ReplList
  import opened ReplPrint

  // ---------------------------------------------------------------------------------------
  // The cost of a set: what its boundary members need when printed
  // ---------------------------------------------------------------------------------------

  ghost predicate Boundary(L: set<nat>, i: nat) {
    i in L && (i == 0 || i - 1 !in L || i + 1 !in L)
  }

  ghost function Cost(L: set<nat>, i: nat): nat {
    if Boundary(L, i) then |Dec(i)| + 1 else 0
  }

  ghost function Weight(L: set<nat>, lo: nat, hi: nat): nat
    decreases hi + 1 - lo
  {
    if lo > hi then 0 else Cost(L, lo) + Weight(L, lo + 1, hi)
  }

  lemma {:induction false} InteriorCostsNothing(L: set<nat>, i: nat, e: nat, max: nat)
    requires 0 < i <= e <= max && i - 1 in L
    requires forall k: nat :: i <= k <= e ==> k in L
    ensures Weight(L, i, max) == Weight(L, e, max)
    decreases e - i
  {
    if i < e {
      InteriorCostsNothing(L, i + 1, e, max);
    }
  }

  lemma RunCosts(L: set<nat>, i: nat, max: nat)
    requires i <= max && i in L && (i == 0 || i - 1 !in L)
    requires forall k :: k in L ==> k <= max
    ensures var e := RunEnd(L, i, max);
            Weight(L, i, max) == SpanCost(Span(i, e)) + Weight(L, e + 1, max)
  {
    hide Dec;
    var e := RunEnd(L, i, max);
    assert e + 1 !in L;
    if i < e {
      InteriorCostsNothing(L, i + 1, e, max);
    }
  }

  lemma JoinCosts(s: Span, rest: seq<Span>)
    requires s.first <= s.last
    ensures |Join([s] + rest, 0, false)| == SpanCost(s) + |Join(rest, 0, false)|
  {
    hide Dec, Join;
    JoinCons(s, rest, 0, false);
  }

  /** The weight of a set is exactly the length of its printed form, one separator per number included. */
  lemma {:induction false} WeightIsPrintedLength(L: set<nat>, i: nat, max: nat)
    requires forall k :: k in L ==> k <= max
    requires i == 0 || i - 1 !in L
    ensures |Join(Runs(L, i, max), 0, false)| == Weight(L, i, max)
    decreases max + 1 - i
  {
    hide Dec, Join, SpanCost;
    if i > max {
      JoinNothing(0, false);
    } else if i !in L {
      WeightIsPrintedLength(L, i + 1, max);
    } else {
      var e := RunEnd(L, i, max);
      RunCosts(L, i, max);
      JoinCosts(Span(i, e), Runs(L, e + 1, max));
      if e < max {
        WeightIsPrintedLength(L, e + 2, max);
      } else {
        JoinNothing(0, false);
      }
    }
  }

  /** A boundary of a union is a boundary of one of its parts. */
  lemma {:induction false} WeightOfUnion(A: set<nat>, B: set<nat>, lo: nat, hi: nat)
    ensures Weight(A + B, lo, hi) <= Weight(A, lo, hi) + Weight(B, lo, hi)
    decreases hi + 1 - lo
  {
    hide Dec;
    if lo <= hi {
      WeightOfUnion(A, B, lo + 1, hi);
      assert Boundary(A + B, lo) ==> Boundary(A, lo) || Boundary(B, lo);
    }
  }

  ghost function Interval(s: Span): set<nat> {
    set k: nat | k <= s.last && InSpan(s, k)
  }

  ghost predicate InSpan(s: Span, k: nat) {
    s.first <= k <= s.last
  }

  ghost function SpanCost(s: Span): nat {
    |Dec(s.first)| + 1 + if s.first < s.last then |Dec(s.last)| + 1 else 0
  }

  lemma {:induction false} WeightOfInterval(s: Span, lo: nat, hi: nat)
    requires s.first <= s.last
    ensures Weight(Interval(s), lo, hi) <=
            (if lo <= s.first then |Dec(s.first)| + 1 else 0)
            + (if lo <= s.last && s.first < s.last then |Dec(s.last)| + 1 else 0)
    decreases hi + 1 - lo
  {
    hide Dec;
    if lo <= hi {
      WeightOfInterval(s, lo + 1, hi);
      if Boundary(Interval(s), lo) {
        assert InSpan(s, lo) && (lo == s.first || lo - 1 in Interval(s)) && (lo == s.last || lo + 1 in Interval(s));
      }
    }
  }

  // ---------------------------------------------------------------------------------------
  // The price of a numeral
  // ---------------------------------------------------------------------------------------

  lemma DecLength(n: nat)
    requires n < 10000
    ensures |Dec(n)| == if n < 10 then 1 else if n < 100 then 2 else if n < 1000 then 3 else 4
  {
    assert |Dec(n / 10)| == if n < 100 then 1 else if n < 1000 then 2 else 3;
  }

  /** One, two or three digits. */
  lemma ShortScan(s: CString, p: nat, base: nat)
    requires p <= |s| && base in {8, 10, 16}
    ensures var d := ScanDigits(s, p, base, 0);
            && (d.end == p + 1 ==> d.value < base)
            && (base <= 10 && d.end == p + 2 ==> d.value < 100)
            && (base <= 10 && d.end == p + 3 ==> d.value < 1000)
  {
    hide ScanDigits, DigitValue;
    var d := ScanDigits(s, p, base, 0);
    if p < d.end <= p + 3 {
      var v1 := ScanOne(s, p, base, 0);
      if d.end > p + 1 && base <= 10 {
        var v2 := ScanOne(s, p + 1, base, v1);
        if d.end > p + 2 {
          var v3 := ScanOne(s, p + 2, base, v2);
        }
      }
    }
  }

  lemma ScanOne(s: CString, p: nat, base: nat, acc: nat) returns (v: nat)
    requires p < |s| && base in {8, 10, 16} && p < ScanDigits(s, p, base, acc).end
    ensures ScanDigits(s, p, base, acc) == ScanDigits(s, p + 1, base, v)
    ensures acc == 0 ==> v < base
    ensures base <= 10 ==> v <= acc * 10 + 9
    ensures ScanDigits(s, p + 1, base, v).end == p + 1 ==> ScanDigits(s, p, base, acc).value == v
  {
    v := acc * base + DigitValue(s[p]);
    assert base <= 10 ==> acc * base <= acc * 10;
  }

  /** A numeral below 10000 has at least as many characters as its decimal notation. */
  lemma NumeralIsNotShorter(s: CString, p: nat)
    requires p <= |s|
    requires Strtoul(s, p).end > p && Strtoul(s, p).value < 10000
    ensures |Dec(Strtoul(s, p).value)| <= Strtoul(s, p).end - DigitStart(s, p)
  {
    var q := DigitStart(s, p);
    var base := InferredBase(s, q);
    var n := Strtoul(s, p);
    DecLength(n.value);
    ShortScan(s, if base == 16 then q + 2 else q, base);
    UnconvertedValue(s, p);
  }

  /** Unless it is clamped or negated, the value is the one that was scanned. */
  lemma UnconvertedValue(s: CString, p: nat)
    requires p <= |s|
    requires Strtoul(s, p).end > p && Strtoul(s, p).value < 10000
    ensures var q := DigitStart(s, p);
            var base := InferredBase(s, q);
            var d := ScanDigits(s, if base == 16 then q + 2 else q, base, 0);
            && d.end == Strtoul(s, p).end
            && (d.value < 1000 ==> Strtoul(s, p).value == d.value || Strtoul(s, p).value == 0)
  {
    hide Dec, ScanDigits, DigitStart, InferredBase, DigitValue;
  }

  // ---------------------------------------------------------------------------------------
  // The text
  // ---------------------------------------------------------------------------------------

  predicate IsOctal(c: char) {
    '0' <= c <= '7'
  }

  /** A numeral starts at `i` with 0 and octal digits and is continued by an 8 or a 9. */
  ghost predicate BrokenOctal(text: CString, i: nat)
    requires i < |text|
  {
    NumeralStart(text, i) && text[i] == '0' && exists j :: i < j < |text| && OctalUpTo(text, i, j) && IsTooHigh(text[j])
  }

  predicate IsTooHigh(c: char) {
    c == '8' || c == '9'
  }

  /** How many broken octal numerals there are from `i` on. */
  ghost function Breaks(text: CString, i: nat): nat
    requires i <= |text|
    decreases |text| - i
  {
    if i == |text| then 0 else (if BrokenOctal(text, i) then 1 else 0) + Breaks(text, i + 1)
  }

  ghost predicate NoBrokenOctal(text: CString) {
    forall i :: 0 <= i < |text| ==> !BrokenOctal(text, i)
  }

  lemma {:induction false} BreaksDecrease(text: CString, i: nat, j: nat)
    requires i <= j <= |text|
    ensures Breaks(text, j) <= Breaks(text, i)
    ensures i < j && BrokenOctal(text, i) ==> 1 + Breaks(text, j) <= Breaks(text, i)
    decreases j - i
  {
    hide BrokenOctal;
    if i < j {
      BreaksDecrease(text, i + 1, j);
    }
  }

  lemma {:induction false} BreaksCount(text: CString, i: nat)
    requires i <= |text|
    ensures Breaks(text, i) == 0 <==> forall k :: i <= k < |text| ==> !BrokenOctal(text, k)
    decreases |text| - i
  {
    hide BrokenOctal;
    if i < |text| {
      BreaksCount(text, i + 1);
    }
  }

  predicate NumeralStart(text: CString, i: nat)
    requires i < |text|
  {
    i == 0 || !IsAlnum(text[i - 1])
  }

  predicate OctalUpTo(text: CString, i: nat, j: nat)
    requires j <= |text|
  {
    forall k :: i <= k < j ==> IsOctal(text[k])
  }

  /** A numeral read at `p` does not continue a numeral before it, unless that was a broken one. */
  ghost predicate FreshAt(text: CString, p: nat)
    requires p <= |text|
  {
    p == 0 || !IsAlnum(text[p - 1]) || !IsDigit(At(text, p)) || IsTooHigh(text[p])
  }

  /** A digit directly behind a numeral means that the numeral was a broken one. */
  lemma NumeralEnds(text: CString, p: nat)
    requires p <= |text| && FreshAt(text, p) && Strtoul(text, p).end > p
    ensures var q, end := DigitStart(text, p), Strtoul(text, p).end;
            q < end && (IsDigit(At(text, end)) ==> IsTooHigh(text[end]) && BrokenOctal(text, q))
  {
    var q := DigitStart(text, p);
    var base := InferredBase(text, q);
    var end := Strtoul(text, p).end;
    if base == 8 && end < |text| {
      assert NumeralStart(text, q);
      assert OctalUpTo(text, q, end);
    }
  }

  /** What the numerals behind a numeral at `q` may cost, if that ends at `end`. */
  lemma Afford(text: CString, q: nat, end: nat)
    requires q < end <= |text| && (IsDigit(At(text, end)) ==> BrokenOctal(text, q))
    ensures (if IsDigit(At(text, end)) then 1 else 0) + Breaks(text, end) <= Breaks(text, q)
  {
    hide BrokenOctal;
    BreaksDecrease(text, q, end);
  }

  ghost function CoverSet(spans: seq<Span>, max: nat): set<nat> {
    set k: nat | k <= max && Covers(spans, k)
  }

  lemma CoverSetCons(s: Span, rest: seq<Span>, max: nat)
    requires s.last <= max
    ensures CoverSet([s] + rest, max) == Interval(s) + CoverSet(rest, max)
  {
    forall k: nat
      ensures k in CoverSet([s] + rest, max) <==> k in Interval(s) + CoverSet(rest, max)
    {
      CoversCons(s, rest, k);
    }
  }

  /** Weight of the list read from `p`, against characters and broken numerals from the first digit on. */
  ghost predicate Paid(text: CString, p: nat, r: Option<seq<Span>>, max: nat)
    requires p <= |text|
  {
    r.Some? && r.value != [] ==>
      Weight(CoverSet(r.value, max), 0, max) <= |text| - DigitStart(text, p) + 1 + Breaks(text, DigitStart(text, p))
  }

  lemma AddSpan(s: Span, r: Option<seq<Span>>, max: nat)
    requires s.first <= s.last <= max && r.Some?
    ensures Weight(CoverSet(Prepend(s, r).value, max), 0, max)
            <= SpanCost(s) + Weight(CoverSet(r.value, max), 0, max)
  {
    CoverSetCons(s, r.value, max);
    WeightOfUnion(Interval(s), CoverSet(r.value, max), 0, max);
    WeightOfInterval(s, 0, max);
  }

  lemma {:induction false} EmptyWeighsNothing(lo: nat, hi: nat)
    ensures Weight({}, lo, hi) == 0
    decreases hi + 1 - lo
  {
    if lo <= hi {
      EmptyWeighsNothing(lo + 1, hi);
    }
  }

  /** What is read behind a numeral costs at most what is behind it, and a separator if that is missing. */
  lemma {:induction false} NextItemsPaid(text: CString, q: nat, max: nat)
    requires q <= |text| && max < 10000 && (IsDigit(At(text, q)) ==> IsTooHigh(text[q]))
    requires NextItems(text, q, 0, max).Some?
    ensures Weight(CoverSet(NextItems(text, q, 0, max).value, max), 0, max)
            <= |text| - q + (if IsDigit(At(text, q)) then 1 else 0) + Breaks(text, q)
    decreases |text| - q, 2
  {
    hide Dec, Weight, Strtoul, BrokenOctal, Breaks, DigitStart;
    EmptyWeighsNothing(0, max);
    assert CoverSet([], max) == {};
    if q < |text| {
      var p := if At(text, q) == ',' then q + 1 else q;
      ItemsPaid(text, p, max);
      FirstDigit(text, q);
      FirstDigit(text, p);
      BreaksDecrease(text, q, DigitStart(text, p));
    }
  }

  lemma FirstDigit(text: CString, p: nat)
    requires p <= |text|
    ensures p <= DigitStart(text, p) <= |text|
    ensures Strtoul(text, p).end > p && !IsDigit(At(text, p)) ==> DigitStart(text, p) > p
  {
  }

  lemma {:induction false} ItemsPaid(text: CString, p: nat, max: nat)
    requires p <= |text| && max < 10000 && FreshAt(text, p)
    requires Items(text, p, 0, max).Some?
    ensures Paid(text, p, Items(text, p, 0, max), max)
    decreases |text| - p, 1
  {
    hide Dec, Weight, Strtoul, CoverSet, BrokenOctal, Breaks, DigitStart;
    if p < |text| {
      var n := Strtoul(text, p);
      NumeralIsNotShorter(text, p);
      NumeralEnds(text, p);
      Afford(text, DigitStart(text, p), n.end);
      if At(text, n.end) == '-' {
        var q := n.end + 1;
        var m := Strtoul(text, q);
        FirstDigit(text, q);
        NumeralIsNotShorter(text, q);
        NumeralEnds(text, q);
        Afford(text, DigitStart(text, q), m.end);
        BreaksDecrease(text, n.end, DigitStart(text, q));
        NextItemsPaid(text, m.end, max);
        AddSpan(Span(n.value, m.value), NextItems(text, m.end, 0, max), max);
      } else {
        NextItemsPaid(text, n.end, max);
        AddSpan(Span(n.value, n.value), NextItems(text, n.end, 0, max), max);
      }
    }
  }

  /** A printed list is longer than its text by at most one character for each broken octal numeral. */
  lemma PrintedListGrows(text: CString)
    requires Items(text, 0, 0, SYMREG_REPL_CNT_MAX - 1).Some?
    ensures |Printed(text)| <= |text| + Breaks(text, 0)
  {
    hide Dec, Weight, Strtoul, Items, BrokenOctal, Breaks, DigitStart;
    var max := SYMREG_REPL_CNT_MAX - 1;
    var r := Items(text, 0, 0, max);
    var L := CoverSet(r.value, max);
    ItemsPaid(text, 0, max);
    WeightIsPrintedLength(L, 0, max);
    FirstDigit(text, 0);
    BreaksDecrease(text, 0, DigitStart(text, 0));
    if r.value == [] {
      EmptyWeighsNothing(0, max);
      assert L == {};
    }
  }

  /** The list that a readable text stands for, as it is printed for debugging. */
  ghost function Printed(text: CString): CString
    requires Items(text, 0, 0, SYMREG_REPL_CNT_MAX - 1).Some?
  {
    var max := SYMREG_REPL_CNT_MAX - 1;
    Join(Runs(CoverSet(Items(text, 0, 0, max).value, max), 0, max), 0, true)
  }

  /** The claim made where a parsed replication list is printed, for texts without broken numerals. */
  lemma PrintedListIsNotLonger(text: CString)
    requires NoBrokenOctal(text)
    requires Items(text, 0, 0, SYMREG_REPL_CNT_MAX - 1).Some?
    ensures |Printed(text)| <= |text|
  {
    hide Printed, BrokenOctal;
    PrintedListGrows(text);
    BreaksCount(text, 0);
  }

  /** The bound is met: two characters that are read as 0 and 8 and printed with a comma. */
  lemma BrokenOctalGrows()
    ensures Items("08", 0, 0, SYMREG_REPL_CNT_MAX - 1).Some?
    ensures Printed("08") == "0,8" && Breaks("08", 0) == 1
  {
    hide Items, Strtoul, ScanDigits, Runs, RunEnd, Join, Dec;
    var max := SYMREG_REPL_CNT_MAX - 1;
    ReadBrokenOctal("08", max);
    var spans := [Span(0, 0), Span(8, 8)];
    var L := CoverSet(spans, max);
    assert forall k: nat :: Covers(spans, k) <==> k == 0 || k == 8 by {
      assert spans[0] in spans && spans[1] in spans;
    }
    PrintTwo(L, max);
    assert OctalUpTo("08", 0, 1) && IsTooHigh("08"[1]) && BrokenOctal("08", 0);
    assert !BrokenOctal("08", 1);
    assert Breaks("08", 2) == 0 && Breaks("08", 1) == 0;
  }

  lemma BrokenOctalNumerals(text: CString)
    requires |text| == 2 && text[0] == '0' && text[1] == '8'
    ensures Strtoul(text, 0) == Scan(0, 1) && Strtoul(text, 1) == Scan(8, 2)
  {
    assert ScanDigits(text, 1, 8, 0) == Scan(0, 1);
    assert Dec(8) == "8";
    assert ['0'] + Dec(8) + [] == text;
    hide ScanDigits;
    StrtoulDec(['0'], 8, []);
  }

  lemma ReadBrokenOctal(text: CString, max: nat)
    requires |text| == 2 && text[0] == '0' && text[1] == '8' && 8 <= max
    ensures Items(text, 0, 0, max) == Some([Span(0, 0), Span(8, 8)])
  {
    hide Strtoul;
    BrokenOctalNumerals(text);
    assert NextItems(text, 2, 0, max) == Items(text, 2, 0, max) == Some([]);
    assert NextItems(text, 1, 0, max) == Items(text, 1, 0, max) == Some([Span(8, 8)] + []);
    assert [Span(0, 0)] + ([Span(8, 8)] + []) == [Span(0, 0), Span(8, 8)];
  }

  lemma PrintTwo(L: set<nat>, max: nat)
    requires max > 8 && forall k: nat :: k in L <==> k == 0 || k == 8
    ensures Join(Runs(L, 0, max), 0, true) == "0,8"
  {
    assert Dec(8) == "8" && Dec(0) == "0";
    hide Dec;
    NoRunsBetween(L, 1, 8, max);
    NoRunsBetween(L, 9, max + 1, max);
    assert RunEnd(L, 0, max) == 0 && RunEnd(L, 8, max) == 8;
    assert Runs(L, 8, max) == [Span(8, 8)];
    assert Runs(L, 0, max) == [Span(0, 0)] + [Span(8, 8)];
    assert [Span(8, 8)][1..] == [] && ([Span(0, 0)] + [Span(8, 8)])[1..] == [Span(8, 8)];
    assert Join([Span(8, 8)], 0, false) == ",8";
  }

  lemma {:induction false} NoRunsBetween(L: set<nat>, i: nat, j: nat, max: nat)
    requires i <= j <= max + 1 && forall k: nat :: i <= k < j ==> k !in L
    ensures Runs(L, i, max) == Runs(L, j, max)
    decreases j - i
  {
    if i < j {
      NoRunsBetween(L, i + 1, j, max);
    }
  }
}
