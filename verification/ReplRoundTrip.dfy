/** Reading a printed list gives the list back. */
module ReplRoundTrip {
  import opened CText
  import opened ReplList
  import opened ReplPrint

  ghost predicate InRange(spans: seq<Span>, shift: nat, min: nat, max: nat) {
    forall s :: s in spans ==> min <= s.first + shift <= s.last + shift <= max
  }

  /** `r` is a list that covers the numbers of `spans`, shifted. */
  ghost predicate Reads(r: Option<seq<Span>>, spans: seq<Span>, shift: nat) {
    r.Some? && forall k: int :: Covers(r.value, k) <==> Covers(spans, k - shift)
  }

  lemma ReadsOne(r: Option<seq<Span>>, rest: seq<Span>, s: Span, shift: nat)
    requires Reads(r, rest, shift)
    ensures Reads(Prepend(Span(s.first + shift, s.last + shift), r), [s] + rest, shift)
  {
    var t := Span(s.first + shift, s.last + shift);
    forall k: int
      ensures Covers([t] + r.value, k) <==> Covers([s] + rest, k - shift)
    {
      CoversCons(t, r.value, k);
      CoversCons(s, rest, k - shift);
    }
  }

  lemma ReadsPair(r: Option<seq<Span>>, rest: seq<Span>, s: Span, shift: nat)
    requires Reads(r, rest, shift) && s.last == s.first + 1
    ensures Reads(Prepend(Span(s.first + shift, s.first + shift), Prepend(Span(s.last + shift, s.last + shift), r)),
                  [s] + rest, shift)
  {
    var a, b := Span(s.first + shift, s.first + shift), Span(s.last + shift, s.last + shift);
    forall k: int
      ensures Covers([a] + ([b] + r.value), k) <==> Covers([s] + rest, k - shift)
    {
      CoversCons(a, [b] + r.value, k);
      CoversCons(b, r.value, k);
      CoversCons(s, rest, k - shift);
    }
  }

  /** The separators that may follow a printed number. */
  lemma TailStart(spans: seq<Span>, shift: nat)
    ensures var tail := Join(spans, shift, false);
            if spans == [] then tail == ""
            else tail[0] == ',' && tail[1..] == Join(spans, shift, true) && Join(spans, shift, true) != []
  {
    hide Dec, Closing;
  }

  /** The number at the start of a printed run is read as such, and reading goes on behind it. */
  lemma FirstNumber(before: CString, n: nat, after: CString, min: nat, max: nat)
    requires min <= n <= max < UINT32_MODULUS
    requires after == [] || after[0] == ',' || after[0] == '-'
    ensures var text := before + Dec(n) + after;
            var q := |before + Dec(n)|;
            Items(text, |before|, min, max) ==
            if After(after) == '-' then AfterDash(text, n, q + 1, min, max)
            else Prepend(Span(n, n), NextItems(text, q, min, max))
  {
    hide Dec, Strtoul;
    StrtoulDec(before, n, after);
  }

  function After(after: CString): char {
    At(after, 0)
  }

  lemma LastNumber(before: CString, start: nat, n: nat, after: CString, min: nat, max: nat)
    requires min <= start <= n <= max < UINT32_MODULUS
    requires after == [] || after[0] == ','
    ensures AfterDash(before + Dec(n) + after, start, |before|, min, max) ==
            Prepend(Span(start, n), NextItems(before + Dec(n) + after, |before + Dec(n)|, min, max))
  {
    hide Dec, Strtoul;
    StrtoulDec(before, n, after);
  }

  lemma {:induction false} JoinParses(before: CString, spans: seq<Span>, shift: nat, min: nat, max: nat)
    requires InRange(spans, shift, min, max) && max < UINT32_MODULUS
    ensures Reads(Items(before + Join(spans, shift, true), |before|, min, max), spans, shift)
    decreases |spans|, 1
  {
    hide Dec, Strtoul;
    if spans != [] {
      var s, rest := spans[0], spans[1..];
      assert s in spans && spans == [s] + rest;
      assert s.last >= s.first;
      if s.last == s.first {
        SingleParses(before, s, rest, shift, min, max);
      } else if s.last == s.first + 1 {
        PairParses(before, s, rest, shift, min, max);
      } else {
        RangeParses(before, s, rest, shift, min, max);
      }
    }
  }

  lemma {:induction false} SingleParses(before: CString, s: Span, rest: seq<Span>, shift: nat, min: nat, max: nat)
    requires InRange([s] + rest, shift, min, max) && max < UINT32_MODULUS && s.first == s.last
    ensures Reads(Items(before + Join([s] + rest, shift, true), |before|, min, max), [s] + rest, shift)
    decreases |rest|, 3
  {
    hide Dec, Strtoul, Items, Reads, AfterDash, NextItems, Join, RunText, Closing;
    var a := s.first + shift;
    var tail := Join(rest, shift, false);
    TailStart(rest, shift);
    Member0(s, rest);
    SingleShape(before, s, rest, shift);
    FirstNumber(before, a, tail, min, max);
    TailParses(before + Dec(a), rest, shift, min, max);
    ReadsOne(NextItems(before + Dec(a) + tail, |before + Dec(a)|, min, max), rest, s, shift);
  }

  lemma {:induction false} PairParses(before: CString, s: Span, rest: seq<Span>, shift: nat, min: nat, max: nat)
    requires InRange([s] + rest, shift, min, max) && max < UINT32_MODULUS && s.last == s.first + 1
    ensures Reads(Items(before + Join([s] + rest, shift, true), |before|, min, max), [s] + rest, shift)
    decreases |rest|, 3
  {
    hide Dec, Strtoul, Items, Reads, AfterDash, Join, RunText, Closing;
    var a, b := s.first + shift, s.last + shift;
    var tail := Join(rest, shift, false);
    TailStart(rest, shift);
    Member0(s, rest);
    var start := before + Dec(a) + ",";
    var text := start + Dec(b) + tail;
    TwoNumberShape(before, s, rest, shift, ",");
    FirstNumber(before, a, "," + Dec(b) + tail, min, max);
    assert text[|before + Dec(a)|] == ',';
    FirstNumber(start, b, tail, min, max);
    TailParses(start + Dec(b), rest, shift, min, max);
    ReadsPair(NextItems(text, |start + Dec(b)|, min, max), rest, s, shift);
  }

  lemma {:induction false} RangeParses(before: CString, s: Span, rest: seq<Span>, shift: nat, min: nat, max: nat)
    requires InRange([s] + rest, shift, min, max) && max < UINT32_MODULUS && s.last > s.first + 1
    ensures Reads(Items(before + Join([s] + rest, shift, true), |before|, min, max), [s] + rest, shift)
    decreases |rest|, 3
  {
    hide Dec, Strtoul, Items, Reads, AfterDash, NextItems, Join, RunText, Closing;
    var a, b := s.first + shift, s.last + shift;
    var tail := Join(rest, shift, false);
    TailStart(rest, shift);
    Member0(s, rest);
    var start := before + Dec(a) + "-";
    var text := start + Dec(b) + tail;
    TwoNumberShape(before, s, rest, shift, "-");
    FirstNumber(before, a, "-" + Dec(b) + tail, min, max);
    LastNumber(start, a, b, tail, min, max);
    TailParses(start + Dec(b), rest, shift, min, max);
    ReadsOne(NextItems(text, |start + Dec(b)|, min, max), rest, s, shift);
  }

  lemma SingleShape(before: CString, s: Span, rest: seq<Span>, shift: nat)
    requires s.last == s.first
    ensures before + Join([s] + rest, shift, true) == before + Dec(s.first + shift) + Join(rest, shift, false)
  {
    hide Dec;
    var number, tail := Dec(s.first + shift), Join(rest, shift, false);
    assert ([s] + rest)[1..] == rest;
    assert Join([s] + rest, shift, true) == number + tail;
    assert before + (number + tail) == before + number + tail;
  }

  lemma TwoNumberShape(before: CString, s: Span, rest: seq<Span>, shift: nat, separator: CString)
    requires s.last > s.first
    requires separator == if s.last == s.first + 1 then "," else "-"
    ensures var a, b, tail := Dec(s.first + shift), Dec(s.last + shift), Join(rest, shift, false);
            && before + Join([s] + rest, shift, true) == before + a + (separator + b + tail)
            && before + Join([s] + rest, shift, true) == before + a + separator + b + tail
            && |separator + b + tail| > 0 && (separator + b + tail)[0] == separator[0]
  {
    hide Dec;
    var a, b, tail := Dec(s.first + shift), Dec(s.last + shift), Join(rest, shift, false);
    assert ([s] + rest)[1..] == rest;
    assert Join([s] + rest, shift, true) == [] + (a + (separator + b) + tail);
    RegroupPair(before, a, separator, b, tail);
  }

  lemma RegroupPair(before: CString, a: CString, separator: CString, b: CString, tail: CString)
    ensures before + ([] + (a + (separator + b) + tail)) == before + a + (separator + b + tail)
    ensures before + a + (separator + b + tail) == before + a + separator + b + tail
  {
  }

  lemma Member0(s: Span, rest: seq<Span>)
    ensures s in [s] + rest && ([s] + rest)[1..] == rest
    ensures forall t :: t in rest ==> t in [s] + rest
  {
  }

  lemma {:induction false} TailParses(before: CString, spans: seq<Span>, shift: nat, min: nat, max: nat)
    requires InRange(spans, shift, min, max) && max < UINT32_MODULUS
    ensures Reads(NextItems(before + Join(spans, shift, false), |before|, min, max), spans, shift)
    decreases |spans|, 2
  {
    hide Dec, Strtoul;
    TailStart(spans, shift);
    var tail := Join(spans, shift, false);
    if spans != [] {
      assert before + tail == (before + ",") + Join(spans, shift, true);
      JoinParses(before + ",", spans, shift, min, max);
    }
  }

  /**
   * Printing a list and reading the text gives the list back, for every set of members; with
   * one-based printing, every member comes back one higher.
   */
  lemma PrintedListReadsBack(L: set<nat>, min: nat, max: nat, oneBased: bool)
    requires max + Shift(oneBased) < UINT32_MODULUS
    ensures var text := Join(Runs(L, min, max), Shift(oneBased), true);
            var r := Items(text, 0, min + Shift(oneBased), max + Shift(oneBased));
            r.Some? && forall k: int :: Covers(r.value, k) <==>
                                        min <= k - Shift(oneBased) <= max && k - Shift(oneBased) in L
  {
    hide Dec, Strtoul, Items, Join, Runs;
    var shift := Shift(oneBased);
    var text := Join(Runs(L, min, max), shift, true);
    assert [] + text == text;
    JoinParses([], Runs(L, min, max), shift, min + shift, max + shift);
    var r := Items(text, 0, min + shift, max + shift);
    forall k: int
      ensures Covers(r.value, k) <==> min <= k - shift <= max && k - shift in L
    {
      assert Covers(r.value, k) <==> Covers(Runs(L, min, max), k - shift);
      if k >= shift {
        RunsCover(L, min, max, k - shift);
      }
    }
  }

  /** The same for the two procedures: `copy` becomes a second list with the same members. */
  method PrintAndRead(list: array<bv8>, copy: array<bv8>, min: nat, max: nat, bf: bool) returns (rc: Rc)
    requires max < UINT32_MODULUS - 1 && list != copy
    requires Room(list.Length, max, bf) && Room(copy.Length, max, bf)
    modifies copy
    ensures rc == Ok
    ensures Contents(copy[..], min, max, bf) == Contents(list[..], min, max, bf)
  {
    hide Dec, Strtoul, Items, Join, Runs, Member;
    var text := List2Txt(list, min, max, bf, false);
    rc := Txt2ListBf(Some(text), copy, min, max, false, bf);
    PrintedListReadsBack(Contents(list[..], min, max, bf), min, max, false);
  }

  /** What a list may not be: a number out of bounds, a comma or a dash at the end, or a range that runs backwards. */
  lemma BadLists(text: CString, a: nat, b: nat, after: CString, min: nat, max: nat)
    requires a < UINT32_MODULUS && b < UINT32_MODULUS && max < UINT32_MODULUS && text == Dec(a) + after
    requires after == "" || after == "," || after == "-" || after == "-" + Dec(b)
    ensures a < min || a > max ==> Items(text, 0, min, max) == None
    ensures after == "," || after == "-" ==> Items(text, 0, min, max) == None
    ensures after == "-" + Dec(b) && (b < a || b > max) ==> Items(text, 0, min, max) == None
  {
    hide Dec, Strtoul, NextItems;
    assert [] + Dec(a) + after == text && [] + Dec(a) == Dec(a);
    StrtoulDec([], a, after);
    if min <= a <= max {
      FirstNumber([], a, after, min, max);
      if after == "," {
        assert At(text, |Dec(a)|) == ',';
        CommaAtEnd(text, |Dec(a)|, min, max);
      } else if after == "-" + Dec(b) {
        var before := Dec(a) + "-";
        assert before + Dec(b) + [] == text;
        StrtoulDec(before, b, []);
      }
    }
  }

  lemma CommaAtEnd(text: CString, p: nat, min: nat, max: nat)
    requires p + 1 == |text| && text[p] == ','
    ensures NextItems(text, p, min, max) == None
  {
  }
}
