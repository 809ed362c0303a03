/** Printing a list: the maximal runs of its members, each as one number, a pair or a range. */
module ReplPrint {
  import opened CText
  import opened ReplList

  // ---------------------------------------------------------------------------------------
  // Maximal runs
  // ---------------------------------------------------------------------------------------

  ghost function RunEnd(L: set<nat>, i: nat, max: nat): (e: nat)
    requires i <= max
    ensures i <= e <= max
    ensures forall k: nat :: i < k <= e ==> k in L
    ensures e < max ==> e + 1 !in L
    decreases max - i
  {
    if i < max && i + 1 in L then RunEnd(L, i + 1, max) else i
  }

  /** The maximal runs of L within [i, max], in ascending order. */
  ghost function Runs(L: set<nat>, i: nat, max: nat): (r: seq<Span>)
    ensures forall s :: s in r ==> i <= s.first <= s.last <= max
    decreases max + 1 - i
  {
    if i > max then []
    else if i !in L then Runs(L, i + 1, max)
    else [Span(i, RunEnd(L, i, max))] + Runs(L, RunEnd(L, i, max) + 1, max)
  }

  lemma {:induction false} RunsCover(L: set<nat>, i: nat, max: nat, k: nat)
    ensures Covers(Runs(L, i, max), k) <==> k in L && i <= k <= max
    decreases max + 1 - i
  {
    if i <= max {
      var e := if i in L then RunEnd(L, i, max) else i;
      RunsCover(L, e + 1, max, k);
      if i in L {
        CoversCons(Span(i, e), Runs(L, e + 1, max), k);
      }
    }
  }

  lemma CoversCons(s: Span, spans: seq<Span>, k: int)
    ensures Covers([s] + spans, k) <==> s.first <= k <= s.last || Covers(spans, k)
  {
    assert s in [s] + spans;
    if Covers(spans, k) {
      var d :| d in spans && d.first <= k <= d.last;
      assert d in [s] + spans;
    }
  }

  // ---------------------------------------------------------------------------------------
  // List to text
  // ---------------------------------------------------------------------------------------

  /** What follows the first number of a run. */
  function Closing(s: Span, shift: nat): CString {
    if s.last == s.first then ""
    else (if s.last == s.first + 1 then "," else "-") + Dec(s.last + shift)
  }

  function RunText(s: Span, shift: nat): CString {
    Dec(s.first + shift) + Closing(s, shift)
  }

  function Lead(first: bool): CString {
    if first then "" else ","
  }

  /** The text of a list of runs, with every number shifted by `shift`. */
  function Join(spans: seq<Span>, shift: nat, first: bool): CString
  {
    if spans == [] then ""
    else Lead(first) + (RunText(spans[0], shift) + Join(spans[1..], shift, false))
  }

  /** A run is printed as one number, a pair or a range; runs are separated by commas. */
  lemma JoinMeans(s: Span, rest: seq<Span>, shift: nat)
    ensures Join([], shift, true) == ""
    ensures var run := if s.last == s.first then Dec(s.first + shift)
                       else if s.last == s.first + 1 then Dec(s.first + shift) + "," + Dec(s.last + shift)
                       else Dec(s.first + shift) + "-" + Dec(s.last + shift);
            Join([s] + rest, shift, true) == if rest == [] then run else run + "," + Join(rest, shift, true)
  {
    hide Dec;
    assert ([s] + rest)[1..] == rest && ([s] + rest)[0] == s;
    if rest != [] {
      assert Join(rest, shift, false) == "," + Join(rest, shift, true);
    }
  }

  lemma RunsStep(L: set<nat>, i: nat, max: nat)
    ensures Runs(L, i, max) == if i > max then []
                               else if i !in L then Runs(L, i + 1, max)
                               else [Span(i, RunEnd(L, i, max))] + Runs(L, RunEnd(L, i, max) + 1, max)
  {
  }

  lemma ApartBefore(s: Span, rest: seq<Span>)
    requires forall j, k :: 0 <= j < k < |rest| ==> rest[j].last + 1 < rest[k].first
    requires forall t :: t in rest ==> s.last + 1 < t.first
    ensures var r := [s] + rest; forall j, k :: 0 <= j < k < |r| ==> r[j].last + 1 < r[k].first
  {
  }

  /** Runs are as long as possible: between two of them a number is missing. */
  lemma {:induction false} RunsAreApart(L: set<nat>, i: nat, max: nat)
    ensures var r := Runs(L, i, max);
            && (forall s :: s in r ==> s.first in L)
            && (forall j, k :: 0 <= j < k < |r| ==> r[j].last + 1 < r[k].first)
    decreases max + 1 - i
  {
    hide Runs, RunEnd;
    RunsStep(L, i, max);
    if i <= max {
      var e := if i in L then RunEnd(L, i, max) else i;
      RunsAreApart(L, e + 1, max);
      if i in L {
        var rest := Runs(L, e + 1, max);
        forall t | t in rest
          ensures e + 1 < t.first
        {
          assert t.first in L && e + 1 <= t.first <= max;
        }
        ApartBefore(Span(i, e), rest);
      }
    }
  }

  /** What the loop at `i` still has to print when the run it is in has `count` members so far. */
  ghost function ToPrint(L: set<nat>, i: nat, max: nat, count: nat, first: bool, shift: nat): CString
    requires count <= i
  {
    if i > max then ""
    else if count == 0 then Join(Runs(L, i, max), shift, first)
    else
      var e := RunEnd(L, i - 1, max);
      Closing(Span(i - count, e), shift) + Join(Runs(L, e + 1, max), shift, false)
  }

  ghost function Shift(oneBased: bool): nat {
    if oneBased then 1 else 0
  }

  /** What the loop prints at `i`. */
  function Piece(i: nat, max: nat, member: bool, count: nat, first: bool, shift: nat): CString
    requires count <= i
  {
    if (member && (count == 0 || i == max)) || (!member && count > 1)
    then (if first then "" else if count > (if member then 1 else 2) then "-" else ",")
         + Dec((if member then i else i - 1) + shift)
    else ""
  }

  lemma RegroupRun(a: CString, b: CString, c: CString, d: CString)
    ensures a + (b + c + d) == a + b + (c + d)
  {
  }

  lemma StepOpensRun(L: set<nat>, i: nat, max: nat, first: bool, shift: nat)
    requires i <= max && i in L
    ensures ToPrint(L, i, max, 0, first, shift)
            == Piece(i, max, true, 0, first, shift) + ToPrint(L, i + 1, max, 1, false, shift)
  {
    hide Dec, Join, RunEnd;
    var s := Span(i, RunEnd(L, i, max));
    var rest := Runs(L, s.last + 1, max);
    assert Runs(L, i, max) == [s] + rest;
    JoinCons(s, rest, shift, first);
    RegroupRun(Lead(first), Dec(i + shift), Closing(s, shift), Join(rest, shift, false));
    if i == max {
      JoinNothing(shift, false);
    }
  }

  lemma JoinCons(s: Span, rest: seq<Span>, shift: nat, first: bool)
    ensures Join([s] + rest, shift, first)
            == Lead(first) + (Dec(s.first + shift) + Closing(s, shift) + Join(rest, shift, false))
  {
    hide Dec, Closing;
    assert ([s] + rest)[1..] == rest;
  }

  lemma StepInsideRun(L: set<nat>, i: nat, max: nat, count: nat, shift: nat)
    requires i <= max && i in L && 0 < count <= i
    ensures ToPrint(L, i, max, count, false, shift)
            == Piece(i, max, true, count, false, shift) + ToPrint(L, i + 1, max, count + 1, false, shift)
  {
    hide Dec, Join;
    assert RunEnd(L, i - 1, max) == RunEnd(L, i, max);
    if i == max {
      assert Runs(L, max + 1, max) == [] && Join([], shift, false) == "" by { JoinNothing(shift, false); }
    }
  }

  lemma JoinNothing(shift: nat, first: bool)
    ensures Join([], shift, first) == ""
  {
  }

  lemma StepAtNonMember(L: set<nat>, i: nat, max: nat, count: nat, first: bool, shift: nat)
    requires i <= max && i !in L && count <= i && (count > 0 ==> !first)
    ensures ToPrint(L, i, max, count, first, shift)
            == Piece(i, max, false, count, first, shift) + ToPrint(L, i + 1, max, 0, first, shift)
  {
    hide Dec, Join;
    assert Runs(L, i, max) == Runs(L, i + 1, max);
    if i == max {
      assert Runs(L, max + 1, max) == [];
      JoinNothing(shift, first);
      JoinNothing(shift, false);
    }
    if count > 0 {
      assert RunEnd(L, i - 1, max) == i - 1;
    }
  }

  lemma Step(buf: CString, L: set<nat>, i: nat, max: nat, count: nat, first: bool, shift: nat)
    requires i <= max && count <= i && (count > 0 ==> !first)
    ensures var piece := Piece(i, max, i in L, count, first, shift);
            buf + ToPrint(L, i, max, count, first, shift) ==
            buf + piece + ToPrint(L, i + 1, max, if i in L then count + 1 else 0, first && piece == "", shift)
  {
    hide ToPrint;
    var piece := Piece(i, max, i in L, count, first, shift);
    var left := ToPrint(L, i + 1, max, if i in L then count + 1 else 0, first && piece == "", shift);
    if i in L && count == 0 {
      StepOpensRun(L, i, max, first, shift);
    } else if i in L {
      StepInsideRun(L, i, max, count, shift);
    } else {
      StepAtNonMember(L, i, max, count, first, shift);
    }
    assert buf + (piece + left) == buf + piece + left;
  }

  method List2Txt(list: array<bv8>, min: nat, max: nat, bf: bool, oneBased: bool) returns (buf: CString)
    requires Room(list.Length, max, bf)
    ensures buf == Join(Runs(Contents(list[..], min, max, bf), min, max), Shift(oneBased), true)
  {
    hide Dec, Join, Runs, RunEnd, ToPrint, Member;
    ghost var L := Contents(list[..], min, max, bf);
    ghost var shift := Shift(oneBased);
    ghost var goal := Join(Runs(L, min, max), shift, true);
    buf := "";
    var i, count := min, 0;
    var first := true;
    ToPrintStart(L, min, max, shift);
    while i <= max
      invariant 0 <= count <= i && min <= i && (count > 0 ==> !first)
      invariant goal == buf + ToPrint(L, i, max, count, first, shift)
      invariant i > max ==> ToPrint(L, i, max, count, first, shift) == ""
      decreases max + 1 - i
    {
      var member := Member(list[..], i, bf);
      Step(buf, L, i, max, count, first, shift);
      if (member && (count == 0 || i == max)) || (!member && count > 1) {
        var separator: CString := if first then "" else if count > (if member then 1 else 2) then "-" else ",";
        var number := if oneBased then (if member then i + 1 else i) else (if member then i else i - 1);
        buf := buf + (separator + Dec(number));
        first := false;
      }
      count := if member then count + 1 else 0;
      i := i + 1;
      ToPrintEnd(L, i, max, count, first, shift);
    }
  }

  lemma ToPrintStart(L: set<nat>, min: nat, max: nat, shift: nat)
    ensures ToPrint(L, min, max, 0, true, shift) == Join(Runs(L, min, max), shift, true)
    ensures min > max ==> ToPrint(L, min, max, 0, true, shift) == ""
  {
  }

  lemma ToPrintEnd(L: set<nat>, i: nat, max: nat, count: nat, first: bool, shift: nat)
    requires count <= i
    ensures i > max ==> ToPrint(L, i, max, count, first, shift) == ""
  {
  }
}
