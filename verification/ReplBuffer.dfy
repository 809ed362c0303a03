/**
 * Whether a printed replication list fits the buffer that is provided for it, which is as long as the
 * list that the user is expected to type.
 */
module ReplBuffer {
  import opened CText
  import opened ReplList
  import opened ReplPrint
  import opened ReplRoundTrip
  import opened ReplLength
  import opened PatternSyntax

  const MAX: nat := SYMREG_REPL_CNT_MAX - 1

  /** What the boundaries of the runs of a readable text cost. */
  ghost function TextWeight(text: CString): nat
    requires Items(text, 0, 0, MAX).Some?
  {
    Weight(CoverSet(Items(text, 0, 0, MAX).value, MAX), 0, MAX)
  }

  /** A list prints in at most `n` characters exactly if the boundaries of its runs cost no more. */
  lemma PrintsWithin(text: CString, n: nat)
    requires Items(text, 0, 0, MAX).Some?
    ensures |Printed(text)| <= n <==> TextWeight(text) <= n + 1
  {
    hide Dec, Weight, Items, Runs, CoverSet;
    var L := CoverSet(Items(text, 0, 0, MAX).value, MAX);
    assert forall k :: k in L ==> k <= MAX by { InCoverSet(Items(text, 0, 0, MAX).value); }
    WeightIsPrintedLength(L, 0, MAX);
  }

  /** A printed list is longer than its text exactly if the boundaries of its runs cost more than the text has. */
  lemma NotLongerExactly(text: CString)
    requires Items(text, 0, 0, MAX).Some?
    ensures |Printed(text)| <= |text| <==> TextWeight(text) <= |text| + 1
  {
    PrintsWithin(text, |text|);
  }

  /** When it fits the buffer. */
  lemma PrintFits(text: CString)
    requires Items(text, 0, 0, MAX).Some?
    ensures |Printed(text)| <= 32 <==> TextWeight(text) <= 33
    ensures |text| + Breaks(text, 0) <= 32 ==> |Printed(text)| <= 32
  {
    hide TextWeight, Breaks, Printed;
    PrintsWithin(text, SYMREG_REPL_LEN_MAX);
    PrintedListGrows(text);
  }

  lemma InCoverSet(spans: seq<Span>)
    ensures forall k :: k in CoverSet(spans, MAX) <==> k <= MAX && Covers(spans, k)
  {
  }

  /** A text that was printed is printed the same again, so it fits exactly if it is short enough itself. */
  lemma PrintedAgain(L: set<nat>)
    requires forall k :: k in L ==> k <= MAX
    ensures var text := Join(Runs(L, 0, MAX), 0, true);
            Items(text, 0, 0, MAX).Some? && Printed(text) == text
  {
    hide Dec, Items, Runs, Join, CoverSet;
    PrintedListReadsBack(L, 0, MAX, false);
    var r := Items(Join(Runs(L, 0, MAX), 0, true), 0, 0, MAX);
    InCoverSet(r.value);
    assert forall k: nat :: k in CoverSet(r.value, MAX) <==> k in L;
    assert CoverSet(r.value, MAX) == L;
  }

  // ---------------------------------------------------------------------------------------
  // A list that does not fit
  // ---------------------------------------------------------------------------------------

  /** The even numbers up to 32. */
  ghost function Evens(): set<nat> {
    set k: nat | k <= 32 && k % 2 == 0
  }

  lemma {:induction false} EvensWeigh(i: nat)
    requires i <= 34 && i % 2 == 0
    ensures 34 - i <= Weight(Evens(), i, MAX) <= 3 * (34 - i) / 2
    decreases 34 - i
  {
    hide Dec;
    if i == 34 {
      NothingBehind(Evens(), i);
    } else {
      EvensWeigh(i + 2);
      DecLength(i);
      assert Weight(Evens(), i, MAX) == Cost(Evens(), i) + (Cost(Evens(), i + 1) + Weight(Evens(), i + 2, MAX));
    }
  }

  lemma {:induction false} NothingBehind(L: set<nat>, i: nat)
    requires forall k: nat :: k >= i ==> k !in L
    ensures Weight(L, i, MAX) == 0
    decreases MAX + 1 - i
  {
    hide Dec;
    if i <= MAX {
      NothingBehind(L, i + 1);
    }
  }

  predicate ListChar(c: char) {
    IsDigit(c) || c == ',' || c == '-'
  }

  lemma {:induction false} JoinChars(spans: seq<Span>, first: bool)
    ensures forall c :: c in Join(spans, 0, first) ==> ListChar(c)
    decreases |spans|
  {
    hide Dec;
    if spans != [] {
      JoinChars(spans[1..], false);
    }
  }

  lemma Bracketed(list: CString) returns (c: CString)
    requires forall x :: x in list ==> ListChar(x)
    ensures c == "R[" + list + "]" && Listed(c, 1) && ListText(c, 1) == list
  {
    c := "R[" + list + "]";
    assert c[..1] == "R" && c[2..|c| - 1] == list;
    assert forall i :: 0 <= i < |list| ==> list[i] in list;
  }

  /** A component that is accepted, with a list that prints unchanged and needs more room than the buffer has. */
  lemma LongListAccepted() returns (c: CString, list: CString)
    ensures c == "R[" + list + "]" && |c| <= COMPONENT_LEN_MAX && ComponentRc(c) == PatOk
    ensures Items(list, 0, 0, MAX).Some? && Printed(list) == list && |list| > SYMREG_REPL_LEN_MAX
  {
    hide Dec, Items, Runs, Join, Weight, Printed, ComponentRc, ListText, NoBrackets;
    list := Join(Runs(Evens(), 0, MAX), 0, true);
    JoinChars(Runs(Evens(), 0, MAX), true);
    PrintedAgain(Evens());
    EvensWeigh(0);
    WeightIsPrintedLength(Evens(), 0, MAX);
    LeadLength(Runs(Evens(), 0, MAX));
    c := Bracketed(list);
    AcceptedIsWellFormed(c);
    assert Listed(c, 1) && Items(ListText(c, 1), 0, 0, MAX).Some?;
  }

  lemma LeadLength(spans: seq<Span>)
    ensures |Join(spans, 0, false)| == |Join(spans, 0, true)| + if spans == [] then 0 else 1
  {
    hide Dec;
  }
}
