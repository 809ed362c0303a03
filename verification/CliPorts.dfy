/**
 * Port lists of the CLI: printed and parsed like replication lists, with ports counted from one
 * and a word for the empty list.
 */
module CliPorts {
  import opened CText
  import opened ReplList
  import opened ReplPrint
  import opened ReplRoundTrip

  ghost predicate AnyPort(L: set<nat>, cnt: nat) {
    exists k: nat :: k in L && k < cnt
  }

  /** The ports of `L` below the port count as text. */
  ghost function ListText(L: set<nat>, cnt: nat): CString {
    if AnyPort(L, cnt) then Join(Runs(L, 0, cnt - 1), 1, true) else "None"
  }

  method PortListTxt(list: array<bv8>, cnt: nat) returns (buf: CString)
    requires cnt > 0 && Room(list.Length, cnt - 1, true)
    ensures buf == ListText(Contents(list[..], 0, cnt - 1, true), cnt)
    ensures buf == "None" <==> forall k: nat :: k < cnt ==> !Member(list[..], k, true)
  {
    hide Dec, Member;
    buf := List2Txt(list, 0, cnt - 1, true, true);
    NothingPrinted(Contents(list[..], 0, cnt - 1, true), cnt);
    StartsWithDigit(Runs(Contents(list[..], 0, cnt - 1, true), 0, cnt - 1));
    assert forall k: nat :: k < cnt ==> (k in Contents(list[..], 0, cnt - 1, true) <==> Member(list[..], k, true));
    if buf == "" {
      buf := "None";
    }
  }

  lemma StartsWithDigit(spans: seq<Span>)
    ensures spans != [] ==> Join(spans, 1, true) != "" && IsDigit(Join(spans, 1, true)[0])
  {
    hide Dec;
    if spans != [] {
      var d := Dec(spans[0].first + 1);
      assert d[0] in d;
      assert Join(spans, 1, true)[0] == d[0];
    }
  }

  lemma NothingPrinted(L: set<nat>, cnt: nat)
    requires cnt > 0
    ensures Join(Runs(L, 0, cnt - 1), 1, true) == "" <==> !AnyPort(L, cnt)
  {
    hide Dec, Runs;
    var spans := Runs(L, 0, cnt - 1);
    if k: nat :| k in L && k < cnt {
      RunsCover(L, 0, cnt - 1, k);
    }
    if spans != [] {
      assert spans[0] in spans;
      RunsCover(L, 0, cnt - 1, spans[0].first);
    }
  }

  /** A printed port list is read back, one-based, exactly if it is not empty. */
  lemma CliPortsRoundTrip(L: set<nat>, cnt: nat)
    requires 0 < cnt < UINT32_MODULUS
    ensures var r := Items(ListText(L, cnt), 0, 1, cnt);
            && (r.Some? <==> AnyPort(L, cnt))
            && (r.Some? ==> forall k: int :: Covers(r.value, k) <==> 1 <= k <= cnt && k - 1 in L)
  {
    hide Dec, Join, Runs, Items;
    if AnyPort(L, cnt) {
      PrintedListReadsBack(L, 0, cnt - 1, true);
    } else {
      NoneIsNoList(cnt);
    }
  }

  lemma NoneIsNoList(cnt: nat)
    ensures Items("None", 0, 1, cnt) == None
  {
    var s: CString := "None";
    assert SkipSpace(s, 0) == 0;
    assert DigitStart(s, 0) == 0 && InferredBase(s, 0) == 10;
    assert ScanDigits(s, 0, 10, 0) == Scan(0, 0);
  }
}
