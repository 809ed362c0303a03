/** Port lists in JSON strings: decimal port numbers separated by commas. */
module JsonPorts {
  import opened CText
  import opened ReplList
  import opened Sequences

  // The ports a text adds to a list, and whether it is rejected after that.
  datatype Ports = Ports(ports: set<nat>, error: bool)

  /**
   * What the text from offset `p` on means for lists of `n` ports, if the number in front of `p` is
   * `acc` so far: tokens of digits, each followed by a comma or the end. The last one may be missing.
   */
  function Tokens(text: CString, p: nat, acc: nat, started: bool, n: nat): Ports
    requires p <= |text|
    decreases |text| - p
  {
    var token := ScanDigits(text, p, 10, acc);
    var port := Wrap(token.value);
    var last := token.end == |text|;
    if !started && token.end == p then Ports({}, !last)
    else if port >= n || (!last && text[token.end] != ',') then Ports({}, true)
    else if last then Ports({port}, false)
    else
      var more := Tokens(text, token.end + 1, 0, false, n);
      Ports({port} + more.ports, more.error)
  }

  function ParsePorts(text: CString, n: nat): Ports {
    Tokens(text, 0, 0, false, n)
  }

  /** The low 32 bits. */
  function Wrap(n: nat): (r: nat)
    ensures r < UINT32_MODULUS
  {
    n % UINT32_MODULUS
  }

  lemma {:induction false} ScanWraps(s: CString, p: nat, acc: nat)
    requires p <= |s|
    ensures var one, two := ScanDigits(s, p, 10, acc), ScanDigits(s, p, 10, Wrap(acc));
            one.end == two.end && Wrap(one.value) == Wrap(two.value)
    decreases |s| - p
  {
    hide Wrap;
    if p < |s| && DigitValue(s[p]) < 10 {
      var v := DigitValue(s[p]);
      ScanWraps(s, p + 1, acc * 10 + v);
      ScanWraps(s, p + 1, Wrap(acc) * 10 + v);
      WrapDigit(acc, v);
    } else {
      WrapDigit(acc, 0);
    }
  }

  lemma WrapDigit(acc: nat, v: nat)
    ensures Wrap(acc * 10 + v) == Wrap(Wrap(acc) * 10 + v)
    ensures Wrap(Wrap(acc)) == Wrap(acc)
  {
    var q := acc / UINT32_MODULUS;
    assert acc * 10 + v == Wrap(acc) * 10 + v + 10 * q * UINT32_MODULUS;
    SameRemainder(Wrap(acc) * 10 + v, 10 * q);
  }

  lemma SameRemainder(r: nat, q: nat)
    ensures (r + q * UINT32_MODULUS) % UINT32_MODULUS == r % UINT32_MODULUS
  {
  }

  /** One digit later, with 32-bit arithmetic, the meaning is the same. */
  lemma DigitRead(text: CString, p: nat, acc: nat, started: bool, n: nat)
    requires p < |text| && IsDigit(text[p])
    ensures Tokens(text, p, acc, started, n)
            == Tokens(text, p + 1, Wrap(acc * 10 + DigitValue(text[p])), true, n)
  {
    hide Wrap;
    ScanWraps(text, p + 1, acc * 10 + DigitValue(text[p]));
  }

  /** What the token in front of `p` means once no digit follows. */
  lemma TokenEnds(text: CString, p: nat, acc: nat, started: bool, n: nat)
    requires p <= |text| && acc < UINT32_MODULUS
    ensures !IsDigit(At(text, p)) ==>
              Tokens(text, p, acc, started, n) ==
              if !started then Ports({}, p < |text|)
              else if acc >= n || (p < |text| && text[p] != ',') then Ports({}, true)
              else if p == |text| then Ports({acc}, false)
              else Then(acc, Tokens(text, p + 1, 0, false, n))
  {
  }

  function Then(port: nat, more: Ports): Ports {
    Ports({port} + more.ports, more.error)
  }

  lemma Added(was: seq<bv8>, now: seq<bv8>, i: nat, n: nat)
    requires |was| == |now| > 0 && n == 8 * |now| && i < n
    requires forall k: nat :: k <= n - 1 ==> (Member(now, k, true) <==> k == i || Member(was, k, true))
    ensures Contents(now, 0, n - 1, true) == Contents(was, 0, n - 1, true) + {i}
  {
    hide Member;
  }

  method Str2PortList(text: CString, list: array<bv8>) returns (error: bool)
    requires list.Length > 0
    modifies list
    ensures var n := 8 * list.Length;
            var ports := ParsePorts(text, n);
            error == ports.error && Contents(list[..], 0, n - 1, true) == ports.ports
  {
    hide Member, ScanDigits, Tokens;
    ghost var n := 8 * list.Length;
    ghost var done: set<nat> := {};
    FillMembers(list, 0, 8 * list.Length - 1, false, true);
    var port: nat, started: bool := 0, false;
    var p := 0;
    error := false;
    while !error
      invariant p <= |text| && port < UINT32_MODULUS && list.Length == n / 8 && (!started ==> port == 0)
      invariant Contents(list[..], 0, n - 1, true) == done
      invariant ParsePorts(text, n) == (if error then Ports(done, true) else
                  var more := Tokens(text, p, port, started, n); Ports(done + more.ports, more.error))
      decreases |text| - p, !error
    {
      TokenEnds(text, p, port, started, n);
      if IsDigit(At(text, p)) {
        DigitRead(text, p, port, started, n);
        port := Wrap(port * 10 + DigitValue(text[p]));
        started := true;
      } else if At(text, p) == ',' || p == |text| {
        if started {
          if port < 8 * list.Length {
            ghost var was := list[..];
            SetMember(list, port, 8 * list.Length - 1, true);
            Added(was, list[..], port, n);
            done := done + {port};
            port, started := 0, false;
          } else {
            error := true;
          }
        } else if p < |text| {
          error := true;
        }
        if p == |text| {
          break;
        }
      } else {
        error := true;
      }
      p := p + 1;
    }
  }

  // ---------------------------------------------------------------------------------------
  // Printing
  // ---------------------------------------------------------------------------------------

  /** The members of a list from `i` on, in ascending order. */
  ghost function Members(L: set<nat>, i: nat, n: nat): (ks: seq<nat>)
    requires i <= n
    ensures forall k: nat :: k in ks <==> k in L && i <= k < n
    decreases n - i
  {
    if i == n then [] else (if i in L then [i] else []) + Members(L, i + 1, n)
  }

  function PortText(ks: seq<nat>): CString {
    if ks == [] then "" else Dec(ks[0]) + PortTail(ks[1..])
  }

  function PortTail(ks: seq<nat>): CString {
    if ks == [] then "" else "," + (Dec(ks[0]) + PortTail(ks[1..]))
  }

  /** Numbers with commas between them. */
  lemma PortTextMeans(k: nat, more: seq<nat>)
    ensures PortText([]) == ""
    ensures PortText([k] + more) == if more == [] then Dec(k) else Dec(k) + "," + PortText(more)
  {
    hide Dec;
    assert ([k] + more)[1..] == more && ([k] + more)[0] == k;
  }

  function Left(ks: seq<nat>, first: bool): CString {
    if first then PortText(ks) else PortTail(ks)
  }

  lemma LeftStep(L: set<nat>, i: nat, n: nat, first: bool)
    requires i < n
    ensures Left(Members(L, i, n), first) ==
            if i !in L then Left(Members(L, i + 1, n), first)
            else (if first then "" else ",") + Dec(i) + Left(Members(L, i + 1, n), false)
  {
    hide Dec;
    var rest := Members(L, i + 1, n);
    if i in L {
      assert Members(L, i, n)[1..] == rest;
      assert "," + (Dec(i) + PortTail(rest)) == "," + Dec(i) + PortTail(rest);
      assert "" + Dec(i) == Dec(i);
    } else {
      assert Members(L, i, n) == rest;
    }
  }

  /** Prints the ports below the port count. */
  method PortList2Str(list: array<bv8>, cnt: nat) returns (text: CString)
    requires 0 < list.Length && cnt <= 8 * list.Length
    ensures text == PortText(Members(Contents(list[..], 0, 8 * list.Length - 1, true), 0, cnt))
  {
    hide Member, Dec, Left, Members, PortText, Contents;
    ghost var L := Contents(list[..], 0, 8 * list.Length - 1, true);
    text := "";
    var first := true;
    LeftEnds(L, cnt);
    for port := 0 to cnt
      invariant text + Left(Members(L, port, cnt), first) == PortText(Members(L, 0, cnt))
    {
      LeftStep(L, port, cnt, first);
      InContents(list[..], port, 8 * list.Length - 1);
      if Member(list[..], port, true) {
        var separator: CString := if first then "" else ",";
        Regroup(text, separator + Dec(port), Left(Members(L, port + 1, cnt), false));
        text := text + (separator + Dec(port));
        first := false;
      }
    }
  }

  lemma InContents(list: seq<bv8>, i: nat, max: nat)
    requires i <= max && Room(|list|, max, true)
    ensures i in Contents(list, 0, max, true) <==> Member(list, i, true)
  {
    hide Member;
  }

  lemma LeftEnds(L: set<nat>, cnt: nat)
    ensures Left(Members(L, cnt, cnt), true) == Left(Members(L, cnt, cnt), false) == ""
    ensures "" + PortText(Members(L, 0, cnt)) == Left(Members(L, 0, cnt), true)
  {
  }

  ghost function SetOf(ks: seq<nat>): set<nat> {
    set k | k in ks
  }

  /** A printed list is accepted, and means what was printed. */
  lemma {:induction false} PrintedPortsParse(before: CString, ks: seq<nat>, n: nat)
    requires n <= UINT32_MODULUS && forall k :: k in ks ==> k < n
    ensures Tokens(before + PortText(ks), |before|, 0, false, n) == Ports(SetOf(ks), false)
    decreases |ks|
  {
    hide Dec, Tokens, SetOf;
    SetOfCons(ks);
    SetOfCons([]);
    if ks == [] {
      NothingLeft(before, n);
      assert before + PortText(ks) == before;
    } else {
      var k, rest := ks[0], ks[1..];
      SetOfCons(rest);
      assert k in ks && forall r :: r in rest ==> r in ks;
      FirstPort(before, k, PortTail(rest), n);
      Regroup(before, Dec(k), PortTail(rest));
      if rest != [] {
        var before' := before + Dec(k) + ",";
        PrintedPortsParse(before', rest, n);
        TailText(before, k, rest);
      }
    }
  }

  lemma SetOfCons(ks: seq<nat>)
    ensures SetOf(ks) == if ks == [] then {} else {ks[0]} + SetOf(ks[1..])
  {
    assert ks != [] ==> ks == [ks[0]] + ks[1..];
  }

  lemma TailText(before: CString, k: nat, rest: seq<nat>)
    requires rest != []
    ensures before + Dec(k) + PortTail(rest) == (before + Dec(k) + ",") + PortText(rest)
  {
    hide Dec;
  }

  lemma NothingLeft(text: CString, n: nat)
    ensures Tokens(text, |text|, 0, false, n) == Ports({}, false)
  {
  }

  lemma FirstPort(before: CString, k: nat, tail: CString, n: nat)
    requires k < n <= UINT32_MODULUS && (tail == [] || tail[0] == ',')
    ensures var text := before + Dec(k) + tail;
            Tokens(text, |before|, 0, false, n) ==
            if tail == [] then Ports({k}, false) else Then(k, Tokens(text, |before + Dec(k) + ","|, 0, false, n))
  {
    hide Dec, ScanDigits;
    OnePort(before, k, tail);
  }

  lemma OnePort(before: CString, k: nat, tail: CString)
    requires tail == [] || tail[0] == ','
    ensures ScanDigits(before + Dec(k) + tail, |before|, 10, 0) == Scan(k, |before + Dec(k)|)
  {
    hide Dec;
    var s := before + Dec(k);
    ScanDec(before, k);
    assert forall i :: |before| <= i < |s| ==> s[i] == Dec(k)[i - |before|];
    ScanDigitsAppend(s, tail, |before|, 10, 0);
    assert tail != [] ==> (s + tail)[|s|] == ',';
  }

  /** Reading a printed list gives the list back, for all ports below the port count. */
  lemma PortsRoundTrip(L: set<nat>, cnt: nat, n: nat)
    requires cnt <= n <= UINT32_MODULUS
    ensures ParsePorts(PortText(Members(L, 0, cnt)), n) == Ports(set k | k in L && k < cnt, false)
  {
    hide Tokens;
    var ks := Members(L, 0, cnt);
    PrintedPortsParse("", ks, n);
    assert "" + PortText(ks) == PortText(ks);
    assert SetOf(ks) == set k | k in L && k < cnt;
  }

  /** A single port number is taken modulo 2^32. */
  lemma SinglePort(k: nat, n: nat)
    ensures ParsePorts(Dec(k), n) == if Wrap(k) < n then Ports({Wrap(k)}, false) else Ports({}, true)
  {
    hide Dec, ScanDigits, Wrap;
    OnePort("", k, "");
    assert "" + Dec(k) + "" == Dec(k) && "" + Dec(k) == Dec(k);
  }

  /**
   * A port number is accepted as itself or rejected as too large, as it should be, exactly if it has at
   * most 32 bits or what is left of it after wrapping is too large, too.
   */
  lemma PortReadAsItself(k: nat, n: nat)
    requires 0 < n <= UINT32_MODULUS
    ensures ParsePorts(Dec(k), n) == (if k < n then Ports({k}, false) else Ports({}, true)) <==>
            k < UINT32_MODULUS || k % UINT32_MODULUS >= n
  {
    hide Dec, ParsePorts;
    SinglePort(k, n);
    assert k < UINT32_MODULUS ==> Wrap(k) == k;
  }

  /** For example, 2^32 + 1 is taken for port 1. */
  lemma WrappedPort()
    ensures ParsePorts(Dec(UINT32_MODULUS + 1), 64) == Ports({1}, false)
  {
    hide Dec, ParsePorts;
    SinglePort(UINT32_MODULUS + 1, 64);
  }

  // ---------------------------------------------------------------------------------------
  // The buffer that the callers provide
  // ---------------------------------------------------------------------------------------

  const STR_SIZE: nat := 256

  ghost function AllPorts(cnt: nat): set<nat> {
    set k: nat | k < cnt && IsPort(k, cnt)
  }

  ghost predicate IsPort(k: nat, cnt: nat) {
    k < cnt
  }

  lemma TailStep(L: set<nat>, i: nat, n: nat)
    requires i < n
    ensures |PortTail(Members(L, i, n))| == |PortTail(Members(L, i + 1, n))| + if i in L then 1 + |Dec(i)| else 0
  {
    hide Dec, Members, PortTail;
    LeftStep(L, i, n, false);
  }

  lemma DigitsOf(k: nat)
    requires k < 100
    ensures |Dec(k)| == if k < 10 then 1 else 2
  {
  }

  /** Each port needs its digits and a separator. */
  function TailSize(i: nat, cnt: nat): int
    requires i <= cnt
  {
    (if i < 10 then 2 * ((if cnt < 10 then cnt else 10) - i) else 0)
    + if cnt <= 10 then 0 else 3 * (cnt - if i < 10 then 10 else i)
  }

  lemma {:induction false} TailLength(L: set<nat>, i: nat, cnt: nat)
    requires i <= cnt <= 100
    ensures |PortTail(Members(L, i, cnt))| <= TailSize(i, cnt)
    ensures (forall k: nat :: i <= k < cnt ==> k in L) ==> |PortTail(Members(L, i, cnt))| == TailSize(i, cnt)
    decreases cnt - i
  {
    hide Dec;
    if i < cnt {
      TailLength(L, i + 1, cnt);
      DigitsOf(i);
      TailStep(L, i, cnt);
    }
  }

  lemma TailIsLonger(ks: seq<nat>)
    ensures |PortTail(ks)| == |PortText(ks)| + if ks == [] then 0 else 1
  {
    hide Dec;
  }

  lemma AllArePorts(cnt: nat)
    ensures forall k: nat :: k < cnt ==> k in AllPorts(cnt)
  {
    assert forall k: nat :: k < cnt ==> IsPort(k, cnt);
  }

  lemma NoneNeedsNothing()
    ensures PortText([]) == "" && PortTail([]) == ""
  {
  }

  /** More ports never need less room. */
  lemma {:induction false} AllNeedMost(i: nat, cnt: nat, more: nat)
    requires i <= cnt <= more
    ensures |PortTail(Members(AllPorts(more), i, cnt))| <= |PortTail(Members(AllPorts(more), i, more))|
    decreases cnt - i
  {
    hide Dec, AllPorts;
    if i < cnt {
      AllNeedMost(i + 1, cnt, more);
      TailStep(AllPorts(more), i, cnt);
      TailStep(AllPorts(more), i, more);
    }
  }

  /** Every port list fits the buffer, with its terminator, exactly if there are at most 88 ports. */
  lemma PortTextFits(cnt: nat)
    ensures (forall L: set<nat> :: |PortText(Members(L, 0, cnt))| < STR_SIZE) <==> cnt <= 88
  {
    hide Dec, Members, PortText, PortTail, AllPorts;
    AllArePorts(cnt);
    NoneNeedsNothing();
    if cnt <= 88 {
      forall L: set<nat>
        ensures |PortText(Members(L, 0, cnt))| < STR_SIZE
      {
        TailLength(L, 0, cnt);
        TailIsLonger(Members(L, 0, cnt));
      }
    } else {
      var L := AllPorts(cnt);
      TailLength(L, 0, 89);
      AllNeedMost(0, 89, cnt);
      TailIsLonger(Members(L, 0, cnt));
      assert |PortText(Members(L, 0, cnt))| >= STR_SIZE;
    }
  }
}
