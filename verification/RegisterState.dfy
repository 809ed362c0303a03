/**
 * The state of one pattern component: what is selected, how far its iterator got, and what it
 * found last. The three `next` operations resume where the previous call stopped.
 */
module RegisterState {
  import opened CText
  import opened Registers
  import opened ReplList
  import Glob

  const LAST_REPL: nat := SYMREG_REPL_CNT_MAX - 1

  /** The table row the iterator stands on. */
  datatype Row = NoRow | TgtRow(t: Target) | GrpRow(g: RegGrp) | RegRow(r: Reg)

  /** A row from `from` up to `to` has a selected name. */
  ghost predicate NameSeen(rows: seq<Entry>, sel: Selector, from: int, to: int) {
    exists i :: 0 <= i < |rows| && from <= i < to && NameMatches(sel, rows[i].name)
  }

  lemma NothingSeen(rows: seq<Entry>, sel: Selector)
    ensures !NameSeen(rows, sel, -1, 0)
  {
  }

  lemma SeeName(rows: seq<Entry>, sel: Selector, from: int, i: int)
    requires 0 <= i < |rows| && from <= i
    ensures NameSeen(rows, sel, from, i + 1) <==> NameSeen(rows, sel, from, i) || NameMatches(sel, rows[i].name)
  {
  }

  lemma NothingBehindTable(rows: seq<Entry>, sel: Selector, from: int)
    ensures HitsFrom(rows, sel, |rows|, 0) == []
    ensures NameSeen(rows, sel, from, |rows| + 1) == NameSeen(rows, sel, from, |rows|)
  {
  }

  /** The printed name of replication `repl` of a row that has several. */
  function IndexedName(name: CString, repl: nat): CString {
    name + "[" + Dec(repl) + "]"
  }

  function RegName(r: Reg, repl: nat): CString {
    if r.replCnt == 1 then r.name else IndexedName(r.name, repl)
  }

  function GrpName(g: RegGrp, repl: nat): CString {
    if g.replCnt == 1 then g.name else IndexedName(g.name, repl)
  }

  function TgtName(t: Target): CString {
    if t.replNumber < 0 then t.name else IndexedName(t.name, TargetRepl(t))
  }

  function RegAddr(r: Reg, repl: nat): nat {
    4 * (repl * r.replWidth + r.addr) % UINT32_MODULUS
  }

  function GrpAddr(g: RegGrp, repl: nat): nat {
    4 * (g.baseAddr + repl * g.replWidth) % UINT32_MODULUS
  }

  lemma RegFacts(r: Reg, repl: nat)
    ensures RegName(r, repl) == if r.replCnt == 1 then r.name else r.name + "[" + Dec(repl) + "]"
    ensures RegAddr(r, repl) == 4 * (repl * r.replWidth + r.addr) % 0x1_0000_0000
  {
  }

  lemma GrpFacts(g: RegGrp, repl: nat)
    ensures GrpName(g, repl) == if g.replCnt == 1 then g.name else g.name + "[" + Dec(repl) + "]"
    ensures GrpAddr(g, repl) == 4 * (g.baseAddr + repl * g.replWidth) % 0x1_0000_0000
  {
  }

  lemma TgtFacts(t: Target)
    ensures TgtName(t) == if t.replNumber < 0 then t.name else t.name + "[" + Dec(t.replNumber) + "]"
  {
  }

  class SymregState {
    // What is selected, fixed when the query is set up
    const wildcards: bool
    const allRepls: bool
    const repls: array<bv8>
    const pattern: CString

    // How far the iterator got, and what it found last
    var curIdx: int
    var curRepl: int
    var matchCnt: nat
    const matchedRepls: array<bv8>
    var matchedAtLeastOneName: bool
    var matchName: CString
    var matchWidth: nat
    var matchAddr: nat
    var row: Row

    ghost predicate Allocated() {
      && repls.Length == BitFieldSize(SYMREG_REPL_CNT_MAX)
      && matchedRepls.Length == BitFieldSize(SYMREG_REPL_CNT_MAX)
      && repls != matchedRepls
    }

    ghost function Sel(): Selector
      requires Allocated()
      reads repls
    {
      Selector(pattern, wildcards, allRepls, Contents(repls[..], 0, LAST_REPL, true))
    }

    ghost function Marked(): set<nat>
      requires Allocated()
      reads matchedRepls
    {
      Contents(matchedRepls[..], 0, LAST_REPL, true)
    }

    /** Before the first row, or on the last hit. */
    ghost predicate Positioned(rows: seq<Entry>)
      reads `curIdx, `curRepl, `matchedAtLeastOneName
    {
      || (curIdx == -1 && curRepl == -1)
      || (0 <= curIdx < |rows| && 0 <= curRepl && matchedAtLeastOneName)
    }

    /** The hits that are still to come. */
    ghost function Pending(rows: seq<Entry>): seq<Hit>
      requires Allocated() && Positioned(rows)
      reads repls, `curIdx, `curRepl, `matchedAtLeastOneName
    {
      if curIdx < 0 then Hits(rows, Sel()) else HitsFrom(rows, Sel(), curIdx, curRepl + 1)
    }

    constructor (wildcards: bool, allRepls: bool, pattern: CString, repls: array<bv8>)
      requires repls.Length == BitFieldSize(SYMREG_REPL_CNT_MAX)
      ensures Allocated() && fresh(matchedRepls)
      ensures this.wildcards == wildcards && this.allRepls == allRepls
      ensures this.pattern == pattern && this.repls == repls
    {
      this.wildcards, this.allRepls, this.pattern, this.repls := wildcards, allRepls, pattern, repls;
      matchedRepls := new bv8[BitFieldSize(SYMREG_REPL_CNT_MAX)](_ => 0);
      curIdx, curRepl, matchCnt := 0, 0, 0;
      matchedAtLeastOneName, matchName, matchWidth, matchAddr, row := false, "", 0, 0, NoRow;
    }

    /** Restart the iterator; with `all`, also forget what has been counted and marked. */
    method Clear(all: bool)
      requires Allocated()
      modifies `curIdx, `curRepl, `matchCnt, `matchedAtLeastOneName, matchedRepls
      ensures curIdx == -1 && curRepl == -1
      ensures all ==> matchCnt == 0 && !matchedAtLeastOneName && Marked() == {}
      ensures !all ==> && matchCnt == old(matchCnt) && matchedAtLeastOneName == old(matchedAtLeastOneName)
                       && matchedRepls[..] == old(matchedRepls[..])
    {
      curIdx, curRepl := -1, -1;
      if all {
        matchCnt := 0;
        matchedAtLeastOneName := false;
        FillMembers(matchedRepls, 0, LAST_REPL, false, true);
      }
    }

    method MatchName(name: CString) returns (result: bool)
      requires Allocated()
      ensures result == NameMatches(Sel(), name)
    {
      if wildcards {
        result := Glob.Wildcmp(pattern, name);
      } else {
        result := pattern == name;
      }
    }

    predicate MatchRepl(repl: nat)
      requires Allocated() && repl <= LAST_REPL
      reads repls
      ensures MatchRepl(repl) == ReplMatches(Sel(), repl)
    {
      allRepls || Member(repls[..], repl, true)
    }

    /** The first selected replication of row `i` from `from` on; at least `cnt` when there is none. */
    method FirstRepl(ghost rows: seq<Entry>, ghost i: nat, from: nat, cnt: nat) returns (repl: nat)
      requires Allocated() && i < |rows| && rows[i].first == 0 && rows[i].end == cnt <= SYMREG_REPL_CNT_MAX
      requires NameMatches(Sel(), rows[i].name)
      ensures repl < cnt ==> HitsFrom(rows, Sel(), i, from) == [Hit(i, repl)] + HitsFrom(rows, Sel(), i, repl + 1)
      ensures repl >= cnt ==> HitsFrom(rows, Sel(), i, from) == HitsFrom(rows, Sel(), i + 1, 0)
    {
      hide HitsFrom, NameMatches, ReplMatches, Contents, Member;
      repl := from;
      while repl < cnt
        invariant HitsFrom(rows, Sel(), i, repl) == HitsFrom(rows, Sel(), i, from)
      {
        HitsBehindRepl(rows, Sel(), i, repl);
        if MatchRepl(repl) {
          return;
        }
        repl := repl + 1;
      }
      HitsBehindRow(rows, Sel(), i, repl);
    }

    /** Store what has been found. */
    method Record(repl: nat, addr: nat, name: CString)
      modifies `curRepl, `matchCnt, `matchName, `matchWidth, `matchAddr
      ensures curRepl == repl && matchAddr == addr && matchName == name && matchWidth == |name|
      ensures matchCnt == (old(matchCnt) + 1) % UINT32_MODULUS
    {
      curRepl := repl;
      matchCnt := (matchCnt + 1) % UINT32_MODULUS;
      matchAddr := addr;
      matchName := name;
      matchWidth := |matchName|;
    }

    /** A search over `rows` has ended as the nested loops need it. */
    twostate predicate Advanced(rows: seq<Entry>, found: bool)
      requires Allocated() && old(Positioned(rows))
      reads this, repls
    {
      var pending := old(Pending(rows));
      && Sel() == old(Sel()) && old(curIdx) <= curIdx
      && (found <==> pending != [])
      && (found ==>
            && Positioned(rows) && curIdx >= 0
            && Hit(curIdx, curRepl) == pending[0] && Pending(rows) == pending[1..]
            && matchCnt == (old(matchCnt) + 1) % UINT32_MODULUS)
      && (!found ==> curIdx == |rows| && matchCnt == old(matchCnt))
      && (matchedAtLeastOneName <==> old(matchedAtLeastOneName) || NameSeen(rows, Sel(), old(curIdx), curIdx + 1))
    }

    method RegNext(regs: seq<Reg>) returns (found: bool)
      requires Allocated() && Positioned(RegRows(regs))
      requires forall r :: r in regs ==> r.replCnt <= SYMREG_REPL_CNT_MAX
      modifies `curIdx, `curRepl, `matchCnt, `matchedAtLeastOneName, `matchName, `matchWidth, `matchAddr, `row
      ensures Advanced(RegRows(regs), found)
      ensures found ==>
                && row == RegRow(regs[curIdx]) && curRepl < regs[curIdx].replCnt
                && var reg := regs[curIdx];
                && matchName == (if reg.replCnt == 1 then reg.name else reg.name + "[" + Dec(curRepl) + "]")
                && matchWidth == |matchName|
                && matchAddr == 4 * (curRepl * reg.replWidth + reg.addr) % 0x1_0000_0000
    {
      hide HitsFrom, NameSeen, RegName, RegAddr;
      found := RegSearch(regs);
      if found {
        RegFacts(regs[curIdx], curRepl);
      }
    }

    /** The search itself. */
    method RegSearch(regs: seq<Reg>) returns (found: bool)
      requires Allocated() && Positioned(RegRows(regs))
      requires forall r :: r in regs ==> r.replCnt <= SYMREG_REPL_CNT_MAX
      modifies `curIdx, `curRepl, `matchCnt, `matchedAtLeastOneName, `matchName, `matchWidth, `matchAddr, `row
      ensures Advanced(RegRows(regs), found)
      ensures found ==>
                && row == RegRow(regs[curIdx]) && curRepl < regs[curIdx].replCnt
                && matchName == RegName(regs[curIdx], curRepl) && matchWidth == |matchName|
                && matchAddr == RegAddr(regs[curIdx], curRepl)
    {
      hide HitsFrom, NameMatches, NameSeen, ReplMatches, Contents, Member, RegName, RegAddr;
      ghost var rows := RegRows(regs);
      ghost var sel := Sel();
      ghost var pending := Pending(rows);
      ghost var started := curIdx;
      NothingSeen(rows, sel);
      if curIdx < 0 || curRepl >= regs[curIdx].replCnt - 1 {
        if curIdx >= 0 {
          HitsBehindRow(rows, sel, curIdx, curRepl + 1);
        }
        curRepl := -1;
        curIdx := curIdx + 1;
      }
      while curIdx < |regs|
        invariant 0 <= curIdx <= |regs| && -1 <= curRepl && started <= curIdx
        invariant curIdx == |regs| ==> curRepl == -1
        invariant Sel() == sel && matchCnt == old(matchCnt)
        invariant HitsFrom(rows, sel, curIdx, curRepl + 1) == pending
        invariant matchedAtLeastOneName <==> old(matchedAtLeastOneName) || NameSeen(rows, sel, started, curIdx)
        decreases |regs| - curIdx
      {
        var r := regs[curIdx];
        row := RegRow(r);
        var named := MatchName(r.name);
        SeeName(rows, sel, started, curIdx);
        if named {
          matchedAtLeastOneName := true;
          var repl := FirstRepl(rows, curIdx, curRepl + 1, r.replCnt);
          if repl < r.replCnt {
            Record(repl, RegAddr(r, repl), RegName(r, repl));
            return true;
          }
        } else {
          HitsBehindRow(rows, sel, curIdx, curRepl + 1);
        }
        curRepl := -1;
        curIdx := curIdx + 1;
      }
      NothingBehindTable(rows, sel, started);
      return false;
    }

    method GrpNext(regGrps: seq<RegGrp>) returns (found: bool)
      requires Allocated() && Positioned(GrpRows(regGrps))
      requires forall g :: g in regGrps ==> g.replCnt <= SYMREG_REPL_CNT_MAX
      modifies `curIdx, `curRepl, `matchCnt, `matchedAtLeastOneName, `matchName, `matchWidth, `matchAddr, `row
      ensures Advanced(GrpRows(regGrps), found)
      ensures found ==>
                && row == GrpRow(regGrps[curIdx]) && curRepl < regGrps[curIdx].replCnt
                && var grp := regGrps[curIdx];
                && matchName == (if grp.replCnt == 1 then grp.name else grp.name + "[" + Dec(curRepl) + "]")
                && matchWidth == |matchName|
                && matchAddr == 4 * (grp.baseAddr + curRepl * grp.replWidth) % 0x1_0000_0000
    {
      hide HitsFrom, NameSeen, GrpName, GrpAddr;
      found := GrpSearch(regGrps);
      if found {
        GrpFacts(regGrps[curIdx], curRepl);
      }
    }

    /** The search itself. */
    method GrpSearch(regGrps: seq<RegGrp>) returns (found: bool)
      requires Allocated() && Positioned(GrpRows(regGrps))
      requires forall g :: g in regGrps ==> g.replCnt <= SYMREG_REPL_CNT_MAX
      modifies `curIdx, `curRepl, `matchCnt, `matchedAtLeastOneName, `matchName, `matchWidth, `matchAddr, `row
      ensures Advanced(GrpRows(regGrps), found)
      ensures found ==>
                && row == GrpRow(regGrps[curIdx]) && curRepl < regGrps[curIdx].replCnt
                && matchName == GrpName(regGrps[curIdx], curRepl) && matchWidth == |matchName|
                && matchAddr == GrpAddr(regGrps[curIdx], curRepl)
    {
      hide HitsFrom, NameMatches, NameSeen, ReplMatches, Contents, Member, GrpName, GrpAddr;
      ghost var rows := GrpRows(regGrps);
      ghost var sel := Sel();
      ghost var pending := Pending(rows);
      ghost var started := curIdx;
      NothingSeen(rows, sel);
      if curIdx < 0 || curRepl >= regGrps[curIdx].replCnt - 1 {
        if curIdx >= 0 {
          HitsBehindRow(rows, sel, curIdx, curRepl + 1);
        }
        curRepl := -1;
        curIdx := curIdx + 1;
      }
      while curIdx < |regGrps|
        invariant 0 <= curIdx <= |regGrps| && -1 <= curRepl && started <= curIdx
        invariant curIdx == |regGrps| ==> curRepl == -1
        invariant Sel() == sel && matchCnt == old(matchCnt)
        invariant HitsFrom(rows, sel, curIdx, curRepl + 1) == pending
        invariant matchedAtLeastOneName <==> old(matchedAtLeastOneName) || NameSeen(rows, sel, started, curIdx)
        decreases |regGrps| - curIdx
      {
        var g := regGrps[curIdx];
        row := GrpRow(g);
        var named := MatchName(g.name);
        SeeName(rows, sel, started, curIdx);
        if named {
          matchedAtLeastOneName := true;
          var repl := FirstRepl(rows, curIdx, curRepl + 1, g.replCnt);
          if repl < g.replCnt {
            Record(repl, GrpAddr(g, repl), GrpName(g, repl));
            return true;
          }
        } else {
          HitsBehindRow(rows, sel, curIdx, curRepl + 1);
        }
        curRepl := -1;
        curIdx := curIdx + 1;
      }
      NothingBehindTable(rows, sel, started);
      return false;
    }

    /** Every target has a single replication, so the next hit lies in a later row. */
    method TgtNext(targets: seq<Target>) returns (found: bool)
      requires Allocated() && Positioned(TgtRows(targets))
      requires curIdx >= 0 ==> curRepl == TargetRepl(targets[curIdx])
      requires forall t :: t in targets ==> t.replNumber < SYMREG_REPL_CNT_MAX
      modifies `curIdx, `curRepl, `matchCnt, `matchedAtLeastOneName, `matchName, `matchWidth, `matchAddr, `row
      ensures Advanced(TgtRows(targets), found)
      ensures found ==>
                && var tgt := targets[curIdx];
                && row == TgtRow(tgt) && curRepl == (if tgt.replNumber < 0 then 0 else tgt.replNumber)
                && matchName == (if tgt.replNumber < 0 then tgt.name else tgt.name + "[" + Dec(curRepl) + "]")
                && matchWidth == |matchName| && matchAddr == tgt.baseAddr
    {
      hide HitsFrom, NameSeen, TgtName;
      found := TgtSearch(targets);
      if found {
        TgtFacts(targets[curIdx]);
      }
    }

    /** The search itself. */
    method TgtSearch(targets: seq<Target>) returns (found: bool)
      requires Allocated() && Positioned(TgtRows(targets))
      requires curIdx >= 0 ==> curRepl == TargetRepl(targets[curIdx])
      requires forall t :: t in targets ==> t.replNumber < SYMREG_REPL_CNT_MAX
      modifies `curIdx, `curRepl, `matchCnt, `matchedAtLeastOneName, `matchName, `matchWidth, `matchAddr, `row
      ensures Advanced(TgtRows(targets), found)
      ensures found ==>
                && row == TgtRow(targets[curIdx]) && curRepl == TargetRepl(targets[curIdx])
                && matchName == TgtName(targets[curIdx]) && matchWidth == |matchName|
                && matchAddr == targets[curIdx].baseAddr
    {
      hide HitsFrom, NameMatches, NameSeen, ReplMatches, Contents, Member, TgtName;
      ghost var rows := TgtRows(targets);
      ghost var sel := Sel();
      ghost var pending := Pending(rows);
      ghost var started := curIdx;
      NothingSeen(rows, sel);
      if curIdx >= 0 {
        HitsBehindRow(rows, sel, curIdx, curRepl + 1);
      }
      curIdx := curIdx + 1;
      while curIdx < |targets|
        invariant 0 <= curIdx <= |targets| && started < curIdx
        invariant Sel() == sel && matchCnt == old(matchCnt)
        invariant HitsFrom(rows, sel, curIdx, 0) == pending
        invariant matchedAtLeastOneName <==> old(matchedAtLeastOneName) || NameSeen(rows, sel, started, curIdx)
        decreases |targets| - curIdx
      {
        var t := targets[curIdx];
        row := TgtRow(t);
        var named := MatchName(t.name);
        SeeName(rows, sel, started, curIdx);
        HitsOfSingleRow(rows, sel, curIdx, 0);
        if named {
          var repl := TargetRepl(t);
          matchedAtLeastOneName := true;
          HitsBehindRow(rows, sel, curIdx, repl + 1);
          if MatchRepl(repl) {
            Record(repl, t.baseAddr, TgtName(t));
            return true;
          }
        }
        curIdx := curIdx + 1;
      }
      NothingBehindTable(rows, sel, started);
      return false;
    }
  }
}
