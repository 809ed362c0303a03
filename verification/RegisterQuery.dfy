/**
 * The register query: a nested loop that checks the pattern and measures the result, and a
 * "next" operation that re-enters the same three loops and yields one register per call.
 */
module RegisterQuery {
  import opened CText
  import opened Registers
  import opened RegisterState
  import opened Sequences
  import opened ReplList

  datatype QueryRc = RcOk | NoMoreRegs | NoSuchTgt | NoSuchGrp | NoSuchReg
                   | NoSuchReplTgt | NoSuchReplGrp | NoSuchReplReg

  const SYMREG_NAME_LEN_MAX: nat := 100

  /** The limits that the module checks at start-up. */
  ghost predicate TablesFit(targets: seq<Target>) {
    forall t :: t in targets ==>
                  && t.replNumber < SYMREG_REPL_CNT_MAX && |t.name| <= SYMREG_NAME_LEN_MAX
                  && forall g :: g in t.regGrps ==>
                                   && g.replCnt <= SYMREG_REPL_CNT_MAX && |g.name| <= SYMREG_NAME_LEN_MAX
                                   && forall r :: r in g.regs ==>
                                                    r.replCnt <= SYMREG_REPL_CNT_MAX && |r.name| <= SYMREG_NAME_LEN_MAX
  }

  ghost predicate InTables(targets: seq<Target>, y: Yield) {
    && y.t.idx < |targets|
    && y.g.idx < |targets[y.t.idx].regGrps|
    && y.r.idx < |targets[y.t.idx].regGrps[y.g.idx].regs|
  }

  /** The full name of a register, and its address as a 32-bit sum. */
  ghost function YieldName(targets: seq<Target>, y: Yield): CString
    requires InTables(targets, y)
  {
    var t := targets[y.t.idx];
    var g := t.regGrps[y.g.idx];
    TgtName(t) + ":" + GrpName(g, y.g.repl) + ":" + RegName(g.regs[y.r.idx], y.r.repl)
  }

  ghost function YieldAddr(targets: seq<Target>, y: Yield): nat
    requires InTables(targets, y)
  {
    var t := targets[y.t.idx];
    var g := t.regGrps[y.g.idx];
    (t.baseAddr + GrpAddr(g, y.g.repl) + RegAddr(g.regs[y.r.idx], y.r.repl)) % UINT32_MODULUS
  }

  class QueryInst {
    const t: SymregState
    const g: SymregState
    const r: SymregState

    constructor (t: SymregState, g: SymregState, r: SymregState)
      requires Apart(t, g, r)
      ensures this.t == t && this.g == g && this.r == r && Valid()
    {
      this.t, this.g, this.r := t, g, r;
    }

    static ghost predicate Apart(t: SymregState, g: SymregState, r: SymregState) {
      && t.Allocated() && g.Allocated() && r.Allocated()
      && t != g && t != r && g != r
      && {t.repls, t.matchedRepls} !! {g.repls, g.matchedRepls} !! {r.repls, r.matchedRepls}
    }

    ghost predicate Valid() {
      Apart(t, g, r)
    }

    ghost function Q(): Query
      requires Valid()
      reads t.repls, g.repls, r.repls
    {
      Query(t.Sel(), g.Sel(), r.Sel())
    }

    ghost function T(): Hit
      requires t.curIdx >= 0 && t.curRepl >= 0
      reads t
    {
      Hit(t.curIdx, t.curRepl)
    }

    ghost function G(): Hit
      requires g.curIdx >= 0 && g.curRepl >= 0
      reads g
    {
      Hit(g.curIdx, g.curRepl)
    }

    /** The outer loop stands on a target. */
    ghost predicate OnTgt(targets: seq<Target>)
      reads t
    {
      && 0 <= t.curIdx < |targets| && t.Positioned(TgtRows(targets))
      && t.curRepl == TargetRepl(targets[t.curIdx]) && t.row == TgtRow(targets[t.curIdx])
      && t.matchName == TgtName(targets[t.curIdx]) && t.matchWidth == |t.matchName|
      && t.matchAddr == targets[t.curIdx].baseAddr
    }

    /** The middle loop stands on a group of that target. */
    ghost predicate OnGrp(targets: seq<Target>)
      reads t, g
    {
      && OnTgt(targets)
      && var grps := targets[t.curIdx].regGrps;
      && 0 <= g.curIdx < |grps| && g.Positioned(GrpRows(grps)) && 0 <= g.curRepl < grps[g.curIdx].replCnt
      && g.row == GrpRow(grps[g.curIdx])
      && g.matchName == GrpName(grps[g.curIdx], g.curRepl) && g.matchWidth == |g.matchName|
      && g.matchAddr == GrpAddr(grps[g.curIdx], g.curRepl)
    }

    /** The last call has yielded a register. */
    ghost predicate OnYield(targets: seq<Target>)
      reads t, g, r
    {
      && OnGrp(targets)
      && var regs := targets[t.curIdx].regGrps[g.curIdx].regs;
      && 0 <= r.curIdx < |regs| && r.Positioned(RegRows(regs)) && 0 <= r.curRepl < regs[r.curIdx].replCnt
    }

    ghost function Here(targets: seq<Target>): Yield
      requires OnYield(targets)
      reads t, g, r
    {
      Yield(T(), G(), Hit(r.curIdx, r.curRepl))
    }

    /** What the three loops have still to yield, from the outermost to the innermost. */
    ghost function AfterTgt(targets: seq<Target>): seq<Yield>
      requires Valid() && t.Positioned(TgtRows(targets))
      reads t, t.repls, g.repls, r.repls
    {
      TgtYields(targets, Q(), t.Pending(TgtRows(targets)))
    }

    ghost function AfterGrp(targets: seq<Target>): seq<Yield>
      requires Valid() && OnTgt(targets) && g.Positioned(GrpRows(targets[t.curIdx].regGrps))
      reads t, g, t.repls, g.repls, r.repls
    {
      GrpYields(targets, Q(), T(), g.Pending(GrpRows(targets[t.curIdx].regGrps))) + AfterTgt(targets)
    }

    ghost function AfterReg(targets: seq<Target>): seq<Yield>
      requires Valid() && OnGrp(targets) && r.Positioned(RegRows(targets[t.curIdx].regGrps[g.curIdx].regs))
      reads t, g, r, t.repls, g.repls, r.repls
    {
      RegYields(T(), G(), r.Pending(RegRows(targets[t.curIdx].regGrps[g.curIdx].regs))) + AfterGrp(targets)
    }

    /** Before the first target, with nothing counted or marked. */
    method ClearAll(ghost targets: seq<Target>)
      requires Valid()
      modifies t`curIdx, t`curRepl, t`matchCnt, t`matchedAtLeastOneName, t.matchedRepls
      modifies g`curIdx, g`curRepl, g`matchCnt, g`matchedAtLeastOneName, g.matchedRepls
      modifies r`curIdx, r`curRepl, r`matchCnt, r`matchedAtLeastOneName, r.matchedRepls
      ensures Q() == old(Q())
      ensures t.curIdx == -1 && t.Positioned(TgtRows(targets)) && AfterTgt(targets) == All(targets, Q())
      ensures !t.matchedAtLeastOneName && !g.matchedAtLeastOneName && !r.matchedAtLeastOneName && r.matchCnt == 0
      ensures t.Marked() == g.Marked() == r.Marked() == {}
    {
      hide Contents, HitsFrom, TgtYields;
      t.Clear(true);
      g.Clear(true);
      r.Clear(true);
    }

    /** Outer step: a new target, with the middle loop restarted. */
    method NextTgt(targets: seq<Target>) returns (found: bool)
      requires Valid() && TablesFit(targets) && t.Positioned(TgtRows(targets)) && (t.curIdx < 0 || OnTgt(targets))
      modifies t`curIdx, t`curRepl, t`matchCnt, t`matchedAtLeastOneName, t`matchName, t`matchWidth, t`matchAddr, t`row
      modifies g`curIdx, g`curRepl, g`matchCnt, g`matchedAtLeastOneName, g.matchedRepls
      ensures found ==> && OnTgt(targets) && g.curIdx == -1 && g.curRepl == -1
                        && AfterGrp(targets) == old(AfterTgt(targets))
      ensures !found ==> old(AfterTgt(targets)) == [] && old(t.Pending(TgtRows(targets))) == [] && t.curIdx == |targets|
      ensures found ==> && old(t.Pending(TgtRows(targets))) != [] && T() == old(t.Pending(TgtRows(targets)))[0]
                        && t.Pending(TgtRows(targets)) == old(t.Pending(TgtRows(targets)))[1..]
      ensures old(t.curIdx) <= t.curIdx
      ensures t.matchedAtLeastOneName <==>
              old(t.matchedAtLeastOneName) || NameSeen(TgtRows(targets), t.Sel(), old(t.curIdx), t.curIdx + 1)
      ensures g.matchedAtLeastOneName == old(g.matchedAtLeastOneName) && g.matchedRepls[..] == old(g.matchedRepls[..])
    {
      hide Contents, HitsFrom, NameSeen, GrpYields, TgtName, GrpName, Dec;
      found := t.TgtNext(targets);
      if found {
        TgtFacts(targets[t.curIdx]);
        g.Clear(false);
      }
    }

    /** Middle step: a new group of the current target, with the inner loop restarted. */
    method NextGrp(targets: seq<Target>) returns (found: bool)
      requires Valid() && TablesFit(targets) && OnTgt(targets)
      requires g.Positioned(GrpRows(targets[t.curIdx].regGrps)) && (g.curIdx < 0 || OnGrp(targets))
      modifies g`curIdx, g`curRepl, g`matchCnt, g`matchedAtLeastOneName, g`matchName, g`matchWidth, g`matchAddr, g`row
      modifies r`curIdx, r`curRepl, r`matchCnt, r`matchedAtLeastOneName, r.matchedRepls
      ensures OnTgt(targets)
      ensures found ==> && OnGrp(targets) && r.curIdx == -1 && r.curRepl == -1
                        && AfterReg(targets) == old(AfterGrp(targets))
      ensures var rows := GrpRows(targets[t.curIdx].regGrps);
              && (found ==> old(g.Pending(rows)) != [] && G() == old(g.Pending(rows))[0]
                            && g.Pending(rows) == old(g.Pending(rows))[1..])
              && (!found ==> && AfterTgt(targets) == old(AfterGrp(targets))
                             && old(g.Pending(rows)) == [] && g.curIdx == |rows|)
              && old(g.curIdx) <= g.curIdx && (g.matchedAtLeastOneName <==>
                  old(g.matchedAtLeastOneName) || NameSeen(rows, g.Sel(), old(g.curIdx), g.curIdx + 1))
      ensures r.matchedAtLeastOneName == old(r.matchedAtLeastOneName) && r.matchCnt == old(r.matchCnt)
      ensures r.matchedRepls[..] == old(r.matchedRepls[..])
    {
      hide Contents, HitsFrom, NameSeen, RegYields, TgtYields, TgtName, GrpName, GrpAddr, Dec;
      found := g.GrpNext(targets[t.curIdx].regGrps);
      if found {
        GrpFacts(targets[t.curIdx].regGrps[g.curIdx], g.curRepl);
        r.Clear(false);
        Regroup(RegYields(T(), G(), Hits(RegRows(RegTable(targets, T(), G())), r.Sel())),
                    GrpYields(targets, Q(), T(), g.Pending(GrpRows(targets[t.curIdx].regGrps))), AfterTgt(targets));
      }
    }

    /** Inner step: the next register of the current group. */
    method NextReg(targets: seq<Target>) returns (found: bool)
      requires Valid() && TablesFit(targets) && OnGrp(targets)
      requires r.Positioned(RegRows(targets[t.curIdx].regGrps[g.curIdx].regs))
      modifies r`curIdx, r`curRepl, r`matchCnt, r`matchedAtLeastOneName, r`matchName, r`matchWidth, r`matchAddr, r`row
      ensures OnGrp(targets)
      ensures found ==>
                && OnYield(targets)
                && old(AfterReg(targets)) != []
                && Here(targets) == old(AfterReg(targets))[0] && AfterReg(targets) == old(AfterReg(targets))[1..]
                && Recorded(targets)
      ensures var rows := RegRows(targets[t.curIdx].regGrps[g.curIdx].regs);
              && (found ==> old(r.Pending(rows)) != [] && r.Pending(rows) == old(r.Pending(rows))[1..])
              && (!found ==> AfterGrp(targets) == old(AfterReg(targets)) && r.curIdx == |rows|)
              && r.matchCnt == (if found then (old(r.matchCnt) + 1) % UINT32_MODULUS else old(r.matchCnt))
              && old(r.curIdx) <= r.curIdx && (r.matchedAtLeastOneName <==>
                  old(r.matchedAtLeastOneName) || NameSeen(rows, r.Sel(), old(r.curIdx), r.curIdx + 1))
    {
      hide Contents, HitsFrom, NameSeen, RegYields, GrpYields, TgtYields, TgtName, GrpName, GrpAddr, RegName, RegAddr;
      ghost var rest := AfterGrp(targets);
      ghost var pending := r.Pending(RegRows(targets[t.curIdx].regGrps[g.curIdx].regs));
      RegYieldsSplit(T(), G(), pending, rest);
      found := r.RegNext(targets[t.curIdx].regGrps[g.curIdx].regs);
      if found {
        RegFacts(targets[t.curIdx].regGrps[g.curIdx].regs[r.curIdx], r.curRepl);
      }
      assert AfterGrp(targets) == rest;
    }

    /** The current register has its name and address recorded. */
    ghost predicate Recorded(targets: seq<Target>)
      requires OnYield(targets)
      reads t, g, r
    {
      var reg := targets[t.curIdx].regGrps[g.curIdx].regs[r.curIdx];
      && r.matchName == RegName(reg, r.curRepl) && r.matchWidth == |r.matchName|
      && r.matchAddr == RegAddr(reg, r.curRepl)
    }

    /** The full name and address of the current register. */
    method Report(targets: seq<Target>, origin: nat) returns (name: CString, addr: nat, offset: nat)
      requires OnYield(targets) && Recorded(targets) && origin < UINT32_MODULUS
      ensures InTables(targets, Here(targets))
      ensures name == YieldName(targets, Here(targets)) && addr == YieldAddr(targets, Here(targets))
      ensures IsOffset(offset, addr, origin)
    {
      hide TgtName, GrpName, RegName, RegAddr, GrpAddr;
      name := t.matchName + ":" + g.matchName + ":" + r.matchName;
      addr := (t.matchAddr + g.matchAddr + r.matchAddr) % UINT32_MODULUS;
      offset := (addr + UINT32_MODULUS - origin) % UINT32_MODULUS;
    }

    ghost function GroupsLeft(targets: seq<Target>): nat
      requires Valid()
      reads t, g, g.repls
    {
      if OnTgt(targets) && g.Positioned(GrpRows(targets[t.curIdx].regGrps))
      then |g.Pending(GrpRows(targets[t.curIdx].regGrps))| else 0
    }

    /**
     * The two inner loops. They are entered behind the current register when `resume` is set,
     * else before the next group of the current target.
     */
    method NextWithinTgt(targets: seq<Target>, resume: bool) returns (found: bool)
      requires Valid() && TablesFit(targets)
      requires if resume then OnYield(targets)
               else && OnTgt(targets) && g.Positioned(GrpRows(targets[t.curIdx].regGrps))
                    && (g.curIdx < 0 || OnGrp(targets))
      modifies {g, r}`curIdx, {g, r}`curRepl, {g, r}`matchCnt, {g, r}`matchedAtLeastOneName, {g, r}`matchName
      modifies {g, r}`matchWidth, {g, r}`matchAddr, {g, r}`row, g.matchedRepls, r.matchedRepls
      ensures OnTgt(targets)
      ensures var todo := if resume then old(AfterReg(targets)) else old(AfterGrp(targets));
              if found then todo != [] && OnYield(targets) && Recorded(targets)
                            && Here(targets) == todo[0] && AfterReg(targets) == todo[1..]
              else AfterTgt(targets) == todo
    {
      hide Contents, HitsFrom, NameSeen, RegYields, GrpYields, TgtYields, TgtName, GrpName, GrpAddr, RegName, RegAddr;
      hide AfterGrp, AfterReg, AfterTgt, Recorded;
      ghost var todo := if resume then AfterReg(targets) else AfterGrp(targets);
      var inGroup := resume;
      while true
        invariant inGroup ==> OnYield(targets) && AfterReg(targets) == todo
        invariant !inGroup ==> && OnTgt(targets) && g.Positioned(GrpRows(targets[t.curIdx].regGrps))
                               && (g.curIdx < 0 || OnGrp(targets)) && AfterGrp(targets) == todo
        decreases if inGroup then 1 else 0, GroupsLeft(targets)
      {
        if !inGroup {
          var more := NextGrp(targets);
          if !more {
            return false;
          }
        }
        inGroup := false;
        var more := NextReg(targets);
        if more {
          return true;
        }
      }
    }

    /** All three loops, entered behind the current register or before the next target. */
    method NextOfAll(targets: seq<Target>, resume: bool) returns (found: bool)
      requires Valid() && TablesFit(targets)
      requires if resume then OnYield(targets)
               else t.Positioned(TgtRows(targets)) && (t.curIdx < 0 || OnTgt(targets))
      modifies t, g, r, t.matchedRepls, g.matchedRepls, r.matchedRepls
      ensures Q() == old(Q())
      ensures var todo := if resume then old(AfterReg(targets)) else old(AfterTgt(targets));
              if found then todo != [] && OnYield(targets) && Recorded(targets)
                            && Here(targets) == todo[0] && AfterReg(targets) == todo[1..]
              else todo == []
    {
      hide Contents, HitsFrom, NameSeen, RegYields, GrpYields, TgtYields, TgtName, GrpName, GrpAddr, RegName, RegAddr;
      hide AfterGrp, AfterReg, AfterTgt, Recorded;
      ghost var todo := if resume then AfterReg(targets) else AfterTgt(targets);
      var inTarget := resume;
      while true
        invariant Q() == old(Q())
        invariant inTarget ==> OnYield(targets) && AfterReg(targets) == todo
        invariant !inTarget ==> && t.Positioned(TgtRows(targets)) && (t.curIdx < 0 || OnTgt(targets))
                                && AfterTgt(targets) == todo
        decreases if inTarget then 1 else 0, if t.Positioned(TgtRows(targets)) then |t.Pending(TgtRows(targets))| else 0
      {
        if !inTarget {
          var more := NextTgt(targets);
          if !more {
            return false;
          }
        }
        found := NextWithinTgt(targets, inTarget);
        if found {
          return;
        }
        inTarget := false;
      }
    }

    /**
     * The first register (`next` false) or the one after the register of the previous call,
     * re-entering the loops behind that register.
     */
    method QueryNext(targets: seq<Target>, origin: nat, next: bool)
      returns (rc: QueryRc, name: CString, addr: nat, offset: nat)
      requires Valid() && TablesFit(targets) && origin < UINT32_MODULUS
      requires next ==> OnYield(targets)
      modifies t, g, r, t.matchedRepls, g.matchedRepls, r.matchedRepls
      ensures Q() == old(Q()) && (rc == RcOk || rc == NoMoreRegs)
      ensures var todo := if next then old(AfterReg(targets)) else All(targets, Q());
              && (rc == RcOk <==> todo != [])
              && (rc == RcOk ==>
                    && OnYield(targets) && InTables(targets, todo[0])
                    && Here(targets) == todo[0] && AfterReg(targets) == todo[1..]
                    && name == YieldName(targets, todo[0]) && addr == YieldAddr(targets, todo[0])
                    && offset < 0x1_0000_0000 && (offset + origin) % 0x1_0000_0000 == addr)
      ensures rc == RcOk ==>
                var y := Here(targets);
                var t := targets[y.t.idx];
                var g := t.regGrps[y.g.idx];
                var r := g.regs[y.r.idx];
                && name == (if t.replNumber < 0 then t.name else t.name + "[" + Dec(t.replNumber) + "]") + ":"
                           + (if g.replCnt == 1 then g.name else g.name + "[" + Dec(y.g.repl) + "]") + ":"
                           + (if r.replCnt == 1 then r.name else r.name + "[" + Dec(y.r.repl) + "]")
                && addr == (t.baseAddr + 4 * (g.baseAddr + y.g.repl * g.replWidth)
                            + 4 * (y.r.repl * r.replWidth + r.addr)) % 0x1_0000_0000
    {
      hide Contents, HitsFrom, NameSeen, RegYields, GrpYields, TgtYields, TgtName, GrpName, GrpAddr, RegName, RegAddr;
      hide AfterTgt, AfterGrp, AfterReg, YieldName, YieldAddr, Recorded, IsOffset;
      if !next {
        ClearAll(targets);
      }
      var found := NextOfAll(targets, next);
      if !found {
        return NoMoreRegs, "", 0, 0;
      }
      name, addr, offset := Report(targets, origin);
      assert offset < UINT32_MODULUS && (offset + origin) % UINT32_MODULUS == addr by {
        OffsetIs(offset, addr, origin);
      }
      NameAndAddress(targets, Here(targets));
      rc := RcOk;
    }
  }

  lemma OffsetIs(offset: nat, addr: nat, origin: nat)
    ensures IsOffset(offset, addr, origin) <==> offset < 0x1_0000_0000 && (offset + origin) % 0x1_0000_0000 == addr
  {
  }

  lemma WrappedTwice(a: nat, b: nat, c: nat)
    ensures (a + b % UINT32_MODULUS + c % UINT32_MODULUS) % UINT32_MODULUS == (a + b + c) % UINT32_MODULUS
  {
    var q := b / UINT32_MODULUS + c / UINT32_MODULUS;
    assert a + b + c == a + b % UINT32_MODULUS + c % UINT32_MODULUS + q * UINT32_MODULUS;
    SameWrapped(a + b % UINT32_MODULUS + c % UINT32_MODULUS, q);
  }

  lemma SameWrapped(n: nat, q: nat)
    ensures (n + q * UINT32_MODULUS) % UINT32_MODULUS == n % UINT32_MODULUS
  {
  }

  /** The full name and the address of a register replication, by the fields of the three tables. */
  lemma NameAndAddress(targets: seq<Target>, y: Yield)
    requires InTables(targets, y)
    ensures var t := targets[y.t.idx];
            var g := t.regGrps[y.g.idx];
            var r := g.regs[y.r.idx];
            && YieldName(targets, y) ==
               (if t.replNumber < 0 then t.name else t.name + "[" + Dec(t.replNumber) + "]") + ":"
               + (if g.replCnt == 1 then g.name else g.name + "[" + Dec(y.g.repl) + "]") + ":"
               + (if r.replCnt == 1 then r.name else r.name + "[" + Dec(y.r.repl) + "]")
            && YieldAddr(targets, y) == (t.baseAddr + 4 * (g.baseAddr + y.g.repl * g.replWidth)
                                         + 4 * (y.r.repl * r.replWidth + r.addr)) % 0x1_0000_0000
  {
    hide RegName, GrpName, TgtName, RegAddr, GrpAddr, Dec;
    var t := targets[y.t.idx];
    var g := t.regGrps[y.g.idx];
    var r := g.regs[y.r.idx];
    TgtFacts(t);
    GrpFacts(g, y.g.repl);
    RegFacts(r, y.r.repl);
    WrappedTwice(t.baseAddr, 4 * (g.baseAddr + y.g.repl * g.replWidth), 4 * (y.r.repl * r.replWidth + r.addr));
  }

  /**
   * The first replication of group and register lies at the sum of the base addresses, and each further one of
   * either lies four times its width behind the one before, modulo 2^32.
   */
  lemma ReplicationsAreEvenlySpaced(targets: seq<Target>, y: Yield)
    requires InTables(targets, y)
    ensures var t := targets[y.t.idx];
            var g := t.regGrps[y.g.idx];
            var r := g.regs[y.r.idx];
            && YieldAddr(targets, y.(g := y.g.(repl := 0), r := y.r.(repl := 0)))
               == (t.baseAddr + 4 * g.baseAddr + 4 * r.addr) % 0x1_0000_0000
            && YieldAddr(targets, y.(r := y.r.(repl := y.r.repl + 1)))
               == (YieldAddr(targets, y) + 4 * r.replWidth) % 0x1_0000_0000
            && YieldAddr(targets, y.(g := y.g.(repl := y.g.repl + 1)))
               == (YieldAddr(targets, y) + 4 * g.replWidth) % 0x1_0000_0000
  {
    hide YieldAddr, YieldName;
    var g := targets[y.t.idx].regGrps[y.g.idx];
    var r := g.regs[y.r.idx];
    NameAndAddress(targets, y);
    NameAndAddress(targets, y.(g := y.g.(repl := 0), r := y.r.(repl := 0)));
    NameAndAddress(targets, y.(r := y.r.(repl := y.r.repl + 1)));
    NameAndAddress(targets, y.(g := y.g.(repl := y.g.repl + 1)));
    var a, b := targets[y.t.idx].baseAddr + 4 * (g.baseAddr + y.g.repl * g.replWidth),
                4 * (y.r.repl * r.replWidth + r.addr);
    OneFurther(y.r.repl, r.replWidth);
    OneFurther(y.g.repl, g.replWidth);
    WrappedTwice(4 * r.replWidth, a + b, 0);
    WrappedTwice(4 * g.replWidth, a + b, 0);
  }

  lemma OneFurther(k: nat, width: nat)
    ensures (k + 1) * width == k * width + width
  {
  }

  /** The distance from the I/O origin, modulo 2^32. */
  ghost predicate IsOffset(offset: nat, addr: nat, origin: nat) {
    offset < UINT32_MODULUS && (offset + origin) % UINT32_MODULUS == addr
  }

  lemma RegYieldsSplit(t: Hit, g: Hit, rs: seq<Hit>, rest: seq<Yield>)
    ensures rs == [] ==> RegYields(t, g, rs) + rest == rest
    ensures rs != [] ==> && (RegYields(t, g, rs) + rest)[0] == Yield(t, g, rs[0])
                         && (RegYields(t, g, rs) + rest)[1..] == RegYields(t, g, rs[1..]) + rest
  {
  }

}
