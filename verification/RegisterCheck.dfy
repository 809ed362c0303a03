/**
 * The pattern check: the triple loop that counts the selected registers, measures the longest
 * name and marks the replications it meets, and the listing that prints what the query yields.
 */
module RegisterCheck {
  import opened CText
  import opened Registers
  import opened RegisterState
  import opened RegisterQuery
  import opened ReplList

  ghost predicate AllInTables(targets: seq<Target>, ys: seq<Yield>) {
    forall y :: y in ys ==> InTables(targets, y)
  }

  /** The longest name among the yields. */
  ghost function MaxWidth(targets: seq<Target>, ys: seq<Yield>): nat
    requires AllInTables(targets, ys)
  {
    if ys == [] then 0
    else
      var last := ys[|ys| - 1];
      var before := MaxWidth(targets, ys[..|ys| - 1]);
      if |YieldName(targets, last)| > before then |YieldName(targets, last)| else before
  }

  /** An upper bound for every name, and attained by one. */
  lemma {:induction false} MaxWidthIsMaximum(targets: seq<Target>, ys: seq<Yield>)
    requires AllInTables(targets, ys)
    ensures forall y :: y in ys ==> |YieldName(targets, y)| <= MaxWidth(targets, ys)
    ensures ys != [] ==> exists y :: y in ys && |YieldName(targets, y)| == MaxWidth(targets, ys)
    decreases |ys|
  {
    hide YieldName;
    if ys != [] {
      var init := ys[..|ys| - 1];
      MaxWidthIsMaximum(targets, init);
      var last := ys[|ys| - 1];
      assert ys == init + [last];
      if init != [] {
        var y :| y in init && |YieldName(targets, y)| == MaxWidth(targets, init);
        assert y in ys && last in ys;
      } else {
        assert MaxWidth(targets, init) == 0 && last in ys;
      }
    }
  }

  ghost function TRepls(ys: seq<Yield>): set<nat> {
    set y | y in ys :: y.t.repl
  }

  ghost function GRepls(ys: seq<Yield>): set<nat> {
    set y | y in ys :: y.g.repl
  }

  ghost function RRepls(ys: seq<Yield>): set<nat> {
    set y | y in ys :: y.r.repl
  }

  /** Count, width and marks are those of the registers yielded so far. */
  ghost predicate Tallied(inst: QueryInst, targets: seq<Target>, ys: seq<Yield>, width: nat)
    requires inst.Valid()
    reads inst.r, inst.t.matchedRepls, inst.g.matchedRepls, inst.r.matchedRepls
  {
    && AllInTables(targets, ys)
    && inst.r.matchCnt == |ys| % UINT32_MODULUS
    && width == MaxWidth(targets, ys)
    && inst.t.Marked() == TRepls(ys) && inst.g.Marked() == GRepls(ys) && inst.r.Marked() == RRepls(ys)
  }

  lemma MaxWidthSnoc(targets: seq<Target>, ys: seq<Yield>, y: Yield)
    requires AllInTables(targets, ys) && InTables(targets, y)
    ensures AllInTables(targets, ys + [y])
    ensures MaxWidth(targets, ys + [y]) ==
            if |YieldName(targets, y)| > MaxWidth(targets, ys) then |YieldName(targets, y)| else MaxWidth(targets, ys)
  {
    hide YieldName;
    assert (ys + [y])[..|ys|] == ys;
  }

  lemma ReplsSnoc(ys: seq<Yield>, y: Yield)
    ensures TRepls(ys + [y]) == TRepls(ys) + {y.t.repl}
    ensures GRepls(ys + [y]) == GRepls(ys) + {y.g.repl}
    ensures RRepls(ys + [y]) == RRepls(ys) + {y.r.repl}
  {
    assert y in ys + [y];
    assert forall z :: z in ys ==> z in ys + [y];
  }

  method Mark(list: array<bv8>, repl: nat)
    requires list.Length == BitFieldSize(SYMREG_REPL_CNT_MAX) && repl <= LAST_REPL
    modifies list
    ensures Contents(list[..], 0, LAST_REPL, true) == old(Contents(list[..], 0, LAST_REPL, true)) + {repl}
  {
    hide Member;
    SetMember(list, repl, LAST_REPL, true);
  }

  /** The replication numbers of a yielded register fit the bit fields. */
  ghost predicate ReplsFit(y: Yield) {
    y.t.repl <= LAST_REPL && y.g.repl <= LAST_REPL && y.r.repl <= LAST_REPL
  }

  /** Account for the current register: the body of the innermost loop. */
  method Account(inst: QueryInst, ghost targets: seq<Target>, ghost ys: seq<Yield>, maxWidth: nat) returns (width: nat)
    requires inst.Valid() && inst.OnYield(targets) && inst.Recorded(targets) && ReplsFit(inst.Here(targets))
    requires AllInTables(targets, ys) && maxWidth == MaxWidth(targets, ys)
    requires inst.r.matchCnt == |ys + [inst.Here(targets)]| % UINT32_MODULUS
    requires inst.t.Marked() == TRepls(ys) && inst.g.Marked() == GRepls(ys) && inst.r.Marked() == RRepls(ys)
    modifies inst.t.matchedRepls, inst.g.matchedRepls, inst.r.matchedRepls
    ensures Tallied(inst, targets, ys + [inst.Here(targets)], width)
    ensures inst.OnYield(targets) && inst.AfterReg(targets) == old(inst.AfterReg(targets))
  {
    hide Contents, TgtName, GrpName, RegName, RegAddr, GrpAddr, MaxWidth, TRepls, GRepls, RRepls, AllInTables;
    hide QueryInst.AfterReg, HitsFrom;
    ghost var y := inst.Here(targets);
    MaxWidthSnoc(targets, ys, y);
    ReplsSnoc(ys, y);
    width := inst.t.matchWidth + inst.g.matchWidth + inst.r.matchWidth + 2;
    if width <= maxWidth {
      width := maxWidth;
    }
    MarkAll(inst, inst.t.curRepl, inst.g.curRepl, inst.r.curRepl);
  }

  method MarkAll(inst: QueryInst, tRepl: nat, gRepl: nat, rRepl: nat)
    requires inst.Valid() && tRepl <= LAST_REPL && gRepl <= LAST_REPL && rRepl <= LAST_REPL
    modifies inst.t.matchedRepls, inst.g.matchedRepls, inst.r.matchedRepls
    ensures inst.t.Marked() == old(inst.t.Marked()) + {tRepl}
    ensures inst.g.Marked() == old(inst.g.Marked()) + {gRepl}
    ensures inst.r.Marked() == old(inst.r.Marked()) + {rRepl}
  {
    hide Contents;
    Mark(inst.t.matchedRepls, tRepl);
    Mark(inst.g.matchedRepls, gRepl);
    Mark(inst.r.matchedRepls, rRepl);
  }

  // ---------------------------------------------------------------------------------------
  // Which names were met
  // ---------------------------------------------------------------------------------------

  ghost predicate AnyNamed(rows: seq<Entry>, sel: Selector) {
    exists i :: 0 <= i < |rows| && NameMatches(sel, rows[i].name)
  }

  lemma SeenIsAny(rows: seq<Entry>, sel: Selector)
    ensures NameSeen(rows, sel, -1, |rows| + 1) == AnyNamed(rows, sel)
  {
    if AnyNamed(rows, sel) {
      var i :| 0 <= i < |rows| && NameMatches(sel, rows[i].name);
      assert NameSeen(rows, sel, -1, |rows| + 1);
    }
  }

  lemma SeenJoin(rows: seq<Entry>, sel: Selector, a: int, b: int, c: int)
    requires a <= b <= c
    ensures NameSeen(rows, sel, a, c + 1) <==> NameSeen(rows, sel, a, b + 1) || NameSeen(rows, sel, b, c + 1)
  {
    if NameSeen(rows, sel, a, c + 1) {
      var i :| 0 <= i < |rows| && a <= i < c + 1 && NameMatches(sel, rows[i].name);
      assert i < b + 1 ==> NameSeen(rows, sel, a, b + 1);
    }
  }

  /** A group with a selected name below one of the targets `ts`. */
  ghost predicate GrpNamed(targets: seq<Target>, q: Query, ts: seq<Hit>) {
    exists t :: t in ts && AnyNamed(GrpRows(GrpTable(targets, t)), q.g)
  }

  /** A register with a selected name below one of the groups `gs` of target `t`. */
  ghost predicate RegNamedIn(targets: seq<Target>, q: Query, t: Hit, gs: seq<Hit>) {
    exists g :: g in gs && AnyNamed(RegRows(RegTable(targets, t, g)), q.r)
  }

  ghost predicate RegNamed(targets: seq<Target>, q: Query, ts: seq<Hit>) {
    exists t :: t in ts && RegNamedIn(targets, q, t, Hits(GrpRows(GrpTable(targets, t)), q.g))
  }

  lemma NamedSnoc(targets: seq<Target>, q: Query, ts: seq<Hit>, t: Hit, gs: seq<Hit>, g: Hit)
    ensures GrpNamed(targets, q, ts + [t]) <==> GrpNamed(targets, q, ts) || AnyNamed(GrpRows(GrpTable(targets, t)), q.g)
    ensures RegNamedIn(targets, q, t, gs + [g]) <==>
            RegNamedIn(targets, q, t, gs) || AnyNamed(RegRows(RegTable(targets, t, g)), q.r)
    ensures RegNamed(targets, q, ts + [t]) <==>
            RegNamed(targets, q, ts) || RegNamedIn(targets, q, t, Hits(GrpRows(GrpTable(targets, t)), q.g))
  {
    assert t in ts + [t] && g in gs + [g];
    assert forall z :: z in ts ==> z in ts + [t];
    assert forall z :: z in gs ==> z in gs + [g];
  }

  // ---------------------------------------------------------------------------------------
  // The loops
  // ---------------------------------------------------------------------------------------

  /** One round of the inner loop. */
  method CheckNextReg(inst: QueryInst, targets: seq<Target>, ghost ys: seq<Yield>, maxWidth: nat,
      ghost rows: seq<Entry>)
    returns (found: bool, width: nat, ghost zs: seq<Yield>)
    requires inst.Valid() && TablesFit(targets) && inst.OnGrp(targets) && inst.r.curIdx >= -1
    requires rows == RegRows(RegTable(targets, inst.T(), inst.G())) && inst.r.Positioned(rows)
    requires Tallied(inst, targets, ys, maxWidth)
    modifies inst.r, inst.t.matchedRepls, inst.g.matchedRepls, inst.r.matchedRepls
    ensures inst.OnGrp(targets) && Tallied(inst, targets, zs, width) && inst.r.Sel() == old(inst.r.Sel())
    ensures found ==> && inst.r.Positioned(rows) && zs + inst.AfterReg(targets) == ys + old(inst.AfterReg(targets))
                      && |inst.r.Pending(rows)| < old(|inst.r.Pending(rows)|)
    ensures !found ==> zs + inst.AfterGrp(targets) == ys + old(inst.AfterReg(targets)) && inst.r.curIdx == |rows|
    ensures old(inst.r.curIdx) <= inst.r.curIdx
    ensures inst.r.matchedAtLeastOneName <==>
            old(inst.r.matchedAtLeastOneName) || NameSeen(rows, inst.r.Sel(), old(inst.r.curIdx), inst.r.curIdx + 1)
  {
    hide Contents, HitsFrom, NameSeen, RegYields, GrpYields, TgtYields, TgtName, GrpName, GrpAddr, RegName, RegAddr;
    hide QueryInst.AfterGrp, QueryInst.AfterReg, TRepls, GRepls, RRepls, MaxWidth, AllInTables;
    width, zs := maxWidth, ys;
    ghost var left := inst.AfterReg(targets);
    found := inst.NextReg(targets);
    if found {
      ghost var y := inst.Here(targets);
      RowFits(targets, inst.T(), inst.G(), y.r);
      width := Account(inst, targets, ys, maxWidth);
      MoveFirst(ys, left, y);
      zs := ys + [y];
    }
  }

  lemma MoveFirst(ys: seq<Yield>, left: seq<Yield>, y: Yield)
    requires left != [] && left[0] == y
    ensures ys + left == (ys + [y]) + left[1..]
  {
  }

  lemma RowFits(targets: seq<Target>, t: Hit, g: Hit, r: Hit)
    requires TablesFit(targets) && InTables(targets, Yield(t, g, r))
    requires t.repl == TargetRepl(targets[t.idx])
    requires g.repl < targets[t.idx].regGrps[g.idx].replCnt
    requires r.repl < targets[t.idx].regGrps[g.idx].regs[r.idx].replCnt
    ensures ReplsFit(Yield(t, g, r))
  {
    assert targets[t.idx] in targets && targets[t.idx].regGrps[g.idx] in targets[t.idx].regGrps;
    assert targets[t.idx].regGrps[g.idx].regs[r.idx] in targets[t.idx].regGrps[g.idx].regs;
  }

  method CheckRegs(inst: QueryInst, targets: seq<Target>, ghost ys: seq<Yield>, maxWidth: nat)
    returns (width: nat, ghost zs: seq<Yield>)
    requires inst.Valid() && TablesFit(targets) && inst.OnGrp(targets)
    requires inst.r.curIdx == -1 && inst.r.curRepl == -1 && Tallied(inst, targets, ys, maxWidth)
    modifies inst.r, inst.t.matchedRepls, inst.g.matchedRepls, inst.r.matchedRepls
    ensures inst.OnGrp(targets) && Tallied(inst, targets, zs, width)
    ensures zs + inst.AfterGrp(targets) == ys + old(inst.AfterReg(targets))
    ensures inst.r.matchedAtLeastOneName <==>
            || old(inst.r.matchedAtLeastOneName)
            || AnyNamed(RegRows(RegTable(targets, inst.T(), inst.G())), inst.r.Sel())
  {
    hide Contents, HitsFrom, NameSeen, AnyNamed, RegYields, GrpYields, TgtYields, TgtName, GrpName, GrpAddr, RegName,
        RegAddr;
    hide QueryInst.AfterGrp, QueryInst.AfterReg, Tallied;
    ghost var rows := RegRows(RegTable(targets, inst.T(), inst.G()));
    ghost var sel := inst.r.Sel();
    ghost var all := ys + inst.AfterReg(targets);
    width, zs := maxWidth, ys;
    NothingSeen(rows, sel);
    var more := true;
    while more
      invariant inst.OnGrp(targets) && inst.r.Sel() == sel && -1 <= inst.r.curIdx
      invariant Tallied(inst, targets, zs, width)
      invariant more ==> inst.r.Positioned(rows) && zs + inst.AfterReg(targets) == all
      invariant !more ==> zs + inst.AfterGrp(targets) == all && inst.r.curIdx == |rows|
      invariant inst.r.matchedAtLeastOneName <==>
                old(inst.r.matchedAtLeastOneName) || NameSeen(rows, sel, -1, inst.r.curIdx + 1)
      decreases more, if inst.r.Positioned(rows) then |inst.r.Pending(rows)| else 0
    {
      ghost var at := inst.r.curIdx;
      more, width, zs := CheckNextReg(inst, targets, zs, width, rows);
      SeenJoin(rows, sel, -1, at, inst.r.curIdx);
    }
    SeenIsAny(rows, sel);
  }

  /** One round of the middle loop. */
  method CheckNextGrp(inst: QueryInst, targets: seq<Target>, ghost ys: seq<Yield>, maxWidth: nat,
      ghost rows: seq<Entry>)
    returns (found: bool, width: nat, ghost zs: seq<Yield>)
    requires inst.Valid() && TablesFit(targets) && inst.OnTgt(targets)
    requires rows == GrpRows(GrpTable(targets, inst.T())) && inst.g.Positioned(rows)
    requires inst.g.curIdx < 0 || inst.OnGrp(targets)
    requires Tallied(inst, targets, ys, maxWidth)
    modifies inst.g, inst.r, inst.t.matchedRepls, inst.g.matchedRepls, inst.r.matchedRepls
    ensures inst.OnTgt(targets) && Tallied(inst, targets, zs, width) && inst.Q() == old(inst.Q())
    ensures found ==>
              && inst.OnGrp(targets) && inst.g.Positioned(rows)
              && zs + inst.AfterGrp(targets) == ys + old(inst.AfterGrp(targets))
              && old(inst.g.Pending(rows)) != [] && inst.G() == old(inst.g.Pending(rows))[0]
              && inst.g.Pending(rows) == old(inst.g.Pending(rows))[1..]
    ensures !found ==> && zs + inst.AfterTgt(targets) == ys + old(inst.AfterGrp(targets))
                       && old(inst.g.Pending(rows)) == [] && inst.g.curIdx == |rows|
    ensures old(inst.g.curIdx) <= inst.g.curIdx
    ensures inst.g.matchedAtLeastOneName <==>
            old(inst.g.matchedAtLeastOneName) || NameSeen(rows, inst.g.Sel(), old(inst.g.curIdx), inst.g.curIdx + 1)
    ensures inst.r.matchedAtLeastOneName <==>
            || old(inst.r.matchedAtLeastOneName)
            || (found && AnyNamed(RegRows(RegTable(targets, inst.T(), inst.G())), inst.r.Sel()))
  {
    hide Contents, HitsFrom, NameSeen, AnyNamed, RegYields, GrpYields, TgtYields, TgtName, GrpName, GrpAddr;
    hide QueryInst.AfterTgt, QueryInst.AfterGrp, QueryInst.AfterReg, MaxWidth, TRepls, GRepls, RRepls;
    width, zs := maxWidth, ys;
    found := inst.NextGrp(targets);
    if found {
      width, zs := CheckRegs(inst, targets, ys, maxWidth);
    }
  }

  /** The middle loop has dealt with the groups `gs` of target `t`. */
  ghost predicate Middle(inst: QueryInst, targets: seq<Target>, q: Query, t: Hit, gs: seq<Hit>, all: seq<Yield>,
                         zs: seq<Yield>, width: nat, gNamed: bool, rNamed: bool, more: bool)
    reads inst.t, inst.g, inst.r, inst.t.repls, inst.g.repls, inst.r.repls
    reads inst.t.matchedRepls, inst.g.matchedRepls, inst.r.matchedRepls
  {
    var rows := GrpRows(GrpTable(targets, t));
    && inst.Valid() && inst.OnTgt(targets) && inst.Q() == q && inst.T() == t && -1 <= inst.g.curIdx
    && Tallied(inst, targets, zs, width)
    && (if more
        then && inst.g.Positioned(rows) && (inst.g.curIdx < 0 || inst.OnGrp(targets))
             && zs + inst.AfterGrp(targets) == all && Hits(rows, q.g) == gs + inst.g.Pending(rows)
        else zs + inst.AfterTgt(targets) == all && Hits(rows, q.g) == gs && inst.g.curIdx == |rows|)
    && (inst.g.matchedAtLeastOneName <==> gNamed || NameSeen(rows, q.g, -1, inst.g.curIdx + 1))
    && (inst.r.matchedAtLeastOneName <==> rNamed || RegNamedIn(targets, q, t, gs))
  }

  method MiddleStep(inst: QueryInst, targets: seq<Target>, ghost q: Query, ghost t: Hit, ghost gs: seq<Hit>,
                    ghost all: seq<Yield>, ghost ys: seq<Yield>, maxWidth: nat, ghost gNamed: bool, ghost rNamed: bool)
    returns (more: bool, width: nat, ghost us: seq<Hit>, ghost zs: seq<Yield>)
    requires inst.Valid() && TablesFit(targets)
              && Middle(inst, targets, q, t, gs, all, ys, maxWidth, gNamed, rNamed, true)
    modifies inst.g, inst.r, inst.t.matchedRepls, inst.g.matchedRepls, inst.r.matchedRepls
    ensures Middle(inst, targets, q, t, us, all, zs, width, gNamed, rNamed, more)
    ensures more ==>
              |inst.g.Pending(GrpRows(GrpTable(targets, t)))| < old(|inst.g.Pending(GrpRows(GrpTable(targets, t)))|)
  {
    hide Contents, HitsFrom, NameSeen, AnyNamed, RegYields, GrpYields, TgtYields, TgtName, GrpName, GrpAddr;
    hide QueryInst.AfterTgt, QueryInst.AfterGrp, Tallied, RegNamedIn, Hits, SymregState.Pending;
    ghost var rows := GrpRows(GrpTable(targets, t));
    ghost var at := inst.g.curIdx;
    ghost var pending := inst.g.Pending(rows);
    more, width, zs := CheckNextGrp(inst, targets, ys, maxWidth, rows);
    SeenJoin(rows, q.g, -1, at, inst.g.curIdx);
    us := gs;
    if more {
      us := gs + [inst.G()];
      NamedSnoc(targets, q, [], t, gs, inst.G());
      assert gs + pending == us + pending[1..];
    } else {
      assert gs + pending == gs;
    }
  }

  method CheckGrps(inst: QueryInst, targets: seq<Target>, ghost ys: seq<Yield>, maxWidth: nat)
    returns (width: nat, ghost zs: seq<Yield>)
    requires inst.Valid() && TablesFit(targets) && inst.OnTgt(targets)
    requires inst.g.curIdx == -1 && inst.g.curRepl == -1 && Tallied(inst, targets, ys, maxWidth)
    modifies inst.g, inst.r, inst.t.matchedRepls, inst.g.matchedRepls, inst.r.matchedRepls
    ensures inst.OnTgt(targets) && Tallied(inst, targets, zs, width) && inst.Q() == old(inst.Q())
    ensures zs + inst.AfterTgt(targets) == ys + old(inst.AfterGrp(targets))
    ensures inst.g.matchedAtLeastOneName <==>
            old(inst.g.matchedAtLeastOneName) || AnyNamed(GrpRows(GrpTable(targets, inst.T())), inst.g.Sel())
    ensures inst.r.matchedAtLeastOneName <==>
            || old(inst.r.matchedAtLeastOneName)
            || RegNamedIn(targets, inst.Q(), inst.T(), Hits(GrpRows(GrpTable(targets, inst.T())), inst.g.Sel()))
  {
    hide Contents, HitsFrom, NameSeen, AnyNamed, RegYields, GrpYields, TgtYields, TgtName, GrpName, GrpAddr;
    hide QueryInst.AfterTgt, QueryInst.AfterGrp, Tallied, RegNamedIn;
    ghost var q, t := inst.Q(), inst.T();
    ghost var rows := GrpRows(GrpTable(targets, t));
    ghost var all := ys + inst.AfterGrp(targets);
    ghost var gNamed, rNamed := inst.g.matchedAtLeastOneName, inst.r.matchedAtLeastOneName;
    ghost var gs: seq<Hit> := [];
    width, zs := maxWidth, ys;
    NothingSeen(rows, q.g);
    NothingNamed(targets, q, t);
    assert gs + inst.g.Pending(rows) == inst.g.Pending(rows);
    var more := true;
    while more
      invariant Middle(inst, targets, q, t, gs, all, zs, width, gNamed, rNamed, more)
      decreases more, if inst.g.Positioned(rows) then |inst.g.Pending(rows)| else 0
    {
      more, width, gs, zs := MiddleStep(inst, targets, q, t, gs, all, zs, width, gNamed, rNamed);
    }
    SeenIsAny(rows, q.g);
  }

  lemma NothingNamed(targets: seq<Target>, q: Query, t: Hit)
    ensures !GrpNamed(targets, q, []) && !RegNamed(targets, q, []) && !RegNamedIn(targets, q, t, [])
  {
  }

  /** One round of the outer loop. */
  method CheckNextTgt(inst: QueryInst, targets: seq<Target>, ghost ys: seq<Yield>, maxWidth: nat,
      ghost rows: seq<Entry>)
    returns (found: bool, width: nat, ghost zs: seq<Yield>)
    requires inst.Valid() && TablesFit(targets) && rows == TgtRows(targets)
    requires inst.t.Positioned(rows) && (inst.t.curIdx < 0 || inst.OnTgt(targets))
    requires Tallied(inst, targets, ys, maxWidth)
    modifies inst.t, inst.g, inst.r, inst.t.matchedRepls, inst.g.matchedRepls, inst.r.matchedRepls
    ensures Tallied(inst, targets, zs, width) && inst.Q() == old(inst.Q())
    ensures found ==>
              && inst.OnTgt(targets) && inst.t.Positioned(rows)
              && zs + inst.AfterTgt(targets) == ys + old(inst.AfterTgt(targets))
              && old(inst.t.Pending(rows)) != [] && inst.T() == old(inst.t.Pending(rows))[0]
              && inst.t.Pending(rows) == old(inst.t.Pending(rows))[1..]
    ensures !found ==>
              zs == ys + old(inst.AfterTgt(targets)) && old(inst.t.Pending(rows)) == [] && inst.t.curIdx == |rows|
    ensures old(inst.t.curIdx) <= inst.t.curIdx
    ensures inst.t.matchedAtLeastOneName <==>
            old(inst.t.matchedAtLeastOneName) || NameSeen(rows, inst.t.Sel(), old(inst.t.curIdx), inst.t.curIdx + 1)
    ensures inst.g.matchedAtLeastOneName <==>
            || old(inst.g.matchedAtLeastOneName)
            || (found && AnyNamed(GrpRows(GrpTable(targets, inst.T())), inst.g.Sel()))
    ensures inst.r.matchedAtLeastOneName <==>
            || old(inst.r.matchedAtLeastOneName)
            || (found && RegNamedIn(targets, inst.Q(), inst.T(),
                Hits(GrpRows(GrpTable(targets, inst.T())), inst.g.Sel())))
  {
    hide Contents, HitsFrom, NameSeen, AnyNamed, RegNamedIn, RegYields, GrpYields, TgtYields, TgtName, GrpName, GrpAddr;
    hide QueryInst.AfterTgt, QueryInst.AfterGrp, QueryInst.AfterReg, MaxWidth, TRepls, GRepls, RRepls;
    width, zs := maxWidth, ys;
    found := inst.NextTgt(targets);
    if found {
      width, zs := CheckGrps(inst, targets, ys, maxWidth);
    } else {
      assert ys + [] == ys;
    }
  }

  method StartCheck(inst: QueryInst, ghost targets: seq<Target>)
    requires inst.Valid()
    modifies inst.t, inst.g, inst.r, inst.t.matchedRepls, inst.g.matchedRepls, inst.r.matchedRepls
    ensures inst.Q() == old(inst.Q()) && Tallied(inst, targets, [], 0)
    ensures inst.t.curIdx == -1 && inst.t.Positioned(TgtRows(targets))
    ensures inst.AfterTgt(targets) == All(targets, inst.Q())
    ensures inst.t.Pending(TgtRows(targets)) == Hits(TgtRows(targets), inst.t.Sel())
    ensures !inst.t.matchedAtLeastOneName && !inst.g.matchedAtLeastOneName && !inst.r.matchedAtLeastOneName
  {
    hide Contents, HitsFrom, TgtYields;
    inst.ClearAll(targets);
  }

  /** The outer loop has dealt with the targets `ts` and accounted for the registers `zs`. */
  ghost predicate Outer(inst: QueryInst, targets: seq<Target>, q: Query, ts: seq<Hit>, zs: seq<Yield>, width: nat,
      more: bool)
    reads inst.t, inst.g, inst.r, inst.t.repls, inst.g.repls, inst.r.repls
    reads inst.t.matchedRepls, inst.g.matchedRepls, inst.r.matchedRepls
  {
    var rows := TgtRows(targets);
    && inst.Valid() && inst.Q() == q && -1 <= inst.t.curIdx && Tallied(inst, targets, zs, width)
    && (if more
        then && inst.t.Positioned(rows) && (inst.t.curIdx < 0 || inst.OnTgt(targets))
             && zs + inst.AfterTgt(targets) == All(targets, q) && Hits(rows, q.t) == ts + inst.t.Pending(rows)
        else zs == All(targets, q) && Hits(rows, q.t) == ts && inst.t.curIdx == |rows|)
    && (inst.t.matchedAtLeastOneName <==> NameSeen(rows, q.t, -1, inst.t.curIdx + 1))
    && (inst.g.matchedAtLeastOneName <==> GrpNamed(targets, q, ts))
    && (inst.r.matchedAtLeastOneName <==> RegNamed(targets, q, ts))
  }

  method OuterStep(inst: QueryInst, targets: seq<Target>, ghost q: Query, ghost ts: seq<Hit>, ghost ys: seq<Yield>,
      maxWidth: nat)
    returns (more: bool, width: nat, ghost us: seq<Hit>, ghost zs: seq<Yield>)
    requires inst.Valid() && TablesFit(targets) && Outer(inst, targets, q, ts, ys, maxWidth, true)
    modifies inst.t, inst.g, inst.r, inst.t.matchedRepls, inst.g.matchedRepls, inst.r.matchedRepls
    ensures Outer(inst, targets, q, us, zs, width, more)
    ensures more ==> |inst.t.Pending(TgtRows(targets))| < old(|inst.t.Pending(TgtRows(targets))|)
  {
    hide Contents, HitsFrom, NameSeen, AnyNamed, RegYields, GrpYields, TgtYields, TgtName, GrpName, GrpAddr;
    hide GrpNamed, RegNamed, RegNamedIn, All, QueryInst.AfterTgt, Tallied, Hits, SymregState.Pending;
    ghost var rows := TgtRows(targets);
    ghost var at := inst.t.curIdx;
    ghost var pending := inst.t.Pending(rows);
    more, width, zs := CheckNextTgt(inst, targets, ys, maxWidth, rows);
    SeenJoin(rows, q.t, -1, at, inst.t.curIdx);
    us := ts;
    if more {
      us := ts + [inst.T()];
      NamedSnoc(targets, q, ts, inst.T(), [], inst.T());
      assert ts + pending == us + pending[1..];
    } else {
      assert ts + pending == ts;
    }
  }

  method CheckTgts(inst: QueryInst, targets: seq<Target>) returns (width: nat)
    requires inst.Valid() && TablesFit(targets)
    modifies inst.t, inst.g, inst.r, inst.t.matchedRepls, inst.g.matchedRepls, inst.r.matchedRepls
    ensures inst.Q() == old(inst.Q()) && Tallied(inst, targets, All(targets, inst.Q()), width)
    ensures inst.t.matchedAtLeastOneName <==> AnyNamed(TgtRows(targets), inst.t.Sel())
    ensures inst.g.matchedAtLeastOneName <==> GrpNamed(targets, inst.Q(), Hits(TgtRows(targets), inst.t.Sel()))
    ensures inst.r.matchedAtLeastOneName <==> RegNamed(targets, inst.Q(), Hits(TgtRows(targets), inst.t.Sel()))
  {
    hide Contents, Hits, HitsFrom, NameSeen, AnyNamed, GrpNamed, RegNamed, All, QueryInst.AfterTgt, Tallied,
        SymregState.Pending;
    StartCheck(inst, targets);
    ghost var q := inst.Q();
    ghost var ts, zs := [], [];
    width := 0;
    NothingSeen(TgtRows(targets), q.t);
    NothingNamed(targets, q, Hit(0, 0));
    NothingDone(ts, zs, Hits(TgtRows(targets), q.t), All(targets, q));
    var more := true;
    while more
      invariant Outer(inst, targets, q, ts, zs, width, more)
      decreases more, if inst.t.Positioned(TgtRows(targets)) then |inst.t.Pending(TgtRows(targets))| else 0
    {
      more, width, ts, zs := OuterStep(inst, targets, q, ts, zs, width);
    }
    SeenIsAny(TgtRows(targets), q.t);
  }

  lemma NothingDone(ts: seq<Hit>, zs: seq<Yield>, hits: seq<Hit>, all: seq<Yield>)
    requires ts == [] && zs == []
    ensures ts + hits == hits && zs + all == all
  {
  }

  method AllReplsPresent(requested: array<bv8>, matched: array<bv8>) returns (present: bool)
    requires requested.Length == matched.Length == BitFieldSize(SYMREG_REPL_CNT_MAX)
    ensures present <==> Contents(requested[..], 0, LAST_REPL, true) <= Contents(matched[..], 0, LAST_REPL, true)
  {
    hide Member;
    var repl := 0;
    while repl < SYMREG_REPL_CNT_MAX
      invariant 0 <= repl <= SYMREG_REPL_CNT_MAX
      invariant forall k: nat :: k < repl && Member(requested[..], k, true) ==> Member(matched[..], k, true)
    {
      if Member(requested[..], repl, true) && !Member(matched[..], repl, true) {
        assert repl in Contents(requested[..], 0, LAST_REPL, true);
        return false;
      }
      repl := repl + 1;
    }
    return true;
  }

  /** All explicitly listed replications are among `met`. */
  ghost predicate ListedAreMet(sel: Selector, met: set<nat>) {
    sel.allRepls || sel.repls <= met
  }

  /** The result of the check, by what the tables hold. */
  ghost function CheckResult(targets: seq<Target>, q: Query): QueryRc {
    var ys := All(targets, q);
    var ts := Hits(TgtRows(targets), q.t);
    if !AnyNamed(TgtRows(targets), q.t) then NoSuchTgt
    else if !GrpNamed(targets, q, ts) then NoSuchGrp
    else if !RegNamed(targets, q, ts) then NoSuchReg
    else if !ListedAreMet(q.t, TRepls(ys)) then NoSuchReplTgt
    else if !ListedAreMet(q.g, GRepls(ys)) then NoSuchReplGrp
    else if !ListedAreMet(q.r, RRepls(ys)) then NoSuchReplReg
    else RcOk
  }

  method CheckPattern(inst: QueryInst, targets: seq<Target>) returns (rc: QueryRc, maxWidth: nat, regCnt: nat)
    requires inst.Valid() && TablesFit(targets)
    modifies inst.t, inst.g, inst.r, inst.t.matchedRepls, inst.g.matchedRepls, inst.r.matchedRepls
    ensures inst.Q() == old(inst.Q()) && rc == CheckResult(targets, inst.Q())
    ensures AllInTables(targets, All(targets, inst.Q())) && maxWidth == MaxWidth(targets, All(targets, inst.Q()))
    ensures regCnt == |All(targets, inst.Q())| % UINT32_MODULUS
  {
    hide Contents, HitsFrom, AnyNamed, GrpNamed, RegNamed, All, TRepls, GRepls, RRepls, MaxWidth;
    maxWidth := CheckTgts(inst, targets);
    regCnt := inst.r.matchCnt;
    var tgts := AllReplsPresent(inst.t.repls, inst.t.matchedRepls);
    var grps := AllReplsPresent(inst.g.repls, inst.g.matchedRepls);
    var regs := AllReplsPresent(inst.r.repls, inst.r.matchedRepls);
    rc := if !inst.t.matchedAtLeastOneName then NoSuchTgt
          else if !inst.g.matchedAtLeastOneName then NoSuchGrp
          else if !inst.r.matchedAtLeastOneName then NoSuchReg
          else if !inst.t.allRepls && !tgts then NoSuchReplTgt
          else if !inst.g.allRepls && !grps then NoSuchReplGrp
          else if !inst.r.allRepls && !regs then NoSuchReplReg
          else RcOk;
  }

  lemma GrpNamedMeans(targets: seq<Target>, q: Query)
    ensures AnyNamed(TgtRows(targets), q.t) <==> exists i :: 0 <= i < |targets| && NameMatches(q.t, targets[i].name)
    ensures GrpNamed(targets, q, Hits(TgtRows(targets), q.t)) <==>
            exists t: Hit, i :: t.idx < |targets| && IsHit(TgtRows(targets), q.t, t)
                                && 0 <= i < |targets[t.idx].regGrps|
                                && NameMatches(q.g, targets[t.idx].regGrps[i].name)
  {
    hide NameMatches, Hits;
    HitsExact(TgtRows(targets), q.t);
    if GrpNamed(targets, q, Hits(TgtRows(targets), q.t)) {
      var t :| t in Hits(TgtRows(targets), q.t) && AnyNamed(GrpRows(GrpTable(targets, t)), q.g);
      assert IsHit(TgtRows(targets), q.t, t);
      var i :| 0 <= i < |targets[t.idx].regGrps| && NameMatches(q.g, GrpRows(targets[t.idx].regGrps)[i].name);
      assert NameMatches(q.g, targets[t.idx].regGrps[i].name);
    }
    forall t: Hit, i | t.idx < |targets| && IsHit(TgtRows(targets), q.t, t) && 0 <= i < |targets[t.idx].regGrps|
                       && NameMatches(q.g, targets[t.idx].regGrps[i].name)
      ensures GrpNamed(targets, q, Hits(TgtRows(targets), q.t))
    {
      assert NameMatches(q.g, GrpRows(targets[t.idx].regGrps)[i].name);
    }
  }

  lemma RegNamedMeans(targets: seq<Target>, q: Query)
    ensures RegNamed(targets, q, Hits(TgtRows(targets), q.t)) <==>
            exists t: Hit, g: Hit, i ::
              && t.idx < |targets| && IsHit(TgtRows(targets), q.t, t)
              && g.idx < |targets[t.idx].regGrps| && IsHit(GrpRows(targets[t.idx].regGrps), q.g, g)
              && 0 <= i < |targets[t.idx].regGrps[g.idx].regs|
              && NameMatches(q.r, targets[t.idx].regGrps[g.idx].regs[i].name)
  {
    hide NameMatches, Hits;
    HitsExact(TgtRows(targets), q.t);
    if RegNamed(targets, q, Hits(TgtRows(targets), q.t)) {
      var t :| t in Hits(TgtRows(targets), q.t) && RegNamedIn(targets, q, t, Hits(GrpRows(GrpTable(targets, t)), q.g));
      HitsExact(GrpRows(GrpTable(targets, t)), q.g);
      var g :| g in Hits(GrpRows(GrpTable(targets, t)), q.g) && AnyNamed(RegRows(RegTable(targets, t, g)), q.r);
      assert IsHit(TgtRows(targets), q.t, t) && IsHit(GrpRows(targets[t.idx].regGrps), q.g, g);
      var regs := targets[t.idx].regGrps[g.idx].regs;
      var i :| 0 <= i < |regs| && NameMatches(q.r, RegRows(regs)[i].name);
      assert NameMatches(q.r, regs[i].name);
    }
    forall t: Hit, g: Hit, i
      | && t.idx < |targets| && IsHit(TgtRows(targets), q.t, t)
        && g.idx < |targets[t.idx].regGrps| && IsHit(GrpRows(targets[t.idx].regGrps), q.g, g)
        && 0 <= i < |targets[t.idx].regGrps[g.idx].regs|
        && NameMatches(q.r, targets[t.idx].regGrps[g.idx].regs[i].name)
      ensures RegNamed(targets, q, Hits(TgtRows(targets), q.t))
    {
      HitsExact(GrpRows(GrpTable(targets, t)), q.g);
      assert NameMatches(q.r, RegRows(targets[t.idx].regGrps[g.idx].regs)[i].name);
      assert RegNamedIn(targets, q, t, Hits(GrpRows(GrpTable(targets, t)), q.g));
    }
  }

  lemma MetMeans(targets: seq<Target>, q: Query)
    ensures var ys := All(targets, q);
            && (ListedAreMet(q.t, TRepls(ys)) <==>
                q.t.allRepls || forall k :: k in q.t.repls ==> exists y :: Selected(targets, q, y) && y.t.repl == k)
            && (ListedAreMet(q.g, GRepls(ys)) <==>
                q.g.allRepls || forall k :: k in q.g.repls ==> exists y :: Selected(targets, q, y) && y.g.repl == k)
            && (ListedAreMet(q.r, RRepls(ys)) <==>
                q.r.allRepls || forall k :: k in q.r.repls ==> exists y :: Selected(targets, q, y) && y.r.repl == k)
  {
    hide All, Selected;
    AllIsExact(targets, q);
  }

  /**
   * The check succeeds exactly when every component met a selected name below the hits of the
   * component before it, and every listed replication occurs in some selected register. Otherwise it
   * complains about the first of these six conditions that does not hold.
   */
  lemma CheckSucceedsExactly(targets: seq<Target>, q: Query)
    ensures var named1 := exists i :: 0 <= i < |targets| && NameMatches(q.t, targets[i].name);
            var named2 := exists t: Hit, i :: t.idx < |targets| && IsHit(TgtRows(targets), q.t, t)
                                                && 0 <= i < |targets[t.idx].regGrps|
                                                && NameMatches(q.g, targets[t.idx].regGrps[i].name);
            var named3 := exists t: Hit, g: Hit, i ::
              && t.idx < |targets| && IsHit(TgtRows(targets), q.t, t)
              && g.idx < |targets[t.idx].regGrps| && IsHit(GrpRows(targets[t.idx].regGrps), q.g, g)
              && 0 <= i < |targets[t.idx].regGrps[g.idx].regs|
              && NameMatches(q.r, targets[t.idx].regGrps[g.idx].regs[i].name);
            var met1 := || q.t.allRepls
                        || forall k :: k in q.t.repls ==> exists y :: Selected(targets, q, y) && y.t.repl == k;
            var met2 := || q.g.allRepls
                        || forall k :: k in q.g.repls ==> exists y :: Selected(targets, q, y) && y.g.repl == k;
            var met3 := || q.r.allRepls
                        || forall k :: k in q.r.repls ==> exists y :: Selected(targets, q, y) && y.r.repl == k;
            CheckResult(targets, q) ==
            if !named1 then NoSuchTgt else if !named2 then NoSuchGrp else if !named3 then NoSuchReg
            else if !met1 then NoSuchReplTgt else if !met2 then NoSuchReplGrp else if !met3 then NoSuchReplReg
            else RcOk
  {
    hide Hits, All, Selected, NameMatches, IsHit, AnyNamed, GrpNamed, RegNamed, ListedAreMet;
    GrpNamedMeans(targets, q);
    RegNamedMeans(targets, q);
    MetMeans(targets, q);
  }

  lemma HitsExact(rows: seq<Entry>, sel: Selector)
    ensures forall h :: h in Hits(rows, sel) <==> IsHit(rows, sel, h)
  {
    HitsFromAreTheHits(rows, sel, 0, 0);
  }

  // ---------------------------------------------------------------------------------------
  // The listing
  // ---------------------------------------------------------------------------------------

  /** One name and address per register, in the same order. */
  ghost predicate Listed(targets: seq<Target>, ys: seq<Yield>, names: seq<CString>, addrs: seq<nat>)
    requires AllInTables(targets, ys)
  {
    && |names| == |addrs| == |ys|
    && forall i :: 0 <= i < |ys| ==> names[i] == YieldName(targets, ys[i]) && addrs[i] == YieldAddr(targets, ys[i])
  }

  lemma ListedSnoc(targets: seq<Target>, ys: seq<Yield>, k: nat, names: seq<CString>, addrs: seq<nat>)
    requires AllInTables(targets, ys) && k < |ys| && Listed(targets, ys[..k], names, addrs)
    ensures AllInTables(targets, ys[..k + 1])
    ensures Listed(targets, ys[..k + 1], names + [YieldName(targets, ys[k])], addrs + [YieldAddr(targets, ys[k])])
  {
    hide YieldName, YieldAddr;
    assert ys[..k + 1] == ys[..k] + [ys[k]];
  }

  // Whether the k-th access to a register, at the given word offset, succeeds
  type Access = (nat, nat) -> bool

  /** The word offset that a register is accessed at. */
  ghost function WordOf(targets: seq<Target>, y: Yield, origin: nat): nat
    requires InTables(targets, y) && origin <= UINT32_MODULUS
  {
    (YieldAddr(targets, y) + UINT32_MODULUS - origin) % UINT32_MODULUS / 4
  }

  /** The first `n` registers can be accessed; the one behind them, if any, cannot. */
  ghost predicate AccessedUpTo(targets: seq<Target>, ys: seq<Yield>, origin: nat, access: Access, n: nat)
    requires AllInTables(targets, ys) && origin <= UINT32_MODULUS
  {
    && n <= |ys|
    && (forall i :: 0 <= i < n ==> access(i, WordOf(targets, ys[i], origin)))
    && (n < |ys| ==> !access(n, WordOf(targets, ys[n], origin)))
  }

  lemma OffsetIsUnique(offset: nat, addr: nat, origin: nat)
    requires IsOffset(offset, addr, origin) && addr < UINT32_MODULUS && origin < UINT32_MODULUS
    ensures offset == (addr + UINT32_MODULUS - origin) % UINT32_MODULUS
  {
    if offset + origin < UINT32_MODULUS {
      assert addr == offset + origin;
    } else {
      assert addr == offset + origin - UINT32_MODULUS;
    }
  }

  lemma AccessedAt(targets: seq<Target>, y: Yield, offset: nat, origin: nat)
    requires InTables(targets, y) && origin < UINT32_MODULUS && IsOffset(offset, YieldAddr(targets, y), origin)
    ensures offset / 4 == WordOf(targets, y, origin)
  {
    OffsetIsUnique(offset, YieldAddr(targets, y), origin);
  }

  /** The first `k` registers are listed and can be accessed. */
  ghost predicate ListedUpTo(targets: seq<Target>, ys: seq<Yield>, origin: nat, access: Access, k: nat,
                             names: seq<CString>, addrs: seq<nat>)
    requires AllInTables(targets, ys) && origin <= UINT32_MODULUS
  {
    && k <= |ys| && AllInTables(targets, ys[..k]) && Listed(targets, ys[..k], names, addrs)
    && forall i :: 0 <= i < k ==> access(i, WordOf(targets, ys[i], origin))
  }

  lemma ListedNone(targets: seq<Target>, ys: seq<Yield>, origin: nat, access: Access)
    requires AllInTables(targets, ys) && origin <= UINT32_MODULUS
    ensures ListedUpTo(targets, ys, origin, access, 0, [], [])
  {
  }

  lemma ListedOneMore(targets: seq<Target>, ys: seq<Yield>, origin: nat, access: Access, k: nat,
                      names: seq<CString>, addrs: seq<nat>, offset: nat)
    requires AllInTables(targets, ys) && origin < UINT32_MODULUS && k < |ys|
    requires ListedUpTo(targets, ys, origin, access, k, names, addrs)
              && IsOffset(offset, YieldAddr(targets, ys[k]), origin)
    ensures |names| == k
    ensures if access(k, offset / 4)
            then ListedUpTo(targets, ys, origin, access, k + 1,
                            names + [YieldName(targets, ys[k])], addrs + [YieldAddr(targets, ys[k])])
            else AccessedUpTo(targets, ys, origin, access, k) && Listed(targets, ys[..k], names, addrs)
  {
    hide YieldName, YieldAddr, WordOf, Listed, IsOffset;
    assert |names| == k by { ListedLength(targets, ys[..k], names, addrs); }
    AccessedAt(targets, ys[k], offset, origin);
    ListedSnoc(targets, ys, k, names, addrs);
  }

  lemma ListedLength(targets: seq<Target>, ys: seq<Yield>, names: seq<CString>, addrs: seq<nat>)
    requires AllInTables(targets, ys) && Listed(targets, ys, names, addrs)
    ensures |names| == |ys|
  {
  }

  lemma ListedAll(targets: seq<Target>, ys: seq<Yield>, origin: nat, access: Access, names: seq<CString>,
      addrs: seq<nat>)
    requires AllInTables(targets, ys) && origin <= UINT32_MODULUS
    requires ListedUpTo(targets, ys, origin, access, |ys|, names, addrs)
    ensures |names| == |ys| && AccessedUpTo(targets, ys, origin, access, |ys|)
              && Listed(targets, ys[..|names|], names, addrs)
  {
    hide YieldName, YieldAddr, WordOf;
    assert ys[..|ys|] == ys;
  }

  /** The query stands on a register, and `rest` is still to come. */
  ghost predicate Behind(inst: QueryInst, targets: seq<Target>, rest: seq<Yield>)
    reads inst.t, inst.g, inst.r, inst.t.repls, inst.g.repls, inst.r.repls
  {
    inst.Valid() && inst.OnYield(targets) && inst.AfterReg(targets) == rest
  }

  /** The first or next register, by its place in the enumeration. */
  method NextListed(inst: QueryInst, targets: seq<Target>, origin: nat, next: bool, ghost todo: seq<Yield>)
    returns (rc: QueryRc, name: CString, addr: nat, offset: nat)
    requires inst.Valid() && TablesFit(targets) && origin < UINT32_MODULUS
    requires if next then Behind(inst, targets, todo) else todo == All(targets, inst.Q())
    modifies inst.t, inst.g, inst.r, inst.t.matchedRepls, inst.g.matchedRepls, inst.r.matchedRepls
    ensures inst.Q() == old(inst.Q()) && (rc == RcOk <==> todo != [])
    ensures rc == RcOk ==>
              && Behind(inst, targets, todo[1..]) && InTables(targets, todo[0])
              && name == YieldName(targets, todo[0]) && addr == YieldAddr(targets, todo[0])
              && IsOffset(offset, addr, origin)
  {
    hide Contents, HitsFrom, All, TgtName, GrpName, YieldName, YieldAddr, QueryInst.AfterReg;
    rc, name, addr, offset := inst.QueryNext(targets, origin, next);
  }

  /**
   * Asks for the first register, then for the next one, and accesses each, until there are no more or
   * an access fails.
   */
  method ListRegs(inst: QueryInst, targets: seq<Target>, origin: nat, access: Access)
    returns (names: seq<CString>, addrs: seq<nat>, failed: bool)
    requires inst.Valid() && TablesFit(targets) && origin < UINT32_MODULUS
    requires AllInTables(targets, All(targets, inst.Q()))
    modifies inst.t, inst.g, inst.r, inst.t.matchedRepls, inst.g.matchedRepls, inst.r.matchedRepls
    ensures inst.Q() == old(inst.Q())
    ensures var all := All(targets, inst.Q());
            && AllInTables(targets, all) && |names| <= |all| && AccessedUpTo(targets, all, origin, access, |names|)
            && Listed(targets, all[..|names|], names, addrs)
            && (failed <==> |names| < |all|)
  {
    hide Contents, HitsFrom, All, TgtName, GrpName, YieldName, YieldAddr, QueryInst.AfterReg, Listed;
    hide WordOf, IsOffset, ListedUpTo, AccessedUpTo, AllInTables, TablesFit, Behind;
    ghost var q := inst.Q();
    ghost var all := All(targets, q);
    names, addrs := [], [];
    var k, next := 0, false;
    ListedNone(targets, all, origin, access);
    NothingListed(targets, all);
    while true
      invariant inst.Q() == q && 0 <= k <= |all| && ListedUpTo(targets, all, origin, access, k, names, addrs)
      invariant if next then Behind(inst, targets, all[k..]) else k == 0
      decreases |all| - k
    {
      var more, name, addr, offset := NextListed(inst, targets, origin, next, all[k..]);
      if more != RcOk {
        break;
      }
      ListedOneMore(targets, all, origin, access, k, names, addrs, offset);
      if !access(k, offset / 4) {
        return names, addrs, true;
      }
      names, addrs, k := names + [name], addrs + [addr], k + 1;
      next := true;
    }
    ListedAll(targets, all, origin, access, names, addrs);
    failed := false;
  }

  /** What is listed, and which word accesses have succeeded and failed. */
  lemma ListedMeans(targets: seq<Target>, ys: seq<Yield>, origin: nat, access: Access, names: seq<CString>,
                    addrs: seq<nat>)
    requires AllInTables(targets, ys) && origin < UINT32_MODULUS && |names| <= |ys|
    requires AllInTables(targets, ys[..|names|]) && Listed(targets, ys[..|names|], names, addrs)
    requires AccessedUpTo(targets, ys, origin, access, |names|)
    ensures |addrs| == |names|
    ensures forall i :: 0 <= i < |names| ==>
              names[i] == YieldName(targets, ys[i]) && addrs[i] == YieldAddr(targets, ys[i])
    ensures forall i :: 0 <= i < |names| ==> access(i, (addrs[i] + 0x1_0000_0000 - origin) % 0x1_0000_0000 / 4)
    ensures |names| < |ys| ==>
              !access(|names|, (YieldAddr(targets, ys[|names|]) + 0x1_0000_0000 - origin) % 0x1_0000_0000 / 4)
  {
    hide YieldName, YieldAddr;
    forall i | 0 <= i < |names|
      ensures names[i] == YieldName(targets, ys[i]) && addrs[i] == YieldAddr(targets, ys[i])
      ensures access(i, (addrs[i] + 0x1_0000_0000 - origin) % 0x1_0000_0000 / 4)
    {
      assert ys[..|names|][i] == ys[i];
    }
  }

  lemma NothingListed(targets: seq<Target>, ys: seq<Yield>)
    requires AllInTables(targets, ys)
    ensures ys[..0] == [] && Listed(targets, ys[..0], [], [])
    ensures forall n: nat :: n <= |ys| ==> AllInTables(targets, ys[..n])
  {
  }

  lemma WidthsFit(targets: seq<Target>, ys: seq<Yield>, names: seq<CString>, addrs: seq<nat>)
    requires AllInTables(targets, ys) && |names| <= |ys| && AllInTables(targets, ys[..|names|])
    requires Listed(targets, ys[..|names|], names, addrs)
    ensures forall i :: 0 <= i < |names| ==> |names[i]| <= MaxWidth(targets, ys)
    ensures |names| == |ys| && names != [] ==> exists i :: 0 <= i < |names| && |names[i]| == MaxWidth(targets, ys)
  {
    hide YieldName, YieldAddr, MaxWidth;
    MaxWidthIsMaximum(targets, ys);
    forall i | 0 <= i < |names|
      ensures |names[i]| <= MaxWidth(targets, ys)
    {
      assert ys[..|names|][i] == ys[i] && ys[i] in ys;
    }
    if |names| == |ys| && ys != [] {
      assert ys[..|names|] == ys;
      var y :| y in ys && |YieldName(targets, y)| == MaxWidth(targets, ys);
      var i :| 0 <= i < |ys| && ys[i] == y;
      assert |names[i]| == MaxWidth(targets, ys);
    }
  }
}
