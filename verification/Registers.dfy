/**
 * The register tables and what a query selects from them: the nested-loop enumeration of all
 * matching (target, group, register) replications, and its characterisation.
 */
module Registers {
  import opened CText
  import Glob

  datatype Reg = Reg(name: CString, addr: nat, replCnt: nat, replWidth: nat)
  datatype RegGrp = RegGrp(name: CString, baseAddr: nat, replCnt: nat, replWidth: nat, regs: seq<Reg>)
  datatype Target = Target(name: CString, replNumber: int, baseAddr: nat, regGrps: seq<RegGrp>)

  /** One pattern component: a name or glob, and the wanted replications. */
  datatype Selector = Selector(pattern: CString, wildcards: bool, allRepls: bool, repls: set<nat>)

  ghost predicate NameMatches(sel: Selector, name: CString) {
    if sel.wildcards then Glob.Matches(sel.pattern, name) else sel.pattern == name
  }

  ghost predicate ReplMatches(sel: Selector, repl: nat) {
    sel.allRepls || repl in sel.repls
  }

  /** A table row, reduced to its name and its replication numbers first..end-1. */
  datatype Entry = Entry(name: CString, first: nat, end: nat)

  /** A replication of a table row. */
  datatype Hit = Hit(idx: nat, repl: nat)

  function RegEntry(r: Reg): Entry {
    Entry(r.name, 0, r.replCnt)
  }

  function GrpEntry(g: RegGrp): Entry {
    Entry(g.name, 0, g.replCnt)
  }

  /** A target has one replication; a target without replication number counts as number 0. */
  function TargetRepl(t: Target): nat {
    if t.replNumber < 0 then 0 else t.replNumber
  }

  function TgtEntry(t: Target): Entry {
    Entry(t.name, TargetRepl(t), TargetRepl(t) + 1)
  }

  function RegRows(regs: seq<Reg>): (rows: seq<Entry>)
    ensures |rows| == |regs| && forall i :: 0 <= i < |regs| ==> rows[i] == RegEntry(regs[i])
  {
    seq(|regs|, i requires 0 <= i < |regs| => RegEntry(regs[i]))
  }

  function GrpRows(grps: seq<RegGrp>): (rows: seq<Entry>)
    ensures |rows| == |grps| && forall i :: 0 <= i < |grps| ==> rows[i] == GrpEntry(grps[i])
  {
    seq(|grps|, i requires 0 <= i < |grps| => GrpEntry(grps[i]))
  }

  function TgtRows(targets: seq<Target>): (rows: seq<Entry>)
    ensures |rows| == |targets| && forall i :: 0 <= i < |targets| ==> rows[i] == TgtEntry(targets[i])
  {
    seq(|targets|, i requires 0 <= i < |targets| => TgtEntry(targets[i]))
  }

  ghost predicate IsHit(rows: seq<Entry>, sel: Selector, h: Hit) {
    && h.idx < |rows|
    && NameMatches(sel, rows[h.idx].name)
    && rows[h.idx].first <= h.repl < rows[h.idx].end
    && ReplMatches(sel, h.repl)
  }

  /** All hits from row `i`, replication `k` on, row by row and in ascending replication order. */
  ghost function HitsFrom(rows: seq<Entry>, sel: Selector, i: nat, k: nat): seq<Hit>
    decreases |rows| - i, if i < |rows| then rows[i].end - k else 0
  {
    if i >= |rows| then []
    else if !NameMatches(sel, rows[i].name) || k >= rows[i].end then HitsFrom(rows, sel, i + 1, 0)
    else (if IsHit(rows, sel, Hit(i, k)) then [Hit(i, k)] else []) + HitsFrom(rows, sel, i, k + 1)
  }

  lemma HitsBehindRow(rows: seq<Entry>, sel: Selector, i: nat, k: nat)
    requires i < |rows| && (!NameMatches(sel, rows[i].name) || k >= rows[i].end)
    ensures HitsFrom(rows, sel, i, k) == HitsFrom(rows, sel, i + 1, 0)
  {
  }

  lemma HitsBehindRepl(rows: seq<Entry>, sel: Selector, i: nat, k: nat)
    requires i < |rows| && NameMatches(sel, rows[i].name) && rows[i].first <= k < rows[i].end
    ensures var rest := HitsFrom(rows, sel, i, k + 1);
            if ReplMatches(sel, k)
            then HitsFrom(rows, sel, i, k) != [] && HitsFrom(rows, sel, i, k)[0] == Hit(i, k)
                 && HitsFrom(rows, sel, i, k)[1..] == rest
            else HitsFrom(rows, sel, i, k) == rest
  {
  }

  /** A row with a single replication is decided at once. */
  lemma {:induction false} HitsOfSingleRow(rows: seq<Entry>, sel: Selector, i: nat, k: nat)
    requires i < |rows| && rows[i].end == rows[i].first + 1 && k <= rows[i].first
    ensures var rest := HitsFrom(rows, sel, i + 1, 0);
            HitsFrom(rows, sel, i, k) ==
            if NameMatches(sel, rows[i].name) && ReplMatches(sel, rows[i].first)
            then [Hit(i, rows[i].first)] + rest else rest
    decreases rows[i].first - k
  {
    if k < rows[i].first {
      HitsOfSingleRow(rows, sel, i, k + 1);
    } else {
      assert HitsFrom(rows, sel, i, k + 1) == HitsFrom(rows, sel, i + 1, 0);
    }
  }

  ghost function Hits(rows: seq<Entry>, sel: Selector): seq<Hit> {
    HitsFrom(rows, sel, 0, 0)
  }

  predicate Before(a: Hit, b: Hit) {
    a.idx < b.idx || (a.idx == b.idx && a.repl < b.repl)
  }

  ghost predicate HitsAscending(hs: seq<Hit>) {
    forall a, b :: 0 <= a < b < |hs| ==> Before(hs[a], hs[b])
  }

  /** Exactly the hits at or behind a position, in order and each once. */
  lemma {:induction false} HitsFromAreTheHits(rows: seq<Entry>, sel: Selector, i: nat, k: nat)
    ensures forall h :: h in HitsFrom(rows, sel, i, k) <==> IsHit(rows, sel, h) && !Before(h, Hit(i, k))
    ensures HitsAscending(HitsFrom(rows, sel, i, k))
    decreases |rows| - i, if i < |rows| then rows[i].end - k else 0
  {
    hide NameMatches;
    if i < |rows| {
      if !NameMatches(sel, rows[i].name) || k >= rows[i].end {
        HitsFromAreTheHits(rows, sel, i + 1, 0);
        HitsBehindRow(rows, sel, i, k);
      } else {
        HitsFromAreTheHits(rows, sel, i, k + 1);
        var rest := HitsFrom(rows, sel, i, k + 1);
        forall b | 0 <= b < |rest|
          ensures Before(Hit(i, k), rest[b])
        {
          assert rest[b] in rest && !Before(rest[b], Hit(i, k + 1));
        }
      }
    }
  }

  // ---------------------------------------------------------------------------------------
  // The triple loop
  // ---------------------------------------------------------------------------------------

  /** One register of the result, by its position in the three tables. */
  datatype Yield = Yield(t: Hit, g: Hit, r: Hit)

  /** The selectors of the three pattern components. */
  datatype Query = Query(t: Selector, g: Selector, r: Selector)

  function RegTable(targets: seq<Target>, t: Hit, g: Hit): seq<Reg> {
    if t.idx < |targets| && g.idx < |targets[t.idx].regGrps| then targets[t.idx].regGrps[g.idx].regs else []
  }

  function GrpTable(targets: seq<Target>, t: Hit): seq<RegGrp> {
    if t.idx < |targets| then targets[t.idx].regGrps else []
  }

  ghost function RegYields(t: Hit, g: Hit, rs: seq<Hit>): (ys: seq<Yield>)
    ensures |ys| == |rs| && forall i :: 0 <= i < |rs| ==> ys[i] == Yield(t, g, rs[i])
  {
    seq(|rs|, i requires 0 <= i < |rs| => Yield(t, g, rs[i]))
  }

  ghost function GrpYields(targets: seq<Target>, q: Query, t: Hit, gs: seq<Hit>): seq<Yield> {
    if gs == [] then []
    else RegYields(t, gs[0], Hits(RegRows(RegTable(targets, t, gs[0])), q.r)) + GrpYields(targets, q, t, gs[1..])
  }

  ghost function TgtYields(targets: seq<Target>, q: Query, ts: seq<Hit>): seq<Yield> {
    if ts == [] then []
    else GrpYields(targets, q, ts[0], Hits(GrpRows(GrpTable(targets, ts[0])), q.g)) + TgtYields(targets, q, ts[1..])
  }

  /** Everything a query yields, in the order of the nested loops. */
  ghost function All(targets: seq<Target>, q: Query): seq<Yield> {
    TgtYields(targets, q, Hits(TgtRows(targets), q.t))
  }

  ghost predicate Selected(targets: seq<Target>, q: Query, y: Yield) {
    && IsHit(TgtRows(targets), q.t, y.t)
    && IsHit(GrpRows(GrpTable(targets, y.t)), q.g, y.g)
    && IsHit(RegRows(RegTable(targets, y.t, y.g)), q.r, y.r)
  }

  predicate Earlier(a: Yield, b: Yield) {
    Before(a.t, b.t) || (a.t == b.t && (Before(a.g, b.g) || (a.g == b.g && Before(a.r, b.r))))
  }

  ghost predicate Ascending(ys: seq<Yield>) {
    forall a, b :: 0 <= a < b < |ys| ==> Earlier(ys[a], ys[b])
  }

  lemma AscendingConcat(xs: seq<Yield>, ys: seq<Yield>)
    requires Ascending(xs) && Ascending(ys)
    requires forall x, y :: x in xs && y in ys ==> Earlier(x, y)
    ensures Ascending(xs + ys)
  {
    var zs := xs + ys;
    forall a, b | 0 <= a < b < |zs|
      ensures Earlier(zs[a], zs[b])
    {
      if a < |xs| <= b {
        assert zs[a] in xs && zs[b] in ys;
      }
    }
  }

  lemma {:induction false} GrpYieldsExact(targets: seq<Target>, q: Query, t: Hit, gs: seq<Hit>)
    requires HitsAscending(gs)
    ensures forall y :: y in GrpYields(targets, q, t, gs) <==>
                        y.t == t && y.g in gs && IsHit(RegRows(RegTable(targets, t, y.g)), q.r, y.r)
    ensures Ascending(GrpYields(targets, q, t, gs))
    decreases |gs|
  {
    if gs != [] {
      var rows := RegRows(RegTable(targets, t, gs[0]));
      var ys := RegYields(t, gs[0], Hits(rows, q.r));
      var rest := GrpYields(targets, q, t, gs[1..]);
      HitsFromAreTheHits(rows, q.r, 0, 0);
      GrpYieldsExact(targets, q, t, gs[1..]);
      forall y
        ensures y in ys <==> y.t == t && y.g == gs[0] && IsHit(rows, q.r, y.r)
      {
        if y.t == t && y.g == gs[0] && y.r in Hits(rows, q.r) {
          var i :| 0 <= i < |ys| && Hits(rows, q.r)[i] == y.r;
          assert ys[i] == y;
        }
      }
      assert forall h :: h in gs[1..] ==> Before(gs[0], h);
      AscendingConcat(ys, rest);
    }
  }

  lemma {:induction false} TgtYieldsExact(targets: seq<Target>, q: Query, ts: seq<Hit>)
    requires HitsAscending(ts)
    ensures forall y :: y in TgtYields(targets, q, ts) <==>
                        && y.t in ts
                        && IsHit(GrpRows(GrpTable(targets, y.t)), q.g, y.g)
                        && IsHit(RegRows(RegTable(targets, y.t, y.g)), q.r, y.r)
    ensures Ascending(TgtYields(targets, q, ts))
    decreases |ts|
  {
    if ts != [] {
      var rows := GrpRows(GrpTable(targets, ts[0]));
      var gs := Hits(rows, q.g);
      var ys := GrpYields(targets, q, ts[0], gs);
      var rest := TgtYields(targets, q, ts[1..]);
      HitsFromAreTheHits(rows, q.g, 0, 0);
      GrpYieldsExact(targets, q, ts[0], gs);
      TgtYieldsExact(targets, q, ts[1..]);
      assert forall h :: h in ts[1..] ==> Before(ts[0], h);
      AscendingConcat(ys, rest);
    }
  }

  /** What is selected, by the fields of the tables: names that match, and replications that exist and are wanted. */
  lemma SelectedMeans(targets: seq<Target>, q: Query, y: Yield)
    ensures Selected(targets, q, y) <==>
            && y.t.idx < |targets|
            && var t := targets[y.t.idx];
            && y.g.idx < |t.regGrps|
            && var g := t.regGrps[y.g.idx];
            && y.r.idx < |g.regs|
            && var r := g.regs[y.r.idx];
            && (if q.t.wildcards then Glob.Matches(q.t.pattern, t.name) else t.name == q.t.pattern)
            && (if q.g.wildcards then Glob.Matches(q.g.pattern, g.name) else g.name == q.g.pattern)
            && (if q.r.wildcards then Glob.Matches(q.r.pattern, r.name) else r.name == q.r.pattern)
            && y.t.repl == (if t.replNumber < 0 then 0 else t.replNumber)
            && y.g.repl < g.replCnt && y.r.repl < r.replCnt
            && (q.t.allRepls || y.t.repl in q.t.repls) && (q.g.allRepls || y.g.repl in q.g.repls)
            && (q.r.allRepls || y.r.repl in q.r.repls)
  {
  }

  /** The enumeration holds exactly the selected registers, each once, in table order. */
  lemma AllIsExact(targets: seq<Target>, q: Query)
    ensures forall y :: y in All(targets, q) <==> Selected(targets, q, y)
    ensures Ascending(All(targets, q))
    ensures var ys := All(targets, q);
            forall a, b :: 0 <= a < b < |ys| ==>
              var x, y := ys[a], ys[b];
              || x.t.idx < y.t.idx
              || (x.t == y.t && x.g.idx < y.g.idx)
              || (x.t == y.t && x.g.idx == y.g.idx && x.g.repl < y.g.repl)
              || (x.t == y.t && x.g == y.g && x.r.idx < y.r.idx)
              || (x.t == y.t && x.g == y.g && x.r.idx == y.r.idx && x.r.repl < y.r.repl)
  {
    HitsFromAreTheHits(TgtRows(targets), q.t, 0, 0);
    TgtYieldsExact(targets, q, Hits(TgtRows(targets), q.t));
    var ys := All(targets, q);
    forall a, b | 0 <= a < b < |ys|
      ensures ys[a].t.idx == ys[b].t.idx ==> ys[a].t == ys[b].t
    {
      assert ys[a] in ys && ys[b] in ys;
    }
  }
}
