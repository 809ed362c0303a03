/**
 * The list of CLI commands: help and exit commands stay where they are, the others are sorted,
 * debug commands behind all others.
 */
module CommandList {
  import opened CText
  import opened LinkedList
  import opened Sequences

  /** `strstr(s, word) == s` */
  predicate StartsWith(s: CString, word: CString) {
    |word| <= |s| && s[..|word|] == word
  }

  predicate HelpOrExit(s: CString) {
    StartsWith(s, "Help") || StartsWith(s, "Exit")
  }

  predicate Debug(s: CString) {
    StartsWith(s, "Debug")
  }

  /** The order of commands: debug commands last, then by syntax. */
  predicate Precedes(a: CString, b: CString) {
    if Debug(a) == Debug(b) then Less(a, b) else Debug(b)
  }

  /** Registration stops at the first command that must come later. */
  predicate Stops(cur: CString, cmd: CString) {
    !HelpOrExit(cur) && Precedes(cmd, cur)
  }

  lemma PrecedesIsOrder(a: CString, b: CString, c: CString)
    ensures !(Precedes(a, b) && Precedes(b, a))
    ensures Precedes(a, b) && Precedes(b, c) ==> Precedes(a, c)
    ensures !Precedes(b, a) && !Precedes(c, b) ==> !Precedes(c, a)
    ensures !Precedes(a, b) && !Precedes(b, a) ==> a == b
  {
    hide Less, Debug;
    LessTotal(a, b);
    LessTotal(b, c);
    LessTotal(a, c);
    if Less(a, b) && Less(b, c) {
      LessTransitive(a, b, c);
    }
    if Less(c, a) && Less(a, b) {
      LessTransitive(c, a, b);
    }
    if Less(b, c) && Less(c, a) {
      LessTransitive(b, c, a);
    }
  }

  /** Debug commands come last, and otherwise the order is that of the syntax. */
  lemma PrecedesMeans(a: CString, b: CString)
    ensures Precedes(a, b) <==> if "Debug" <= a then "Debug" <= b && Less(a, b) else "Debug" <= b || Less(a, b)
    ensures HelpOrExit(a) <==> "Help" <= a || "Exit" <= a
  {
  }

  // ---------------------------------------------------------------------------------------
  // Where a command goes
  // ---------------------------------------------------------------------------------------

  /** The position of the first command that stops the search. */
  ghost function Place(nodes: seq<Node>, cmd: CString): (k: nat)
    ensures k <= |nodes|
    ensures forall i :: 0 <= i < k ==> !Stops(nodes[i].name, cmd)
    ensures k < |nodes| ==> Stops(nodes[k].name, cmd)
  {
    if nodes == [] || Stops(nodes[0].name, cmd) then 0 else 1 + Place(nodes[1..], cmd)
  }

  lemma {:induction false} PlaceIsFirst(nodes: seq<Node>, cmd: CString, k: nat)
    requires k <= |nodes| && (forall i :: 0 <= i < k ==> !Stops(nodes[i].name, cmd))
    requires k < |nodes| ==> Stops(nodes[k].name, cmd)
    ensures k == Place(nodes, cmd)
  {
    hide Stops;
    var place := Place(nodes, cmd);
    assert !(place < k) && !(k < place);
  }

  lemma WhatStops(cmd: CString)
    ensures forall n: CString ::
              Stops(n, cmd) <==>
                && !("Help" <= n) && !("Exit" <= n)
                && (if "Debug" <= n <==> "Debug" <= cmd then Less(cmd, n) else "Debug" <= n)
  {
    hide Less;
  }

  lemma StopsWhen(cur: CString, cmd: CString)
    ensures Stops(cur, cmd) <==> !HelpOrExit(cur) && (if Debug(cur) == Debug(cmd) then Less(cmd, cur) else Debug(cur))
  {
  }

  ghost function Registered(nodes: seq<Node>, cmd: Node): seq<Node> {
    InsertAt(nodes, Place(nodes, cmd.name), cmd)
  }

  /**
   * A command goes in front of the first one, other than help and exit, that is a debug command while it is not,
   * or is of the same kind and greater.
   */
  lemma RegisteredMeans(nodes: seq<Node>, cmd: Node)
    ensures exists k :: 0 <= k <= |nodes| && Registered(nodes, cmd) == nodes[..k] + [cmd] + nodes[k..]
              && (forall i :: 0 <= i < k ==> var n := nodes[i].name;
                    "Help" <= n || "Exit" <= n
                    || (if "Debug" <= n <==> "Debug" <= cmd.name then !Less(cmd.name, n) else "Debug" <= cmd.name))
              && (k < |nodes| ==> var n := nodes[k].name;
                    !("Help" <= n) && !("Exit" <= n)
                    && (if "Debug" <= n <==> "Debug" <= cmd.name then Less(cmd.name, n) else "Debug" <= n))
  {
    hide Stops, Less;
    WhatStops(cmd.name);
    var k := Place(nodes, cmd.name);
    assert Registered(nodes, cmd) == nodes[..k] + [cmd] + nodes[k..];
  }

  class Commands {
    var list: Node?
    ghost var nodes: seq<Node>

    ghost predicate Valid()
      reads this, (set n | n in nodes)`next
    {
      IsList(list, nodes)
    }

    constructor ()
      ensures Valid() && nodes == []
    {
      list, nodes := null, [];
    }

    /** Registers a command, unless it has no function. */
    method Register(cmd: Node, hasFunction: bool)
      requires Valid() && cmd !in nodes
      modifies this, (set n | n in nodes)`next, cmd`next
      ensures Valid()
      ensures nodes == if hasFunction then Registered(old(nodes), cmd) else old(nodes)
    {
      hide HelpOrExit, Debug, Less, Precedes, Stops, Place, InsertAt;
      if !hasFunction {
        return;
      }
      ghost var k := 0;
      var cur, prev: Node? := list, null;
      var cmdDebug := Debug(cmd.name);
      while cur != null
        invariant k <= |nodes| && cur == NodeAt(nodes, k) && prev == (if k == 0 then null else nodes[k - 1])
        invariant forall i :: 0 <= i < k ==> !Stops(nodes[i].name, cmd.name)
        decreases |nodes| - k
        modifies {}
      {
        StopsWhen(cur.name, cmd.name);
        if !HelpOrExit(cur.name) {
          var curDebug := Debug(cur.name);
          if curDebug == cmdDebug {
            if Less(cmd.name, cur.name) {
              break;
            }
          } else if curDebug {
            break;
          }
        }
        prev, cur := cur, cur.next;
        k := k + 1;
      }
      PlaceIsFirst(nodes, cmd.name, k);
      list := Link(list, prev, cmd, nodes, k);
      nodes := InsertAt(nodes, k, cmd);
    }
  }

  // ---------------------------------------------------------------------------------------
  // Any sequence of registrations
  // ---------------------------------------------------------------------------------------

  /** The list after registering `cmds` one after the other. */
  ghost function AfterAll(cmds: seq<Node>): seq<Node> {
    if cmds == [] then [] else Registered(AfterAll(cmds[..|cmds| - 1]), cmds[|cmds| - 1])
  }

  /** Without help and exit commands. */
  ghost function Others(nodes: seq<Node>): (r: seq<Node>)
    ensures forall n :: n in r ==> n in nodes && !HelpOrExit(n.name)
  {
    if nodes == [] then [] else (if HelpOrExit(nodes[0].name) then [] else [nodes[0]]) + Others(nodes[1..])
  }

  predicate HasSyntax(n: Node, s: CString) {
    n.name == s
  }

  /** The commands with the given syntax. */
  ghost function WithSyntax(nodes: seq<Node>, s: CString): seq<Node> {
    if nodes == [] then [] else (if HasSyntax(nodes[0], s) then [nodes[0]] else []) + WithSyntax(nodes[1..], s)
  }

  /** No command is in front of one that precedes it. */
  ghost predicate Sorted(nodes: seq<Node>) {
    forall i, j :: 0 <= i < j < |nodes| ==> !Precedes(nodes[j].name, nodes[i].name)
  }

  lemma {:induction false} OthersConcat(a: seq<Node>, b: seq<Node>)
    ensures Others(a + b) == Others(a) + Others(b)
  {
    hide Others;
    OthersStep(a);
    if a == [] {
      assert a + b == b && [] + Others(b) == Others(b);
    } else {
      OthersConcat(a[1..], b);
      OthersStep(a + b);
      assert (a + b)[1..] == a[1..] + b;
      Regroup(OthersHead(a[0]), Others(a[1..]), Others(b));
    }
  }

  ghost function OthersHead(n: Node): seq<Node> {
    if HelpOrExit(n.name) then [] else [n]
  }

  lemma OthersStep(nodes: seq<Node>)
    ensures Others(nodes) == if nodes == [] then [] else OthersHead(nodes[0]) + Others(nodes[1..])
  {
    hide HelpOrExit;
  }

  lemma {:induction false} WithSyntaxConcat(a: seq<Node>, b: seq<Node>, s: CString)
    ensures WithSyntax(a + b, s) == WithSyntax(a, s) + WithSyntax(b, s)
  {
    hide HasSyntax;
    if a == [] {
      assert a + b == b;
    } else {
      WithSyntaxConcat(a[1..], b, s);
      assert (a + b)[1..] == a[1..] + b && (a + b)[0] == a[0];
      Regroup(if HasSyntax(a[0], s) then [a[0]] else [], WithSyntax(a[1..], s), WithSyntax(b, s));
    }
  }

  lemma {:induction false} WithoutSyntax(nodes: seq<Node>, s: CString)
    requires forall n :: n in nodes ==> !HasSyntax(n, s)
    ensures WithSyntax(nodes, s) == []
  {
    if nodes != [] {
      WithoutSyntax(nodes[1..], s);
    }
  }

  /** A command goes behind all others that need not come later, and in front of all that must. */
  lemma Parts(nodes: seq<Node>, cmd: Node)
    requires Sorted(Others(nodes))
    ensures var k := Place(nodes, cmd.name);
            && Others(nodes) == Others(nodes[..k]) + Others(nodes[k..])
            && (forall n :: n in Others(nodes[..k]) ==> !Precedes(cmd.name, n.name))
            && (forall n :: n in Others(nodes[k..]) ==> Precedes(cmd.name, n.name))
  {
    hide Precedes, HelpOrExit, Sorted, Others, Place, Stops;
    var k := Place(nodes, cmd.name);
    var early, late := nodes[..k], nodes[k..];
    OthersConcat(early, late);
    assert nodes == early + late;
    forall n | n in Others(early)
      ensures !Precedes(cmd.name, n.name)
    {
      var i :| 0 <= i < k && nodes[i] == n;
      NotStopped(nodes[i].name, cmd.name);
    }
    if k < |nodes| {
      FirstStays(late, cmd.name);
      forall n | n in Others(late)
        ensures Precedes(cmd.name, n.name)
      {
        LaterStays(Others(early), Others(late), cmd.name, n);
      }
    } else {
      NoOthers();
    }
  }

  lemma NotStopped(cur: CString, cmd: CString)
    ensures !Stops(cur, cmd) && !HelpOrExit(cur) ==> !Precedes(cmd, cur)
  {
  }

  lemma NoOthers()
    ensures Others([]) == []
  {
  }

  lemma FirstStays(late: seq<Node>, cmd: CString)
    requires late != [] && Stops(late[0].name, cmd)
    ensures Others(late) != [] && Precedes(cmd, Others(late)[0].name)
  {
    hide HelpOrExit, Precedes;
  }

  lemma LaterStays(early: seq<Node>, late: seq<Node>, cmd: CString, n: Node)
    requires Sorted(early + late) && late != [] && Precedes(cmd, late[0].name) && n in late
    ensures Precedes(cmd, n.name)
  {
    hide Precedes;
    var j :| 0 <= j < |late| && late[j] == n;
    var all := early + late;
    assert all[|early|] == late[0] && all[|early| + j] == n;
    if j > 0 {
      PrecedesIsOrder(n.name, cmd, late[0].name);
      PrecedesIsOrder(cmd, late[0].name, n.name);
      PrecedesIsOrder(late[0].name, n.name, cmd);
    }
  }

  /** Registering a command inserts it into the sorted others, or leaves them alone. */
  lemma OthersInserted(nodes: seq<Node>, cmd: Node)
    requires Sorted(Others(nodes))
    ensures Sorted(Others(Registered(nodes, cmd)))
    ensures HelpOrExit(cmd.name) ==> Others(Registered(nodes, cmd)) == Others(nodes)
  {
    hide HelpOrExit, Precedes, Sorted, Others, Place;
    var k := Place(nodes, cmd.name);
    Parts(nodes, cmd);
    OthersConcat(nodes[..k], [cmd] + nodes[k..]);
    OthersConcat([cmd], nodes[k..]);
    Split(nodes, k, cmd);
    OthersOfOne(cmd);
    var early, late := Others(nodes[..k]), Others(nodes[k..]);
    if HelpOrExit(cmd.name) {
      assert [] + late == late;
    } else {
      SortedAround(early, cmd, late);
    }
  }

  lemma Split(nodes: seq<Node>, k: nat, cmd: Node)
    requires k <= |nodes|
    ensures nodes == nodes[..k] + nodes[k..] && InsertAt(nodes, k, cmd) == nodes[..k] + ([cmd] + nodes[k..])
  {
  }

  lemma OthersOfOne(cmd: Node)
    ensures Others([cmd]) == if HelpOrExit(cmd.name) then [] else [cmd]
  {
    hide HelpOrExit;
  }

  lemma SortedAround(early: seq<Node>, cmd: Node, late: seq<Node>)
    requires Sorted(early + late)
    requires forall n :: n in early ==> !Precedes(cmd.name, n.name)
    requires forall n :: n in late ==> Precedes(cmd.name, n.name)
    ensures Sorted(early + ([cmd] + late))
  {
    hide Precedes;
    var now, was := early + ([cmd] + late), early + late;
    forall i, j | 0 <= i < j < |now|
      ensures !Precedes(now[j].name, now[i].name)
    {
      PrecedesIsOrder(now[i].name, now[j].name, now[i].name);
      if i < |early| && j > |early| {
        assert now[i] == was[i] && now[j] == was[j - 1];
      } else if j < |early| {
        assert now[i] == was[i] && now[j] == was[j];
      } else if i > |early| {
        assert now[i] == was[i - 1] && now[j] == was[j - 1];
      } else if i == |early| {
        assert now[j] in late;
      } else {
        assert now[i] in early;
      }
    }
  }

  /** Commands of the same syntax are listed in the order of their registration. */
  lemma StableInserted(nodes: seq<Node>, cmd: Node, s: CString)
    requires Sorted(Others(nodes)) && !HelpOrExit(s)
    ensures WithSyntax(Registered(nodes, cmd), s) == WithSyntax(nodes, s) + (if cmd.name == s then [cmd] else [])
  {
    hide HelpOrExit, Precedes, Sorted, Others, Place, WithSyntax;
    var k := Place(nodes, cmd.name);
    var early, late := nodes[..k], nodes[k..];
    WithSyntaxConcat(early, [cmd] + late, s);
    WithSyntaxConcat([cmd], late, s);
    WithSyntaxConcat(early, late, s);
    Split(nodes, k, cmd);
    SyntaxOfOne(cmd, s);
    if cmd.name == s {
      Parts(nodes, cmd);
      forall n | n in late
        ensures !HasSyntax(n, s)
      {
        PrecedesIsOrder(s, s, s);
        if !HelpOrExit(n.name) {
          InOthers(late, n);
        }
      }
      WithoutSyntax(late, s);
    } else {
      assert [] + WithSyntax(late, s) == WithSyntax(late, s);
    }
  }

  lemma SyntaxOfOne(cmd: Node, s: CString)
    ensures WithSyntax([cmd], s) == if cmd.name == s then [cmd] else []
    ensures WithSyntax([cmd], s) + [] == WithSyntax([cmd], s)
  {
  }

  lemma {:induction false} InOthers(nodes: seq<Node>, n: Node)
    requires n in nodes && !HelpOrExit(n.name)
    ensures n in Others(nodes)
  {
    if nodes[0] != n {
      InOthers(nodes[1..], n);
    }
  }

  /**
   * After any registrations, the list holds each command once; apart from help and exit it is
   * sorted, debug commands last, and stable.
   */
  lemma {:induction false} AfterAllRegistrations(cmds: seq<Node>)
    ensures multiset(AfterAll(cmds)) == multiset(cmds)
    ensures Sorted(Others(AfterAll(cmds)))
    ensures forall s: CString :: !HelpOrExit(s) ==> WithSyntax(AfterAll(cmds), s) == WithSyntax(cmds, s)
    decreases |cmds|
  {
    hide HelpOrExit, Precedes, Sorted, Others, Place, WithSyntax, Registered;
    if cmds == [] {
      NothingSorted();
    } else {
      var init, last := cmds[..|cmds| - 1], cmds[|cmds| - 1];
      var before := AfterAll(init);
      AfterAllRegistrations(init);
      OthersInserted(before, last);
      assert cmds == init + [last];
      RegisteredOnce(before, last);
      forall s: CString | !HelpOrExit(s)
        ensures WithSyntax(AfterAll(cmds), s) == WithSyntax(cmds, s)
      {
        StableInserted(before, last, s);
        WithSyntaxConcat(init, [last], s);
        SyntaxOfOne(last, s);
      }
    }
  }

  lemma RegisteredOnce(nodes: seq<Node>, cmd: Node)
    ensures multiset(Registered(nodes, cmd)) == multiset(nodes) + multiset{cmd}
  {
    var k := Place(nodes, cmd.name);
    assert nodes == nodes[..k] + nodes[k..];
  }

  lemma NothingSorted()
    ensures Sorted(Others([]))
  {
  }

  // ---------------------------------------------------------------------------------------
  // Help and exit first
  // ---------------------------------------------------------------------------------------

  lemma HelpNeverStops()
    ensures forall cur: CString, cmd: CString :: Stops(cur, cmd) ==> !HelpOrExit(cur)
  {
  }

  /** All help and exit commands are in front of all others. */
  ghost predicate HelpFirst(nodes: seq<Node>) {
    forall i, j :: 0 <= i < j < |nodes| && HelpOrExit(nodes[j].name) ==> HelpOrExit(nodes[i].name)
  }

  /**
   * Help and exit commands stay first exactly if no other command that need not come later was
   * there before a new one of them.
   */
  lemma HelpStaysFirst(nodes: seq<Node>, cmd: Node)
    requires HelpFirst(nodes)
    requires Sorted(Others(nodes))
    ensures HelpFirst(Registered(nodes, cmd))
       <==> (HelpOrExit(cmd.name) ==> forall n :: n in nodes && !HelpOrExit(n.name) ==> Precedes(cmd.name, n.name))
  {
    hide HelpOrExit, Precedes, Others, Sorted, Place, Stops;
    var k, now := Place(nodes, cmd.name), Registered(nodes, cmd);
    assert now[k] == cmd && |now| == |nodes| + 1;
    assert forall i :: 0 <= i < k ==> now[i] == nodes[i];
    assert forall i :: k <= i < |nodes| ==> now[i + 1] == nodes[i];
    assert k < |nodes| ==> !HelpOrExit(nodes[k].name) by { HelpNeverStops(); }
    Parts(nodes, cmd);
    if HelpOrExit(cmd.name) {
      forall i | 0 <= i < |nodes| && !HelpOrExit(nodes[i].name)
        ensures Precedes(cmd.name, nodes[i].name) <==> i >= k
      {
        InOthers(if i < k then nodes[..k] else nodes[k..], nodes[i]);
      }
    }
  }
}
