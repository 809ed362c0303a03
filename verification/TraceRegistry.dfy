/**
 * The trace registry: modules sorted by name, each with its groups sorted by name. Both are lists
 * threaded through the records, and both refuse a name that is already there.
 */
module TraceRegistry {
  import opened CText
  import opened LinkedList

  ghost predicate Sorted(nodes: seq<Node>) {
    forall i, j :: 0 <= i < j < |nodes| ==> Less(nodes[i].name, nodes[j].name)
  }

  ghost predicate NameIn(name: CString, nodes: seq<Node>) {
    exists i :: 0 <= i < |nodes| && nodes[i].name == name
  }

  ghost predicate DistinctNames(nodes: seq<Node>) {
    forall i, j :: 0 <= i < j < |nodes| ==> nodes[i].name != nodes[j].name
  }

  /** Inserts a node at its place in a sorted list, unless its name is taken. */
  method Insert(head: Node?, node: Node, ghost nodes: seq<Node>)
    returns (newHead: Node?, duplicate: bool, ghost now: seq<Node>)
    requires IsList(head, nodes) && Sorted(nodes)
    modifies (set n | n in nodes)`next, node`next
    ensures IsList(newHead, now) && Sorted(now)
    ensures duplicate <==> NameIn(node.name, nodes)
    ensures duplicate ==> now == nodes && newHead == head && forall n :: n in nodes ==> unchanged(n)
    ensures !duplicate ==> exists k :: 0 <= k <= |nodes| && now == InsertAt(nodes, k, node)
  {
    hide Less, Sorted;
    ghost var k := 0;
    var cur, prev: Node? := head, null;
    while cur != null
      invariant k <= |nodes| && cur == NodeAt(nodes, k) && prev == (if k == 0 then null else nodes[k - 1])
      invariant forall i :: 0 <= i < k ==> Less(nodes[i].name, node.name)
      decreases |nodes| - k
      modifies {}
    {
      LessTotal(cur.name, node.name);
      if cur.name == node.name {
        return head, true, nodes;
      } else if Less(node.name, cur.name) {
        break;
      }
      prev, cur := cur, cur.next;
      k := k + 1;
    }
    PlaceFound(nodes, k, node.name);
    newHead := Link(head, prev, node, nodes, k);
    now := InsertAt(nodes, k, node);
    duplicate := false;
    StillSorted(nodes, k, node);
  }

  /** Everything from the first greater name on is greater, so the name is not there. */
  lemma PlaceFound(nodes: seq<Node>, k: nat, name: CString)
    requires k <= |nodes| && Sorted(nodes)
    requires forall i :: 0 <= i < k ==> Less(nodes[i].name, name)
    requires k < |nodes| ==> Less(name, nodes[k].name)
    ensures forall i :: k <= i < |nodes| ==> Less(name, nodes[i].name)
    ensures !NameIn(name, nodes)
  {
    hide Less;
    forall i | 0 <= i < |nodes|
      ensures nodes[i].name != name && (i >= k ==> Less(name, nodes[i].name))
    {
      if i > k {
        LessTransitive(name, nodes[k].name, nodes[i].name);
      }
      LessTotal(name, nodes[i].name);
    }
  }

  lemma StillSorted(nodes: seq<Node>, k: nat, node: Node)
    requires k <= |nodes| && Sorted(nodes)
    requires forall i :: 0 <= i < k ==> Less(nodes[i].name, node.name)
    requires forall i :: k <= i < |nodes| ==> Less(node.name, nodes[i].name)
    ensures Sorted(InsertAt(nodes, k, node))
  {
    hide Less;
    var now := InsertAt(nodes, k, node);
    forall i, j | 0 <= i < j < |now|
      ensures Less(now[i].name, now[j].name)
    {
    }
  }

  lemma InsertKeeps(nodes: seq<Node>, k: nat, node: Node)
    requires k <= |nodes|
    ensures multiset(InsertAt(nodes, k, node)) == multiset(nodes) + multiset{node}
  {
    assert nodes == nodes[..k] + nodes[k..];
  }

  /** How many groups of a table are taken before a name occurs for the second time. */
  ghost function Taken(table: seq<Node>): (n: nat)
    ensures n <= |table| && DistinctNames(table[..n])
    ensures n < |table| ==> NameIn(table[n].name, table[..n])
    ensures n == |table| <==> DistinctNames(table)
  {
    if table == [] then 0
    else
      var last := |table| - 1;
      var n := Taken(table[..last]);
      assert table[..last][..n] == table[..n];
      if n < last || NameIn(table[last].name, table[..last]) then n
      else
        assert table[..last] == table[..n] && table[..n + 1] == table;
        n + 1
  }

  /** Builds the sorted list of a module's groups, up to the first duplicate. */
  method RegisterGroups(owner: Node, table: seq<Node>) returns (ok: bool, ghost nodes: seq<Node>)
    requires Distinct(table) && owner !in table
    modifies owner`sub, (set n | n in table)`next
    ensures IsList(owner.sub, nodes) && Sorted(nodes)
    ensures multiset(nodes) == multiset(table[..Taken(table)])
    ensures ok <==> DistinctNames(table)
  {
    hide Sorted, IsList, DistinctNames, Taken, Less;
    owner.sub := null;
    nodes := [];
    NoNodes();
    assert multiset(table[..0]) == multiset(nodes);
    for i := 0 to |table|
      invariant IsList(owner.sub, nodes) && Sorted(nodes)
      invariant multiset(nodes) == multiset(table[..i])
      invariant forall n :: n in nodes ==> n in table
      invariant Taken(table) >= i
      modifies owner`sub, (set n | n in table)`next
    {
      ghost var was := nodes;
      assert table[..i + 1] == table[..i] + [table[i]];
      TakenNext(table, i, nodes);
      NotYet(table, i, nodes);
      assert table[i] in table;
      var head, duplicate;
      head, duplicate, nodes := Insert(owner.sub, table[i], nodes);
      if duplicate {
        return false, nodes;
      }
      ghost var k :| 0 <= k <= |was| && nodes == InsertAt(was, k, table[i]);
      InsertKeeps(was, k, table[i]);
      owner.sub := head;
    }
    assert table[..|table|] == table;
    ok := true;
  }

  lemma NoNodes()
    ensures IsList(null, []) && Sorted([])
  {
  }

  lemma SameNames(nodes: seq<Node>, others: seq<Node>, name: CString)
    requires multiset(nodes) == multiset(others)
    ensures NameIn(name, nodes) <==> NameIn(name, others)
  {
    assert forall n: Node :: n in nodes <==> n in multiset(nodes);
    assert forall n: Node :: n in others <==> n in multiset(others);
    if NameIn(name, nodes) {
      var i :| 0 <= i < |nodes| && nodes[i].name == name;
      assert nodes[i] in others;
    }
    if NameIn(name, others) {
      var i :| 0 <= i < |others| && others[i].name == name;
      assert others[i] in nodes;
    }
  }

  lemma TakenNext(table: seq<Node>, i: nat, nodes: seq<Node>)
    requires i < |table| && i <= Taken(table) && multiset(nodes) == multiset(table[..i])
    ensures NameIn(table[i].name, nodes) <==> Taken(table) == i
    ensures Taken(table) == i ==> !DistinctNames(table)
  {
    SameNames(nodes, table[..i], table[i].name);
    if Taken(table) > i {
      assert DistinctNames(table[..Taken(table)]);
      assert table[..Taken(table)][i] == table[i];
      assert forall j :: 0 <= j < i ==> table[..Taken(table)][j] == table[..i][j];
    }
  }

  lemma InBoth(nodes: seq<Node>, others: seq<Node>, n: Node)
    requires multiset(nodes) == multiset(others) && n in nodes
    ensures n in others
  {
    assert n in multiset(nodes);
  }

  lemma NotYet(table: seq<Node>, i: nat, nodes: seq<Node>)
    requires i < |table| && Distinct(table) && multiset(nodes) == multiset(table[..i])
    ensures table[i] !in nodes
  {
    if table[i] in nodes {
      InBoth(nodes, table[..i], table[i]);
      assert false;
    }
  }

  ghost function AllGroups(groups: map<Node, seq<Node>>): set<Node> {
    set m, g | m in groups && g in groups[m] :: g
  }

  /** Modules and groups are different records, and no group belongs to two modules. */
  ghost predicate Apart(modules: seq<Node>, groups: map<Node, seq<Node>>) {
    && groups.Keys == (set m | m in modules)
    && (forall m :: m in modules ==> m !in AllGroups(groups))
    && (forall m, n, g :: m in groups && n in groups && g in groups[m] && g in groups[n] ==> m == n)
  }

  ghost predicate GroupsSorted(groups: map<Node, seq<Node>>)
    reads groups.Keys`sub, AllGroups(groups)`next
  {
    forall m :: m in groups ==> IsList(m.sub, groups[m]) && Sorted(groups[m])
  }

  class Registry {
    var list: Node?
    ghost var modules: seq<Node>
    ghost var groups: map<Node, seq<Node>>

    /** The modules and the groups of each are sorted lists that end. */
    ghost predicate Valid()
      reads this, (set n | n in modules)`next, groups.Keys`sub, AllGroups(groups)`next
    {
      && IsList(list, modules) && Sorted(modules)
      && Apart(modules, groups) && GroupsSorted(groups)
    }

    constructor ()
      ensures Valid() && modules == [] && groups == map[]
    {
      list, modules, groups := null, [], map[];
    }

    /**
     * Registers a module with its groups. It is taken unless two of its groups, or it and another
     * module, have the same name; then the list of modules is as before. A module that is already
     * registered only has its groups sorted again.
     */
    method Register(owner: Node, table: seq<Node>) returns (ghost taken: bool)
      requires Valid() && Distinct(table)
      requires owner !in table && owner !in AllGroups(groups) && (forall g :: g in table ==> g !in modules)
      requires forall m, g :: m in groups && m != owner && g in groups[m] ==> g !in table
      modifies this, owner, (set n | n in table)`next, (set n | n in modules)`next
      ensures Valid()
      ensures taken <==> DistinctNames(table) && !NameIn(owner.name, old(modules))
      ensures !taken ==> modules == old(modules) && list == old(list)
      ensures taken ==> exists k :: 0 <= k <= |old(modules)| && modules == InsertAt(old(modules), k, owner)
      ensures owner in modules ==> multiset(groups[owner]) == multiset(table[..Taken(table)])
      ensures forall m :: m in old(modules) && m != owner ==> groups[m] == old(groups)[m]
    {
      hide Sorted, DistinctNames, Taken, Less, NameIn, IsList, GroupsSorted, Apart, AllGroups;
      var ok; ghost var nodes;
      ok, nodes := Regroup(owner, table);
      FromTable(nodes, table);
      ghost var others, was := groups - {owner}, modules;
      OthersApart(modules, groups, owner);
      taken := false;
      if ok {
        taken := RegisterModule(owner, others);
      }
      if taken || owner in groups {
        InsertedSet(was, modules, owner, taken);
        OwnerApart(was, modules, groups, owner, nodes, table);
        groups := groups[owner := nodes];
        assert groups == others[owner := nodes];
        OwnerSorted(others, owner, nodes);
      } else {
        assert groups == others;
      }
    }

    /** Enters a module in the list of modules, unless its name is taken. */
    method RegisterModule(owner: Node, ghost others: map<Node, seq<Node>>) returns (ghost taken: bool)
      requires IsList(list, modules) && Sorted(modules) && GroupsSorted(others)
      requires owner !in AllGroups(others) && forall m :: m in modules ==> m !in AllGroups(others)
      modifies `list, `modules, (set n | n in modules)`next, owner`next
      ensures IsList(list, modules) && Sorted(modules) && GroupsSorted(others)
      ensures taken <==> !NameIn(owner.name, old(modules))
      ensures if taken then exists k :: 0 <= k <= |old(modules)| && modules == InsertAt(old(modules), k, owner)
              else modules == old(modules) && list == old(list)
    {
      hide Sorted, Less, NameIn, IsList, GroupsSorted;
      assert forall g :: g in AllGroups(others) ==> g !in modules && g != owner;
      var head, duplicate; ghost var now;
      head, duplicate, now := Insert(list, owner, modules);
      list, modules, taken := head, now, !duplicate;
    }

    /** Sorts the groups of a module; nothing changes for the other modules. */
    method Regroup(owner: Node, table: seq<Node>) returns (ok: bool, ghost nodes: seq<Node>)
      requires Valid() && Distinct(table)
      requires owner !in table && owner !in AllGroups(groups) && (forall g :: g in table ==> g !in modules)
      requires forall m, g :: m in groups && m != owner && g in groups[m] ==> g !in table
      modifies owner`sub, (set n | n in table)`next
      ensures IsList(list, modules) && GroupsSorted(groups - {owner})
      ensures IsList(owner.sub, nodes) && Sorted(nodes)
      ensures multiset(nodes) == multiset(table[..Taken(table)])
      ensures ok <==> DistinctNames(table)
    {
      hide Sorted, DistinctNames, Taken, Less, NameIn, IsList;
      ok, nodes := RegisterGroups(owner, table);
    }
  }

  lemma InsertedSet(was: seq<Node>, now: seq<Node>, owner: Node, taken: bool)
    requires if taken then exists k :: 0 <= k <= |was| && now == InsertAt(was, k, owner) else now == was && owner in was
    ensures forall m :: m in now <==> m in was || m == owner
  {
    if taken {
      var k :| 0 <= k <= |was| && now == InsertAt(was, k, owner);
      assert was == was[..k] + was[k..];
    }
  }

  lemma OwnerApart(was: seq<Node>, now: seq<Node>, groups: map<Node, seq<Node>>, owner: Node,
                   nodes: seq<Node>, table: seq<Node>)
    requires Apart(was, groups) && (forall m :: m in now <==> m in was || m == owner)
    requires owner !in table && owner !in AllGroups(groups) && (forall g :: g in table ==> g !in was)
    requires forall m, g :: m in groups && m != owner && g in groups[m] ==> g !in table
    requires forall n :: n in nodes ==> n in table
    ensures Apart(now, groups[owner := nodes])
  {
    var after := groups[owner := nodes];
    assert AllGroups(after) <= AllGroups(groups) + (set n | n in nodes);
    forall m | m in now
      ensures m !in AllGroups(after)
    {
      assert m in was || m == owner;
    }
    forall m, n, g | m in after && n in after && g in after[m] && g in after[n]
      ensures m == n
    {
    }
  }

  lemma OwnerSorted(others: map<Node, seq<Node>>, owner: Node, nodes: seq<Node>)
    requires GroupsSorted(others) && IsList(owner.sub, nodes) && Sorted(nodes)
    ensures GroupsSorted(others[owner := nodes])
  {
    hide IsList, Sorted;
  }

  lemma OthersApart(modules: seq<Node>, groups: map<Node, seq<Node>>, owner: Node)
    requires Apart(modules, groups)
    ensures AllGroups(groups - {owner}) <= AllGroups(groups)
    ensures owner in groups <==> owner in modules
    ensures owner !in groups ==> groups - {owner} == groups
    ensures forall m :: m in modules ==> m !in AllGroups(groups)
    ensures (groups - {owner}).Keys == (set m | m in modules) - {owner}
  {
  }

  lemma FromTable(nodes: seq<Node>, table: seq<Node>)
    requires multiset(nodes) == multiset(table[..Taken(table)])
    ensures forall n :: n in nodes ==> n in table
  {
    forall n | n in nodes
      ensures n in table
    {
      InBoth(nodes, table[..Taken(table)], n);
    }
  }
}
