/** pstree.c as a program: the list, make_tree with its fixed NULL-terminated child
    slots, print_tree, and the loop over the roots. */
module PsTreeProgram {
  import opened PsTree

  /** struct pstree_node * children[128] */
  const SLOTS := 128

  /** The slots hold exactly `kids`, followed by NO_NODE; what comes after is garbage. */
  ghost predicate Holds(slots: seq<int>, kids: seq<nat>) {
    && |slots| == SLOTS && |kids| < SLOTS
    && (forall j :: 0 <= j < |kids| ==> slots[j] == kids[j])
    && slots[|kids|] == NO_NODE
  }

  class Catalogue {
    var procs: seq<Process>       // the list from ll_head on
    var parent: seq<int>          // node->parent
    var slots: seq<seq<int>>      // node->children

    /** One parent link and one set of slots per node; the first `n` nodes have been
        entered below their parents. */
    ghost predicate Linked(n: nat)
      reads this
    {
      && |parent| == |slots| == |procs| && n <= |procs|
      && (forall i :: 0 <= i < n ==> parent[i] == Parent(procs, i))
      && (forall i :: n <= i < |procs| ==> parent[i] == NO_NODE)
      && (forall p :: 0 <= p < |procs| ==> Holds(slots[p], Kids(procs, p, n)))
    }

    constructor ()
      ensures procs == [] && Linked(0)
    {
      procs, parent, slots := [], [], [];
    }

    /** ll_create_and_insert: a new node in front of the list. */
    method CreateAndInsert(p: Process, garbage: seq<int>)
      requires Linked(0) && |garbage| == SLOTS
      modifies this
      ensures Linked(0) && procs == [p] + old(procs)
    {
      procs := [p] + procs;
      parent := [NO_NODE] + parent;
      slots := [garbage[0 := NO_NODE]] + slots;
    }

    /** find_node_with_pid */
    method FindNodeWithPid(pid: int) returns (r: int)
      ensures r == Find(procs, pid)
    {
      var node := 0;
      while node < |procs|
        invariant node <= |procs| && Find(procs, pid) == FindFrom(procs, pid, node)
      {
        if procs[node].pid == pid {
          return node;
        }
        node := node + 1;
      }
      return NO_NODE;
    }

    /** The loop that appends `node` after the last child of `p`. */
    method AddChild(p: nat, node: nat, ghost kids: seq<nat>)
      requires p < |slots| && Holds(slots[p], kids) && |kids| < SLOTS - 1
      modifies this`slots
      ensures |slots| == |old(slots)| && Holds(slots[p], kids + [node])
      ensures forall q :: 0 <= q < |slots| && q != p ==> slots[q] == old(slots)[q]
    {
      var i := 0;
      while slots[p][i] != NO_NODE
        invariant i <= |kids| && slots == old(slots)
        decreases |kids| - i
      {
        i := i + 1;
      }
      var row := slots[p][i := node][i + 1 := NO_NODE];
      slots := slots[p := row];
    }

    /** make_tree. The slots suffice if no process has more than 127 children. */
    method MakeTree()
      requires Linked(0)
      requires forall p :: 0 <= p < |procs| ==> |Children(procs, p)| < SLOTS
      modifies this`parent, this`slots
      ensures Linked(|procs|)
    {
      for node := 0 to |procs|
        invariant Linked(node)
      {
        var pnode := FindNodeWithPid(procs[node].ppid);
        if pnode != NO_NODE {
          KidsGrow(procs, pnode, node);
          parent := parent[node := pnode];
          AddChild(pnode, node, Kids(procs, pnode, node));
        }
      }
    }

    /** print_tree: the node itself, then its children one level deeper. */
    method PrintNode(root: nat, level: nat) returns (out: seq<Line>)
      requires Linked(|procs|) && root < |procs| && IsDist(procs, root, level)
      ensures out == PrintTree(procs, root, level)
      decreases |procs| - level
    {
      DistBound(procs, root, level);
      out := [Line(root, level)];
      var j := 0;
      ghost var kids := Children(procs, root);
      while slots[root][j] != NO_NODE
        invariant j <= |kids| && out == [Line(root, level)] + PrintKids(procs, root, level, j)
        decreases |kids| - j
      {
        KidDist(procs, root, level, j);
        assert slots[root][j] == kids[j];
        var sub := PrintNode(slots[root][j], level + 1);
        out := out + sub;
        j := j + 1;
      }
    }

    /** The loop of main over the nodes without a parent. */
    method PrintForest() returns (out: seq<Line>)
      requires Linked(|procs|)
      ensures out == PrintRoots(procs, |procs|)
    {
      out := [];
      for node := 0 to |procs|
        invariant out == PrintRoots(procs, node)
      {
        assert parent[node] == Parent(procs, node);
        if parent[node] == NO_NODE {
          var sub := PrintNode(node, 0);
          out := out + sub;
        }
      }
    }

    /** The end of main: build the tree and print it. The output is the one forest:
        every process whose parent links lead to a root exactly once, indented by its
        distance from that root, below its parent and in list order. */
    method PrintAll() returns (out: seq<Line>)
      requires Linked(0)
      requires forall p :: 0 <= p < |procs| ==> |Children(procs, p)| < SLOTS
      modifies this`parent, this`slots
      ensures IsForest(procs, out) && forall lines :: IsForest(procs, lines) ==> lines == out
    {
      MakeTree();
      out := PrintForest();
      PrintsForest(procs);
      forall lines | IsForest(procs, lines) ensures lines == out {
        OnlyForest(procs, lines);
      }
    }
  }

  /** A partial list of children is no longer than the full one, and shorter if a
      child is still to come. */
  lemma {:induction false} KidsGrow(ps: seq<Process>, p: int, n: nat)
    requires n < |ps| && Parent(ps, n) == p
    ensures |Kids(ps, p, n)| < |Children(ps, p)|
  {
    KidsMonotone(ps, p, n + 1, |ps|);
  }

  lemma {:induction false} KidsMonotone(ps: seq<Process>, p: int, m: nat, n: nat)
    requires m <= n <= |ps|
    ensures |Kids(ps, p, m)| <= |Kids(ps, p, n)|
  {
    if m == n {
    } else {
      KidsMonotone(ps, p, m, n - 1);
    }
  }
}
