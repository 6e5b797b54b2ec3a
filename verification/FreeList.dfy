/** po_malloc_free.c, the doubly linked free list: block headers in raw memory,
    linked through addresses, with `free_ll_head` as the entry. */
module FreeList {
  import opened Limits
  import opened Sequences

  /** block_header_t; links are addresses of other headers. */
  datatype Header = Header(length: nat, prev: nat, next: nat)

  /** The headers that memory holds, by address. */
  type Memory = map<nat, Header>

  function At(chain: seq<nat>, i: int): nat {
    if 0 <= i < |chain| then chain[i] else NULL
  }

  /** Neighbours in `chain` are linked to each other, both ways. */
  ghost predicate Linked(mem: Memory, chain: seq<nat>) {
    && (forall i :: 0 <= i < |chain| ==> chain[i] != NULL && chain[i] in mem)
    && (forall i, j :: 0 <= i < j < |chain| ==> chain[i] != chain[j])
    && (forall i, j {:trigger chain[i], chain[j]} :: 0 <= i && j == i + 1 < |chain| ==>
          mem[chain[i]].next == chain[j] && mem[chain[j]].prev == chain[i])
  }

  /** The list that starts at `head` visits exactly the addresses in `chain`, and
      every back link is right. */
  ghost predicate IsList(mem: Memory, head: nat, chain: seq<nat>) {
    && head == At(chain, 0)
    && Linked(mem, chain)
    && (chain != [] ==> mem[chain[0]].prev == NULL && mem[chain[|chain| - 1]].next == NULL)
  }

  /** What a node's own links say, at any position. */
  lemma {:induction false} LinksAt(mem: Memory, head: nat, chain: seq<nat>, k: nat)
    requires IsList(mem, head, chain) && k < |chain|
    ensures mem[chain[k]].prev == At(chain, k - 1) && mem[chain[k]].next == At(chain, k + 1)
  {
    assert k > 0 ==> mem[chain[k]].prev == chain[k - 1];
    assert k + 1 < |chain| ==> mem[chain[k]].next == chain[k + 1];
  }

  /** Only the headers at the given addresses may differ, and no block length does. */
  ghost predicate OnlyLinksOf(was: Memory, now: Memory, touched: set<nat>) {
    && was.Keys == now.Keys
    && (forall a :: a in was && a !in touched ==> now[a] == was[a])
    && (forall a :: a in was ==> now[a].length == was[a].length)
  }

  /** `now` is `was` after the neighbours of position `k` were linked to each other. */
  ghost predicate Bridged(was: Memory, now: Memory, chain: seq<nat>, k: nat) {
    var p, n := At(chain, k - 1), At(chain, k + 1);
    && OnlyLinksOf(was, now, {p, n})
    && (p != NULL ==> p in now && now[p].next == n && now[p].prev == was[p].prev)
    && (n != NULL ==> n in now && now[n].prev == p && now[n].next == was[n].next)
  }

  lemma {:induction false} BridgedLink(was: Memory, now: Memory, head: nat, chain: seq<nat>, k: nat, i: nat)
    requires IsList(was, head, chain) && k < |chain| && Bridged(was, now, chain, k)
    requires i + 1 < |Removed(chain, k)|
    ensures var c := Removed(chain, k); now[c[i]].next == c[i + 1] && now[c[i + 1]].prev == c[i]
  {
    LinksAt(was, head, chain, if i < k then i else i + 1);
    LinksAt(was, head, chain, if i + 1 < k then i + 1 else i + 2);
  }

  /** Taking out the node at position `k` and linking its neighbours. */
  lemma {:induction false} RemoveKeepsList(was: Memory, now: Memory, head: nat, chain: seq<nat>, k: nat)
    requires IsList(was, head, chain) && k < |chain| && Bridged(was, now, chain, k)
    ensures IsList(now, if k == 0 then At(chain, 1) else head, Removed(chain, k))
  {
    var c := Removed(chain, k);
    forall i, j {:trigger c[i], c[j]} | 0 <= i && j == i + 1 < |c|
      ensures now[c[i]].next == c[j] && now[c[j]].prev == c[i]
    {
      BridgedLink(was, now, head, chain, k, i);
    }
    if c != [] {
      LinksAt(was, head, chain, if k == 0 then 1 else 0);
      LinksAt(was, head, chain, if k == |chain| - 1 then k - 1 else |chain| - 1);
    }
  }

  /** Putting a new node in the place of the one at position `k`. */
  lemma {:induction false} ReplaceKeepsList(was: Memory, now: Memory, head: nat, chain: seq<nat>, k: nat, item: nat)
    requires IsList(was, head, chain) && k < |chain|
    requires item != NULL && item in was && item !in chain
    requires var p, n := At(chain, k - 1), At(chain, k + 1);
             && OnlyLinksOf(was, now, {p, n, item})
             && (p != NULL ==> now[p].next == item && now[p].prev == was[p].prev)
             && (n != NULL ==> now[n].prev == item && now[n].next == was[n].next)
             && now[item].prev == p && now[item].next == n
    ensures IsList(now, if k == 0 then item else head, chain[k := item])
  {
    var c := chain[k := item];
    forall i, j {:trigger c[i], c[j]} | 0 <= i && j == i + 1 < |c|
      ensures now[c[i]].next == c[j] && now[c[j]].prev == c[i]
    {
      LinksAt(was, head, chain, i);
      LinksAt(was, head, chain, j);
    }
    LinksAt(was, head, chain, 0);
    LinksAt(was, head, chain, |chain| - 1);
  }

  /** Putting a new node in front: the list is right exactly if the back link of the
      old first node, when there is one, names the new node. */
  lemma {:induction false} PushKeepsList(was: Memory, now: Memory, head: nat, chain: seq<nat>, item: nat, back: nat)
    requires IsList(was, head, chain)
    requires item != NULL && item in was && item !in chain
    requires OnlyLinksOf(was, now, {item, head})
    requires now[item].prev == NULL && now[item].next == head
    requires head != NULL ==> now[head].prev == back && now[head].next == was[head].next
    ensures IsList(now, item, [item] + chain) <==> chain == [] || back == item
  {
    var c := [item] + chain;
    assert chain != [] ==> c[0] == item && c[1] == head;
    if chain == [] || back == item {
      forall i, j {:trigger c[i], c[j]} | 0 <= i && j == i + 1 < |c|
        ensures now[c[i]].next == c[j] && now[c[j]].prev == c[i]
      {
        assert i > 0 ==> c[i] == chain[i - 1];
      }
    }
  }

  class Heap {
    var mem: Memory
    var head: nat      // free_ll_head

    constructor ()
      ensures mem == map[] && head == NULL && IsList(mem, head, [])
    {
      mem, head := map[], NULL;
    }

    method SetPrev(a: nat, prev: nat)
      requires a in mem
      modifies this`mem
      ensures mem == old(mem)[a := old(mem)[a].(prev := prev)]
    {
      mem := mem[a := mem[a].(prev := prev)];
    }

    method SetNext(a: nat, next: nat)
      requires a in mem
      modifies this`mem
      ensures mem == old(mem)[a := old(mem)[a].(next := next)]
    {
      mem := mem[a := mem[a].(next := next)];
    }

    /** ll_remove: the item at any position leaves the list, and only its
        neighbours' links and the head are written. */
    method LlRemove(item: nat, ghost chain: seq<nat>, ghost k: nat)
      requires IsList(mem, head, chain) && k < |chain| && chain[k] == item
      modifies this
      ensures IsList(mem, head, Removed(chain, k))
      ensures OnlyLinksOf(old(mem), mem, {At(chain, k - 1), At(chain, k + 1)})
    {
      LinksAt(mem, head, chain, k);
      if mem[item].prev == NULL {
        if mem[item].next != NULL {
          head := mem[item].next;
        } else {
          head := NULL;
        }
      } else {
        SetNext(mem[item].prev, mem[item].next);
      }
      if mem[item].next != NULL {
        SetPrev(mem[item].next, mem[item].prev);
      }
      RemoveKeepsList(old(mem), mem, old(head), chain, k);
    }

    /** ll_replace: the new item takes the old one's place. */
    method LlReplace(oldItem: nat, newItem: nat, ghost chain: seq<nat>, ghost k: nat)
      requires IsList(mem, head, chain) && k < |chain| && chain[k] == oldItem
      requires newItem != NULL && newItem in mem && newItem !in chain
      modifies this
      ensures IsList(mem, head, chain[k := newItem])
      ensures OnlyLinksOf(old(mem), mem, {At(chain, k - 1), At(chain, k + 1), newItem})
    {
      LinksAt(mem, head, chain, k);
      if mem[oldItem].prev != NULL {
        SetNext(mem[oldItem].prev, newItem);
      } else {
        head := newItem;
      }
      if mem[oldItem].next != NULL {
        SetPrev(mem[oldItem].next, newItem);
      }
      SetPrev(newItem, mem[oldItem].prev);
      SetNext(newItem, mem[oldItem].next);
      ReplaceKeepsList(old(mem), mem, old(head), chain, k, newItem);
    }

    /** po_free's insertion at the front. `back` is what the old head's back link is
        set to: the new header in the plan, the user pointer in the code. */
    method PushFront(item: nat, back: nat, ghost chain: seq<nat>)
      requires IsList(mem, head, chain) && item != NULL && item in mem && item !in chain
      modifies this
      ensures IsList(mem, head, [item] + chain) <==> chain == [] || back == item
      ensures OnlyLinksOf(old(mem), mem, {item, At(chain, 0)})
    {
      SetPrev(item, NULL);
      if head != NULL {
        SetNext(item, head);
        SetPrev(head, back);
        head := item;
      } else {
        SetNext(item, NULL);
        head := item;
      }
      PushKeepsList(old(mem), mem, old(head), chain, item, back);
    }
  }
}
