/** The intrusive circular doubly linked lists of GameLib/clist.h.

    A list is a ring of nodes through its head. Every operation is given, as a ghost argument, the
    sequence of entries its list holds, and states the sequence it holds afterwards. */
module CList {
  import opened Common

  /** `struct list_head`. A `timer_list` begins with its list head, so the two have one address and
      are one object here; `expires` is the field of the timer, unused in the head of a list. */
  class Node {
    var next: Node?
    var prev: Node?
    var expires: int

    constructor ()
      ensures next == null && prev == null && expires == 0
    {
      next, prev, expires := null, null, 0;
    }
  }

  /** Neighbours in the sequence are neighbours in memory, next and previous inverse to each other. */
  ghost predicate Linked(s: seq<Node>)
    reads s
  {
    forall i, j | 0 <= i < j < |s| && j == i + 1 :: s[i].next == s[j] && s[j].prev == s[i]
  }

  /** The list with head `h` holds exactly the entries `s`: going forwards from the head meets them
      in this order, going backwards in the opposite one, and both come back to the head. */
  ghost predicate Ring(h: Node, s: seq<Node>)
    reads h, s
  {
    && Distinct(s) && h !in s && Linked(s)
    && if s == [] then h.next == h && h.prev == h
       else h.next == s[0] && s[0].prev == h && h.prev == s[|s| - 1] && s[|s| - 1].next == h
  }

  function Nodes(h: Node, s: seq<Node>): set<Node> {
    {h} + set x | x in s
  }

  function Except(s: seq<Node>, i: nat): seq<Node>
    requires i < |s|
  {
    s[..i] + s[i + 1..]
  }

  /** Two lists without a node in common. */
  ghost predicate Apart(h: Node, s: seq<Node>, k: Node, t: seq<Node>) {
    h != k && h !in t && k !in s && forall x | x in s :: x !in t
  }

  lemma RingIs(h: Node, s: seq<Node>)
    requires Ring(h, s)
    ensures Distinct(s) && h !in s
  {
  }

  method InitListHead(list: Node)
    modifies list`next, list`prev
    ensures Ring(list, [])
  {
    list.next := list;
    list.prev := list;
  }

  /** `__list_add`. */
  method LinkBetween(n: Node, prev: Node, next: Node)
    modifies n`next, n`prev, next`prev, prev`next
    ensures n != next && n != prev ==> n.next == next && n.prev == prev && prev.next == n && next.prev == n
  {
    next.prev := n;
    n.next := next;
    n.prev := prev;
    prev.next := n;
  }

  method ListAdd(n: Node, head: Node, ghost s: seq<Node>)
    requires Ring(head, s) && n != head && n !in s
    modifies Nodes(head, s + [n])`next, Nodes(head, s + [n])`prev
    ensures Ring(head, [n] + s)
  {
    LinkBetween(n, head, head.next);
    assert forall i | 0 < i < |s| + 1 :: ([n] + s)[i] == s[i - 1];
  }

  method ListAddTail(n: Node, head: Node, ghost s: seq<Node>)
    requires Ring(head, s) && n != head && n !in s
    modifies Nodes(head, s + [n])`next, Nodes(head, s + [n])`prev
    ensures Ring(head, s + [n])
  {
    LinkBetween(n, head.prev, head);
  }

  lemma ExceptIs(s: seq<Node>, i: nat)
    requires i < |s| && Distinct(s)
    ensures forall a | 0 <= a < i :: Except(s, i)[a] == s[a]
    ensures forall a | i <= a < |s| - 1 :: Except(s, i)[a] == s[a + 1]
    ensures Distinct(Except(s, i)) && s[i] !in Except(s, i)
  {
  }

  lemma Neighbours(h: Node, s: seq<Node>, i: nat)
    requires Ring(h, s) && i < |s|
    ensures s[i].next == if i + 1 < |s| then s[i + 1] else h
    ensures s[i].prev == if i > 0 then s[i - 1] else h
  {
    if i + 1 < |s| {
      assert s[i].next == s[i + 1];
    }
    if i > 0 {
      assert s[i].prev == s[i - 1];
    }
  }

  /** `__list_del_entry`: the neighbours of entry `i` are made to point at each other. */
  method ListDelEntry(entry: Node, ghost head: Node, ghost s: seq<Node>, ghost i: nat)
    requires Ring(head, s) && i < |s| && s[i] == entry
    modifies Nodes(head, s)`next, Nodes(head, s)`prev
    ensures Ring(head, Except(s, i))
  {
    ExceptIs(s, i);
    Neighbours(head, s, i);
    var prev: Node, next: Node := entry.prev, entry.next;
    next.prev := prev;
    prev.next := next;
    ghost var t := Except(s, i);
    forall a, b | 0 <= a < b < |t| && b == a + 1 ensures t[a].next == t[b] && t[b].prev == t[a] {
      if b < i {
        assert old(s[a].next) == s[b];
      } else if a >= i {
        assert old(s[a + 1].next) == s[b + 1];
      }
    }
  }

  method ListDel(entry: Node, ghost head: Node, ghost s: seq<Node>, ghost i: nat)
    requires Ring(head, s) && i < |s| && s[i] == entry
    modifies Nodes(head, s)`next, Nodes(head, s)`prev
    ensures Ring(head, Except(s, i)) && entry.next == null && entry.prev == null
  {
    ExceptIs(s, i);
    ListDelEntry(entry, head, s, i);
    entry.next := null;
    entry.prev := null;
  }

  /** `list_replace` of one head by another; it is right on an empty list too, since the head then
      is its own neighbour and the third assignment reads what the second wrote. */
  method ListReplace(old_: Node, new_: Node, ghost s: seq<Node>)
    requires Ring(old_, s) && new_ != old_ && new_ !in s
    modifies Nodes(old_, s + [new_])`next, Nodes(old_, s + [new_])`prev
    ensures Ring(new_, s)
  {
    new_.next := old_.next;
    var first: Node := new_.next;
    first.prev := new_;
    new_.prev := old_.prev;
    var last: Node := new_.prev;
    last.next := new_;
    assert forall i, j | 0 <= i < j < |s| && j == i + 1 :: old(s[i].next) == s[j] && old(s[j].prev) == s[i];
  }

  method ListReplaceInit(old_: Node, new_: Node, ghost s: seq<Node>)
    requires Ring(old_, s) && new_ != old_ && new_ !in s
    modifies Nodes(old_, s + [new_])`next, Nodes(old_, s + [new_])`prev
    ensures Ring(new_, s) && Ring(old_, [])
  {
    ListReplace(old_, new_, s);
    InitListHead(old_);
  }

  method ListEmpty(head: Node, ghost s: seq<Node>) returns (empty: bool)
    requires Ring(head, s)
    ensures empty <==> s == []
  {
    empty := head.next == head;
  }

  lemma JoinedLinks(s: seq<Node>, t: seq<Node>)
    requires Linked(s) && Linked(t)
    requires s != [] && t != [] ==> s[|s| - 1].next == t[0] && t[0].prev == s[|s| - 1]
    ensures Linked(s + t)
  {
    forall i, j | 0 <= i < j < |s + t| && j == i + 1
      ensures (s + t)[i].next == (s + t)[j] && (s + t)[j].prev == (s + t)[i]
    {
      if j < |s| {
        assert s[i].next == s[j];
      } else if i >= |s| {
        assert t[i - |s|].next == t[j - |s|];
      }
    }
  }

  lemma JoinedDistinct(s: seq<Node>, t: seq<Node>)
    requires Distinct(s) && Distinct(t) && forall x | x in s :: x !in t
    ensures Distinct(s + t)
  {
    forall i, j | 0 <= i < j < |s + t| ensures (s + t)[i] != (s + t)[j] {
      if i < |s| <= j {
        assert s[i] in s;
      }
    }
  }

  lemma JoinedRing(h: Node, s: seq<Node>, t: seq<Node>)
    requires Linked(s) && Linked(t) && Distinct(s) && Distinct(t) && forall x | x in s :: x !in t
    requires s + t != [] && h !in s && h !in t
    requires s != [] && t != [] ==> s[|s| - 1].next == t[0] && t[0].prev == s[|s| - 1]
    requires var first, last := if s == [] then t[0] else s[0], if t == [] then s[|s| - 1] else t[|t| - 1];
      h.next == first && first.prev == h && h.prev == last && last.next == h
    ensures Ring(h, s + t)
  {
    hide Linked, Distinct;
    JoinedLinks(s, t);
    JoinedDistinct(s, t);
  }

  /** `__list_splice`: the entries of one ring between two neighbours of another. */
  method SpliceBetween(list: Node, prev: Node, next: Node, ghost s: seq<Node>)
    requires Ring(list, s) && s != [] && prev !in s && next !in s
    modifies {s[0], next}`prev, {s[|s| - 1], prev}`next
    ensures s[0].prev == prev && prev.next == s[0] && s[|s| - 1].next == next && next.prev == s[|s| - 1]
    ensures Linked(s)
  {
    var first: Node, last: Node := list.next, list.prev;
    first.prev := prev;
    prev.next := first;
    last.next := next;
    next.prev := last;
    forall i, j | 0 <= i < j < |s| && j == i + 1 ensures s[i].next == s[j] && s[j].prev == s[i] {
      assert old(s[i].next) == s[j] && old(s[j].prev) == s[i];
    }
  }

  method ListSplice(list: Node, head: Node, ghost s: seq<Node>, ghost t: seq<Node>)
    requires Ring(list, s) && Ring(head, t) && Apart(list, s, head, t)
    modifies Nodes(head, s + t)`next, Nodes(head, s + t)`prev
    ensures Ring(head, s + t)
  {
    var empty := ListEmpty(list, s);
    if !empty {
      SpliceBetween(list, head, head.next, s);
      assert Linked(t) by {
        assert forall i, j | 0 <= i < j < |t| && j == i + 1 :: old(t[i].next) == t[j] && old(t[j].prev) == t[i];
      }
      JoinedRing(head, s, t);
    } else {
      assert s + t == t;
    }
  }

  method ListSpliceTail(list: Node, head: Node, ghost s: seq<Node>, ghost t: seq<Node>)
    requires Ring(list, s) && Ring(head, t) && Apart(list, s, head, t)
    modifies Nodes(head, s + t)`next, Nodes(head, s + t)`prev
    ensures Ring(head, t + s)
  {
    var empty := ListEmpty(list, s);
    if !empty {
      SpliceBetween(list, head.prev, head, s);
      assert Linked(t) by {
        assert forall i, j | 0 <= i < j < |t| && j == i + 1 :: old(t[i].next) == t[j] && old(t[j].prev) == t[i];
      }
      JoinedRing(head, t, s);
    } else {
      assert t + s == t;
    }
  }

  method ListSpliceInit(list: Node, head: Node, ghost s: seq<Node>, ghost t: seq<Node>)
    requires Ring(list, s) && Ring(head, t) && Apart(list, s, head, t)
    modifies Nodes(head, s + t + [list])`next, Nodes(head, s + t + [list])`prev
    ensures Ring(head, s + t) && Ring(list, [])
  {
    var empty := ListEmpty(list, s);
    ListSplice(list, head, s, t);
    if !empty {
      InitListHead(list);
    }
  }

  method ListSpliceTailInit(list: Node, head: Node, ghost s: seq<Node>, ghost t: seq<Node>)
    requires Ring(list, s) && Ring(head, t) && Apart(list, s, head, t)
    modifies Nodes(head, s + t + [list])`next, Nodes(head, s + t + [list])`prev
    ensures Ring(head, t + s) && Ring(list, [])
  {
    var empty := ListEmpty(list, s);
    ListSpliceTail(list, head, s, t);
    if !empty {
      InitListHead(list);
    }
  }

  /** `list_move`: `t` is what the receiving list holds once the entry has been taken out, which
      matters when it is the list the entry comes from. */
  method ListMove(entry: Node, head: Node, ghost from: Node, ghost s: seq<Node>, ghost i: nat, ghost t: seq<Node>)
    requires Ring(from, s) && i < |s| && s[i] == entry
    requires if head == from then t == Except(s, i) else Ring(head, t) && Apart(from, s, head, t)
    modifies Nodes(from, s + [head] + t)`next, Nodes(from, s + [head] + t)`prev
    ensures Ring(head, [entry] + t)
    ensures head != from ==> Ring(from, Except(s, i))
  {
    hide Ring;
    RingIs(from, s);
    ExceptIs(s, i);
    ListDelEntry(entry, from, s, i);
    ListAdd(entry, head, t);
  }

  method ListMoveTail(entry: Node, head: Node, ghost from: Node, ghost s: seq<Node>, ghost i: nat, ghost t: seq<Node>)
    requires Ring(from, s) && i < |s| && s[i] == entry
    requires if head == from then t == Except(s, i) else Ring(head, t) && Apart(from, s, head, t)
    modifies Nodes(from, s + [head] + t)`next, Nodes(from, s + [head] + t)`prev
    ensures Ring(head, t + [entry])
    ensures head != from ==> Ring(from, Except(s, i))
  {
    hide Ring;
    RingIs(from, s);
    ExceptIs(s, i);
    ListDelEntry(entry, from, s, i);
    ListAddTail(entry, head, t);
  }

  method ListRotateLeft(head: Node, ghost s: seq<Node>)
    requires Ring(head, s)
    modifies Nodes(head, s)`next, Nodes(head, s)`prev
    ensures Ring(head, if s == [] then [] else s[1..] + [s[0]])
  {
    var empty := ListEmpty(head, s);
    if !empty {
      assert Except(s, 0) == s[1..];
      ListMoveTail(head.next, head, head, s, 0, s[1..]);
    }
  }

  /** `list_cut_position`: entries up to and including `entry` go to `list`; with `entry` the head
      itself nothing is cut. An empty list is left alone, and so then is `list`. */
  method ListCutPosition(list: Node, head: Node, entry: Node, ghost s: seq<Node>, ghost n: nat)
    requires Ring(head, s) && list != head && list !in s
    requires n <= |s| && entry == if n == 0 then head else s[n - 1]
    modifies Nodes(head, s + [list])`next, Nodes(head, s + [list])`prev
    ensures Ring(head, s[n..])
    ensures s != [] ==> Ring(list, s[..n])
    ensures s == [] ==> list.next == old(list.next) && list.prev == old(list.prev)
  {
    var empty := ListEmpty(head, s);
    if empty {
      return;
    }
    if head.next == head.prev && head.next != entry && head != entry {
      return;
    }
    if entry == head {
      InitListHead(list);
      assert s[n..] == s && s[..n] == [];
    } else {
      CutAfter(list, head, entry, s, n);
    }
  }

  /** `__list_cut_position`. */
  method CutAfter(list: Node, head: Node, entry: Node, ghost s: seq<Node>, ghost n: nat)
    requires Ring(head, s) && list != head && list !in s
    requires 0 < n <= |s| && entry == s[n - 1]
    modifies Nodes(head, s + [list])`next, Nodes(head, s + [list])`prev
    ensures Ring(head, s[n..]) && Ring(list, s[..n])
  {
    Neighbours(head, s, n - 1);
    var newFirst: Node := entry.next;
    list.next := head.next;
    var first: Node := list.next;
    first.prev := list;
    list.prev := entry;
    entry.next := list;
    head.next := newFirst;
    newFirst.prev := head;
    forall i, j | 0 <= i < j < |s| && j == i + 1 && j != n ensures s[i].next == s[j] && s[j].prev == s[i] {
      assert old(s[i].next) == s[j] && old(s[j].prev) == s[i];
    }
    FrontRing(list, s[..n]);
    RestRing(head, s, n);
  }

  lemma FrontRing(list: Node, s: seq<Node>)
    requires s != [] && list !in s && Distinct(s) && Linked(s)
    requires list.next == s[0] && s[0].prev == list && list.prev == s[|s| - 1] && s[|s| - 1].next == list
    ensures Ring(list, s)
  {
  }

  lemma RestRing(head: Node, s: seq<Node>, n: nat)
    requires 0 < n <= |s| && head !in s && Distinct(s)
    requires forall i, j | n <= i < j < |s| && j == i + 1 :: s[i].next == s[j] && s[j].prev == s[i]
    requires if n == |s| then head.next == head && head.prev == head
      else head.next == s[n] && s[n].prev == head && head.prev == s[|s| - 1] && s[|s| - 1].next == head
    ensures Ring(head, s[n..])
  {
    var r := s[n..];
    forall i, j | 0 <= i < j < |r| && j == i + 1 ensures r[i].next == r[j] && r[j].prev == r[i] {
      assert s[n + i].next == s[n + j];
    }
  }

  /** Cutting a list anywhere and splicing the cut-off part back restores it. */
  method CutThenSplice(list: Node, head: Node, entry: Node, ghost s: seq<Node>, ghost n: nat)
    requires Ring(head, s) && Ring(list, []) && list != head && list !in s
    requires n <= |s| && entry == if n == 0 then head else s[n - 1]
    modifies Nodes(head, s + [list])`next, Nodes(head, s + [list])`prev
    ensures Ring(head, s)
  {
    ListCutPosition(list, head, entry, s, n);
    assert s[..n] + s[n..] == s;
    ListSplice(list, head, s[..n], s[n..]);
  }

  /** On a ring every entry can be taken for the head. */
  lemma RingTurns(h: Node, s: seq<Node>, i: nat)
    requires Ring(h, s) && i < |s|
    ensures Ring(s[i], s[i + 1..] + [h] + s[..i])
  {
    var a, b := s[i + 1..], s[..i];
    Neighbours(h, s, i);
    JoinedLinks(a, [h]);
    JoinedLinks(a + [h], b);
    JoinedDistinct(a, [h]);
    JoinedDistinct(a + [h], b);
  }
}
