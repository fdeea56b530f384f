/** The intrusive circular list of agents/kdump/list.h.  A ring is given as the ghost
    sequence of its nodes, head first. */
module KernelList {

  /** A list_head.  null stands for the two poison addresses, which must not be followed;
      freed for memory that must not be touched. */
  class Node {
    var next: Node?
    var prev: Node?
    ghost var freed: bool

    constructor ()
      ensures !freed
    {
      next, prev, freed := null, null, false;
    }
  }

  ghost predicate Distinct(s: seq<Node>) {
    forall i, j | 0 <= i < j < |s| :: s[i] != s[j]
  }

  ghost predicate Live(s: seq<Node>)
    reads s
  {
    forall i | 0 <= i < |s| :: !s[i].freed
  }

  ghost predicate Edge(p: Node, q: Node)
    reads p, q
  {
    p.next == q && q.prev == p
  }

  /** Consecutive nodes of s are linked both ways. */
  ghost predicate Linked(s: seq<Node>)
    reads s
  {
    forall i {:trigger s[i]} | 0 <= i < |s| - 1 :: Edge(s[i], s[i+1])
  }

  /** next and prev are mutually inverse along s, and every node is reached. */
  ghost predicate Ring(s: seq<Node>)
    reads s
  {
    s != [] && Distinct(s) && Live(s) && Linked(s) && Edge(s[|s|-1], s[0])
  }

  lemma LinkedConcat(a: seq<Node>, b: seq<Node>)
    requires a != [] && b != []
    ensures Linked(a + b) <==> Linked(a) && Linked(b) && Edge(a[|a|-1], b[0])
  {
    var s := a + b;
    assert s[|a|-1] == a[|a|-1] && s[|a|] == b[0];
    if Linked(s) {
      forall i | 0 <= i < |a| - 1 ensures Edge(a[i], a[i+1]) {
        assert s[i] == a[i] && s[i+1] == a[i+1];
      }
      forall i | 0 <= i < |b| - 1 ensures Edge(b[i], b[i+1]) {
        assert s[|a|+i] == b[i] && s[|a|+i+1] == b[i+1];
      }
    }
  }

  ghost predicate Apart(a: seq<Node>, b: seq<Node>) {
    forall i, j | 0 <= i < |a| && 0 <= j < |b| :: a[i] != b[j]
  }

  lemma DistinctConcat(a: seq<Node>, b: seq<Node>)
    ensures Distinct(a + b) <==> Distinct(a) && Distinct(b) && Apart(a, b)
  {
    var s := a + b;
    if Distinct(s) {
      forall i, j | 0 <= i < j < |b| ensures b[i] != b[j] {
        assert s[|a|+i] != s[|a|+j];
      }
      forall i, j | 0 <= i < |a| && 0 <= j < |b| ensures a[i] != b[j] {
        assert s[i] != s[|a|+j];
      }
      forall i, j | 0 <= i < j < |a| ensures a[i] != a[j] {
        assert s[i] != s[j];
      }
    }
  }

  lemma LiveConcat(a: seq<Node>, b: seq<Node>)
    ensures Live(a + b) <==> Live(a) && Live(b)
  {
    var s := a + b;
    if Live(s) {
      forall i | 0 <= i < |a| ensures !a[i].freed { assert s[i] == a[i]; }
      forall i | 0 <= i < |b| ensures !b[i].freed { assert s[|a|+i] == b[i]; }
    }
  }

  /** A ring of two pieces. */
  ghost predicate Pieces(a: seq<Node>, b: seq<Node>)
    reads a, b
  {
    && a != [] && b != []
    && Distinct(a) && Distinct(b) && Apart(a, b)
    && Live(a) && Live(b)
    && Linked(a) && Linked(b)
    && Edge(a[|a|-1], b[0]) && Edge(b[|b|-1], a[0])
  }

  lemma RingOfPieces(a: seq<Node>, b: seq<Node>)
    requires a != [] && b != []
    ensures Ring(a + b) <==> Pieces(a, b)
  {
    LinkedConcat(a, b);
    DistinctConcat(a, b);
    LiveConcat(a, b);
    assert (a + b)[0] == a[0] && (a + b)[|a + b|-1] == b[|b|-1];
  }

  /** A ring may be listed from any of its nodes. */
  lemma Rotate(a: seq<Node>, b: seq<Node>)
    requires Ring(a + b)
    ensures Ring(b + a)
  {
    if a == [] || b == [] {
      assert a + b == b + a;
    } else {
      RingOfPieces(a, b);
      RingOfPieces(b, a);
    }
  }

  method InitListHead(list: Node)
    modifies list`next, list`prev
    ensures !list.freed ==> Ring([list])
  {
    list.next := list;
    list.prev := list;
  }

  /** __list_add, the ring being listed from next on: prev is its last node. */
  method Link(n: Node, prev: Node, next: Node, ghost s: seq<Node>)
    requires Ring(s) && n !in s && !n.freed
    requires next == s[0] && prev == s[|s|-1]
    modifies n`next, n`prev, prev`next, next`prev
    ensures Ring([n] + s)
  {
    next.prev := n;
    n.next := next;
    n.prev := prev;
    prev.next := n;
    assert Linked(s);
    assert Edge(n, s[0]) && Edge(s[|s|-1], n);
    RingOfPieces([n], s);
  }

  /** __list_del, the ring being listed from the entry on. */
  method Unlink(prev: Node, next: Node, ghost entry: Node, ghost s: seq<Node>)
    requires Ring([entry] + s) && prev == entry.prev && next == entry.next
    modifies next`prev, prev`next
    ensures s != [] ==> Ring(s) && entry !in s && entry.next == next && entry.prev == prev
    ensures s == [] ==> Ring([entry])
    ensures !entry.freed
  {
    if s != [] { RingOfPieces([entry], s); } else { assert [entry] + s == [entry]; }
    next.prev := prev;
    prev.next := next;
  }

  /** Two rings without a common node, the second listed from entry. */
  ghost predicate Separate(s: seq<Node>, entry: Node, t: seq<Node>) {
    entry !in s && forall n | n in t :: n !in s
  }

  /** __list_splice, the other ring being listed from next on.  list is left with stale
      links. */
  method Splice(list: Node, prev: Node, next: Node, ghost ys: seq<Node>, ghost s: seq<Node>)
    requires Ring([list] + ys) && ys != [] && Ring(s)
    requires Apart(ys, s) && list !in ys && list !in s
    requires next == s[0] && prev == s[|s|-1]
    modifies list.next`prev, list.prev`next, prev`next, next`prev
    ensures Ring(ys + s)
    ensures !list.freed
    ensures list.next == old(list.next) && list.prev == old(list.prev)
  {
    RingOfPieces([list], ys);
    var first := list.next;
    var last := list.prev;
    first.prev := prev;
    prev.next := first;
    last.next := next;
    next.prev := last;
    assert Linked(ys) && Linked(s);
    assert Edge(ys[|ys|-1], s[0]) && Edge(s[|s|-1], ys[0]);
    RingOfPieces(ys, s);
  }

  /** __list_cut_position, the ring being listed from the entry after the cut on: u ends
      with the head, a is the piece that goes to list. */
  method Cut(list: Node, head: Node, entry: Node, ghost u: seq<Node>, ghost a: seq<Node>, ghost u0: Node, ghost a0: Node)
    requires Ring(u + a) && u != [] && a != [] && u0 == u[0] && a0 == a[0]
    requires head == u[|u|-1] && entry == a[|a|-1] && list !in u && list !in a && !list.freed
    modifies list`next, list`prev, head`next, entry`next, u0`prev, a0`prev
    ensures Ring([list] + a) && Ring(u)
  {
    RingOfPieces(u, a);
    var newFirst := entry.next;
    list.next := head.next;
    list.next.prev := list;
    list.prev := entry;
    entry.next := list;
    assert Linked(a) && Edge(list, a[0]) && Edge(a[|a|-1], list);
    head.next := newFirst;
    newFirst.prev := head;
    assert Linked(u) && Edge(u[|u|-1], u[0]);
    assert Linked(a) && Edge(list, a[0]) && Edge(a[|a|-1], list);
    RingOfPieces([list], a);
  }

  // ------------------------------------------------------------------ the operations

  lemma Assoc(a: seq<Node>, b: seq<Node>, c: seq<Node>)
    ensures (a + b) + c == a + (b + c)
  {
  }

  /** The list of head, read from one of its entries on, and without that entry. */
  lemma FromEntry(head: Node, a: seq<Node>, entry: Node, b: seq<Node>)
    ensures Ring(([head] + a) + ([entry] + b)) <==> Ring([entry] + (b + ([head] + a)))
    ensures Ring(b + ([head] + a)) <==> Ring([head] + (a + b))
  {
    Assoc([entry], b, [head] + a);
    Assoc([head], a, b);
    if Ring(([head] + a) + ([entry] + b)) { Rotate([head] + a, [entry] + b); }
    if Ring(([entry] + b) + ([head] + a)) { Rotate([entry] + b, [head] + a); }
    if Ring(b + ([head] + a)) { Rotate(b, [head] + a); }
    if Ring(([head] + a) + b) { Rotate([head] + a, b); }
  }

  method ListAdd(n: Node, head: Node, ghost xs: seq<Node>)
    requires Ring([head] + xs) && n !in [head] + xs && !n.freed
    modifies n`next, n`prev, head`next, head.next`prev
    ensures Ring([head] + ([n] + xs))
  {
    Rotate([head], xs);
    Link(n, head, head.next, xs + [head]);
    Assoc([n], xs, [head]);
    Rotate([n] + xs, [head]);
  }

  method ListAddTail(n: Node, head: Node, ghost xs: seq<Node>)
    requires Ring([head] + xs) && n !in [head] + xs && !n.freed
    modifies n`next, n`prev, head`prev, head.prev`next
    ensures Ring([head] + xs + [n])
  {
    Link(n, head.prev, head, [head] + xs);
    Rotate([n], [head] + xs);
  }

  // Operations on an entry list the ring from that entry on; see FromEntry.

  /** __list_del_entry. */
  method Detach(entry: Node, ghost s: seq<Node>)
    requires Ring([entry] + s)
    modifies entry.prev`next, entry.next`prev
    ensures s != [] ==> Ring(s) && entry !in s
    ensures s == [] ==> Ring([entry])
    ensures !entry.freed
  {
    Unlink(entry.prev, entry.next, entry, s);
  }

  /** list_del; the entry is left poisoned. */
  method ListDel(entry: Node, ghost s: seq<Node>)
    requires Ring([entry] + s)
    modifies entry`next, entry`prev, entry.prev`next, entry.next`prev
    ensures s != [] ==> Ring(s) && entry !in s
    ensures entry.next == null && entry.prev == null && !entry.freed
  {
    Detach(entry, s);
    entry.next := null;
    entry.prev := null;
  }

  method ListDelInit(entry: Node, ghost s: seq<Node>)
    requires Ring([entry] + s)
    modifies entry`next, entry`prev, entry.prev`next, entry.next`prev
    ensures s != [] ==> Ring(s)
    ensures Ring([entry])
  {
    Detach(entry, s);
    InitListHead(entry);
  }

  /** The new node takes the place of the old one, also when the old one is alone. */
  method ListReplace(was: Node, n: Node, ghost s: seq<Node>)
    requires Ring([was] + s) && n != was && n !in s && !n.freed
    modifies n`next, n`prev, was.prev`next, was.next`prev
    ensures Ring([n] + s)
    ensures !was.freed && was !in [n] + s
  {
    if s != [] { RingOfPieces([was], s); } else { Single(was); Single(n); }
    n.next := was.next;
    n.next.prev := n;
    n.prev := was.prev;
    n.prev.next := n;
    if s != [] {
      assert Linked(s) && Edge(n, s[0]) && Edge(s[|s|-1], n);
      RingOfPieces([n], s);
    }
  }

  lemma Single(n: Node)
    ensures [n] + [] == [n]
  {
  }

  method ListReplaceInit(was: Node, n: Node, ghost s: seq<Node>)
    requires Ring([was] + s) && n != was && n !in s && !n.freed
    modifies n`next, n`prev, was`next, was`prev, was.prev`next, was.next`prev
    ensures Ring([n] + s) && Ring([was])
  {
    ListReplace(was, n, s);
    InitListHead(was);
  }

  /** list_move within the list of head, which is a, entry, b: entry becomes the first.
      (That the links of head are no null pointers follows from the ring.) */
  method ListMove(entry: Node, head: Node, ghost a: seq<Node>, ghost b: seq<Node>)
    requires Ring([entry] + (b + ([head] + a))) && head.next != null
    modifies entry`next, entry`prev, entry.prev`next, entry.next`prev, head`next, head.next`prev
    ensures Ring([head] + ([entry] + (a + b)))
  {
    Detach(entry, b + ([head] + a));
    FromEntry(head, a, entry, b);
    Members(b, head, a);
    ListAdd(entry, head, a + b);
  }

  lemma Members(b: seq<Node>, head: Node, a: seq<Node>)
    ensures forall n :: n in [head] + (a + b) <==> n in b + ([head] + a)
    ensures head in b + ([head] + a)
  {
    assert forall n :: n in [head] + (a + b) <==> n == head || n in a || n in b;
  }

  method ListMoveTail(entry: Node, head: Node, ghost a: seq<Node>, ghost b: seq<Node>)
    requires Ring([entry] + (b + ([head] + a))) && head.prev != null
    modifies entry`next, entry`prev, entry.prev`next, entry.next`prev, head`prev, head.prev`next
    ensures Ring([head] + (a + b) + [entry])
  {
    Detach(entry, b + ([head] + a));
    FromEntry(head, a, entry, b);
    Members(b, head, a);
    ListAddTail(entry, head, a + b);
  }

  lemma Untouched(entry: Node, s: seq<Node>, t: seq<Node>)
    requires Ring([entry] + s) && Separate(t, entry, s)
    ensures entry.prev !in t && entry.next !in t
    ensures s != [] ==> entry.prev in s && entry.next in s
  {
    if s == [] {
      Single(entry);
    } else {
      RingOfPieces([entry], s);
    }
  }

  /** list_move between lists; a ring of one node is consumed. */
  method ListMoveTo(entry: Node, head: Node, ghost s: seq<Node>, ghost ys: seq<Node>)
    requires Ring([entry] + s) && Ring([head] + ys) && Separate([head] + ys, entry, s)
    modifies entry`next, entry`prev, entry.prev`next, entry.next`prev, head`next, head.next`prev
    ensures s != [] ==> Ring(s)
    ensures Ring([head] + ([entry] + ys))
  {
    Untouched(entry, s, [head] + ys);
    Separated(entry, s, head, ys);
    Untouched(head, ys, s);
    Detach(entry, s);
    ListAdd(entry, head, ys);
  }

  lemma Separated(entry: Node, s: seq<Node>, head: Node, ys: seq<Node>)
    requires Separate([head] + ys, entry, s)
    ensures Separate(s, head, ys)
  {
    assert forall n | n == head || n in ys :: n in [head] + ys;
  }

  method ListMoveTailTo(entry: Node, head: Node, ghost s: seq<Node>, ghost ys: seq<Node>)
    requires Ring([entry] + s) && Ring([head] + ys) && Separate([head] + ys, entry, s)
    modifies entry`next, entry`prev, entry.prev`next, entry.next`prev, head`prev, head.prev`next
    ensures s != [] ==> Ring(s)
    ensures Ring([head] + ys + [entry])
  {
    Untouched(entry, s, [head] + ys);
    Separated(entry, s, head, ys);
    Untouched(head, ys, s);
    Detach(entry, s);
    ListAddTail(entry, head, ys);
  }

  // ----------------------------------------------------------------------- tests

  predicate ListEmpty(head: Node)
    reads head
  {
    head.next == head
  }

  predicate ListEmptyCareful(head: Node)
    reads head
  {
    head.next == head && head.next == head.prev
  }

  predicate ListIsLast(list: Node, head: Node)
    reads list
  {
    list.next == head
  }

  predicate ListIsSingular(head: Node)
    reads head
  {
    !ListEmpty(head) && head.next == head.prev
  }

  lemma TestsMean(head: Node, xs: seq<Node>)
    requires Ring([head] + xs)
    ensures ListEmpty(head) <==> xs == []
    ensures ListEmptyCareful(head) <==> xs == []
    ensures ListIsSingular(head) <==> |xs| == 1
    ensures forall k | 0 <= k < |xs| :: ListIsLast(xs[k], head) <==> k == |xs| - 1
    ensures if xs == [] then head.next == head else head.next == xs[0] && head.prev == xs[|xs|-1]
  {
    if xs == [] {
      Single(head);
    } else {
      RingOfPieces([head], xs);
      assert [head][0] == head;
      forall k | 0 <= k < |xs| ensures ListIsLast(xs[k], head) <==> k == |xs| - 1 {
        if k < |xs| - 1 {
          assert Edge(xs[k], xs[k+1]);
        }
      }
    }
  }

  method ListRotateLeft(head: Node, ghost xs: seq<Node>)
    requires Ring([head] + xs)
    modifies ([head] + xs)`next, ([head] + xs)`prev
    ensures Ring([head] + RotatedLeft(xs))
  {
    TestsMean(head, xs);
    if !ListEmpty(head) {
      var first := head.next;
      RotateParts(head, xs);
      ListMoveTail(first, head, [], xs[1..]);
      assert [head] + ([] + xs[1..]) + [first] == [head] + (xs[1..] + [first]);
    }
  }

  ghost function RotatedLeft(xs: seq<Node>): seq<Node> {
    if xs == [] then [] else xs[1..] + [xs[0]]
  }

  lemma RotateParts(head: Node, xs: seq<Node>)
    requires Ring([head] + xs) && xs != []
    ensures Ring([xs[0]] + (xs[1..] + ([head] + [])))
    ensures forall n :: n in [head] + xs <==> n == head || n in xs
    ensures xs[0] in xs && xs[|xs|-1] in xs && (|xs| > 1 ==> xs[1] in xs)
    ensures xs[0].next == if |xs| > 1 then xs[1] else head
  {
    Rotate([head], xs);
    assert xs + [head] == [xs[0]] + (xs[1..] + ([head] + []));
    RingOfPieces([head], xs);
    assert [head][0] == head;
    if |xs| > 1 { assert Edge(xs[0], xs[1]); }
  }

  // ------------------------------------------------------------- cutting and splicing

  /** list_cut_position: the first k entries, up to entry, go to list.  On an empty list, or
      a one-entry list entry does not belong to, it does nothing, and list keeps its links. */
  method ListCutPosition(list: Node, head: Node, entry: Node, ghost xs: seq<Node>, ghost k: nat)
    requires Ring([head] + xs) && list != head && list !in xs && !list.freed
    requires if entry == head then k == 0 else if entry in xs then 0 < k <= |xs| && entry == xs[k-1] else |xs| <= 1
    modifies list`next, list`prev, ([head] + xs)`next, ([head] + xs)`prev
    ensures xs == [] || (entry != head && entry !in xs) ==>
              list.next == old(list.next) && list.prev == old(list.prev) && Ring([head] + xs)
    ensures xs != [] && (entry == head || entry in xs) ==> Ring([list] + xs[..k]) && Ring([head] + xs[k..])
  {
    TestsMean(head, xs);
    if ListEmpty(head) { return; }
    RotateParts(head, xs);
    if ListIsSingular(head) && head.next != entry && head != entry { return; }
    if entry == head {
      assert [list] + xs[..0] == [list] && xs[0..] == xs;
      InitListHead(list);
    } else {
      ghost var a, b := xs[..k], xs[k..];
      CutParts(head, xs, k);
      Cut(list, head, entry, b + [head], a, (b + [head])[0], a[0]);
      Rotate(b, [head]);
    }
  }

  lemma CutParts(head: Node, xs: seq<Node>, k: nat)
    requires Ring([head] + xs) && 0 < k <= |xs|
    ensures Ring((xs[k..] + [head]) + xs[..k])
    ensures forall n | n in xs[k..] + [head] || n in xs[..k] :: n == head || n in xs
  {
    assert [head] + xs == ([head] + xs[..k]) + xs[k..];
    Rotate([head] + xs[..k], xs[k..]);
    Assoc(xs[k..], [head], xs[..k]);
  }

  method ListSplice(list: Node, head: Node, ghost ys: seq<Node>, ghost xs: seq<Node>)
    requires Ring([list] + ys) && Ring([head] + xs) && Separate([head] + xs, list, ys)
    modifies list.next`prev, list.prev`next, head`next, head.next`prev
    ensures Ring([head] + (ys + xs))
    ensures !list.freed && list !in [head] + (ys + xs)
    ensures list.next == old(list.next) && list.prev == old(list.prev)
  {
    TestsMean(list, ys);
    Turned(head, xs, list, ys);
    if !ListEmpty(list) {
      Rotate([head], xs);
      Splice(list, head, head.next, ys, xs + [head]);
      Assoc(ys, xs, [head]);
      Rotate(ys + xs, [head]);
    } else {
      assert ys + xs == xs;
    }
  }

  lemma Turned(head: Node, xs: seq<Node>, list: Node, ys: seq<Node>)
    requires Separate([head] + xs, list, ys) && Distinct([list] + ys)
    ensures Apart(ys, xs + [head]) && Apart(ys, [head] + xs) && list !in xs + [head] && list !in [head] + xs
    ensures list !in [head] + (ys + xs) && list !in [head] + xs + ys && list !in ys && head !in ys
  {
    DistinctConcat([list], ys);
    assert [list][0] == list;
    assert forall n :: n in [head] + xs <==> n == head || n in xs;
    assert forall n :: n in xs + [head] <==> n == head || n in xs;
    forall i, j | 0 <= i < |ys| && 0 <= j <= |xs|
      ensures ys[i] != (xs + [head])[j] && ys[i] != ([head] + xs)[j]
    {
      assert ys[i] in ys && (xs + [head])[j] in xs + [head] && ([head] + xs)[j] in [head] + xs;
    }
  }

  method ListSpliceTail(list: Node, head: Node, ghost ys: seq<Node>, ghost xs: seq<Node>)
    requires Ring([list] + ys) && Ring([head] + xs) && Separate([head] + xs, list, ys)
    modifies list.next`prev, list.prev`next, head`prev, head.prev`next
    ensures Ring([head] + xs + ys)
    ensures !list.freed && list !in [head] + xs + ys
    ensures list.next == old(list.next) && list.prev == old(list.prev)
  {
    TestsMean(list, ys);
    Turned(head, xs, list, ys);
    if !ListEmpty(list) {
      Splice(list, head.prev, head, ys, [head] + xs);
      Rotate(ys, [head] + xs);
    } else {
      assert [head] + xs + ys == [head] + xs;
    }
  }

  method ListSpliceInit(list: Node, head: Node, ghost ys: seq<Node>, ghost xs: seq<Node>)
    requires Ring([list] + ys) && Ring([head] + xs) && Separate([head] + xs, list, ys)
    modifies list`next, list`prev, list.next`prev, list.prev`next, head`next, head.next`prev
    ensures Ring([head] + (ys + xs)) && Ring([list])
  {
    TestsMean(list, ys);
    if !ListEmpty(list) {
      ListSplice(list, head, ys, xs);
      InitListHead(list);
    } else {
      Single(list);
      assert ys + xs == xs;
    }
  }

  method ListSpliceTailInit(list: Node, head: Node, ghost ys: seq<Node>, ghost xs: seq<Node>)
    requires Ring([list] + ys) && Ring([head] + xs) && Separate([head] + xs, list, ys)
    modifies list`next, list`prev, list.next`prev, list.prev`next, head`prev, head.prev`next
    ensures Ring([head] + xs + ys) && Ring([list])
  {
    TestsMean(list, ys);
    if !ListEmpty(list) {
      ListSpliceTail(list, head, ys, xs);
      InitListHead(list);
    } else {
      Single(list);
      assert [head] + xs + ys == [head] + xs;
    }
  }

  /** Cutting a list and splicing the piece back on its front is the identity. */
  method CutThenSplice(list: Node, head: Node, entry: Node, ghost xs: seq<Node>, ghost k: nat)
    requires Ring([head] + xs) && Ring([list]) && list != head && list !in xs
    requires if entry == head then k == 0 else 0 < k <= |xs| && entry == xs[k-1]
    modifies list`next, list`prev, ([head] + xs)`next, ([head] + xs)`prev
    ensures Ring([head] + xs) && Ring([list])
  {
    PiecesAreApart(list, head, xs, k);
    ListCutPosition(list, head, entry, xs, k);
    Neighbours(list, xs[..k]);
    Neighbours(head, xs[k..]);
    ListSpliceInit(list, head, xs[..k], xs[k..]);
  }

  /** Splicing the piece on the tail instead leaves the suffix followed by the prefix. */
  method CutThenSpliceTail(list: Node, head: Node, entry: Node, ghost xs: seq<Node>, ghost k: nat)
    requires Ring([head] + xs) && Ring([list]) && list != head && list !in xs
    requires if entry == head then k == 0 else 0 < k <= |xs| && entry == xs[k-1]
    modifies list`next, list`prev, ([head] + xs)`next, ([head] + xs)`prev
    ensures Ring([head] + xs[k..] + xs[..k]) && Ring([list])
  {
    PiecesAreApart(list, head, xs, k);
    ListCutPosition(list, head, entry, xs, k);
    Neighbours(list, xs[..k]);
    Neighbours(head, xs[k..]);
    ListSpliceTailInit(list, head, xs[..k], xs[k..]);
  }

  lemma Neighbours(n: Node, s: seq<Node>)
    requires Ring([n] + s)
    ensures n.next != null && n.prev != null
    ensures n.next == n || n.next in s
    ensures n.prev == n || n.prev in s
  {
    TestsMean(n, s);
    if s == [] { Single(n); }
  }

  lemma PiecesAreApart(list: Node, head: Node, xs: seq<Node>, k: nat)
    requires Distinct([head] + xs) && list != head && list !in xs && k <= |xs|
    ensures Separate([head] + xs[k..], list, xs[..k])
    ensures xs == [] ==> [list] + xs[..k] == [list] && [head] + xs[k..] == [head]
    ensures xs[..k] + xs[k..] == xs
    ensures forall n | n in xs[..k] || n in xs[k..] :: n in xs
    ensures forall n :: n in [head] + xs <==> n == head || n in xs
  {
    DistinctConcat([head], xs);
    assert [head][0] == head;
    forall n | n in xs[..k] ensures n !in [head] + xs[k..] {
      var i :| 0 <= i < k && xs[i] == n;
      assert forall j | 0 <= j < |xs| - k :: xs[k..][j] == xs[j+k];
    }
  }
}
