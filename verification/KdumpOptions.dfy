/** The options of fence_kdump and their list of nodes (agents/kdump/options.h).  A
    fence_kdump_node_t is represented by the list_head it embeds: container_of is a fixed
    offset, so the two addresses determine each other. */
module KdumpOptions {
  import opened KernelList

  const DEFAULT_IPPORT := 7410
  const DEFAULT_FAMILY := 0
  const DEFAULT_ACTION := 0
  const DEFAULT_COUNT := 0
  const DEFAULT_INTERVAL := 10
  const DEFAULT_TIMEOUT := 60
  const DEFAULT_VERBOSE := 0

  class Options {
    const nodes: Node
    var ipport: int
    var family: int
    var action: int
    var count: int
    var interval: int
    var timeout: int
    var verbose: int

    /** init_options. */
    constructor ()
      ensures fresh(nodes) && Ring([nodes])
      ensures ipport == 7410 && family == 0 && action == 0 && count == 0
      ensures interval == 10 && timeout == 60 && verbose == 0
    {
      var head := new Node();
      nodes := head;
      ipport, family, action, count := DEFAULT_IPPORT, DEFAULT_FAMILY, DEFAULT_ACTION, DEFAULT_COUNT;
      interval, timeout, verbose := DEFAULT_INTERVAL, DEFAULT_TIMEOUT, DEFAULT_VERBOSE;
      new;
      InitListHead(head);
    }
  }

  /** Reading a link: only of memory that is still allocated, and never at a poison address. */
  method Follow(pos: Node?) returns (next: Node?)
    requires pos != null && !pos.freed
    ensures next == pos.next
  {
    next := pos.next;
  }

  /** free_node: no node is freed twice. */
  method FreeNode(node: Node)
    requires !node.freed
    modifies node`freed
    ensures node.freed
  {
    node.freed := true;
  }

  /** Freed exactly once, and left poisoned. */
  ghost predicate Disposed(n: Node)
    reads n
  {
    n.freed && n.next == null && n.prev == null
  }

  /** The loop body: the first of the entries goes. */
  method FreeFirst(head: Node, pos: Node, next: Node, ghost rest: seq<Node>)
    requires Ring([head] + ([pos] + rest)) && next == pos.next
    modifies pos, head`next, next`prev
    ensures Ring([head] + rest)
    ensures Disposed(pos)
  {
    FromFirst(head, pos, rest);
    ListDel(pos, rest + [head]);
    FreeNode(pos);
    Rotate(rest, [head]);
  }

  /** Partway through the loop: what is left of the list, and what has been freed. */
  ghost predicate Freeing(head: Node, xs: seq<Node>, rest: seq<Node>, done: set<Node>)
    reads head, rest, done
  {
    && Ring([head] + rest)
    && (forall m | m in rest :: m in xs)
    && (forall m | m in xs :: m in rest || m in done)
    && (forall m | m in done :: m in xs && Disposed(m) && m != head && m !in rest)
  }

  /** The loop body, and the link read for the next round. */
  method FreeNext(head: Node, pos: Node, next: Node, ghost xs: seq<Node>, ghost rest: seq<Node>, ghost done: set<Node>)
    returns (n: Node?)
    requires Freeing(head, xs, rest, done) && rest != [] && pos == rest[0] && next == pos.next
    modifies pos, head`next, next`prev
    ensures Freeing(head, xs, rest[1..], done + {pos})
    ensures next == (if rest[1..] == [] then head else rest[1]) && n == next.next
  {
    ghost var after := rest[1..];
    Decompose(head, pos, rest, after);
    assert pos in xs;
    FreeFirst(head, pos, next, after);
    FirstLive(head, after);
    n := Follow(next);
  }

  /** The loop stays with the list. */
  lemma Bounded(head: Node, xs: seq<Node>, rest: seq<Node>, done: set<Node>)
    requires Freeing(head, xs, rest, done) && rest != []
    ensures rest[0] in xs && rest[0].next != null && (rest[0].next == head || rest[0].next in xs)
  {
    Decompose(head, rest[0], rest, rest[1..]);
    if rest[1..] != [] {
      assert rest[1..][0] in rest;
    }
  }

  /** free_options, for a list of any length: list_for_each_entry_safe reads the link of an
      entry before the entry is deleted and freed. */
  method FreeOptions(opts: Options, ghost xs: seq<Node>)
    requires Ring([opts.nodes] + xs)
    modifies opts.nodes, xs
    ensures Ring([opts.nodes])
    ensures forall n | n in xs :: Disposed(n)
  {
    var head := opts.nodes;
    FirstLive(head, xs);
    var pos := Follow(head);
    var n := Follow(pos);
    ghost var rest, done: set<Node> := xs, {};
    while pos != head
      invariant Freeing(head, xs, rest, done)
      invariant pos == if rest == [] then head else rest[0]
      invariant n == pos.next
      decreases |rest|
    {
      Bounded(head, xs, rest, done);
      var next := FreeNext(head, pos, n, xs, rest, done);
      done, rest := done + {pos}, rest[1..];
      pos, n := n, next;
    }
    FirstLive(head, rest);
    Single(head);
  }

  lemma Decompose(head: Node, pos: Node, rest: seq<Node>, after: seq<Node>)
    requires Ring([head] + rest) && rest != [] && pos == rest[0] && after == rest[1..]
    ensures Ring([head] + ([pos] + after))
    ensures pos.next == if after == [] then head else after[0]
    ensures pos !in after && pos != head && head !in rest
    ensures forall m :: m in rest <==> m == pos || m in after
  {
    assert rest == [pos] + after;
    HeadApart(head, rest);
    DistinctConcat([pos], after);
    assert [pos][0] == pos;
    SecondLive(head, pos, after);
  }

  lemma SecondLive(head: Node, pos: Node, rest: seq<Node>)
    requires Ring([head] + ([pos] + rest))
    ensures pos.next == if rest == [] then head else rest[0]
  {
    FromFirst(head, pos, rest);
    RingOfPieces([pos], rest + [head]);
  }

  lemma HeadApart(head: Node, xs: seq<Node>)
    requires Distinct([head] + xs)
    ensures head !in xs && Distinct(xs)
  {
    DistinctConcat([head], xs);
    assert [head][0] == head;
  }

  /** The list, read from its first entry on. */
  lemma FromFirst(head: Node, pos: Node, rest: seq<Node>)
    requires Ring([head] + ([pos] + rest))
    ensures Ring([pos] + (rest + [head]))
    ensures pos.prev == head
  {
    Rotate([head], [pos] + rest);
    Assoc([pos], rest, [head]);
    RingOfPieces([head], [pos] + rest);
  }

  lemma FirstLive(head: Node, s: seq<Node>)
    requires Ring([head] + s)
    ensures !head.freed && (s != [] ==> !s[0].freed)
    ensures head.next == if s == [] then head else s[0]
  {
    TestsMean(head, s);
    LiveConcat([head], s);
    assert ([head] + s)[0] == head;
  }
}
