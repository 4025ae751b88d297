/** The intrusive doubly linked lists of lib.exec (list.c), at pointer level.

    A node carries its own links, so one heap of nodes serves every list.  The C header
    overlaps its two sentinels: its `lh_Tail` word, always null, is both the predecessor of
    the head sentinel and the successor of the tail sentinel.  Here they are two nodes:
    `lh_Head` is `head.succ`, `lh_TailPred` is `tail.pred`. */
module Lists {

  /** `ln_Pri` is a signed byte. */
  type Priority = p: int | -128 <= p <= 127

  /** A node together with the rest of the structure whose first member it is. */
  class Node<T> {
    var succ: Node?<T>
    var pred: Node?<T>
    const pri: Priority
    var rest: T

    constructor (pri: Priority, rest: T)
      ensures this.pri == pri && this.rest == rest && succ == null && pred == null
    {
      this.pri, this.rest := pri, rest;
      succ, pred := null, null;
    }
  }

  ghost predicate Distinct<T>(s: seq<T>) {
    forall i, j :: 0 <= i < j < |s| ==> s[i] != s[j]
  }

  /** `c` is a complete chain of nodes: first sentinel, members, last sentinel. */
  ghost predicate Linked<T>(c: seq<Node<T>>)
    reads c`succ, c`pred
  {
    && |c| >= 2
    && Distinct(c)
    && c[0].pred == null
    && c[|c| - 1].succ == null
    && (forall i {:trigger c[i].succ} :: 0 <= i < |c| - 1 ==> c[i].succ == c[i + 1])
    && (forall i {:trigger c[i].pred} :: 0 < i < |c| ==> c[i].pred == c[i - 1])
  }

  function InsertedAt<T>(s: seq<T>, k: nat, x: T): seq<T>
    requires k <= |s|
  {
    s[..k] + [x] + s[k..]
  }

  function RemovedAt<T>(s: seq<T>, k: nat): seq<T>
    requires k < |s|
  {
    s[..k] + s[k + 1..]
  }

  function IndexOf<T(==)>(q: seq<T>, t: T): (k: nat)
    requires t in q
    ensures k < |q| && q[k] == t
  {
    if q[0] == t then 0 else 1 + IndexOf(q[1..], t)
  }

  /** `c` is linked except that its links between positions `k` and `m` may be broken. */
  ghost predicate LinkedBut<T>(c: seq<Node<T>>, k: nat, m: nat)
    requires k < m < |c|
    reads c`succ, c`pred
  {
    && Distinct(c)
    && c[0].pred == null
    && c[|c| - 1].succ == null
    && (forall i {:trigger c[i].succ} :: 0 <= i < |c| - 1 && !(k <= i < m) ==> c[i].succ == c[i + 1])
    && (forall i {:trigger c[i].pred} :: 0 < i < |c| && !(k < i <= m) ==> c[i].pred == c[i - 1])
  }

  lemma Spliced<T>(c: seq<Node<T>>, k: nat, n: Node<T>)
    requires k + 1 < |c| && n !in c && LinkedBut(c, k, k + 1)
    requires n.pred == c[k] && n.succ == c[k + 1] && c[k].succ == n && c[k + 1].pred == n
    ensures Linked(InsertedAt(c, k + 1, n))
  {
    var d := InsertedAt(c, k + 1, n);
    forall i | 0 <= i < |d| - 1 ensures d[i].succ == d[i + 1] && d[i + 1].pred == d[i] {
      if i < k {
        assert d[i] == c[i] && d[i + 1] == c[i + 1];
      } else if i > k + 1 {
        assert d[i] == c[i - 1] && d[i + 1] == c[i];
      }
    }
    assert d[0] == c[0] && d[|d| - 1] == c[|c| - 1];
  }

  lemma Unspliced<T>(c: seq<Node<T>>, k: nat)
    requires k + 2 < |c| && LinkedBut(c, k, k + 2)
    requires c[k].succ == c[k + 2] && c[k + 2].pred == c[k]
    ensures Linked(RemovedAt(c, k + 1))
  {
    var d := RemovedAt(c, k + 1);
    forall i | 0 <= i < |d| - 1 ensures d[i].succ == d[i + 1] && d[i + 1].pred == d[i] {
      if i < k {
        assert d[i] == c[i] && d[i + 1] == c[i + 1];
      } else if i > k {
        assert d[i] == c[i + 1] && d[i + 1] == c[i + 2];
      }
    }
    assert d[0] == c[0] && d[|d| - 1] == c[|c| - 1];
  }

  /** Where Enqueue puts priority `p`: in front of the first strictly lower one. */
  function EnqueueIndex(pris: seq<int>, p: int): (k: nat)
    ensures k <= |pris|
    ensures forall i :: 0 <= i < k ==> pris[i] >= p
    ensures k < |pris| ==> pris[k] < p
  {
    if pris == [] || p > pris[0] then 0 else 1 + EnqueueIndex(pris[1..], p)
  }

  lemma {:induction false} EnqueueIndexUnique(pris: seq<int>, p: int, k: nat)
    requires k <= |pris| && (forall i :: 0 <= i < k ==> pris[i] >= p) && (k < |pris| ==> pris[k] < p)
    ensures k == EnqueueIndex(pris, p)
  {
  }

  function NodePris<T>(s: seq<Node<T>>): (ps: seq<int>)
    ensures |ps| == |s| && forall i :: 0 <= i < |s| ==> ps[i] == s[i].pri
  {
    seq(|s|, i requires 0 <= i < |s| => s[i].pri)
  }

  ghost predicate NonIncreasing(s: seq<int>) {
    forall i, j :: 0 <= i < j < |s| ==> s[i] >= s[j]
  }

  /** The index that Enqueue finds is the only one that keeps a priority list in order and
      leaves every node of equal priority in front of the newcomer. */
  lemma EnqueueIsStable(pris: seq<int>, p: int, k: nat)
    requires NonIncreasing(pris) && k <= |pris|
    ensures NonIncreasing(InsertedAt(pris, EnqueueIndex(pris, p), p))
    ensures k == EnqueueIndex(pris, p) <==>
            NonIncreasing(InsertedAt(pris, k, p)) && (forall i :: k <= i < |pris| ==> pris[i] != p)
  {
    InsertedKeepsOrder(pris, p, EnqueueIndex(pris, p));
    InsertedKeepsOrder(pris, p, k);
  }

  lemma InsertedKeepsOrder(pris: seq<int>, p: int, k: nat)
    requires NonIncreasing(pris) && k <= |pris|
    ensures NonIncreasing(InsertedAt(pris, k, p)) <==>
            (k > 0 ==> pris[k - 1] >= p) && (k < |pris| ==> pris[k] <= p)
  {
    var s := InsertedAt(pris, k, p);
    assert k > 0 ==> s[k - 1] == pris[k - 1] && s[k] == p;
    assert k < |pris| ==> s[k] == p && s[k + 1] == pris[k];
    if (k > 0 ==> pris[k - 1] >= p) && (k < |pris| ==> pris[k] <= p) {
      forall i, j | 0 <= i < j < |s| ensures s[i] >= s[j] {
        assert i < k ==> s[i] == pris[i] && s[i] >= (if k > 0 then pris[k - 1] else p);
        assert j > k ==> s[j] == pris[j - 1];
      }
    }
  }

  class List<T> {
    const head: Node<T>
    const tail: Node<T>
    ghost var nodes: seq<Node<T>>

    ghost function Chain(): seq<Node<T>>
      reads this`nodes
    {
      [head] + nodes + [tail]
    }

    ghost predicate Valid()
      reads this`nodes, Chain()`succ, Chain()`pred
    {
      Linked(Chain())
    }

    /** What happens to nodes outside its chain does not concern a list. */
    twostate lemma Undisturbed()
      requires old(Valid()) && nodes == old(nodes)
      requires forall n <- Chain() :: n.succ == old(n.succ) && n.pred == old(n.pred)
      ensures Valid()
    {
    }

    /** lib_NewList. */
    constructor (rest: T)
      ensures Valid() && nodes == []
      ensures fresh(head) && fresh(tail)
    {
      head := new Node(0, rest);
      tail := new Node(0, rest);
      nodes := [];
      new;
      head.pred, head.succ := null, tail;
      tail.succ, tail.pred := null, head;
    }

    /** IsListEmpty. */
    method IsEmpty() returns (b: bool)
      requires Valid()
      ensures b <==> nodes == []
    {
      b := tail.pred == head;
      assert tail == Chain()[|nodes| + 1];
      if nodes != [] { assert tail.pred == Chain()[|nodes|] == nodes[|nodes| - 1]; }
    }

    /** The four assignments of lib_AddHead. */
    method LinkFirst(n: Node<T>)
      requires head.succ != null && n != head
      modifies n`succ, n`pred, head`succ, head.succ`pred
      ensures head.succ == n && n.succ == old(head.succ) && old(head.succ).pred == n
      ensures old(head.succ) != n ==> n.pred == head
    {
      n.succ := head.succ;
      n.pred := head;
      head.succ.pred := n;
      head.succ := n;
    }

    method AddHead(n: Node<T>)
      requires Valid() && n !in Chain()
      modifies this`nodes, n`succ, n`pred, head`succ, head.succ`pred
      ensures Valid() && nodes == [n] + old(nodes)
    {
      ghost var c := Chain();
      assert head == c[0] && head.succ == c[1];
      LinkFirst(n);
      nodes := [n] + nodes;
      assert Chain() == [c[0], n] + c[1..];
    }

    /** lib_AddHead of the node that is the first one already ties it to itself ... */
    method AddHeadAgain(n: Node<T>)
      requires Valid() && nodes != [] && n == nodes[0]
      modifies n`succ, n`pred, head`succ, head.succ`pred
      ensures head.succ == n && n.succ == n && n.pred == n
    {
      assert head == Chain()[0] && n == Chain()[1];
      LinkFirst(n);
    }

    method AddTail(n: Node<T>)
      requires Valid() && n !in Chain()
      modifies this`nodes, n`succ, n`pred, tail`pred, tail.pred`succ
      ensures Valid() && nodes == old(nodes) + [n]
    {
      ghost var c := Chain();
      assert tail == c[|c| - 1] && tail.pred == c[|c| - 2];
      n.succ := tail;
      n.pred := tail.pred;
      tail.pred.succ := n;
      tail.pred := n;
      nodes := nodes + [n];
      assert Chain() == c[..|c| - 1] + [n, tail];
    }

    method Enqueue(n: Node<T>)
      requires Valid() && n !in Chain()
      modifies this`nodes, n`succ, n`pred, Chain()`succ, Chain()`pred
      ensures Valid() && nodes == InsertedAt(old(nodes), EnqueueIndex(NodePris(old(nodes)), n.pri), n)
    {
      ghost var c := Chain();
      var t := head.succ;
      assert head == c[0] && t == c[1];
      if t.succ == null {
        assert nodes == [];
        AddHead(n);
      } else {
        ghost var k := 0;
        while t.succ != null
          invariant k <= |nodes| && t == c[k + 1]
          invariant forall i :: 0 <= i < k ==> nodes[i].pri >= n.pri
          decreases |nodes| - k
        {
          assert c[k + 1].succ != null;
          if n.pri > t.pri { break; }
          t := t.succ;
          k := k + 1;
        }
        assert k < |nodes| ==> t.succ == c[k + 2];
        EnqueueIndexUnique(NodePris(nodes), n.pri, k);
        LinkBefore(n, t, k);
      }
    }

    /** The last four assignments of Enqueue: `t` is what comes to stand behind `n`. */
    method LinkBefore(n: Node<T>, t: Node<T>, ghost k: nat)
      requires Valid() && n !in Chain()
      requires k <= |nodes| && t == Chain()[k + 1]
      modifies this`nodes, n`succ, n`pred, Chain()`succ, Chain()`pred
      ensures Valid() && nodes == InsertedAt(old(nodes), k, n)
    {
      ghost var c := Chain();
      assert t.pred == c[k];
      n.succ := t;
      n.pred := t.pred;
      t.pred.succ := n;
      t.pred := n;
      nodes := InsertedAt(nodes, k, n);
      Spliced(c, k, n);
      assert Chain() == InsertedAt(c, k + 1, n);
    }

    /** Insert behind `p`, which is null (insert in front), a sentinel or a member. */
    method Insert(n: Node<T>, p: Node?<T>, ghost k: nat)
      requires Valid() && n !in Chain()
      requires p != null ==> k < |Chain()| && p == Chain()[k]
      modifies this`nodes, n`succ, n`pred, Chain()`succ, Chain()`pred
      ensures Valid()
      ensures nodes == InsertedAt(old(nodes),
                                  if p == null then 0 else if k > |old(nodes)| then |old(nodes)| else k, n)
    {
      assert p != null && k <= |nodes| ==> p.succ == Chain()[k + 1];
      if p == null {
        AddHead(n);
      } else if p.succ == null {
        AddTail(n);
      } else {
        LinkBehind(n, p, k);
      }
    }

    /** The last four assignments of Insert. */
    method LinkBehind(n: Node<T>, p: Node<T>, ghost k: nat)
      requires Valid() && n !in Chain()
      requires k <= |nodes| && p == Chain()[k]
      modifies this`nodes, n`succ, n`pred, Chain()`succ, Chain()`pred
      ensures Valid() && nodes == InsertedAt(old(nodes), k, n)
    {
      ghost var c := Chain();
      assert p.succ == c[k + 1];
      n.succ := p.succ;
      n.pred := p;
      n.succ.pred := n;
      p.succ := n;
      nodes := InsertedAt(nodes, k, n);
      Spliced(c, k, n);
      assert Chain() == InsertedAt(c, k + 1, n);
    }

    method RemTail() returns (n: Node?<T>)
      requires Valid()
      modifies this`nodes, tail`pred, tail.pred`succ, tail.pred`pred, Chain()`succ
      ensures Valid()
      ensures old(nodes) == [] ==> n == null && nodes == []
      ensures old(nodes) != [] ==> n == old(nodes)[|old(nodes)| - 1] && nodes == RemovedAt(old(nodes), |old(nodes)| - 1)
      ensures n != null ==> n.succ == null && n.pred == null
    {
      ghost var c := Chain();
      assert tail == c[|c| - 1] && tail.pred == c[|c| - 2];
      n := if tail.pred.pred != null then tail.pred else null;
      if n != null {
        assert nodes != [] && n.pred == c[|c| - 3] && n.succ == tail;
        tail.pred := n.pred;
        tail.pred.succ := n.succ;
        n.succ := null;
        n.pred := null;
        nodes := RemovedAt(nodes, |nodes| - 1);
        assert Chain() == c[..|c| - 2] + [tail];
      }
    }

    /** The removed node keeps its stale links. */
    method RemHead() returns (n: Node?<T>)
      requires Valid()
      modifies this`nodes, head`succ, Chain()`pred
      ensures Valid()
      ensures old(nodes) == [] ==> n == null && nodes == []
      ensures old(nodes) != [] ==> n == old(nodes)[0] && nodes == old(nodes)[1..]
    {
      ghost var c := Chain();
      assert head == c[0] && head.succ == c[1];
      n := head.succ.succ;
      if n != null {
        assert nodes != [] && n == c[2];
        n.pred := head;
        n := head.succ;
        head.succ := n.succ;
        nodes := nodes[1..];
        assert Chain() == [c[0]] + c[2..];
      }
    }
  }

  lemma HeadLinked<T>(l: List<T>)
    requires l.Valid()
    ensures l.head.succ != null && l.head.succ in l.Chain()
  {
    assert l.head == l.Chain()[0];
  }

  lemma TailLinked<T>(l: List<T>)
    requires l.Valid()
    ensures l.tail.pred != null && l.tail.pred in l.Chain()
  {
    var c := l.Chain();
    assert l.tail == c[|c| - 1] && l.tail.pred == c[|c| - 2];
  }

  lemma MemberLinked<T>(l: List<T>, k: nat)
    requires l.Valid() && k < |l.nodes|
    ensures var n, c := l.nodes[k], l.Chain();
            && n.succ != null && n.succ in c && n.succ == c[k + 2]
            && n.pred != null && n.pred in c && n.pred == c[k]
  {
    assert l.nodes[k] == l.Chain()[k + 1];
  }

  /** Unlinks a node, given the node only: `l` and `k` are ghosts that name where it sits. */
  method Remove<T>(n: Node<T>, ghost l: List<T>, ghost k: nat)
    requires l.Valid() && k < |l.nodes| && n == l.nodes[k]
    requires n.succ != null && n.pred != null
    modifies l`nodes, n.succ`pred, n.pred`succ
    ensures l.Valid() && l.nodes == RemovedAt(old(l.nodes), k)
  {
    ghost var c := l.Chain();
    assert n == c[k + 1] && n.succ == c[k + 2] && n.pred == c[k];
    n.succ.pred := n.pred;
    n.pred.succ := n.succ;
    l.nodes := RemovedAt(l.nodes, k);
    Unspliced(c, k);
    assert l.Chain() == RemovedAt(c, k + 1);
  }

  /** ... and nothing that begins with this head is a list any more: who follows it never gets to
      the tail. */
  lemma TiedToItself<T>(head: Node<T>, n: Node<T>, c: seq<Node<T>>)
    requires head.succ == n && n.succ == n
    ensures !(Linked(c) && c[0] == head)
  {
  }

  /** Remove of a node that has left the list already, with the links it had there.  The list
      survives exactly if those of the two old neighbours that are on it are neighbours still. */
  method RemoveStale<T>(n: Node<T>, ghost l: List<T>)
    requires l.Valid() && n !in l.Chain() && n.succ != null && n.pred != null
    modifies n.succ`pred, n.pred`succ
    ensures l.nodes == old(l.nodes)
    ensures l.Valid() <==>
              && (old(n.succ) in l.Chain() ==> old(n.succ.pred) == old(n.pred))
              && (old(n.pred) in l.Chain() ==> old(n.pred.succ) == old(n.succ))
  {
    ghost var c, q, p := l.Chain(), n.succ, n.pred;
    n.succ.pred := n.pred;
    n.pred.succ := n.succ;
  }

  /** Two positions of a chain left out, or one. */
  function Without<T>(c: seq<T>, a: nat, b: nat): seq<T>
    requires a <= b < |c|
  {
    if a == b then RemovedAt(c, a) else c[..a] + c[a + 1..b] + c[b + 1..]
  }

  /** `c` is linked except around positions `a` and `b`. */
  ghost predicate LinkedAround<T>(c: seq<Node<T>>, a: nat, b: nat)
    requires 0 < a <= b < |c| - 1
    reads c`succ, c`pred
  {
    && Distinct(c) && c[0].pred == null && c[|c| - 1].succ == null
    && (forall i {:trigger c[i].succ} :: 0 <= i < |c| - 1 && i !in {a - 1, a, b - 1, b} ==> c[i].succ == c[i + 1])
    && (forall i {:trigger c[i].pred} :: 0 < i < |c| && i !in {a, a + 1, b, b + 1} ==> c[i].pred == c[i - 1])
  }

  /** The links around position `a` lead past it. */
  predicate Bypassed<T>(c: seq<Node<T>>, a: nat)
    requires 0 < a < |c| - 1
    reads c`succ, c`pred
  {
    c[a - 1].succ == c[a + 1] && c[a + 1].pred == c[a - 1]
  }

  lemma BothOut<T>(c: seq<Node<T>>, a: nat, b: nat)
    requires 0 < a <= b < |c| - 1 && b != a + 1 && LinkedAround(c, a, b) && Bypassed(c, a) && Bypassed(c, b)
    ensures Linked(Without(c, a, b))
  {
    var d := Without(c, a, b);
    var gone := if a == b then 1 else 2;
    assert |d| == |c| - gone;
    forall i | 0 <= i < |d| - 1 ensures d[i].succ == d[i + 1] && d[i + 1].pred == d[i] {
      var k := if i < a then i else if a < b && i + 1 < b then i + 1 else i + gone;
      assert d[i] == c[k];
      assert d[i + 1] == c[if k + 1 == a || k + 1 == b then k + 2 else k + 1];
    }
    assert d[0] == c[0] && d[|d| - 1] == c[|c| - 1];
  }

  /** Neighbours: the chain without them goes from `c[a - 1]` to `c[a + 2]`. */
  lemma NotBothOut<T>(c: seq<Node<T>>, a: nat)
    requires 0 < a && a + 2 < |c| && Distinct(c)
    requires c[a - 1].succ != c[a + 2] || c[a + 2].pred != c[a - 1]
    ensures !Linked(Without(c, a, a + 1))
  {
    var d := Without(c, a, a + 1);
    assert d[a - 1] == c[a - 1] && d[a] == c[a + 2];
  }

  function Min(a: nat, b: nat): nat { if a < b then a else b }
  function Max(a: nat, b: nat): nat { if a < b then b else a }

  /** Remove of `n`, with a Remove of `m` between its two assignments. */
  method TwoRemoves<T>(n: Node<T>, m: Node<T>, ghost c: seq<Node<T>>, ghost k: nat, ghost j: nat)
    requires Linked(c) && 0 < k < |c| - 1 && 0 < j < |c| - 1 && n == c[k] && m == c[j]
    modifies c`succ, c`pred
    ensures LinkedAround(c, Min(k, j), Max(k, j))
    ensures j != k + 1 && k != j + 1 ==> Bypassed(c, Min(k, j)) && Bypassed(c, Max(k, j))
    ensures j == k + 1 ==> c[k - 1].succ == m
    ensures k == j + 1 ==> c[k + 1].pred == m
  {
    assert n.succ == c[k + 1] && n.pred == c[k - 1] && m.succ == c[j + 1] && m.pred == c[j - 1];
    n.succ.pred := n.pred;
    m.succ.pred := m.pred;
    m.pred.succ := m.succ;
    n.pred.succ := n.succ;
  }

  /** The same, and what it leaves: the chain without the two exactly if they were not neighbours.
      If `m` stood behind `n`, it comes back; if it stood in front, the node behind `n` still
      points to it. */
  method RemoveInterrupted<T>(n: Node<T>, m: Node<T>, ghost c: seq<Node<T>>, ghost k: nat, ghost j: nat)
    requires Linked(c) && 0 < k < |c| - 1 && 0 < j < |c| - 1 && n == c[k] && m == c[j]
    modifies c`succ, c`pred
    ensures Linked(Without(c, Min(k, j), Max(k, j))) <==> j != k + 1 && k != j + 1
    ensures j == k + 1 ==> c[k - 1].succ == m
    ensures k == j + 1 ==> c[k + 1].pred == m
  {
    hide Linked, LinkedAround, Bypassed, Without, Distinct;
    TwoRemoves(n, m, c, k, j);
    Torn(c, Min(k, j), Max(k, j), m);
  }

  lemma Torn<T>(c: seq<Node<T>>, a: nat, b: nat, m: Node<T>)
    requires 0 < a <= b < |c| - 1 && LinkedAround(c, a, b)
    requires b != a + 1 ==> Bypassed(c, a) && Bypassed(c, b)
    requires b == a + 1 ==> (m == c[b] && c[a - 1].succ == m) || (m == c[a] && c[b + 1].pred == m)
    ensures Linked(Without(c, a, b)) <==> b != a + 1
  {
    if b == a + 1 { NotBothOut(c, a); } else { BothOut(c, a, b); }
  }

  /** A node determines the whole list it is on, so Remove need not be told the list: two
      complete chains with a node in common are the same chain. */
  lemma {:induction false} SharedNodeSameChain<T>(c: seq<Node<T>>, d: seq<Node<T>>, i: nat, j: nat)
    requires Linked(c) && Linked(d)
    requires i < |c| && j < |d| && c[i] == d[j]
    ensures i == j && c == d
  {
    SharedNodeSameIndex(c, d, i, j);
    SharedUpTo(c, d, 0);
    SharedUpTo(d, c, 0);
  }

  lemma {:induction false} SharedNodeSameIndex<T>(c: seq<Node<T>>, d: seq<Node<T>>, i: nat, j: nat)
    requires Linked(c) && Linked(d)
    requires i < |c| && j < |d| && c[i] == d[j]
    ensures i == j && c[0] == d[0]
  {
    if i > 0 && j > 0 {
      assert c[i].pred == c[i - 1] && d[j].pred == d[j - 1];
      SharedNodeSameIndex(c, d, i - 1, j - 1);
    }
  }

  lemma {:induction false} SharedUpTo<T>(c: seq<Node<T>>, d: seq<Node<T>>, i: nat)
    requires Linked(c) && Linked(d)
    requires i < |c| && i < |d| && c[i] == d[i]
    ensures |c| <= |d| && c[i..] == d[i..|c|]
    decreases |c| - i
  {
    if i + 1 < |c| {
      assert c[i].succ == c[i + 1];
      assert i + 1 < |d| ==> d[i].succ == d[i + 1];
      SharedUpTo(c, d, i + 1);
    }
  }
}
