/** lib_AddMemList, lib_Allocate and lib_Deallocate on one MemHeader (memory.c), in place.

    The chunk headers lie in the memory itself: unit `i` of the arena is the pair of words
    `next[i]`, `bytes[i]`, which mean mc_Next and mc_Bytes if a chunk begins there and are the
    user's data inside a block.  Pointers are unit numbers, and 0 is both mh_Start and NULL:
    unit 0 is never handed out. */
module Memory {
  import opened Words
  import opened Arena

  /** `nunits`, computed in 32-bit arithmetic as in the code. */
  function Units(nbytes: nat): (r: nat)
    requires nbytes < TWO32
    ensures 1 <= r
  {
    var padded := (nbytes + 8) % TWO32;
    (padded + 7) % TWO32 / 8 + 1
  }

  /** The bytes behind the header of a block are enough for the request and the 8 extra
      bytes exactly if the 32-bit sums do not wrap round. */
  lemma PayloadSuffices(nbytes: nat)
    requires nbytes < TWO32
    ensures (Units(nbytes) - 1) * 8 >= nbytes + 8 <==> nbytes <= TWO32 - 16
  {
  }

  /** As long as they do not, no smaller number of units would do. */
  lemma UnitsLeast(nbytes: nat, u: int)
    requires 1 <= nbytes <= TWO32 - 16
    ensures u >= Units(nbytes) <==> (u - 1) * 8 >= nbytes + 8
  {
  }

  /** No chunk has a header and room for the request and the 8 extra bytes. */
  ghost predicate NoRoom(f: seq<Chunk>, nbytes: nat) { forall c <- f :: (c.size - 1) * 8 < nbytes + 8 }

  lemma NoRoomIff(f: seq<Chunk>, nbytes: nat)
    requires 1 <= nbytes <= TWO32 - 16
    ensures NoRoom(f, nbytes) <==> forall c <- f :: c.size < Units(nbytes)
  {
    forall c <- f { UnitsLeast(nbytes, c.size); }
  }

  /** And when they do, the block is one or two units. */
  lemma UnitsWrapped(nbytes: nat)
    requires TWO32 - 16 < nbytes < TWO32
    ensures Units(nbytes) == if nbytes <= TWO32 - 8 then 1 else 2
  {
  }

  /** A request for almost all of the address space gets a block with no payload at all. */
  lemma PayloadCanBeMissing()
    ensures Units(TWO32 - 8) == 1
  {
  }

  /** The header of a live block is no header of a free chunk, and neither is the unit where
      a new block will begin, unless it takes the whole chunk. */
  lemma TakeApart(n: nat, f: seq<Chunk>, live: Blocks, k: nat, nunits: nat)
    requires ArenaInv(n, f, live) && k < |f| && 1 <= nunits <= f[k].size
    ensures var a := f[k].End() - nunits;
            && 1 <= f[k].addr <= a <= n
            && (forall b :: b in live ==> b != a && b != f[k].addr)
            && (nunits < f[k].size ==> forall i :: 0 <= i < |f| ==> f[i].addr != a)
    ensures Increasing(f) && f[k].size >= 1
    ensures forall b :: b in live ==> 1 <= b <= n
  {
    var a := f[k].End() - nunits;
    forall b | b in live ensures 1 <= b <= n { assert Held(live, b); }
    assert Covers(f[k], a) && Within(f, a) && Covers(f[k], f[k].addr) && Within(f, f[k].addr);
    forall b | b in live ensures b != a && b != f[k].addr { assert Held(live, b); }
  }

  /** No chunk or block begins in the payload of a live block. */
  lemma PayloadApart(n: nat, f: seq<Chunk>, live: Blocks, a: nat, u: nat)
    requires ArenaInv(n, f, live) && a in live && a < u < a + live[a]
    ensures 1 <= u <= n && u !in live
    ensures forall i :: 0 <= i < |f| ==> f[i].addr != u
  {
    assert Held(live, u);
    assert forall i :: 0 <= i < |f| ==> Covers(f[i], f[i].addr) && Within(f, f[i].addr);
  }

  lemma SizePositive(n: nat, f: seq<Chunk>, live: Blocks, k: nat)
    requires ArenaInv(n, f, live) && k < |f|
    ensures f[k].size >= 1
  {
  }

  lemma CarvedItems(f: seq<Chunk>, k: nat, nunits: nat)
    requires k < |f| && 1 <= nunits <= f[k].size
    ensures var g := Carved(f, k, nunits);
            if f[k].size == nunits then
              && |g| == |f| - 1
              && forall i {:trigger g[i]} :: 0 <= i < |g| ==> g[i] == if i < k then f[i] else f[i + 1]
            else
              && |g| == |f| && g[k] == Chunk(f[k].addr, f[k].size - nunits)
              && forall i {:trigger g[i]} :: 0 <= i < |g| && i != k ==> g[i] == f[i]
  {
    ReplacedItems(f, k, k + 1, if f[k].size == nunits then [] else [Chunk(f[k].addr, f[k].size - nunits)]);
    hide Replaced;
  }

  // ----- the ring of headers, on the contents of the two arrays

  type Cells = seq<nat>

  /** The address of free chunk `i`; behind the last one the ring is back at mh_Start. */
  function At(f: seq<Chunk>, i: int): nat {
    if 0 <= i < |f| then f[i].addr else 0
  }

  /** The header of chunk `i` holds its size and points to the next chunk. */
  ghost predicate RingAt(n: nat, next: Cells, bytes: Cells, f: seq<Chunk>, i: nat)
    requires |next| == |bytes| == n + 1 && i < |f|
  {
    && 1 <= f[i].addr <= n
    && bytes[f[i].addr] == f[i].size && next[f[i].addr] == At(f, i + 1)
  }

  /** The headers in memory link the chunks of `f` to a ring through mh_Start. */
  ghost predicate Ring(n: nat, next: Cells, bytes: Cells, f: seq<Chunk>) {
    && |next| == |bytes| == n + 1
    && bytes[0] == 0 && next[0] == At(f, 0)
    && (forall i :: 0 <= i < |f| ==> 1 <= f[i].addr <= n)
    && (forall i :: 0 <= i < |f| ==> RingAt(n, next, bytes, f, i))
  }

  ghost predicate Marked(n: nat, bytes: Cells, live: Blocks)
    requires |bytes| == n + 1
  {
    forall a :: a in live ==> 1 <= a <= n && bytes[a] == live[a]
  }

  ghost predicate Increasing(f: seq<Chunk>) {
    forall i, j :: 0 <= i < j < |f| ==> f[i].addr < f[j].addr
  }

  lemma WholeTaken(n: nat, next: Cells, bytes: Cells, f: seq<Chunk>, k: nat)
    requires Ring(n, next, bytes, f) && Increasing(f) && k < |f| && f[k].size >= 1
    ensures At(f, k - 1) <= n && f[k].addr <= n
    ensures Ring(n, next[At(f, k - 1) := next[f[k].addr]], bytes, Carved(f, k, f[k].size))
  {
    var g := Carved(f, k, f[k].size);
    CarvedItems(f, k, f[k].size);
    hide Carved;
    var next' := next[At(f, k - 1) := next[f[k].addr]];
    RingItem(n, next, bytes, f, k);
    if k > 0 { RingItem(n, next, bytes, f, k - 1); }
    forall i | 0 <= i < |g| ensures RingAt(n, next', bytes, g, i) {
      RingItem(n, next, bytes, f, if i < k then i else i + 1);
    }
  }

  lemma TailTaken(n: nat, next: Cells, bytes: Cells, f: seq<Chunk>, k: nat, nunits: nat)
    requires Ring(n, next, bytes, f) && Increasing(f) && k < |f| && 1 <= nunits < f[k].size
    requires var a := f[k].End() - nunits;
             1 <= a <= n && forall i :: 0 <= i < |f| ==> f[i].addr != a
    ensures Ring(n, next, bytes[f[k].addr := f[k].size - nunits][f[k].End() - nunits := nunits], Carved(f, k, nunits))
  {
    var g := Carved(f, k, nunits);
    CarvedItems(f, k, nunits);
    hide Carved;
    RingItem(n, next, bytes, f, k);
    var bytes' := bytes[f[k].addr := f[k].size - nunits][f[k].End() - nunits := nunits];
    forall i | 0 <= i < |g| ensures RingAt(n, next, bytes', g, i) {
      RingItem(n, next, bytes, f, i);
    }
  }

  lemma HeaderOf(n: nat, next: Cells, bytes: Cells, f: seq<Chunk>, k: nat)
    requires Ring(n, next, bytes, f) && k <= |f|
    ensures |next| == |bytes| == n + 1 && At(f, k) <= n && At(f, k - 1) <= n
    ensures bytes[At(f, k)] == if k < |f| then f[k].size else 0
    ensures next[At(f, k - 1)] == At(f, k)
  {
    if k > 0 { RingItem(n, next, bytes, f, k - 1); }
    if k < |f| { RingItem(n, next, bytes, f, k); }
  }

  lemma MarkedAdded(n: nat, bytes: Cells, live: Blocks, chunk: nat, units: nat, a: nat, nunits: nat)
    requires |bytes| == n + 1 && Marked(n, bytes, live) && 1 <= a <= n && 1 <= chunk <= n
    requires a !in live && chunk !in live
    ensures Marked(n, bytes[chunk := units][a := nunits], live[a := nunits])
  {
  }

  /** All that Valid says about the contents of the memory. */
  ghost predicate Consistent(n: nat, next: Cells, bytes: Cells, s: State, mhFree: nat) {
    && ArenaInv(n, s.free, s.live)
    && Ring(n, next, bytes, s.free)
    && Marked(n, bytes, s.live)
    && mhFree == Sum(s.free)
  }

  lemma WholeKeeps(n: nat, next: Cells, bytes: Cells, s: State, mhFree: nat, k: nat)
    requires Consistent(n, next, bytes, s, mhFree) && k < |s.free|
    ensures var c := s.free[k];
            && 1 <= c.size <= mhFree && c.addr !in s.live && c.addr == c.End() - c.size
            && Consistent(n, next[At(s.free, k - 1) := next[c.addr]], bytes,
                          State(Carved(s.free, k, c.size), s.live[c.addr := c.size]), mhFree - c.size)
  {
    hide ArenaInv, Ring, Marked, Carved, Sum;
    var f, c := s.free, s.free[k];
    SizePositive(n, f, s.live, k);
    SizeAtMostSum(f, k);
    HeaderOf(n, next, bytes, f, k);
    TakeApart(n, f, s.live, k, c.size);
    AllocateKeeps(n, f, s.live, k, c.size);
    CarvedSum(f, k, c.size);
    WholeTaken(n, next, bytes, f, k);
    MarkedAdded(n, bytes, s.live, c.addr, c.size, c.addr, c.size);
    assert bytes[c.addr := c.size][c.addr := c.size] == bytes;
  }

  lemma TailKeeps(n: nat, next: Cells, bytes: Cells, s: State, mhFree: nat, k: nat, nunits: nat)
    requires Consistent(n, next, bytes, s, mhFree) && k < |s.free| && 1 <= nunits < s.free[k].size
    ensures var c := s.free[k];
            var a := c.End() - nunits;
            && nunits <= mhFree && a !in s.live && a <= n
            && Consistent(n, next, bytes[c.addr := c.size - nunits][a := nunits],
                          State(Carved(s.free, k, nunits), s.live[a := nunits]), mhFree - nunits)
  {
    hide ArenaInv, Ring, Marked, Carved, Sum;
    var f, c := s.free, s.free[k];
    SizeAtMostSum(f, k);
    HeaderOf(n, next, bytes, f, k);
    TakeApart(n, f, s.live, k, nunits);
    AllocateKeeps(n, f, s.live, k, nunits);
    CarvedSum(f, k, nunits);
    TailTaken(n, next, bytes, f, k, nunits);
    MarkedAdded(n, bytes, s.live, c.addr, c.size - nunits, c.End() - nunits, nunits);
  }

  lemma LinkedIn(n: nat, next: Cells, bytes: Cells, f: seq<Chunk>, k: nat, c: Chunk)
    requires Ring(n, next, bytes, f) && Increasing(f) && k <= |f|
    requires 1 <= c.addr <= n && bytes[c.addr] == c.size && forall i :: 0 <= i < |f| ==> f[i].addr != c.addr
    ensures At(f, k - 1) <= n
    ensures Ring(n, next[c.addr := At(f, k)][At(f, k - 1) := c.addr], bytes, Replaced(f, k, k, [c]))
  {
    var g, next' := Replaced(f, k, k, [c]), next[c.addr := At(f, k)][At(f, k - 1) := c.addr];
    ReplacedItems(f, k, k, [c]);
    hide Replaced;
    if k > 0 { RingItem(n, next, bytes, f, k - 1); }
    forall i | 0 <= i < |g| ensures RingAt(n, next', bytes, g, i) {
      if i < k { RingItem(n, next, bytes, f, i); }
      if i > k { RingItem(n, next, bytes, f, i - 1); }
    }
  }

  lemma JoinedUpAt(n: nat, next: Cells, bytes: Cells, f: seq<Chunk>, i: nat, j: nat)
    requires Ring(n, next, bytes, f) && Increasing(f) && i + 1 < |f| && f[i].End() == f[i + 1].addr
    requires j < |Joined(f, i)|
    ensures 1 <= Joined(f, i)[j].addr <= n
    ensures RingAt(n, next[f[i].addr := next[f[i + 1].addr]],
                   bytes[f[i].addr := bytes[f[i].addr] + bytes[f[i + 1].addr]], Joined(f, i), j)
  {
    JoinedItems(f, i);
    var m := if j < i then j else j + 1;
    RingItem(n, next, bytes, f, i);
    RingItem(n, next, bytes, f, m);
    RingItem(n, next, bytes, f, i + 1);
    assert m != i ==> f[m].addr != f[i].addr;
    hide Ring, Increasing, Joined;
  }

  lemma JoinedUp(n: nat, next: Cells, bytes: Cells, f: seq<Chunk>, i: nat)
    requires Ring(n, next, bytes, f) && Increasing(f) && i + 1 < |f| && f[i].End() == f[i + 1].addr
    ensures Ring(n, next[f[i].addr := next[f[i + 1].addr]],
                 bytes[f[i].addr := bytes[f[i].addr] + bytes[f[i + 1].addr]], Joined(f, i))
  {
    var g := Joined(f, i);
    var next' := next[f[i].addr := next[f[i + 1].addr]];
    var bytes' := bytes[f[i].addr := bytes[f[i].addr] + bytes[f[i + 1].addr]];
    JoinedItems(f, i);
    RingItem(n, next, bytes, f, i + 1);
    assert next'[0] == At(g, 0);
    hide Joined, Increasing, RingAt;
    forall j | 0 <= j < |g| ensures 1 <= g[j].addr <= n && RingAt(n, next', bytes', g, j) {
      JoinedUpAt(n, next, bytes, f, i, j);
    }
  }

  lemma JoinedItems(f: seq<Chunk>, i: nat)
    requires i + 1 < |f| && f[i].End() == f[i + 1].addr
    ensures var g := Joined(f, i);
            && |g| == |f| - 1 && g[i].addr == f[i].addr && g[i].size == f[i].size + f[i + 1].size
            && forall j {:trigger g[j]} :: 0 <= j < |g| && j != i ==> g[j] == if j < i then f[j] else f[j + 1]
  {
    ReplacedItems(f, i, i + 2, [Chunk(f[i].addr, f[i].size + f[i + 1].size)]);
    hide Replaced;
  }

  lemma SortedIncreasing(f: seq<Chunk>)
    requires Sorted(f)
    ensures Increasing(f)
  {
  }

  /** The lists that Deallocate passes through. */
  lemma FreedSteps(n: nat, f: seq<Chunk>, live: Blocks, a: nat)
    requires ArenaInv(n, f, live) && a in live
    ensures var k, c := Place(f, a), Chunk(a, live[a]);
            var f1 := Inserted(f, c);
            var f2 := Joined(f1, k);
            && 1 <= a <= n && c.size >= 1 && Increasing(f) && Increasing(f1) && Increasing(f2)
            && (forall i :: 0 <= i < |f| ==> f[i].addr != a)
            && k < |f1| && f1[k] == c && At(f1, k + 1) == At(f, k)
            && k < |f2| && f2[k].addr == a
            && (k > 0 ==> f2[k - 1] == f[k - 1])
  {
    var k, c := Place(f, a), Chunk(a, live[a]);
    var f1 := Inserted(f, c);
    assert Held(live, a) && forall u: nat :: Covers(c, u) ==> Held(live, u);
    forall i | 0 <= i < |f| ensures f[i].addr != a {
      assert Covers(f[i], f[i].addr) && Within(f, f[i].addr);
    }
    InsertedSorted(f, c);
    JoinedSorted(f1, k);
    hide Tiled, Within, Held;
    ReplacedItems(f, k, k, [c]);
    SortedIncreasing(f);
    SortedIncreasing(f1);
    SortedIncreasing(Joined(f1, k));
    hide ArenaInv, Sorted, Replaced, Increasing;
    if k + 1 < |f1| && f1[k].End() == f1[k + 1].addr { JoinedItems(f1, k); }
  }

  lemma RingItem(n: nat, next: Cells, bytes: Cells, f: seq<Chunk>, i: nat)
    requires Ring(n, next, bytes, f) && i < |f|
    ensures 1 <= f[i].addr <= n && bytes[f[i].addr] == f[i].size && next[f[i].addr] == At(f, i + 1)
    ensures At(f, i + 1) <= n
  {
    assert RingAt(n, next, bytes, f, i);
    if i + 1 < |f| { assert RingAt(n, next, bytes, f, i + 1); }
  }

  /** The block and the chunk before it are no other live block's header. */
  lemma ReleasedApart(n: nat, f: seq<Chunk>, live: Blocks, a: nat)
    requires ArenaInv(n, f, live) && a in live
    ensures forall b :: b in live ==> forall i :: 0 <= i < |f| ==> f[i].addr != b
    ensures forall i :: 0 <= i < |f| ==> f[i].addr >= 1
  {
    forall i | 0 <= i < |f| ensures f[i].addr >= 1 && f[i].addr !in live {
      assert Covers(f[i], f[i].addr) && Within(f, f[i].addr);
      assert f[i].addr in live ==> Held(live, f[i].addr);
    }
  }

  /** What Deallocate's stores rely on. */
  lemma Relinking(n: nat, bytes: Cells, f: seq<Chunk>, live: Blocks, a: nat, prev: nat)
    requires ArenaInv(n, f, live) && a in live && |bytes| == n + 1 && Marked(n, bytes, live)
    requires prev == At(f, Place(f, a) - 1)
    ensures var k, c := Place(f, a), Chunk(a, live[a]);
            var f1 := Inserted(f, c);
            && f1 == Replaced(f, k, k, [Chunk(a, bytes[a])]) && k < |f1| && f1[k] == c && At(f1, k + 1) == At(f, k)
            && 1 <= a <= n && Increasing(f) && Increasing(f1) && (forall i :: 0 <= i < |f| ==> f[i].addr != a)
    ensures var k, c := Place(f, a), Chunk(a, live[a]);
            var f2 := Joined(Inserted(f, c), k);
            && prev !in live && (prev != 0 <==> k > 0)
            && Increasing(f2) && At(f2, k) == a && k < |f2| && (k > 0 ==> f2[k - 1].addr == prev)
            && Freed(f, c) == if k > 0 then Joined(f2, k - 1) else f2
  {
    FreedSteps(n, f, live, a);
    ReleasedApart(n, f, live, a);
    hide Joined, Replaced, Place, Increasing, ArenaInv;
  }

  lemma MarkedRemoved(n: nat, bytes: Cells, bytes': Cells, live: Blocks, a: nat, p: nat)
    requires |bytes| == |bytes'| == n + 1 && Marked(n, bytes, live) && p !in live
    requires forall u :: 0 <= u <= n && u != a && u != p ==> bytes'[u] == bytes[u]
    ensures Marked(n, bytes', live - {a})
  {
  }

  /** What the user writes into a block does not matter to the arena. */
  lemma Overwritten(n: nat, next: Cells, bytes: Cells, s: State, mhFree: nat, a: nat, u: nat, x: nat, y: nat)
    requires Consistent(n, next, bytes, s, mhFree) && a in s.live && a < u < a + s.live[a]
    ensures u <= n && |next| == |bytes| == n + 1
    ensures Consistent(n, next[u := x], bytes[u := y], s, mhFree)
  {
    PayloadApart(n, s.free, s.live, a, u);
    hide ArenaInv, Sum;
    var next', bytes' := next[u := x], bytes[u := y];
    forall i | 0 <= i < |s.free| ensures RingAt(n, next', bytes', s.free, i) {
      RingItem(n, next, bytes, s.free, i);
    }
  }

  class MemHeader {
    const n: nat
    const next: array<nat>
    const bytes: array<nat>
    var mhFree: nat
    ghost var free: seq<Chunk>
    ghost var live: Blocks

    ghost predicate Valid()
      reads this, next, bytes
    {
      && next != bytes && next.Length == bytes.Length == n + 1
      && Consistent(n, next[..], bytes[..], State(free, live), mhFree)
    }

    /** lib_AddMemList, for an area of `size` bytes with room for one unit at least. */
    constructor (size: nat)
      requires 16 <= size < TWO32
      ensures Valid() && n == UnitsOf(size)
      ensures free == [Chunk(1, n)] && live == map[] && mhFree == n
      ensures fresh(next) && fresh(bytes)
    {
      n := (size - 8) / 8;
      next := new nat[(size - 8) / 8 + 1];
      bytes := new nat[(size - 8) / 8 + 1];
      mhFree := 0;
      free, live := [Chunk(1, (size - 8) / 8)], map[];
      new;
      bytes[0] := 0;
      next[0] := 1;
      next[1] := 0;
      bytes[1] := n;
      mhFree := bytes[1];
      InitInv(n);
    }

    /** lib_Allocate for a chunk of exactly the right size: it leaves the ring. */
    method TakeWhole(prev: nat, p: nat, nunits: nat, ghost k: nat)
      requires Valid() && k < |free| && p == At(free, k) && prev == At(free, k - 1)
      requires nunits == free[k].size
      modifies this, next, bytes
      ensures Valid()
      ensures free == Carved(old(free), k, nunits) && p !in old(live) && live == old(live)[p := nunits]
    {
      hide Consistent, Carved;
      HeaderFacts(k);
      WholeKeeps(n, next[..], bytes[..], State(free, live), mhFree, k);
      next[prev] := next[p];
      mhFree := mhFree - nunits;
      free, live := Carved(free, k, nunits), live[p := nunits];
    }

    /** lib_Allocate for a larger chunk: it shrinks, and the block is its high end. */
    method TakeTail(chunk: nat, nunits: nat, ghost k: nat) returns (p: nat)
      requires Valid() && k < |free| && chunk == At(free, k)
      requires 1 <= nunits < free[k].size
      modifies this, next, bytes
      ensures Valid() && p == old(free[k].End()) - nunits
      ensures free == Carved(old(free), k, nunits) && p !in old(live) && live == old(live)[p := nunits]
    {
      hide Consistent, Carved;
      HeaderFacts(k);
      TailKeeps(n, next[..], bytes[..], State(free, live), mhFree, k, nunits);
      bytes[chunk] := bytes[chunk] - nunits;
      p := chunk + bytes[chunk];
      bytes[p] := nunits;
      mhFree := mhFree - nunits;
      free, live := Carved(free, k, nunits), live[p := nunits];
    }

    method Allocate(nbytes: nat) returns (r: nat)
      requires Valid() && nbytes < TWO32
      modifies this, next, bytes
      ensures Valid()
      ensures nbytes == 0 ==> r == 0 && State(free, live) == old(State(free, live))
      ensures nbytes != 0 ==> State(free, live) == Next(old(State(free, live)), Event.Allocate(Units(nbytes)))
      ensures r == 0 <==> nbytes == 0 || forall c <- old(free) :: c.size < Units(nbytes)
      ensures 1 <= nbytes <= TWO32 - 16 ==> (r == 0 <==> NoRoom(old(free), nbytes))
      ensures r != 0 ==> r - 1 !in old(live) && live == old(live)[r - 1 := Units(nbytes)]
    {
      hide Consistent, Units, Next, NoRoom;
      if nbytes == 0 { return 0; }
      if nbytes <= TWO32 - 16 { NoRoomIff(free, nbytes); }
      r := AllocateUnits(Units(nbytes));
    }

    /** lib_Allocate behind the computation of `nunits`. */
    method AllocateUnits(nunits: nat) returns (r: nat)
      requires Valid() && nunits >= 1
      modifies this, next, bytes
      ensures Valid() && State(free, live) == Next(old(State(free, live)), Event.Allocate(nunits))
      ensures r == 0 <==> forall c <- old(free) :: c.size < nunits
      ensures r != 0 ==> r - 1 !in old(live) && live == old(live)[r - 1 := nunits]
    {
      hide Consistent, Carved;
      if mhFree >= nunits {
        HeaderFacts(0);
        var prev, p := 0, next[0];
        ghost var k := 0;
        while true
          invariant Valid() && free == old(free) && live == old(live)
          invariant 0 <= k <= |free| && p == At(free, k) && prev == At(free, k - 1)
          invariant forall i :: 0 <= i < k ==> free[i].size < nunits
          decreases |free| - k
        {
          HeaderFacts(k);
          if bytes[p] >= nunits {
            FirstFitUnique(free, nunits, k);
            if bytes[p] == nunits {
              TakeWhole(prev, p, nunits, k);
            } else {
              p := TakeTail(p, nunits, k);
            }
            return p + 1;
          }
          if p == 0 { break; }
          HeaderFacts(k + 1);
          prev := p;
          p := next[p];
          k := k + 1;
        }
      } else {
        AllTooSmall(nunits);
      }
      FirstFitUnique(free, nunits, |free|);
      return 0;
    }

    lemma HeaderFacts(k: nat)
      requires Valid() && k <= |free|
      ensures At(free, k) <= n && At(free, k - 1) <= n && (0 < k ==> At(free, k - 1) > 0)
      ensures bytes[At(free, k)] == if k < |free| then free[k].size else 0
      ensures next[At(free, k - 1)] == At(free, k)
      ensures At(free, k) == 0 <==> k == |free|
    {
      HeaderOf(n, next[..], bytes[..], free, k);
    }

    lemma AllTooSmall(nunits: nat)
      requires Valid() && mhFree < nunits
      ensures forall i :: 0 <= i < |free| ==> free[i].size < nunits
    {
      forall i | 0 <= i < |free| ensures free[i].size < nunits { SizeAtMostSum(free, i); }
    }

    /** `p` is NULL or what Allocate returned for a block that is still live. */
    method Deallocate(p: nat)
      requires Valid() && (p == 0 || p - 1 in live)
      modifies this, next, bytes
      ensures Valid()
      ensures State(free, live) == if p == 0 then old(State(free, live))
                                   else Next(old(State(free, live)), Event.Deallocate(p - 1))
    {
      hide Consistent, ArenaInv, Ring, Marked, Sum, Freed, Place;
      if p == 0 { return; }
      var blk := p - 1;
      HeaderFacts(0);
      var prev, nx := 0, next[0];
      ghost var k := 0;
      while true
        invariant Valid() && free == old(free) && live == old(live)
        invariant next[..] == old(next[..]) && bytes[..] == old(bytes[..]) && mhFree == old(mhFree)
        invariant k <= |free| && nx == At(free, k) && prev == At(free, k - 1)
        invariant k == |free| ==> free == []
        invariant forall i :: 0 <= i < k ==> free[i].addr <= blk
        decreases |free| - k
      {
        HeaderFacts(k);
        if nx > blk { break; }
        if k < |free| { HeaderFacts(k + 1); }
        prev := nx;
        nx := next[nx];
        k := if k < |free| then k + 1 else k;
        if nx == 0 { break; }
      }
      PlaceUnique(free, blk, k);
      Released(blk);
      var size := bytes[blk];
      Relink(prev, nx, blk);
      mhFree := mhFree + size;
      free, live := Freed(free, Chunk(blk, live[blk])), live - {blk};
      assert Valid() by { Closing(); }
    }

    lemma Released(blk: nat)
      requires Valid() && blk in live
      ensures blk <= n && bytes[blk] == live[blk]
      ensures ArenaInv(n, Freed(free, Chunk(blk, live[blk])), live - {blk})
      ensures Sum(Freed(free, Chunk(blk, live[blk]))) == mhFree + bytes[blk]
    {
      DeallocateKeeps(n, free, live, blk);
    }

    lemma Closing()
      requires next != bytes && next.Length == bytes.Length == n + 1
      requires ArenaInv(n, free, live) && Ring(n, next[..], bytes[..], free)
      requires Marked(n, bytes[..], live) && mhFree == Sum(free)
      ensures Valid()
    {
    }

    /** lib_Deallocate links the block in between `prev` and `nx`. */
    method LinkBlock(prev: nat, nx: nat, blk: nat, ghost f: seq<Chunk>, ghost k: nat)
      requires next != bytes && next.Length == bytes.Length == n + 1
      requires Ring(n, next[..], bytes[..], f) && Increasing(f) && k <= |f|
      requires 1 <= blk <= n && forall i :: 0 <= i < |f| ==> f[i].addr != blk
      requires prev == At(f, k - 1) && nx == At(f, k)
      modifies next
      ensures Ring(n, next[..], bytes[..], Replaced(f, k, k, [Chunk(blk, bytes[blk])]))
    {
      LinkedIn(n, next[..], bytes[..], f, k, Chunk(blk, bytes[blk]));
      hide Ring, Replaced, Increasing;
      next[blk] := nx;
      next[prev] := blk;
    }

    /** Chunk `i`, at `p`, swallows its successor `nx` if that begins where it ends. */
    method Merge(p: nat, nx: nat, ghost f: seq<Chunk>, ghost i: nat)
      requires next != bytes && next.Length == bytes.Length == n + 1
      requires Ring(n, next[..], bytes[..], f) && Increasing(f) && i < |f|
      requires p == f[i].addr && nx == At(f, i + 1)
      modifies next, bytes
      ensures Ring(n, next[..], bytes[..], Joined(f, i))
      ensures forall u :: 0 <= u <= n && u != p ==> bytes[u] == old(bytes[u])
    {
      hide Ring, RingAt, Increasing;
      RingItem(n, next[..], bytes[..], f, i);
      if i + 1 < |f| {
        RingItem(n, next[..], bytes[..], f, i + 1);
        if f[i].End() == f[i + 1].addr { JoinedUp(n, next[..], bytes[..], f, i); }
      }
      if p + bytes[p] == nx {
        bytes[p] := bytes[p] + bytes[next[p]];
        next[p] := next[next[p]];
      }
    }

    /** lib_Deallocate behind its search loop, as far as the headers are concerned. */
    method Relink(prev: nat, nx: nat, blk: nat)
      requires Valid() && blk in live
      requires prev == At(free, Place(free, blk) - 1) && nx == At(free, Place(free, blk))
      modifies next, bytes
      ensures Ring(n, next[..], bytes[..], Freed(free, Chunk(blk, live[blk])))
      ensures Marked(n, bytes[..], live - {blk})
    {
      ghost var was := bytes[..];
      Relinking(n, was, free, live, blk, prev);
      hide ArenaInv, Ring, RingAt, Sum, Joined, Replaced, Place, Increasing, Freed, Inserted;
      LinkAndMerge(prev, nx, blk, Place(free, blk));
      MarkedRemoved(n, was, bytes[..], live, blk, prev);
    }

    method LinkAndMerge(prev: nat, nx: nat, blk: nat, ghost k: nat)
      requires Valid() && blk in live && k == Place(free, blk)
      requires prev == At(free, k - 1) && nx == At(free, k)
      modifies next, bytes
      ensures Ring(n, next[..], bytes[..], Freed(free, Chunk(blk, live[blk])))
      ensures forall u :: 0 <= u <= n && u != blk && u != prev ==> bytes[u] == old(bytes[u])
    {
      ghost var f1 := Inserted(free, Chunk(blk, live[blk]));
      Relinking(n, bytes[..], free, live, blk, prev);
      hide ArenaInv, Ring, RingAt, Sum, Joined, Replaced, Place, Increasing, Freed, Inserted;
      LinkBlock(prev, nx, blk, free, k);
      Merge(blk, nx, f1, k);
      if prev != 0 {
        Merge(prev, blk, Joined(f1, k), k - 1);
      }
    }

    /** A user may write anything into the units behind the header of a live block. */
    method UserWrite(a: nat, u: nat, x: nat, y: nat)
      requires Valid() && a in live && a < u < a + live[a]
      modifies next, bytes
      ensures Valid()
      ensures u <= n && next[u] == x && bytes[u] == y
    {
      hide Consistent;
      Overwritten(n, next[..], bytes[..], State(free, live), mhFree, a, u, x, y);
      next[u], bytes[u] := x, y;
    }
  }
}
