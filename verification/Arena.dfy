/** The free list of a MemHeader, as a sequence of chunks in ring order (memory.c).

    Addresses and sizes are counted in units of `sizeof(MemChunk)`, 8 bytes: unit 0 is the
    dummy chunk `mh_Start`, units 1 to `n` are the memory to hand out. */
module Arena {

  datatype Chunk = Chunk(addr: nat, size: nat) {
    function End(): nat { addr + size }
  }

  predicate Covers(c: Chunk, u: nat) {
    c.addr <= u < c.End()
  }

  /** Unit `u` belongs to a chunk of the list. */
  ghost predicate Within(f: seq<Chunk>, u: nat) {
    exists i :: 0 <= i < |f| && Covers(f[i], u)
  }

  /** In address order, without overlap. */
  ghost predicate Sorted(f: seq<Chunk>) {
    && (forall i :: 0 <= i < |f| ==> f[i].size >= 1)
    && (forall i, j :: 0 <= i < j < |f| ==> f[i].End() <= f[j].addr)
  }

  /** Sorted, and no two chunks adjacent: what Deallocate's coalescing is for. */
  ghost predicate Normal(f: seq<Chunk>) {
    && (forall i :: 0 <= i < |f| ==> f[i].size >= 1)
    && (forall i, j :: 0 <= i < j < |f| ==> f[i].End() < f[j].addr)
  }

  function Sum(f: seq<Chunk>): nat {
    if f == [] then 0 else f[0].size + Sum(f[1..])
  }

  /** Live blocks, by address of their header. */
  type Blocks = map<nat, nat>

  ghost predicate Held(live: Blocks, u: nat) {
    exists a :: a in live && a <= u < a + live[a]
  }

  /** Free chunks and live blocks tile units 1 to `n` exactly, without overlap. */
  ghost predicate Tiled(n: nat, f: seq<Chunk>, live: Blocks) {
    && (forall u: nat :: Within(f, u) || Held(live, u) <==> 1 <= u <= n)
    && (forall u: nat :: !(Within(f, u) && Held(live, u)))
    && (forall a, b :: a in live && b in live && a != b ==> a + live[a] <= b || b + live[b] <= a)
    && (forall a :: a in live ==> live[a] >= 1)
  }

  ghost predicate ArenaInv(n: nat, f: seq<Chunk>, live: Blocks) {
    n >= 1 && Normal(f) && Tiled(n, f, live)
  }

  // ----- the free units determine the free list

  lemma FirstUnit(f: seq<Chunk>, u: nat)
    requires Sorted(f) && Within(f, u)
    ensures f != [] && f[0].addr <= u
  {
  }

  lemma WithinTail(f: seq<Chunk>, u: nat)
    requires Sorted(f) && f != []
    ensures Within(f, u) <==> Covers(f[0], u) || Within(f[1..], u)
    ensures Within(f[1..], u) ==> u >= f[0].End()
  {
    var t := f[1..];
    if i :| 0 <= i < |f| && Covers(f[i], u) {
      assert i > 0 ==> t[i - 1] == f[i];
    }
    if i :| 0 <= i < |t| && Covers(t[i], u) {
      assert f[i + 1] == t[i];
    }
  }

  /** A coalesced free list is a function of the set of free units: two of them that cover
      the same units are equal.  Hence nothing about the history of an arena, the order of
      the frees included, shows in its free list. */
  lemma {:induction false} Canonical(f: seq<Chunk>, g: seq<Chunk>)
    requires Normal(f) && Normal(g)
    requires forall u: nat :: Within(f, u) <==> Within(g, u)
    ensures f == g
  {
    if g != [] { FirstWithin(g); }
    if f != [] {
      FirstWithin(f);
      FirstUnit(f, g[0].addr);
      FirstUnit(g, f[0].addr);
      FirstEnds(f, g);
      FirstEnds(g, f);
      forall u: nat ensures Within(f[1..], u) <==> Within(g[1..], u) {
        WithinTail(f, u);
        WithinTail(g, u);
      }
      Canonical(f[1..], g[1..]);
      assert f == [f[0]] + f[1..] && g == [g[0]] + g[1..];
    }
  }

  lemma FirstWithin(f: seq<Chunk>)
    requires Normal(f) && f != []
    ensures Within(f, f[0].addr)
    ensures !Within(f, f[0].End())
    ensures forall u: nat :: Covers(f[0], u) ==> Within(f, u)
  {
    assert Covers(f[0], f[0].addr);
  }

  lemma FirstEnds(f: seq<Chunk>, g: seq<Chunk>)
    requires Normal(f) && Normal(g) && f != [] && g != [] && f[0].addr == g[0].addr
    requires forall u: nat :: Within(f, u) <==> Within(g, u)
    ensures g[0].End() <= f[0].End()
  {
    FirstWithin(f);
    FirstWithin(g);
    assert !Within(g, f[0].End());
  }

  /** The same live blocks, the same free list. */
  lemma LiveDeterminesFree(n: nat, f: seq<Chunk>, g: seq<Chunk>, live: Blocks)
    requires ArenaInv(n, f, live) && ArenaInv(n, g, live)
    ensures f == g
  {
    Canonical(f, g);
  }

  /** When every block has been freed, the arena is one free chunk again. */
  lemma AllFreed(n: nat, f: seq<Chunk>)
    requires ArenaInv(n, f, map[])
    ensures f == [Chunk(1, n)] && Sum(f) == n
  {
    var g := [Chunk(1, n)];
    forall u: nat ensures Within(g, u) <==> 1 <= u <= n {
      assert Within(g, u) <==> Covers(g[0], u);
    }
    Canonical(f, g);
  }

  // ----- what the in-place operations do to the list

  lemma {:induction false} SumSplit(f: seq<Chunk>, g: seq<Chunk>)
    ensures Sum(f + g) == Sum(f) + Sum(g)
  {
    if f == [] {
      assert f + g == g;
    } else {
      SumSplit(f[1..], g);
      assert f + g == [f[0]] + (f[1..] + g);
    }
  }

  lemma SumReplaced(f: seq<Chunk>, k: nat, m: nat, g: seq<Chunk>)
    requires k <= m <= |f|
    ensures Sum(f[..k] + g + f[m..]) == Sum(f) - Sum(f[k..m]) + Sum(g)
  {
    SumSplit(f[..k] + g, f[m..]);
    SumSplit(f[..k], g);
    assert f == f[..k] + f[k..m] + f[m..];
    SumSplit(f[..k] + f[k..m], f[m..]);
    SumSplit(f[..k], f[k..m]);
  }

  lemma SizeAtMostSum(f: seq<Chunk>, k: nat)
    requires k < |f|
    ensures f[k].size <= Sum(f)
  {
    SumReplaced(f, k, k + 1, []);
    assert f[k..k + 1] == [f[k]];
  }

  /** Chunks `k` to `m - 1` of the list give way to those of `g`. */
  function Replaced(f: seq<Chunk>, k: nat, m: nat, g: seq<Chunk>): seq<Chunk>
    requires k <= m <= |f|
  {
    f[..k] + g + f[m..]
  }

  lemma ReplacedItems(f: seq<Chunk>, k: nat, m: nat, g: seq<Chunk>)
    requires k <= m <= |f|
    ensures var r := Replaced(f, k, m, g);
            && |r| == k + |g| + |f| - m
            && forall i {:trigger r[i]} :: 0 <= i < |r| ==>
                 r[i] == if i < k then f[i] else if i < k + |g| then g[i - k] else f[i - k - |g| + m]
  {
  }

  lemma WithinReplaced(f: seq<Chunk>, k: nat, m: nat, g: seq<Chunk>, u: nat)
    requires k <= m <= |f|
    ensures Within(Replaced(f, k, m, g), u) <==> Within(f[..k], u) || Within(g, u) || Within(f[m..], u)
  {
    var r := Replaced(f, k, m, g);
    if i :| 0 <= i < |r| && Covers(r[i], u) {
      if i < k { assert Covers(f[..k][i], u); }
      else if i < k + |g| { assert Covers(g[i - k], u); }
      else { assert Covers(f[m..][i - k - |g|], u); }
    }
    if i :| 0 <= i < k && Covers(f[..k][i], u) { assert Covers(r[i], u); }
    if i :| 0 <= i < |g| && Covers(g[i], u) { assert Covers(r[k + i], u); }
    if i :| 0 <= i < |f| - m && Covers(f[m..][i], u) { assert Covers(r[k + |g| + i], u); }
  }

  /** The first chunk with at least `n` units, or `|f|`. */
  function FirstFit(f: seq<Chunk>, n: nat): (k: nat)
    ensures k <= |f|
    ensures forall i :: 0 <= i < k ==> f[i].size < n
    ensures k < |f| ==> f[k].size >= n
  {
    if f == [] || f[0].size >= n then 0 else 1 + FirstFit(f[1..], n)
  }

  lemma FirstFitUnique(f: seq<Chunk>, n: nat, k: nat)
    requires k <= |f| && (forall i :: 0 <= i < k ==> f[i].size < n) && (k < |f| ==> f[k].size >= n)
    ensures k == FirstFit(f, n)
  {
  }

  /** The list after `n` units have been taken from the high end of chunk `k`. */
  function Carved(f: seq<Chunk>, k: nat, n: nat): seq<Chunk>
    requires k < |f| && n <= f[k].size
  {
    if f[k].size == n then Replaced(f, k, k + 1, [])
    else Replaced(f, k, k + 1, [Chunk(f[k].addr, f[k].size - n)])
  }

  lemma PartsApart(f: seq<Chunk>, k: nat, u: nat)
    requires Sorted(f) && k < |f|
    ensures Within(f[..k], u) ==> u < f[k].addr
    ensures Within(f[k + 1..], u) ==> u >= f[k].End()
  {
  }

  lemma CarvedWithin(f: seq<Chunk>, k: nat, n: nat, u: nat)
    requires Sorted(f) && k < |f| && 1 <= n <= f[k].size
    ensures Within(Carved(f, k, n), u) <==> Within(f, u) && !(f[k].End() - n <= u < f[k].End())
    ensures f[k].End() - n <= u < f[k].End() ==> Within(f, u)
  {
    var g := if f[k].size == n then [] else [Chunk(f[k].addr, f[k].size - n)];
    PartsApart(f, k, u);
    WithinReplaced(f, k, k + 1, g, u);
    WithinReplaced(f, k, k + 1, [f[k]], u);
    assert Replaced(f, k, k + 1, [f[k]]) == f;
    assert Within([f[k]], u) <==> Covers([f[k]][0], u);
    assert g != [] ==> (Within(g, u) <==> Covers(g[0], u));
  }

  lemma CarvedSum(f: seq<Chunk>, k: nat, n: nat)
    requires k < |f| && 1 <= n <= f[k].size
    ensures Sum(Carved(f, k, n)) == Sum(f) - n
  {
    var g := if f[k].size == n then [] else [Chunk(f[k].addr, f[k].size - n)];
    assert f[k..k + 1] == [f[k]];
    SumReplaced(f, k, k + 1, g);
  }

  lemma CarvedNormal(f: seq<Chunk>, k: nat, n: nat)
    requires Normal(f) && k < |f| && 1 <= n <= f[k].size
    ensures Normal(Carved(f, k, n))
  {
    var g := Carved(f, k, n);
    ReplacedItems(f, k, k + 1, if f[k].size == n then [] else [Chunk(f[k].addr, f[k].size - n)]);
    hide Replaced;
    forall i | 0 <= i < |g| ensures g[i].size >= 1 {
      assert g[i] == f[i] || (i < |f| - 1 && g[i] == f[i + 1]) || g[i].size == f[k].size - n > 0;
    }
    forall i, j | 0 <= i < j < |g| ensures g[i].End() < g[j].addr {
      assert g[i].End() <= f[if i < k || |g| == |f| then i else i + 1].End();
      assert g[j].addr == f[if j < k || |g| == |f| then j else j + 1].addr;
    }
  }

  /** Allocating keeps the arena tiled and coalesced. */
  lemma AllocateKeeps(n: nat, f: seq<Chunk>, live: Blocks, k: nat, units: nat)
    requires ArenaInv(n, f, live) && k < |f| && 1 <= units <= f[k].size
    ensures var a := f[k].End() - units;
            && a !in live
            && ArenaInv(n, Carved(f, k, units), live[a := units])
  {
    var a := f[k].End() - units;
    var g, l := Carved(f, k, units), live[a := units];
    CarvedNormal(f, k, units);
    forall u: nat
      ensures Within(g, u) <==> Within(f, u) && !(a <= u < a + units)
      ensures a <= u < a + units ==> Within(f, u)
    {
      CarvedWithin(f, k, units, u);
    }
    HeldAdded(f, live, a, units);
    hide Normal, Within, Held, Carved;
    forall u: nat
      ensures Within(g, u) || Held(l, u) <==> 1 <= u <= n
      ensures !(Within(g, u) && Held(l, u))
    {
      assert Held(l, u) <==> Held(live, u) || a <= u < a + units;
      assert Within(g, u) <==> Within(f, u) && !(a <= u < a + units);
    }
  }

  /** A new live block inside the free memory overlaps no other. */
  lemma HeldAdded(f: seq<Chunk>, live: Blocks, a: nat, units: nat)
    requires units >= 1 && forall u: nat :: a <= u < a + units ==> Within(f, u)
    requires forall u: nat :: !(Within(f, u) && Held(live, u))
    requires forall b :: b in live ==> live[b] >= 1
    ensures a !in live
    ensures forall u: nat :: Held(live[a := units], u) <==> Held(live, u) || a <= u < a + units
    ensures forall b :: b in live ==> b + live[b] <= a || a + units <= b
  {
    forall b | b in live ensures b + live[b] <= a || a + units <= b {
      var u := if a <= b then b else a;
      assert b <= u < b + live[b] ==> Held(live, u);
    }
    var l := live[a := units];
    forall u: nat ensures Held(l, u) <==> Held(live, u) || a <= u < a + units {
      if b :| b in live && b <= u < b + live[b] { assert b in l && l[b] == live[b]; }
      if a <= u < a + units { assert a in l && l[a] == units; }
    }
  }

  /** Where Deallocate links a block in: before the first chunk at a higher address. */
  function Place(f: seq<Chunk>, a: nat): (k: nat)
    ensures k <= |f|
    ensures forall i :: 0 <= i < k ==> f[i].addr <= a
    ensures k < |f| ==> a < f[k].addr
  {
    if f == [] || f[0].addr > a then 0 else 1 + Place(f[1..], a)
  }

  lemma PlaceUnique(f: seq<Chunk>, a: nat, k: nat)
    requires k <= |f| && (forall i :: 0 <= i < k ==> f[i].addr <= a) && (k < |f| ==> a < f[k].addr)
    ensures k == Place(f, a)
  {
  }

  /** Chunk `i` swallows its successor if that begins where it ends. */
  function Joined(f: seq<Chunk>, i: nat): seq<Chunk>
    requires i < |f|
  {
    if i + 1 < |f| && f[i].End() == f[i + 1].addr
    then Replaced(f, i, i + 2, [Chunk(f[i].addr, f[i].size + f[i + 1].size)])
    else f
  }

  function Inserted(f: seq<Chunk>, c: Chunk): seq<Chunk> {
    Replaced(f, Place(f, c.addr), Place(f, c.addr), [c])
  }

  /** The free list after block `c` has been given back: linked in, joined with the chunk
      behind it, then with the chunk before it. */
  function Freed(f: seq<Chunk>, c: Chunk): seq<Chunk> {
    var k := Place(f, c.addr);
    var g := Joined(Inserted(f, c), k);
    if k > 0 then Joined(g, k - 1) else g
  }

  lemma JoinedWithin(f: seq<Chunk>, i: nat, u: nat)
    requires i < |f|
    ensures Within(Joined(f, i), u) <==> Within(f, u)
  {
    if i + 1 < |f| && f[i].End() == f[i + 1].addr {
      var c, two := Chunk(f[i].addr, f[i].size + f[i + 1].size), [f[i], f[i + 1]];
      WithinReplaced(f, i, i + 2, [c], u);
      WithinReplaced(f, i, i + 2, two, u);
      assert Replaced(f, i, i + 2, two) == f;
      assert Within([c], u) <==> Covers([c][0], u);
      assert Within(two, u) <==> Covers(two[0], u) || Covers(two[1], u);
    }
  }

  lemma JoinedSum(f: seq<Chunk>, i: nat)
    requires i < |f|
    ensures Sum(Joined(f, i)) == Sum(f)
  {
    if i + 1 < |f| && f[i].End() == f[i + 1].addr {
      assert f[i..i + 2] == [f[i], f[i + 1]];
      SumReplaced(f, i, i + 2, [Chunk(f[i].addr, f[i].size + f[i + 1].size)]);
    }
  }

  /** There is a gap behind chunk `i`, if it has a successor. */
  predicate Gap(f: seq<Chunk>, i: nat) {
    i + 1 < |f| ==> f[i].End() < f[i + 1].addr
  }

  lemma JoinedSorted(f: seq<Chunk>, i: nat)
    requires Sorted(f) && i < |f|
    ensures Sorted(Joined(f, i)) && i < |Joined(f, i)|
  {
    var g := Joined(f, i);
    assert g != f ==> |g| == |f| - 1 && g[i].addr == f[i].addr && g[i].End() == f[i + 1].End();
    assert g != f ==> forall j :: 0 <= j < |g| && j != i ==> g[j] == if j < i then f[j] else f[j + 1];
  }

  lemma JoinedGaps(f: seq<Chunk>, i: nat, b: nat)
    requires Sorted(f) && b <= i < |f|
    requires forall j: nat :: j != i && j != b ==> Gap(f, j)
    ensures forall j: nat :: j != b || b == i ==> Gap(Joined(f, i), j)
  {
    var g := Joined(f, i);
    forall j: nat | (j != b || b == i) && j + 1 < |g| ensures g[j].End() < g[j + 1].addr {
      if g == f {
        assert j != i ==> Gap(f, j);
      } else if j < i {
        assert Gap(f, j) && g[j] == f[j] && g[j + 1].addr == f[j + 1].addr;
      } else {
        assert Gap(f, j + 1) && g[j].End() == f[j + 1].End() && g[j + 1] == f[j + 2];
      }
    }
  }

  lemma NormalFromGaps(f: seq<Chunk>)
    requires Sorted(f) && forall i: nat :: Gap(f, i)
    ensures Normal(f)
  {
    forall i, j | 0 <= i < j < |f| ensures f[i].End() < f[j].addr {
      assert Gap(f, i);
    }
  }

  /** A block outside the free memory lies between two free chunks. */
  lemma BlockApart(f: seq<Chunk>, c: Chunk, i: nat)
    requires Sorted(f) && i < |f| && c.size >= 1 && forall u: nat :: Covers(c, u) ==> !Within(f, u)
    ensures if i < Place(f, c.addr) then f[i].End() <= c.addr else c.End() <= f[i].addr
  {
    var u := if i < Place(f, c.addr) then c.addr else f[i].addr;
    assert i < Place(f, c.addr) ==> f[i].addr <= c.addr;
    assert i >= Place(f, c.addr) ==> f[Place(f, c.addr)].addr <= f[i].addr;
    assert Covers(f[i], u) ==> Within(f, u);
    assert Covers(c, c.addr);
  }

  lemma SortedInsertion(f: seq<Chunk>, c: Chunk, k: nat)
    requires Sorted(f) && c.size >= 1 && k <= |f|
    requires forall i :: 0 <= i < |f| ==> if i < k then f[i].End() <= c.addr else c.End() <= f[i].addr
    ensures Sorted(Replaced(f, k, k, [c]))
  {
  }

  lemma GapsOfInsertion(f: seq<Chunk>, c: Chunk, k: nat, i: nat)
    requires Normal(f) && k <= |f| && i + 1 != k && i != k
    ensures Gap(Replaced(f, k, k, [c]), i)
  {
  }

  lemma InsertedSorted(f: seq<Chunk>, c: Chunk)
    requires Normal(f) && c.size >= 1 && forall u: nat :: Covers(c, u) ==> !Within(f, u)
    ensures Sorted(Inserted(f, c))
    ensures forall i: nat :: i + 1 != Place(f, c.addr) && i != Place(f, c.addr) ==> Gap(Inserted(f, c), i)
  {
    var k := Place(f, c.addr);
    forall i | 0 <= i < |f| ensures if i < k then f[i].End() <= c.addr else c.End() <= f[i].addr {
      BlockApart(f, c, i);
    }
    SortedInsertion(f, c, k);
    forall i: nat | i + 1 != k && i != k ensures Gap(Inserted(f, c), i) {
      GapsOfInsertion(f, c, k, i);
    }
  }

  lemma InsertedSum(f: seq<Chunk>, c: Chunk)
    ensures Sum(Inserted(f, c)) == Sum(f) + c.size
  {
    SumReplaced(f, Place(f, c.addr), Place(f, c.addr), [c]);
  }

  lemma InsertedWithin(f: seq<Chunk>, c: Chunk, u: nat)
    ensures Within(Inserted(f, c), u) <==> Within(f, u) || Covers(c, u)
  {
    var k := Place(f, c.addr);
    WithinReplaced(f, k, k, [c], u);
    WithinReplaced(f, k, k, [], u);
    assert Replaced(f, k, k, []) == f;
    assert Within([c], u) <==> Covers([c][0], u);
  }

  /** Deallocating makes exactly the block's units free and leaves the list coalesced. */
  lemma FreedNormal(f: seq<Chunk>, c: Chunk)
    requires Normal(f) && c.size >= 1 && forall u: nat :: Covers(c, u) ==> !Within(f, u)
    ensures Normal(Freed(f, c)) && Sum(Freed(f, c)) == Sum(f) + c.size
  {
    var k, f1 := Place(f, c.addr), Inserted(f, c);
    InsertedSorted(f, c);
    InsertedSum(f, c);
    var f2, b := Joined(f1, k), if k > 0 then k - 1 else k;
    JoinedSorted(f1, k);
    JoinedSum(f1, k);
    JoinedGaps(f1, k, b);
    if k > 0 {
      JoinedSorted(f2, k - 1);
      JoinedSum(f2, k - 1);
      JoinedGaps(f2, k - 1, k - 1);
    }
    NormalFromGaps(Freed(f, c));
  }

  lemma FreedWithin(f: seq<Chunk>, c: Chunk, u: nat)
    ensures Within(Freed(f, c), u) <==> Within(f, u) || Covers(c, u)
  {
    var k := Place(f, c.addr);
    InsertedWithin(f, c, u);
    JoinedWithin(Inserted(f, c), k, u);
    if k > 0 { JoinedWithin(Joined(Inserted(f, c), k), k - 1, u); }
  }

  /** Deallocating keeps the arena tiled and coalesced. */
  lemma DeallocateKeeps(n: nat, f: seq<Chunk>, live: Blocks, a: nat)
    requires ArenaInv(n, f, live) && a in live
    ensures ArenaInv(n, Freed(f, Chunk(a, live[a])), live - {a})
    ensures Sum(Freed(f, Chunk(a, live[a]))) == Sum(f) + live[a]
  {
    var c, l := Chunk(a, live[a]), live - {a};
    assert forall u: nat :: Covers(c, u) ==> Held(live, u);
    FreedNormal(f, c);
    forall u: nat
      ensures Held(l, u) <==> Held(live, u) && !Covers(c, u)
      ensures Within(Freed(f, c), u) <==> Within(f, u) || Covers(c, u)
    {
      FreedWithin(f, c, u);
      if b :| b in live && b <= u < b + live[b] { assert b != a ==> b in l && l[b] == live[b]; }
    }
  }

  /** Freeing what was just allocated restores the free list, chunk by chunk. */
  lemma FreeUndoesAllocate(n: nat, f: seq<Chunk>, live: Blocks, k: nat, units: nat)
    requires ArenaInv(n, f, live) && k < |f| && 1 <= units <= f[k].size
    ensures Freed(Carved(f, k, units), Chunk(f[k].End() - units, units)) == f
  {
    var a := f[k].End() - units;
    AllocateKeeps(n, f, live, k, units);
    DeallocateKeeps(n, Carved(f, k, units), live[a := units], a);
    hide ArenaInv, Freed, Carved;
    AddedRemoved(live, a, units);
    LiveDeterminesFree(n, f, Freed(Carved(f, k, units), Chunk(a, units)), live);
  }

  lemma AddedRemoved(live: Blocks, a: nat, units: nat)
    requires a !in live
    ensures live[a := units] - {a} == live && live[a := units][a] == units
  {
  }

  // ----- whole runs

  datatype Event = Allocate(units: nat) | Deallocate(addr: nat)

  datatype State = State(free: seq<Chunk>, live: Blocks)

  predicate Enabled(s: State, e: Event) {
    match e
    case Allocate(units) => units >= 1
    case Deallocate(a) => a in s.live
  }

  /** First fit: the block comes from the high end of the lowest chunk that is large enough. */
  function Next(s: State, e: Event): State
    requires Enabled(s, e)
  {
    match e
    case Allocate(units) =>
      var k := FirstFit(s.free, units);
      if k == |s.free| then s
      else State(Carved(s.free, k, units), s.live[s.free[k].End() - units := units])
    case Deallocate(a) => State(Freed(s.free, Chunk(a, s.live[a])), s.live - {a})
  }

  /** Units `a` to `a + u - 1` are the high end of the lowest chunk that has `u` units. */
  ghost predicate HighEndOfFirst(f: seq<Chunk>, k: nat, a: nat, u: nat) {
    k < |f| && (forall i :: 0 <= i < k ==> f[i].size < u) && u <= f[k].size && a + u == f[k].addr + f[k].size
  }

  /** Which units a block gets: none if no chunk is large enough, and otherwise these. */
  lemma AllocatesHighEnd(s: State, units: nat, k: nat, a: nat)
    requires units >= 1
    ensures (forall c <- s.free :: c.size < units) ==> Next(s, Allocate(units)) == s
    ensures HighEndOfFirst(s.free, k, a, units) ==> Next(s, Allocate(units)).live == s.live[a := units]
  {
    if HighEndOfFirst(s.free, k, a, units) { FirstFitUnique(s.free, units, k); }
    if forall c <- s.free :: c.size < units { FirstFitUnique(s.free, units, |s.free|); }
  }

  ghost predicate IsRun(n: nat, ss: seq<State>, es: seq<Event>) {
    && |ss| == |es| + 1
    && ss[0] == State([Chunk(1, n)], map[])
    && (forall i {:trigger es[i]} :: 0 <= i < |es| ==> Enabled(ss[i], es[i]) && ss[i + 1] == Next(ss[i], es[i]))
  }

  lemma InitInv(n: nat)
    requires n >= 1
    ensures ArenaInv(n, [Chunk(1, n)], map[])
  {
    var g := [Chunk(1, n)];
    assert forall u: nat :: Within(g, u) <==> Covers(g[0], u);
  }

  lemma {:induction false} RunKeeps(n: nat, ss: seq<State>, es: seq<Event>, i: nat)
    requires n >= 1 && IsRun(n, ss, es) && i < |ss|
    ensures ArenaInv(n, ss[i].free, ss[i].live)
  {
    if i == 0 {
      InitInv(n);
    } else {
      RunKeeps(n, ss, es, i - 1);
      var s, e := ss[i - 1], es[i - 1];
      match e
      case Allocate(units) =>
        var k := FirstFit(s.free, units);
        if k < |s.free| { AllocateKeeps(n, s.free, s.live, k, units); }
      case Deallocate(a) => DeallocateKeeps(n, s.free, s.live, a);
    }
  }

  /** Whatever was allocated and freed in between, in whatever order: the same live blocks
      mean the same free list, and no live blocks mean the single chunk of the start. */
  lemma HistoryIsForgotten(n: nat, ss: seq<State>, es: seq<Event>, i: nat, j: nat)
    requires n >= 1 && IsRun(n, ss, es) && i < |ss| && j < |ss| && ss[i].live == ss[j].live
    ensures ss[i].free == ss[j].free
    ensures ss[i].live == map[] ==> ss[i].free == [Chunk(1, n)]
  {
    RunKeeps(n, ss, es, i);
    RunKeeps(n, ss, es, j);
    LiveDeterminesFree(n, ss[i].free, ss[j].free, ss[i].live);
    if ss[i].live == map[] { AllFreed(n, ss[i].free); }
  }

  // ----- the end of the area

  /** sizeof(MemHeader): a Node of 16 bytes and six words.  The header lies in front of unit 0. */
  const HEADER_UNITS := 5

  function UnitsOf(size: nat): nat
    requires size >= 16
  {
    (size - 8) / 8
  }

  function UnitAddress(base: nat, u: nat): nat { base + 8 * (HEADER_UNITS + u) }

  /** What ends where unit `end` begins lies below mh_Upper, which is `base + size`. */
  predicate BelowUpper(base: nat, size: nat, end: nat) { UnitAddress(base, end) <= base + size }

  lemma UpperUnit(base: nat, size: nat, end: nat)
    requires size >= 16
    ensures BelowUpper(base, size, end) <==> end + HEADER_UNITS <= UnitsOf(size) + 1
  {
  }

  /** The block that Allocate hands out ends where its chunk ended, however large it is.  So it
      lies in the area given to AddMemList exactly if the chunk did. */
  lemma BlockBelowUpper(base: nat, size: nat, s: State, units: nat)
    requires size >= 16 && units >= 1 && FirstFit(s.free, units) < |s.free|
    ensures var c := s.free[FirstFit(s.free, units)];
            && Next(s, Allocate(units)).live == s.live[c.End() - units := units]
            && (BelowUpper(base, size, c.End()) <==> c.End() + HEADER_UNITS <= UnitsOf(size) + 1)
  {
    UpperUnit(base, size, s.free[FirstFit(s.free, units)].End());
  }

  /** The first block of a new arena never does. */
  lemma FirstBlockAboveUpper(base: nat, size: nat, units: nat)
    requires size >= 16 && 1 <= units <= UnitsOf(size)
    ensures var a := UnitsOf(size) + 1 - units;
            && Next(State([Chunk(1, UnitsOf(size))], map[]), Allocate(units)).live == map[a := units]
            && !BelowUpper(base, size, a + units)
  {
  }

  ghost predicate EndBy(live: Blocks, e: int) { forall a :: a in live ==> a + live[a] <= e }

  ghost predicate FreeFrom(n: nat, f: seq<Chunk>, e: int) { forall u: nat :: 1 <= u && e <= u <= n ==> Within(f, u) }

  lemma LiveEndBy(n: nat, f: seq<Chunk>, live: Blocks, e: int)
    requires Tiled(n, f, live)
    ensures EndBy(live, e) <==> FreeFrom(n, f, e)
  {
    if FreeFrom(n, f, e) {
      forall a | a in live ensures a + live[a] <= e {
        assert Held(live, a + live[a] - 1) && Held(live, a);
      }
    }
    if EndBy(live, e) {
      forall u: nat | 1 <= u && e <= u <= n ensures Within(f, u) { assert !Held(live, u); }
    }
  }

  /** In every state of every run: all live blocks lie in the area exactly if the last five units
      of the arena are free. */
  lemma LiveBelowUpper(base: nat, size: nat, ss: seq<State>, es: seq<Event>, i: nat)
    requires size >= 16 && IsRun(UnitsOf(size), ss, es) && i < |ss|
    ensures (forall a :: a in ss[i].live ==> BelowUpper(base, size, a + ss[i].live[a]))
       <==> (forall u: nat ::
               1 <= u && UnitsOf(size) + 1 - HEADER_UNITS <= u <= UnitsOf(size) ==> Within(ss[i].free, u))
  {
    var n := UnitsOf(size);
    RunKeeps(n, ss, es, i);
    hide Tiled, Within;
    LiveEndBy(n, ss[i].free, ss[i].live, n + 1 - HEADER_UNITS);
  }
}
