/** Tag lists (tags.c): chains of tag items with skips and links mean a flat sequence of items. */
module Tags {
  import opened Options
  import opened Words

  const TAG_DONE: U32 := 0
  const TAG_IGNORE: U32 := 1
  const TAG_MORE: U32 := 2
  const TAG_SKIP: U32 := 3

  datatype TagItem = TagItem(tag: U32, data: U32)

  /** Memory is an array of tag items; a pointer is an index, and 0 is the null pointer. */
  type Memory = seq<TagItem>

  predicate Ordinary(tag: U32) { tag != TAG_DONE && tag != TAG_IGNORE && tag != TAG_MORE && tag != TAG_SKIP }

  /** Where the list goes on behind item `p`. */
  function Succ(m: Memory, p: nat): nat
    requires p < |m|
  {
    if m[p].tag == TAG_MORE then m[p].data else if m[p].tag == TAG_SKIP then p + m[p].data + 1 else p + 1
  }

  /** `w` is the whole way through the list from `p`: it ends with a TAG_DONE or with a null
      link.  A list is acyclic, and stays inside memory, if there is such a way. */
  ghost predicate IsWalk(m: Memory, p: nat, w: seq<nat>)
    decreases |w|
  {
    if w == [] then p == 0
    else w[0] == p && 0 < p < |m| && if m[p].tag == TAG_DONE then |w| == 1 else IsWalk(m, Succ(m, p), w[1..])
  }

  ghost predicate Inside(m: Memory, w: seq<nat>) { forall i :: 0 <= i < |w| ==> 0 < w[i] < |m| }

  /** The meaning of a list: its ordinary items, in order. */
  function Items(m: Memory, w: seq<nat>): seq<TagItem>
    requires Inside(m, w)
  {
    if w == [] then [] else (if Ordinary(m[w[0]].tag) then [m[w[0]]] else []) + Items(m, w[1..])
  }

  // ----- walks

  lemma {:induction false} WalkInside(m: Memory, p: nat, w: seq<nat>)
    requires IsWalk(m, p, w)
    ensures Inside(m, w)
    decreases |w|
  {
    if w != [] && m[p].tag != TAG_DONE {
      WalkInside(m, Succ(m, p), w[1..]);
    }
  }

  lemma {:induction false} WalkUnique(m: Memory, p: nat, v: seq<nat>, w: seq<nat>)
    requires IsWalk(m, p, v) && IsWalk(m, p, w)
    ensures v == w
    decreases |v|
  {
    if v != [] && w != [] && m[p].tag != TAG_DONE {
      WalkUnique(m, Succ(m, p), v[1..], w[1..]);
    }
  }

  lemma {:induction false} WalkTail(m: Memory, p: nat, w: seq<nat>, i: nat)
    requires IsWalk(m, p, w) && i < |w|
    ensures IsWalk(m, w[i], w[i..])
    decreases i
  {
    if i == 0 {
      assert w[0..] == w;
    } else {
      WalkTail(m, Succ(m, p), w[1..], i - 1);
      assert w[1..][i - 1..] == w[i..];
    }
  }

  /** A way to the end never passes an item twice. */
  lemma WalkDistinct(m: Memory, p: nat, w: seq<nat>, i: nat, j: nat)
    requires IsWalk(m, p, w) && i < j < |w|
    ensures w[i] != w[j]
  {
    if w[i] == w[j] {
      WalkTail(m, p, w, i);
      WalkTail(m, p, w, j);
      WalkUnique(m, w[i], w[i..], w[j..]);
      assert false;
    }
  }

  lemma {:induction false} ItemsConcat(m: Memory, v: seq<nat>, w: seq<nat>)
    requires Inside(m, v) && Inside(m, w)
    ensures Inside(m, v + w) && Items(m, v + w) == Items(m, v) + Items(m, w)
    decreases |v|
  {
    if v == [] {
      assert v + w == w;
    } else {
      ItemsConcat(m, v[1..], w);
      assert (v + w)[0] == v[0] && (v + w)[1..] == v[1..] + w;
      var first := if Ordinary(m[v[0]].tag) then [m[v[0]]] else [];
      Regroup(first, Items(m, v[1..]), Items(m, w));
    }
  }

  /** The list at `p` ends, and its ordinary items are these. */
  ghost predicate Means(m: Memory, p: nat, items: seq<TagItem>) {
    exists w :: IsWalk(m, p, w) && Inside(m, w) && Items(m, w) == items
  }

  lemma WalkMeans(m: Memory, p: nat, w: seq<nat>)
    requires IsWalk(m, p, w)
    ensures Inside(m, w) && Means(m, p, Items(m, w))
  {
    WalkInside(m, p, w);
  }

  lemma StepMeans(m: Memory, p: nat, items: seq<TagItem>)
    requires 0 < p < |m| && m[p].tag != TAG_DONE
    ensures Means(m, p, items) <==>
            if Ordinary(m[p].tag) then items != [] && items[0] == m[p] && Means(m, Succ(m, p), items[1..])
            else Means(m, Succ(m, p), items)
  {
    if Means(m, p, items) {
      var w :| IsWalk(m, p, w) && Inside(m, w) && Items(m, w) == items;
      WalkMeans(m, Succ(m, p), w[1..]);
      hide Means, Succ;
      if Ordinary(m[p].tag) { assert items[1..] == Items(m, w[1..]); }
    }
    var rest := if Ordinary(m[p].tag) && items != [] then items[1..] else items;
    if Means(m, Succ(m, p), rest) {
      var v :| IsWalk(m, Succ(m, p), v) && Inside(m, v) && Items(m, v) == rest;
      assert ([p] + v)[1..] == v;
      WalkMeans(m, p, [p] + v);
      hide Means, Succ;
    }
  }

  /** What a list means, by its first item: an ordinary item comes first, TAG_IGNORE is passed over,
      TAG_SKIP with data `d` is passed over with the `d` items behind it, TAG_MORE leads to another
      list, and TAG_DONE or a null pointer is the end. */
  lemma MeaningOf(m: Memory, p: nat, items: seq<TagItem>)
    requires p < |m|
    ensures var tag, d := m[p].tag, m[p].data;
            Means(m, p, items) <==>
              if p == 0 || tag == TAG_DONE then items == []
              else if tag == TAG_IGNORE then Means(m, p + 1, items)
              else if tag == TAG_SKIP then Means(m, p + d + 1, items)
              else if tag == TAG_MORE then Means(m, d, items)
              else items != [] && items[0] == m[p] && Means(m, p + 1, items[1..])
  {
    if p == 0 {
      WalkMeans(m, 0, []);
    } else if m[p].tag == TAG_DONE {
      assert [p][1..] == [];
      WalkMeans(m, p, [p]);
      assert Items(m, [p]) == [];
      if w :| IsWalk(m, p, w) && Inside(m, w) && Items(m, w) == items { assert w == [p]; }
    } else {
      hide Means;
      StepMeans(m, p, items);
    }
  }

  /** Only the items on its way matter to a list. */
  lemma {:induction false} WalkFrame(m: Memory, k: Memory, p: nat, w: seq<nat>)
    requires IsWalk(m, p, w) && |k| == |m|
    requires forall i :: 0 <= i < |w| && 0 < w[i] < |m| ==> k[w[i]] == m[w[i]]
    ensures IsWalk(k, p, w) && Inside(m, w) && Inside(k, w) && Items(k, w) == Items(m, w)
    decreases |w|
  {
    WalkInside(m, p, w);
    if w != [] {
      assert k[w[0]] == m[w[0]];
      if m[p].tag == TAG_DONE {
        assert w[1..] == [];
      } else {
        assert forall i :: 0 <= i < |w[1..]| ==> w[1..][i] == w[i + 1];
        WalkFrame(m, k, Succ(m, p), w[1..]);
      }
    }
  }

  // ----- iteration

  /** How far it is to the first ordinary item. */
  function FirstOrdinary(m: Memory, w: seq<nat>): (k: nat)
    requires Inside(m, w)
    ensures k <= |w| && (k < |w| ==> Ordinary(m[w[k]].tag))
    ensures forall i :: 0 <= i < k ==> !Ordinary(m[w[i]].tag)
  {
    if w == [] || Ordinary(m[w[0]].tag) then 0 else 1 + FirstOrdinary(m, w[1..])
  }

  lemma {:induction false} ItemsFromFirst(m: Memory, w: seq<nat>)
    requires Inside(m, w)
    ensures var k := FirstOrdinary(m, w);
            Items(m, w) == if k < |w| then [m[w[k]]] + Items(m, w[k + 1..]) else []
    decreases |w|
  {
    FirstStep(m, w);
    hide *;
    if w != [] && FirstOrdinary(m, w) != 0 {
      var k := FirstOrdinary(m, w[1..]);
      ItemsFromFirst(m, w[1..]);
      if k + 1 < |w| { SliceOfTail(w, k); }
    }
  }

  lemma FirstStep(m: Memory, w: seq<nat>)
    requires Inside(m, w)
    ensures w == [] ==> FirstOrdinary(m, w) == 0 && Items(m, w) == []
    ensures w != [] && FirstOrdinary(m, w) == 0 ==> Items(m, w) == [m[w[0]]] + Items(m, w[1..])
    ensures w != [] ==> Inside(m, w[1..])
    ensures w != [] && FirstOrdinary(m, w) != 0 ==>
              FirstOrdinary(m, w) == FirstOrdinary(m, w[1..]) + 1 && Items(m, w) == Items(m, w[1..])
  {
  }

  lemma SliceOfTail(w: seq<nat>, k: nat)
    requires k + 1 < |w|
    ensures w[1..][k] == w[k + 1] && w[1..][k + 1..] == w[k + 2..]
  {
  }

  /** NextTagItem: passes control items and stops behind the next ordinary one; null at the end. */
  method NextTagItem(m: Memory, list: nat, ghost w: seq<nat>) returns (item: nat, next: nat, ghost v: seq<nat>)
    requires IsWalk(m, list, w)
    ensures Inside(m, w)
    ensures item == (if FirstOrdinary(m, w) < |w| then w[FirstOrdinary(m, w)] else 0)
    ensures next == if item == 0 then 0 else item + 1
    ensures IsWalk(m, next, v)
    ensures if item == 0 then v == [] && Items(m, w) == []
            else item < |m| && v == w[FirstOrdinary(m, w) + 1..] && Items(m, w) == [m[item]] + Items(m, v)
  {
    WalkInside(m, list, w);
    ItemsFromFirst(m, w);
    if list == 0 { return 0, 0, []; }
    next, v := list, w;
    ghost var i := 0;
    while true
      invariant next != 0 && i <= |w| && v == w[i..] && IsWalk(m, next, v)
      invariant forall j :: 0 <= j < i ==> !Ordinary(m[w[j]].tag)
      decreases |v|
    {
      var tag := m[next].tag;
      if tag == TAG_MORE {
        next, v, i := m[next].data, v[1..], i + 1;
        if next == 0 { return 0, 0, []; }
      } else if tag == TAG_DONE {
        return 0, 0, [];
      } else if tag == TAG_SKIP {
        next, v, i := next + m[next].data + 1, v[1..], i + 1;
      } else if tag == TAG_IGNORE {
        next, v, i := next + 1, v[1..], i + 1;
      } else {
        item := next;
        next, v := next + 1, v[1..];
        return;
      }
    }
  }

  // ----- searching

  /** The first item with this tag. */
  function Find(items: seq<TagItem>, tag: U32): (r: Option<TagItem>)
    ensures match r case Some(i) => i in items && i.tag == tag case None => forall i <- items :: i.tag != tag
  {
    if items == [] then None else if items[0].tag == tag then Some(items[0]) else Find(items[1..], tag)
  }

  predicate Hit(m: Memory, p: nat, tag: U32)
    requires p < |m|
  {
    Ordinary(m[p].tag) && m[p].tag == tag
  }

  /** Where on the way through the list the first of them lies. */
  function FirstHit(m: Memory, w: seq<nat>, tag: U32): (k: nat)
    requires Inside(m, w)
    ensures k <= |w| && (k < |w| ==> Hit(m, w[k], tag))
    ensures forall i :: 0 <= i < k ==> !Hit(m, w[i], tag)
  {
    if w == [] || Hit(m, w[0], tag) then 0 else 1 + FirstHit(m, w[1..], tag)
  }

  /** The address of the first of them, or null. */
  function HitAddress(m: Memory, w: seq<nat>, tag: U32): nat
    requires Inside(m, w)
  {
    if FirstHit(m, w, tag) < |w| then w[FirstHit(m, w, tag)] else 0
  }

  method FindTagItem(m: Memory, tagValue: U32, list: nat, ghost w: seq<nat>) returns (item: nat)
    requires IsWalk(m, list, w)
    ensures Inside(m, w)
    ensures item == HitAddress(m, w, tagValue)
    ensures item != 0 ==> item < |m|
    ensures Find(Items(m, w), tagValue) == if item == 0 then None else Some(m[item])
  {
    WalkInside(m, list, w);
    FindIsHit(m, w, tagValue);
    SearchStart(m, w, tagValue);
    var state := list;
    ghost var v: seq<nat>, i: nat := w, 0;
    hide *;
    while true
      invariant IsWalk(m, state, v) && Searching(m, w, tagValue, v, i)
      decreases |v|
    {
      item, state, v, i := LookAtNext(m, tagValue, state, w, v, i);
      if item == 0 || m[item].tag == tagValue { return; }
    }
  }

  /** The next item, and what the search knows when it is not the one. */
  method LookAtNext(m: Memory, tag: U32, state: nat, ghost w: seq<nat>, ghost v: seq<nat>, ghost i: nat)
    returns (item: nat, next: nat, ghost rest: seq<nat>, ghost j: nat)
    requires IsWalk(m, state, v) && Searching(m, w, tag, v, i)
    ensures Inside(m, w) && IsWalk(m, next, rest) && (item != 0 ==> item < |m|)
    ensures if item == 0 || m[item].tag == tag then item == HitAddress(m, w, tag)
            else Searching(m, w, tag, rest, j) && |rest| < |v|
  {
    hide *;
    ghost var k := SearchStep(m, w, tag, v, i);
    item, next, rest := NextTagItem(m, state, v);
    j := i + k + 1;
  }

  /** Of the way `w`, the search has `v` before it and nothing that it looks for behind it. */
  ghost predicate Searching(m: Memory, w: seq<nat>, tag: U32, v: seq<nat>, i: nat) {
    && Inside(m, w) && Inside(m, v) && IsTail(v, w, i)
    && FirstHit(m, w, tag) == i + FirstHit(m, v, tag)
  }

  lemma SearchStart(m: Memory, w: seq<nat>, tag: U32)
    requires Inside(m, w)
    ensures Searching(m, w, tag, w, 0)
  {
  }

  lemma SearchStep(m: Memory, w: seq<nat>, tag: U32, v: seq<nat>, i: nat) returns (k: nat)
    requires Searching(m, w, tag, v, i)
    ensures Inside(m, v) && Inside(m, w) && k == FirstOrdinary(m, v) <= |v|
    ensures if k == |v| then HitAddress(m, w, tag) == 0
            else if 0 < v[k] < |m| && m[v[k]].tag == tag then HitAddress(m, w, tag) == v[k]
            else 0 < v[k] < |m| && Searching(m, w, tag, v[k + 1..], i + k + 1)
  {
    k := FirstOrdinary(m, v);
    HitFromFirst(m, v, tag);
    TailStep(v, w, i, k);
    assert k < |v| ==> 0 < v[k] < |m|;
    hide Inside, FirstOrdinary, FirstHit, IsTail;
  }

  ghost predicate IsTail(v: seq<nat>, w: seq<nat>, i: nat) { i <= |w| && v == w[i..] }

  lemma TailStep(v: seq<nat>, w: seq<nat>, i: nat, k: nat)
    requires IsTail(v, w, i)
    ensures i + |v| == |w|
    ensures k < |v| ==> v[k] == w[i + k] && IsTail(v[k + 1..], w, i + k + 1)
  {
  }

  lemma HitStep(m: Memory, w: seq<nat>, tag: U32)
    requires Inside(m, w)
    ensures w == [] ==> FirstHit(m, w, tag) == 0
    ensures w != [] ==> Inside(m, w[1..])
    ensures w != [] ==>
              FirstHit(m, w, tag)
              == if FirstOrdinary(m, w) == 0 && m[w[0]].tag == tag then 0 else 1 + FirstHit(m, w[1..], tag)
  {
  }

  /** NextTagItem passes no item that is looked for. */
  lemma {:induction false} HitFromFirst(m: Memory, w: seq<nat>, tag: U32)
    requires Inside(m, w)
    ensures var k := FirstOrdinary(m, w);
            && (k < |w| ==> w[k] < |m| && Inside(m, w[k + 1..]))
            && FirstHit(m, w, tag) == if k == |w| || m[w[k]].tag == tag then k else k + 1 + FirstHit(m, w[k + 1..], tag)
    decreases |w|
  {
    FirstStep(m, w);
    HitStep(m, w, tag);
    if w == [] {
    } else if FirstOrdinary(m, w) == 0 {
      assert Inside(m, w[1..]);
    } else {
      var k := FirstOrdinary(m, w[1..]);
      HitFromFirst(m, w[1..], tag);
      hide *;
      if k + 1 < |w| { SliceOfTail(w, k); }
    }
  }

  lemma {:induction false} FindIsHit(m: Memory, w: seq<nat>, tag: U32)
    requires Inside(m, w)
    ensures var a := HitAddress(m, w, tag);
            && (a != 0 ==> a < |m|)
            && Find(Items(m, w), tag) == if a == 0 then None else Some(m[a])
    decreases |w|
  {
    HitStep(m, w, tag);
    FirstStep(m, w);
    if w != [] {
      FindIsHit(m, w[1..], tag);
      FindStep(m[w[0]], Items(m, w[1..]), tag);
    }
    hide FirstHit, Items, Find, FirstOrdinary;
  }

  lemma FindStep(item: TagItem, items: seq<TagItem>, tag: U32)
    ensures Find([], tag) == None
    ensures Find([item] + items, tag) == if item.tag == tag then Some(item) else Find(items, tag)
  {
    assert ([item] + items)[1..] == items;
  }

  method GetTagData(m: Memory, tagValue: U32, defaultVal: U32, list: nat, ghost w: seq<nat>) returns (data: U32)
    requires IsWalk(m, list, w)
    ensures Inside(m, w)
    ensures data == match Find(Items(m, w), tagValue) case Some(i) => i.data case None => defaultVal
  {
    var tag := FindTagItem(m, tagValue, list, w);
    data := if tag != 0 then m[tag].data else defaultVal;
  }

  // ----- boolean tags

  /** The one bits of a number. */
  function OneBits(x: U32): Bits { set b: BitNo | 0 <= b < 32 && x / Pow2(b) % 2 == 1 }

  /** They make up the number. */
  lemma OneBitsExact(x: U32)
    ensures Value(OneBits(x)) == x
  {
    LowBits(x, 32);
    Pow2Literals();
    QuotientUnique(x, TWO32, 0, x);
  }

  lemma {:induction false} LowBits(x: U32, n: nat)
    requires n <= 32
    ensures ValueBelow(OneBits(x), n) == x % Pow2(n)
  {
    if n > 0 {
      LowBits(x, n - 1);
      OneBitMore(x, Pow2(n - 1));
      assert Pow2(n) == 2 * Pow2(n - 1);
    }
  }

  lemma OneBitMore(x: nat, p: nat)
    requires p > 0
    ensures x % (2 * p) == (if x / p % 2 == 1 then p else 0) + x % p
  {
    var q, r := x / p, x % p;
    var h, b := q / 2, q % 2;
    assert x == q * p + r && q == 2 * h + b;
    TwiceAndRest(h, b, p);
    assert b * p == if b == 1 then p else 0;
    QuotientUnique(x, 2 * p, h, b * p + r);
  }

  lemma TwiceAndRest(h: nat, b: nat, p: nat)
    ensures (2 * h + b) * p == h * (2 * p) + b * p
  {
  }

  /** What one item does to the flags. */
  function Applied(flags: Bits, item: TagItem, boolMap: seq<TagItem>): Bits {
    match Find(boolMap, item.tag)
    case Some(i) => if item.data == 0 then flags - OneBits(i.data) else flags + OneBits(i.data)
    case None => flags
  }

  function Packed(flags: Bits, items: seq<TagItem>, boolMap: seq<TagItem>): Bits
    decreases |items|
  {
    if items == [] then flags else Packed(Applied(flags, items[0], boolMap), items[1..], boolMap)
  }

  lemma PackedStep(flags: Bits, item: TagItem, items: seq<TagItem>, boolMap: seq<TagItem>)
    ensures Packed(flags, [item] + items, boolMap) == Packed(Applied(flags, item, boolMap), items, boolMap)
  {
    assert ([item] + items)[1..] == items;
  }

  method PackBoolTags(m: Memory, initialFlags: Bits, list: nat, ghost w: seq<nat>, boolMap: nat, ghost b: seq<nat>)
    returns (flags: Bits)
    requires IsWalk(m, list, w) && IsWalk(m, boolMap, b)
    ensures Inside(m, w) && Inside(m, b) && flags == Packed(initialFlags, Items(m, w), Items(m, b))
  {
    WalkInside(m, list, w);
    WalkInside(m, boolMap, b);
    var state := list;
    ghost var v, pairs := w, Items(m, b);
    flags := initialFlags;
    hide OneBits, Inside, IsWalk, Items, Packed, Find;
    assert Packed(flags, [], pairs) == flags by { PackedNothing(flags, pairs); }
    while true
      invariant IsWalk(m, state, v) && Inside(m, v)
      invariant Packed(flags, Items(m, v), pairs) == Packed(initialFlags, Items(m, w), pairs)
      decreases |v|
    {
      var current;
      current, state, v := NextTagItem(m, state, v);
      if current == 0 {
        PackedNothing(flags, pairs);
        return;
      }
      PackedStep(flags, m[current], Items(m, v), pairs);
      var found := FindTagItem(m, m[current].tag, boolMap, b);
      if found != 0 {
        if m[current].data == 0 {
          flags := flags - OneBits(m[found].data);
        } else {
          flags := flags + OneBits(m[found].data);
        }
      }
    }
  }

  lemma PackedNothing(flags: Bits, boolMap: seq<TagItem>)
    ensures Packed(flags, [], boolMap) == flags
  {
  }

  /** Does this item decide about flag `bit`? */
  predicate Decides(item: TagItem, boolMap: seq<TagItem>, bit: BitNo) {
    match Find(boolMap, item.tag) case Some(i) => bit in OneBits(i.data) case None => false
  }

  /** A flag is set as the last item says that the map relates to it; without one it keeps its value. */
  lemma {:induction false} LastOneDecides(flags: Bits, items: seq<TagItem>, boolMap: seq<TagItem>, bit: BitNo, k: int)
    requires -1 <= k < |items| && (k >= 0 ==> Decides(items[k], boolMap, bit))
    requires forall i :: k < i < |items| ==> !Decides(items[i], boolMap, bit)
    ensures bit in Packed(flags, items, boolMap) <==> if k == -1 then bit in flags else items[k].data != 0
    decreases |items|
  {
    if items != [] {
      LastOneDecides(Applied(flags, items[0], boolMap), items[1..], boolMap, bit, if k == -1 then -1 else k - 1);
    }
  }

  // ----- cloning

  /** The addresses base, base + 1, ... */
  function Range(base: nat, n: nat): (r: seq<nat>)
    ensures |r| == n && forall i :: 0 <= i < n ==> r[i] == base + i
    decreases n
  {
    if n == 0 then [] else [base] + Range(base + 1, n - 1)
  }

  lemma Regroup<T>(a: seq<T>, b: seq<T>, c: seq<T>)
    ensures a + b + c == a + (b + c)
  {
  }

  ghost predicate AllOrdinary(items: seq<TagItem>) { forall i :: 0 <= i < |items| ==> Ordinary(items[i].tag) }

  lemma {:induction false} ItemsOrdinary(m: Memory, w: seq<nat>)
    requires Inside(m, w)
    ensures AllOrdinary(Items(m, w)) && |Items(m, w)| <= |w|
    decreases |w|
  {
    if w != [] { ItemsOrdinary(m, w[1..]); }
  }

  /** Ordinary items stored one after the other are a list, which goes on with what follows. */
  lemma {:induction false} ArrayWalk(m: Memory, base: nat, n: nat, rest: seq<nat>)
    requires 0 < base && base + n <= |m| && AllOrdinary(m[base..base + n])
    requires IsWalk(m, base + n, rest)
    ensures var w := Range(base, n) + rest;
            IsWalk(m, base, w) && Inside(m, w) && Inside(m, rest) && Items(m, w) == m[base..base + n] + Items(m, rest)
    decreases n
  {
    WalkInside(m, base + n, rest);
    if n == 0 {
      assert Range(base, 0) + rest == rest && m[base..base] + Items(m, rest) == Items(m, rest);
    } else {
      var v := Range(base + 1, n - 1);
      assert Range(base, n) == [base] + v;
      FirstOfAll(m, base, n);
      hide *;
      ArrayWalk(m, base + 1, n - 1, rest);
      ItemBefore(m, base, v + rest);
      Regroup([base], v, rest);
      Regroup([m[base]], m[base + 1..base + n], Items(m, rest));
    }
  }

  lemma FirstOfAll(m: Memory, base: nat, n: nat)
    requires base + n <= |m| && n > 0 && AllOrdinary(m[base..base + n])
    ensures Ordinary(m[base].tag) && AllOrdinary(m[base + 1..base + n])
    ensures m[base..base + n] == [m[base]] + m[base + 1..base + n]
  {
    var s, t := m[base..base + n], m[base + 1..base + n];
    assert s[0] == m[base];
    assert forall i :: 0 <= i < |t| ==> t[i] == s[i + 1];
  }

  lemma ItemBefore(m: Memory, p: nat, v: seq<nat>)
    requires 0 < p < |m| && Ordinary(m[p].tag) && IsWalk(m, p + 1, v) && Inside(m, v)
    ensures IsWalk(m, p, [p] + v) && Inside(m, [p] + v) && Items(m, [p] + v) == [m[p]] + Items(m, v)
  {
    assert ([p] + v)[1..] == v;
  }

  /** `at` and the `n` items from it on are not on the way `w`. */
  ghost predicate Clear(w: seq<nat>, at: nat, n: nat) {
    forall i :: 0 <= i < |w| ==> !(at <= w[i] < at + n)
  }

  /** `m` with `items` stored from `at` on. */
  function Overwritten(m: Memory, at: nat, items: seq<TagItem>): (k: Memory)
    requires at + |items| <= |m|
    ensures |k| == |m|
  {
    m[..at] + items + m[at + |items|..]
  }

  lemma OverwrittenMore(m: Memory, at: nat, items: seq<TagItem>, item: TagItem)
    requires at + |items| < |m|
    ensures Overwritten(m, at, items + [item]) == Overwritten(m, at, items)[at + |items| := item]
  {
  }

  /** Writing beside the way of a list does not change the list. */
  lemma OverwrittenClear(m: Memory, at: nat, items: seq<TagItem>, n: nat, p: nat, w: seq<nat>)
    requires IsWalk(m, p, w) && Clear(w, at, n) && |items| <= n && at + n <= |m|
    ensures var k := Overwritten(m, at, items);
            IsWalk(k, p, w) && Inside(m, w) && Inside(k, w) && Items(k, w) == Items(m, w)
  {
    var k := Overwritten(m, at, items);
    forall i | 0 <= i < |w| && 0 < w[i] < |m| ensures k[w[i]] == m[w[i]] {}
    WalkFrame(m, k, p, w);
  }

  lemma ClearBack(k: Memory, m: Memory, at: nat, items: seq<TagItem>, n: nat, p: nat, w: seq<nat>)
    requires at + n <= |m| && |items| <= n && k == Overwritten(m, at, items)
    requires IsWalk(k, p, w) && Clear(w, at, n)
    ensures IsWalk(m, p, w) && Inside(k, w) && Inside(m, w) && Items(k, w) == Items(m, w)
  {
    forall i | 0 <= i < |w| && 0 < w[i] < |m| ensures k[w[i]] == m[w[i]] {}
    WalkFrame(k, m, p, w);
  }

  lemma ClearTail(w: seq<nat>, at: nat, n: nat, k: nat)
    requires Clear(w, at, n) && k <= |w|
    ensures Clear(w[k..], at, n)
  {
  }

  /** RefreshTagItemClones: copies the items of `org`, and writes no terminator behind them. */
  method RefreshTagItemClones(mem: array<TagItem>, clone: nat, org: nat, ghost w: seq<nat>)
    requires IsWalk(mem[..], org, w) && Inside(mem[..], w)
    requires clone != 0 ==> clone + |Items(mem[..], w)| <= mem.Length && Clear(w, clone, |Items(mem[..], w)|)
    requires clone != 0 && org == 0 ==> clone < mem.Length
    modifies mem
    ensures Inside(old(mem[..]), w)
    ensures mem[..] == if clone == 0 then old(mem[..])
                       else if org == 0 then old(mem[..])[clone := TagItem(TAG_DONE, old(mem[clone].data))]
                       else Overwritten(old(mem[..]), clone, Items(old(mem[..]), w))
  {
    if clone != 0 {
      if org != 0 {
        CopyItems(mem, clone, org, w);
        return;
      }
      mem[clone] := TagItem(TAG_DONE, mem[clone].data);
    }
  }

  /** Its loop: `done` is copied, `v` is the rest of the way. */
  ghost predicate Copying(now: Memory, m: Memory, clone: nat, items: seq<TagItem>, done: seq<TagItem>,
                          state: nat, v: seq<nat>) {
    && clone + |items| <= |m| && IsWalk(m, state, v) && Inside(m, v) && Clear(v, clone, |items|)
    && items == done + Items(m, v) && now == Overwritten(m, clone, done)
  }

  method CopyItems(mem: array<TagItem>, clone: nat, org: nat, ghost w: seq<nat>)
    requires IsWalk(mem[..], org, w) && Inside(mem[..], w)
    requires clone + |Items(mem[..], w)| <= mem.Length && Clear(w, clone, |Items(mem[..], w)|)
    modifies mem
    ensures Inside(old(mem[..]), w) && mem[..] == Overwritten(old(mem[..]), clone, Items(old(mem[..]), w))
  {
    ghost var m, items, done, v := mem[..], Items(mem[..], w), [], w;
    var more, state: nat, p: nat := true, org, clone;
    assert Copying(mem[..], m, clone, items, done, state, v);
    hide Copying;
    while more
      invariant p == clone + |done| && Copying(mem[..], m, clone, items, done, state, v) && (!more ==> done == items)
      decreases |v|, more
    {
      more, state, p, done, v := CopyNext(mem, state, p, m, clone, items, done, v);
    }
    assert Copying(mem[..], m, clone, items, items, state, v);
    CopyingDone(mem[..], m, clone, items, state, v);
  }

  lemma CopyingDone(now: Memory, m: Memory, clone: nat, items: seq<TagItem>, state: nat, v: seq<nat>)
    requires Copying(now, m, clone, items, items, state, v)
    ensures clone + |items| <= |m| && now == Overwritten(m, clone, items)
  {
  }

  lemma CopyingMore(now: Memory, m: Memory, clone: nat, items: seq<TagItem>, done: seq<TagItem>, v: seq<nat>,
                    state: nat, current: nat, next: nat, u: seq<nat>)
    requires Copying(now, m, clone, items, done, state, v)
    requires |u| <= |v| && u == v[|v| - |u|..] && current < |now| && IsWalk(now, next, u)
    requires Inside(now, v) && Inside(now, u) && Items(now, v) == [now[current]] + Items(now, u)
    ensures clone + |done| < |now|
    ensures Copying(now[clone + |done| := now[current]], m, clone, items, done + [now[current]], next, u)
  {
    OverwrittenClear(m, clone, done, |items|, state, v);
    ClearTail(v, clone, |items|, |v| - |u|);
    hide IsWalk, Inside, Items, Clear, Overwritten;
    Regroup(done, [now[current]], Items(now, u));
    ClearBack(now, m, clone, done, |items|, next, u);
    OverwrittenMore(m, clone, done, now[current]);
  }

  lemma CopyingWalk(now: Memory, m: Memory, clone: nat, items: seq<TagItem>, done: seq<TagItem>,
                    state: nat, v: seq<nat>)
    requires Copying(now, m, clone, items, done, state, v)
    ensures IsWalk(now, state, v) && Inside(now, v) && items == done + Items(now, v)
  {
    OverwrittenClear(m, clone, done, |items|, state, v);
  }

  /** One pass: `*clone = *current; clone++`. */
  method CopyNext(mem: array<TagItem>, state: nat, p: nat, ghost m: Memory, ghost clone: nat, ghost items: seq<TagItem>,
                  ghost done: seq<TagItem>, ghost v: seq<nat>)
    returns (more: bool, state': nat, p': nat, ghost done': seq<TagItem>, ghost v': seq<nat>)
    requires p == clone + |done| && Copying(mem[..], m, clone, items, done, state, v)
    modifies mem
    ensures p' == clone + |done'| && Copying(mem[..], m, clone, items, done', state', v')
    ensures if more then |v'| < |v| else v' == v && done' == items
  {
    CopyingWalk(mem[..], m, clone, items, done, state, v);
    hide IsWalk, Inside, Items, Copying;
    var current;
    current, state', v' := NextTagItem(mem[..], state, v);
    if current == 0 {
      assert done + [] == done;
      return false, state, p, done, v;
    }
    ghost var now := mem[..];
    CopyingMore(now, m, clone, items, done, v, state, current, state', v');
    done' := done + [mem[current]];
    mem[p] := mem[current];
    assert mem[..] == now[p := now[current]];
    more, p' := true, p + 1;
  }

  /** Whatever the copies are followed by decides what a refreshed clone means: it means what the
      original means exactly if the list that follows them is empty. */
  lemma RefreshedMeansSame(m: Memory, clone: nat, n: nat, rest: seq<nat>)
    requires 0 < clone && clone + n <= |m| && AllOrdinary(m[clone..clone + n]) && IsWalk(m, clone + n, rest)
    ensures var w := Range(clone, n) + rest;
            && IsWalk(m, clone, w) && Inside(m, w) && Inside(m, rest)
            && (Items(m, w) == m[clone..clone + n] <==> Items(m, rest) == [])
  {
    ArrayWalk(m, clone, n, rest);
    hide *;
    assert |m[clone..clone + n] + Items(m, rest)| == n + |Items(m, rest)|;
    assert m[clone..clone + n] + [] == m[clone..clone + n];
  }

  function Cleared(n: nat): (items: seq<TagItem>)
    ensures |items| == n && forall i :: 0 <= i < n ==> items[i] == TagItem(0, 0)
  {
    seq(n, _ => TagItem(0, 0))
  }

  /** AllocateTagItems: memory from `room` on is free, and AllocVec clears what it hands out. */
  method AllocateTagItems(mem: array<TagItem>, room: nat, num: nat) returns (tags: nat)
    requires room > 0
    modifies mem
    ensures tags == if num > 0 && room + num <= mem.Length then room else 0
    ensures mem[..] == if tags == 0 then old(mem[..]) else Overwritten(old(mem[..]), room, Cleared(num))
  {
    if num == 0 || room + num > mem.Length { return 0; }
    forall i | room <= i < room + num {
      mem[i] := TagItem(0, 0);
    }
    tags := room;
  }

  method CountItems(m: Memory, org: nat, ghost w: seq<nat>) returns (numTags: nat)
    requires IsWalk(m, org, w)
    ensures Inside(m, w) && numTags == |Items(m, w)| + 1
  {
    WalkInside(m, org, w);
    numTags := 1;
    if org == 0 { return; }
    var state := org;
    ghost var v := w;
    while true
      invariant IsWalk(m, state, v) && Inside(m, v) && numTags + |Items(m, v)| == |Items(m, w)| + 1
      decreases |v|
    {
      var item;
      item, state, v := NextTagItem(m, state, v);
      if item == 0 { return; }
      numTags := numTags + 1;
    }
  }

  /** From `base` on lie the items of a list, and a TAG_DONE behind them. */
  ghost predicate IsClone(k: Memory, base: nat, items: seq<TagItem>) {
    var v := Range(base, |items|) + [base + |items|];
    IsWalk(k, base, v) && Inside(k, v) && Items(k, v) == items
  }

  /** The items over the cleared memory are a list, with one cleared item behind them. */
  lemma ClonedList(m: Memory, room: nat, items: seq<TagItem>)
    requires 0 < room && room + |items| + 1 <= |m| && AllOrdinary(items)
    ensures IsClone(Overwritten(m, room, items + Cleared(1)), room, items)
  {
    var k, n := Overwritten(m, room, items + Cleared(1)), |items|;
    assert k[room..room + n] == items && k[room + n] == TagItem(0, 0);
    hide Overwritten;
    assert IsWalk(k, room + n, [room + n]);
    ArrayWalk(k, room, n, [room + n]);
    assert Items(k, [room + n]) == [];
    hide *;
    assert items + [] == items;
  }

  lemma ClearedFirst(m: Memory, room: nat, items: seq<TagItem>)
    requires room + |items| + 1 <= |m|
    ensures Overwritten(Overwritten(m, room, Cleared(|items| + 1)), room, items)
         == Overwritten(m, room, items + Cleared(1))
  {
  }

  lemma BelowIsClear(w: seq<nat>, room: nat, n: nat)
    requires forall i :: 0 <= i < |w| ==> w[i] < room
    ensures Clear(w, room, n)
  {
  }

  /** CloneTagItems: null if there is no room; otherwise a list with the same items, which ends
      because one item more than was counted has been allocated and cleared. */
  method CloneTagItems(mem: array<TagItem>, org: nat, room: nat, ghost w: seq<nat>) returns (newList: nat)
    requires room > 0 && IsWalk(mem[..], org, w) && forall i :: 0 <= i < |w| ==> w[i] < room
    modifies mem
    ensures Inside(old(mem[..]), w)
    ensures var items := Items(old(mem[..]), w);
            if room + |items| + 1 > mem.Length then newList == 0 && mem[..] == old(mem[..])
            else
              && newList == room
              && mem[..] == Overwritten(old(mem[..]), room, items + Cleared(1))
              && IsClone(mem[..], newList, items)
  {
    WalkInside(mem[..], org, w);
    ItemsOrdinary(mem[..], w);
    ghost var m := mem[..];
    ghost var items := Items(m, w);
    assert org == 0 ==> items == [];
    BelowIsClear(w, room, |items|);
    BelowIsClear(w, room, |items| + 1);
    hide *;
    var numTags := CountItems(mem[..], org, w);
    newList := AllocateTagItems(mem, room, numTags);
    if newList != 0 {
      OverwrittenClear(m, room, Cleared(numTags), numTags, org, w);
      ClonedList(m, room, items);
      ClearedFirst(m, room, items);
      ghost var k := mem[..];
      RefreshTagItemClones(mem, newList, org, w);
      NullClone(m, room, k);
    }
  }

  lemma NullClone(m: Memory, room: nat, k: Memory)
    requires room < |m|
    ensures k == Overwritten(m, room, Cleared(1)) ==>
              |k| == |m| && k[room := TagItem(TAG_DONE, k[room].data)] == Overwritten(m, room, [] + Cleared(1))
  {
  }

  // ----- filtering

  const TAGFILTER_AND: U32 := 0
  const TAGFILTER_NOT: U32 := 1

  /** The tags of an array that TAG_DONE ends. */
  function ArrayTags(a: seq<U32>): (ts: seq<U32>)
    ensures |ts| <= |a| && ts == a[..|ts|] && TAG_DONE !in ts && (|ts| < |a| ==> a[|ts|] == TAG_DONE)
  {
    if a == [] || a[0] == TAG_DONE then [] else [a[0]] + ArrayTags(a[1..])
  }

  method TagInArray(tagValue: U32, tagArray: seq<U32>) returns (found: bool)
    requires TAG_DONE in tagArray
    ensures found <==> tagValue in ArrayTags(tagArray)
  {
    var i := 0;
    while tagArray[i] != TAG_DONE
      invariant 0 <= i < |tagArray| && TAG_DONE in tagArray[i..]
      invariant tagValue in ArrayTags(tagArray) <==> tagValue in ArrayTags(tagArray[i..])
      decreases |tagArray| - i
    {
      assert tagArray[i..] == [tagArray[i]] + tagArray[i + 1..];
      if tagArray[i] == tagValue { return true; }
      i := i + 1;
    }
    return false;
  }

  /** Does the filter leave an item with this tag?  A `logic` that is neither changes nothing. */
  predicate Keeps(tag: U32, tags: seq<U32>, logic: U32) {
    if logic == TAGFILTER_AND then tag in tags else if logic == TAGFILTER_NOT then tag !in tags else true
  }

  function Selected(items: seq<TagItem>, tags: seq<U32>, logic: U32): seq<TagItem> {
    if items == [] then []
    else (if Keeps(items[0].tag, tags, logic) then [items[0]] else []) + Selected(items[1..], tags, logic)
  }

  /** The two filters share out the items of a list: one leaves exactly those whose tag is in the array,
      the other one exactly the rest. */
  lemma {:induction false} FiltersSplit(items: seq<TagItem>, tags: seq<U32>)
    ensures var yes, no := Selected(items, tags, TAGFILTER_AND), Selected(items, tags, TAGFILTER_NOT);
            && (forall item <- yes :: item.tag in tags) && (forall item <- no :: item.tag !in tags)
            && multiset(yes) + multiset(no) == multiset(items)
  {
    if items != [] {
      FiltersSplit(items[1..], tags);
      assert items == [items[0]] + items[1..];
    }
  }

  function Sieved(item: TagItem, tags: seq<U32>, logic: U32): TagItem {
    if Ordinary(item.tag) && !Keeps(item.tag, tags, logic) then item.(tag := TAG_IGNORE) else item
  }

  /** Memory when the items at the addresses `w` have been through the filter. */
  function Sieve(m: Memory, w: seq<nat>, tags: seq<U32>, logic: U32): (k: Memory)
    ensures |k| == |m|
    ensures forall i :: 0 <= i < |m| ==> k[i] == if i in w then Sieved(m[i], tags, logic) else m[i]
  {
    seq(|m|, i requires 0 <= i < |m| => if i in w then Sieved(m[i], tags, logic) else m[i])
  }

  /** Filtering leaves the way through the list as it is, and of the items exactly those selected. */
  lemma {:induction false} SievedList(m: Memory, w: seq<nat>, tags: seq<U32>, logic: U32, p: nat, v: seq<nat>)
    requires IsWalk(m, p, v) && forall i :: 0 <= i < |v| ==> v[i] in w
    ensures var k := Sieve(m, w, tags, logic);
            && IsWalk(k, p, v) && Inside(m, v) && Inside(k, v)
            && Items(k, v) == Selected(Items(m, v), tags, logic)
    decreases |v|
  {
    WalkInside(m, p, v);
    if v != [] {
      var k := Sieve(m, w, tags, logic);
      assert v[0] in w && k[p] == Sieved(m[p], tags, logic);
      if m[p].tag == TAG_DONE {
        assert v[1..] == [];
      } else {
        assert Succ(k, p) == Succ(m, p);
        SievedList(m, w, tags, logic, Succ(m, p), v[1..]);
        SelectedStep(m, v, tags, logic);
      }
    }
  }

  lemma SelectedStep(m: Memory, v: seq<nat>, tags: seq<U32>, logic: U32)
    requires v != [] && Inside(m, v)
    ensures Selected(Items(m, v), tags, logic)
         == (if Ordinary(m[v[0]].tag) && Keeps(m[v[0]].tag, tags, logic) then [m[v[0]]] else [])
            + Selected(Items(m, v[1..]), tags, logic)
  {
    if Ordinary(m[v[0]].tag) {
      assert Items(m, v)[0] == m[v[0]] && Items(m, v)[1..] == Items(m, v[1..]);
    } else {
      assert Items(m, v) == Items(m, v[1..]);
    }
  }

  /** The filter has got through `done`, `v` is left; `kept` items passed. */
  ghost predicate Filtering(now: Memory, m: Memory, list: nat, w: seq<nat>, tags: seq<U32>, logic: U32, done: seq<nat>,
                            state: nat, v: seq<nat>, kept: nat) {
    && IsWalk(m, list, w) && IsWalk(m, state, v) && w == done + v && Inside(m, done) && Inside(m, v)
    && now == Sieve(m, done, tags, logic) && kept == |Selected(Items(m, done), tags, logic)|
  }

  /** What is left of the list has not been touched, since no address occurs twice. */
  lemma FilteringWalk(now: Memory, m: Memory, list: nat, w: seq<nat>, tags: seq<U32>, logic: U32, done: seq<nat>,
                      state: nat, v: seq<nat>, kept: nat)
    requires Filtering(now, m, list, w, tags, logic, done, state, v, kept)
    ensures IsWalk(now, state, v) && Inside(now, v) && Inside(m, v) && Items(now, v) == Items(m, v)
    ensures forall i :: 0 <= i < |v| ==> now[v[i]] == m[v[i]]
    ensures |now| == |m|
  {
    forall i | 0 <= i < |v| ensures v[i] !in done {
      forall j | 0 <= j < |done| ensures done[j] != v[i] {
        WalkDistinct(m, list, w, j, |done| + i);
      }
    }
    WalkFrame(m, now, state, v);
  }

  lemma {:induction false} SelectedConcat(a: seq<TagItem>, b: seq<TagItem>, tags: seq<U32>, logic: U32)
    ensures Selected(a + b, tags, logic) == Selected(a, tags, logic) + Selected(b, tags, logic)
    decreases |a|
  {
    if a == [] {
      assert a + b == b;
    } else {
      SelectedConcat(a[1..], b, tags, logic);
      assert (a + b)[0] == a[0] && (a + b)[1..] == a[1..] + b;
      var first := if Keeps(a[0].tag, tags, logic) then [a[0]] else [];
      Regroup(first, Selected(a[1..], tags, logic), Selected(b, tags, logic));
    }
  }

  lemma SieveMore(m: Memory, done: seq<nat>, v: seq<nat>, k: nat, tags: seq<U32>, logic: U32)
    requires k < |v| && v[k] < |m| && forall i :: 0 <= i < k && v[i] < |m| ==> !Ordinary(m[v[i]].tag)
    ensures Sieve(m, done, tags, logic)[v[k] := Sieved(m[v[k]], tags, logic)]
         == Sieve(m, done + v[..k + 1], tags, logic)
  {
    var x, y := Sieve(m, done, tags, logic)[v[k] := Sieved(m[v[k]], tags, logic)],
                Sieve(m, done + v[..k + 1], tags, logic);
    assert v[k] == v[..k + 1][k];
    hide Sieved, Ordinary;
    forall i | 0 <= i < |m| && i != v[k] ensures x[i] == y[i] {
      SieveAt(m, done, v, k, tags, logic, i);
    }
  }

  lemma SieveAt(m: Memory, done: seq<nat>, v: seq<nat>, k: nat, tags: seq<U32>, logic: U32, a: nat)
    requires k < |v| && a < |m| && a != v[k] && forall i :: 0 <= i < k && v[i] < |m| ==> !Ordinary(m[v[i]].tag)
    ensures a in done + v[..k + 1] ==> a in done || Sieved(m[a], tags, logic) == m[a]
  {
    var more := v[..k + 1];
    ControlStays(m[a], tags, logic);
    hide Sieved, Ordinary;
    if a in more {
      var j :| 0 <= j < |more| && more[j] == a;
      assert v[j] == a;
    }
  }

  lemma ControlStays(item: TagItem, tags: seq<U32>, logic: U32)
    ensures !Ordinary(item.tag) ==> Sieved(item, tags, logic) == item
  {
  }

  lemma {:induction false} OneItem(m: Memory, v: seq<nat>, k: nat)
    requires k < |v| && Inside(m, v[..k + 1]) && Ordinary(m[v[..k + 1][k]].tag)
    requires forall i :: 0 <= i < k && v[i] < |m| ==> !Ordinary(m[v[i]].tag)
    ensures Items(m, v[..k + 1]) == [m[v[k]]]
    decreases k
  {
    var more := v[..k + 1];
    assert 0 < more[0] < |m| && more[0] == v[0];
    if k == 0 {
      assert more == [v[0]];
      ItemAlone(m, v[0]);
    } else {
      assert more[1..] == v[1..][..k];
      OneItem(m, v[1..], k - 1);
    }
  }

  lemma ItemAlone(m: Memory, a: nat)
    requires 0 < a < |m| && Ordinary(m[a].tag)
    ensures Inside(m, [a]) && Items(m, [a]) == [m[a]]
  {
    assert [a][1..] == [];
  }

  lemma WalkBehind(m: Memory, now: Memory, list: nat, w: seq<nat>, next: nat, i: nat)
    requires IsWalk(m, list, w) && i <= |w| && IsWalk(now, next, w[i..])
    ensures IsWalk(m, next, w[i..])
  {
    if i < |w| { WalkTail(m, list, w, i); }
  }

  lemma ThreeParts(m: Memory, w: seq<nat>, done: seq<nat>, v: seq<nat>, k: nat)
    requires Inside(m, done) && Inside(m, v) && w == done + v && k <= |v|
    ensures Inside(m, v[..k]) && Inside(m, v[k..]) && Inside(m, done + v[..k])
    ensures w == done + v[..k] + v[k..] && |w| == |done| + |v| && w[|done| + k..] == v[k..]
  {
  }

  /** Passing control items only changes nothing; the next ordinary item is sieved. */
  lemma FilteringMore(now: Memory, m: Memory, list: nat, w: seq<nat>, tags: seq<U32>, logic: U32, done: seq<nat>,
                      state: nat, v: seq<nat>, kept: nat, k: nat, next: nat)
    requires Filtering(now, m, list, w, tags, logic, done, state, v, kept)
    requires k < |v| && v[k] < |m| && IsWalk(now, next, v[k + 1..]) && Ordinary(m[v[k]].tag)
    requires forall i :: 0 <= i < k && v[i] < |m| ==> !Ordinary(m[v[i]].tag)
    ensures Filtering(now[v[k] := Sieved(m[v[k]], tags, logic)], m, list, w, tags, logic, done + v[..k + 1],
                      next, v[k + 1..], kept + (if Keeps(m[v[k]].tag, tags, logic) then 1 else 0))
  {
    var more, rest, i := v[..k + 1], v[k + 1..], |done| + k + 1;
    ThreeParts(m, w, done, v, k + 1);
    WalkBehind(m, now, list, w, next, i);
    hide IsWalk;
    SieveMore(m, done, v, k, tags, logic);
    hide Sieve;
    ItemsConcat(m, done, more);
    hide Inside;
    OneItem(m, v, k);
    var x := m[v[k]];
    SelectedConcat(Items(m, done), [x], tags, logic);
    assert |Selected([x], tags, logic)| == if Keeps(x.tag, tags, logic) then 1 else 0;
  }

  lemma FilteringStep(now: Memory, m: Memory, list: nat, w: seq<nat>, tags: seq<U32>, logic: U32, done: seq<nat>,
                      state: nat, v: seq<nat>, kept: nat, ti: nat, next: nat)
    requires Filtering(now, m, list, w, tags, logic, done, state, v, kept) && Inside(now, v)
    requires var k := FirstOrdinary(now, v); k < |v| && ti == v[k] && IsWalk(now, next, v[k + 1..])
    ensures var k := FirstOrdinary(now, v);
            && ti < |now| == |m| && now[ti] == m[ti] && Ordinary(m[ti].tag) && Inside(m, v[k + 1..])
            && Filtering(now[ti := Sieved(m[ti], tags, logic)], m, list, w, tags, logic, done + v[..k + 1],
                         next, v[k + 1..], kept + (if Keeps(m[ti].tag, tags, logic) then 1 else 0))
  {
    var k := FirstOrdinary(now, v);
    FilteringWalk(now, m, list, w, tags, logic, done, state, v, kept);
    assert now[v[k]] == m[v[k]];
    FilteringMore(now, m, list, w, tags, logic, done, state, v, kept, k, next);
    hide IsWalk, Items, FirstOrdinary, Ordinary, Keeps, Sieved;
  }

  /** With no ordinary item left the list is filtered. */
  lemma FilteringDone(now: Memory, m: Memory, list: nat, w: seq<nat>, tags: seq<U32>, logic: U32, done: seq<nat>,
                      state: nat, v: seq<nat>, kept: nat)
    requires Filtering(now, m, list, w, tags, logic, done, state, v, kept) && Items(m, v) == []
    ensures IsWalk(now, list, w) && Inside(now, w) && Inside(m, w)
    ensures Items(now, w) == Selected(Items(m, w), tags, logic) && kept == |Items(now, w)|
    ensures now == Sieve(m, w, tags, logic)
  {
    ItemsConcat(m, done, v);
    assert Items(m, done) + [] == Items(m, done);
    NothingSieved(m, v, tags, logic);
    assert now == Sieve(m, w, tags, logic);
    SievedList(m, w, tags, logic, list, w);
  }

  lemma {:induction false} NothingSieved(m: Memory, v: seq<nat>, tags: seq<U32>, logic: U32)
    requires Inside(m, v) && Items(m, v) == []
    ensures forall a :: a in v && a < |m| ==> Sieved(m[a], tags, logic) == m[a]
    decreases |v|
  {
    if v != [] {
      NothingSieved(m, v[1..], tags, logic);
      assert v == [v[0]] + v[1..];
    }
  }

  /** FilterTagItems: what the filter rejects is marked TAG_IGNORE in place. */
  method FilterTagItems(mem: array<TagItem>, list: nat, filterArray: Option<seq<U32>>, logic: U32, ghost w: seq<nat>)
    returns (valid: nat)
    requires IsWalk(mem[..], list, w) && Inside(mem[..], w) && (filterArray.Some? ==> TAG_DONE in filterArray.value)
    modifies mem
    ensures Inside(old(mem[..]), w)
    ensures if list == 0 || filterArray.None? then valid == 0 && mem[..] == old(mem[..])
            else
              var tags := ArrayTags(filterArray.value);
              && mem[..] == Sieve(old(mem[..]), w, tags, logic)
              && IsWalk(mem[..], list, w) && Inside(mem[..], w)
              && Items(mem[..], w) == Selected(Items(old(mem[..]), w), tags, logic)
              && valid == if logic == TAGFILTER_AND || logic == TAGFILTER_NOT then |Items(mem[..], w)| else 0
  {
    valid := 0;
    if list != 0 && filterArray.Some? {
      ghost var m, tags := mem[..], ArrayTags(filterArray.value);
      StartFiltering(m, list, w, tags, logic);
      hide *;
      ghost var done: seq<nat>, v, kept: nat := [], w, 0;
      var more, state: nat := true, list;
      while more
        invariant Filtering(mem[..], m, list, w, tags, logic, done, state, v, kept) && Inside(m, v)
        invariant !more ==> Items(m, v) == []
        invariant valid == if logic == TAGFILTER_AND || logic == TAGFILTER_NOT then kept else 0
        decreases |v|, more
      {
        more, valid, state, done, v, kept :=
          FilterNext(mem, filterArray.value, logic, valid, state, m, list, w, done, v, kept);
      }
      FilteringDone(mem[..], m, list, w, tags, logic, done, state, v, kept);
    }
  }

  lemma StartFiltering(m: Memory, list: nat, w: seq<nat>, tags: seq<U32>, logic: U32)
    requires IsWalk(m, list, w)
    ensures Filtering(m, m, list, w, tags, logic, [], list, w, 0) && Inside(m, w)
  {
    WalkInside(m, list, w);
    assert Sieve(m, [], tags, logic) == m && [] + w == w;
  }

  lemma FilterDecides(item: TagItem, tags: seq<U32>, logic: U32)
    requires Ordinary(item.tag)
    ensures Keeps(item.tag, tags, logic) <==>
              (logic == TAGFILTER_AND ==> item.tag in tags) && (logic == TAGFILTER_NOT ==> item.tag !in tags)
    ensures Sieved(item, tags, logic) == if Keeps(item.tag, tags, logic) then item else item.(tag := TAG_IGNORE)
  {
  }

  /** One pass of its loop. */
  method FilterNext(mem: array<TagItem>, filterArray: seq<U32>, logic: U32, valid: nat, state: nat, ghost m: Memory,
                    ghost list: nat, ghost w: seq<nat>, ghost done: seq<nat>, ghost v: seq<nat>, ghost kept: nat)
    returns (more: bool, valid': nat, state': nat, ghost done': seq<nat>, ghost v': seq<nat>, ghost kept': nat)
    requires TAG_DONE in filterArray
    requires Filtering(mem[..], m, list, w, ArrayTags(filterArray), logic, done, state, v, kept)
    requires valid == if logic == TAGFILTER_AND || logic == TAGFILTER_NOT then kept else 0
    modifies mem
    ensures Filtering(mem[..], m, list, w, ArrayTags(filterArray), logic, done', state', v', kept') && Inside(m, v')
    ensures valid' == if logic == TAGFILTER_AND || logic == TAGFILTER_NOT then kept' else 0
    ensures if more then |v'| < |v| else v' == v && Items(m, v') == []
  {
    ghost var now, tags := mem[..], ArrayTags(filterArray);
    FilteringWalk(now, m, list, w, tags, logic, done, state, v, kept);
    ghost var k := FirstOrdinary(now, v);
    hide *;
    var ti;
    ti, state', v' := NextTagItem(mem[..], state, v);
    if ti == 0 { return false, valid, state, done, v, kept; }
    FilteringStep(now, m, list, w, tags, logic, done, state, v, kept, ti, state');
    more, done' := true, done + v[..k + 1];
    kept' := kept + (if Keeps(m[ti].tag, tags, logic) then 1 else 0);
    valid' := FilterItem(mem, ti, filterArray, logic, valid);
  }

  /** The test on one item. */
  method FilterItem(mem: array<TagItem>, ti: nat, filterArray: seq<U32>, logic: U32, valid: nat) returns (valid': nat)
    requires ti < mem.Length && TAG_DONE in filterArray && Ordinary(mem[ti].tag)
    modifies mem
    ensures var tags := ArrayTags(filterArray);
            && mem[..] == old(mem[..])[ti := Sieved(old(mem[ti]), tags, logic)]
            && valid' == valid + if (logic == TAGFILTER_AND || logic == TAGFILTER_NOT)
                                    && Keeps(old(mem[ti].tag), tags, logic) then 1 else 0
  {
    valid' := valid;
    FilterDecides(mem[ti], ArrayTags(filterArray), logic);
    hide Ordinary, Keeps, Sieved, ArrayTags;
    var found := TagInArray(mem[ti].tag, filterArray);
    if logic == TAGFILTER_AND {
      if found { valid' := valid' + 1; } else { mem[ti] := mem[ti].(tag := TAG_IGNORE); }
    } else if logic == TAGFILTER_NOT {
      if found { mem[ti] := mem[ti].(tag := TAG_IGNORE); } else { valid' := valid' + 1; }
    }
  }
}
