/** Which tag lists have an end: exactly the acyclic ones that stay inside memory. */
module TagCycles {
  import opened Lists
  import opened Tags

  /** `v` follows the list from `p` for a while; all but the last of its addresses hold items
      behind which the list goes on. */
  ghost predicate IsWay(m: Memory, p: nat, v: seq<nat>)
    decreases |v|
  {
    v != [] && v[0] == p
    && (|v| == 1 || (0 < p < |m| && m[p].tag != TAG_DONE && IsWay(m, Succ(m, p), v[1..])))
  }

  /** However far one follows the list, one stays inside memory and never comes back. */
  ghost predicate Acyclic(m: Memory, p: nat) {
    forall v: seq<nat> :: IsWay(m, p, v) ==> Distinct(v) && (v[|v| - 1] == 0 || v[|v| - 1] < |m|)
  }

  lemma {:induction false} WayFurther(m: Memory, p: nat, v: seq<nat>)
    requires IsWay(m, p, v) && 0 < v[|v| - 1] < |m| && m[v[|v| - 1]].tag != TAG_DONE
    ensures IsWay(m, p, v + [Succ(m, v[|v| - 1])])
    decreases |v|
  {
    var more := v + [Succ(m, v[|v| - 1])];
    if |v| == 1 {
      assert more[1..] == [Succ(m, p)];
    } else {
      WayFurther(m, Succ(m, p), v[1..]);
      assert more[1..] == v[1..] + [Succ(m, v[|v| - 1])];
    }
  }

  lemma {:induction false} WayToTheEnd(m: Memory, p: nat, v: seq<nat>)
    requires IsWay(m, p, v)
    ensures v[|v| - 1] == 0 ==> IsWalk(m, p, v[..|v| - 1])
    ensures 0 < v[|v| - 1] < |m| && m[v[|v| - 1]].tag == TAG_DONE ==> IsWalk(m, p, v)
    decreases |v|
  {
    if |v| > 1 {
      WayToTheEnd(m, Succ(m, p), v[1..]);
      assert v[..|v| - 1][1..] == v[1..][..|v| - 2];
    }
  }

  /** Distinct numbers below `n` are at most `n`. */
  lemma {:induction false} Pigeonhole(v: seq<nat>, n: nat)
    requires Distinct(v) && forall i :: 0 <= i < |v| ==> v[i] < n
    ensures |v| <= n
    decreases n
  {
    if v != [] {
      assert v[0] < n;
      if n - 1 in v {
        var k :| 0 <= k < |v| && v[k] == n - 1;
        var rest := v[..k] + v[k + 1..];
        assert forall i :: 0 <= i < |rest| ==> rest[i] == v[if i < k then i else i + 1];
        Pigeonhole(rest, n - 1);
      } else {
        Pigeonhole(v, n - 1);
      }
    }
  }

  lemma {:induction false} WayInside(m: Memory, p: nat, v: seq<nat>, i: nat)
    requires IsWay(m, p, v) && i < |v| - 1
    ensures 0 < v[i] < |m|
    decreases i
  {
    if i > 0 { WayInside(m, Succ(m, p), v[1..], i - 1); }
  }

  lemma WayIsShort(m: Memory, p: nat, v: seq<nat>)
    requires Acyclic(m, p) && IsWay(m, p, v)
    ensures |v| <= |m| + 1
  {
    forall i | 0 <= i < |v| ensures v[i] < |m| + 1 {
      if i < |v| - 1 { WayInside(m, p, v, i); }
    }
    Pigeonhole(v, |m| + 1);
  }

  lemma {:induction false} WalkFromWay(m: Memory, p: nat, v: seq<nat>) returns (w: seq<nat>)
    requires Acyclic(m, p) && IsWay(m, p, v)
    ensures IsWalk(m, p, w)
    decreases |m| + 1 - |v|
  {
    var q := v[|v| - 1];
    WayIsShort(m, p, v);
    WayToTheEnd(m, p, v);
    if q == 0 {
      w := v[..|v| - 1];
    } else if m[q].tag == TAG_DONE {
      w := v;
    } else {
      WayFurther(m, p, v);
      WayIsShort(m, p, v + [Succ(m, q)]);
      w := WalkFromWay(m, p, v + [Succ(m, q)]);
    }
  }

  /** A list with an end is followed by no other ways than the beginnings of the one to its end. */
  lemma {:induction false} WayAlongWalk(m: Memory, p: nat, w: seq<nat>, v: seq<nat>)
    requires IsWalk(m, p, w) && IsWay(m, p, v)
    ensures v <= w || v == w + [0]
    decreases |v|
  {
    if w == [] {
      assert v == [0];
    } else if |v| == 1 {
      assert v == w[..1];
    } else {
      WayAlongWalk(m, Succ(m, p), w[1..], v[1..]);
      assert v == [p] + v[1..] && w == [p] + w[1..];
    }
  }

  ghost predicate Ends(m: Memory, p: nat) { exists w :: IsWalk(m, p, w) }

  lemma WalkEnds(m: Memory, p: nat, w: seq<nat>)
    requires IsWalk(m, p, w)
    ensures Ends(m, p)
  {
  }

  lemma EndsAcyclic(m: Memory, p: nat)
    requires Ends(m, p)
    ensures Acyclic(m, p)
  {
    var w :| IsWalk(m, p, w);
    WalkInside(m, p, w);
    forall v: seq<nat> | IsWay(m, p, v) ensures Distinct(v) && (v[|v| - 1] == 0 || v[|v| - 1] < |m|) {
      WayAlongWalk(m, p, w, v);
      forall i, j | 0 <= i < j < |v| ensures v[i] != v[j] {
        if j < |w| { WalkDistinct(m, p, w, i, j); }
      }
    }
  }

  /** NextTagItem comes to the end of a list if and only if the list is acyclic. */
  lemma AcyclicIffEnds(m: Memory, p: nat)
    ensures Acyclic(m, p) <==> Ends(m, p)
  {
    hide Acyclic, Ends;
    if Acyclic(m, p) {
      var w := WalkFromWay(m, p, [p]);
      WalkEnds(m, p, w);
    } else if Ends(m, p) {
      EndsAcyclic(m, p);
    }
  }
}
