/** Finite transition systems as the symbolic algorithms see them.

    A decision diagram is a finite set of states and a homomorphism is a finite relation on states.
    A relation is a set of labelled edges; an unlabelled one (`Rel`) carries the unit label.
    The module gives walks, image and pre-image, reachability closure, and the two finiteness
    arguments the cycle searches rest on: a well-foundedness argument on finite transitive relations
    and the pigeonhole principle. */
module Graphs {

  datatype Edge<+S, +L> = Edge(src: S, lab: L, dst: S)

  type Rel<S(==)> = set<Edge<S, ()>>

  function Pair<S>(x: S, y: S): Edge<S, ()> {
    Edge(x, (), y)
  }

  /** Image of a set of states. */
  function Post<S(==), L(==)>(g: set<Edge<S, L>>, xs: set<S>): set<S> {
    set e | e in g && e.src in xs :: e.dst
  }

  /** Pre-image of a set of states. */
  function Pre<S(==), L(==)>(g: set<Edge<S, L>>, ys: set<S>): set<S> {
    set e | e in g && e.dst in ys :: e.src
  }

  function Sources<S(==), L(==)>(g: set<Edge<S, L>>): set<S> {
    set e | e in g :: e.src
  }

  function Targets<S(==), L(==)>(g: set<Edge<S, L>>): set<S> {
    set e | e in g :: e.dst
  }

  /** `es` is a sequence of edges of `g` leading from `x` to `y`. */
  ghost predicate Walk<S, L>(g: set<Edge<S, L>>, x: S, es: seq<Edge<S, L>>, y: S) {
    if es == [] then x == y
    else es[0] in g && es[0].src == x && Walk(g, es[0].dst, es[1..], y)
  }

  ghost predicate Reach<S(!new), L(!new)>(g: set<Edge<S, L>>, x: S, y: S) {
    exists es :: Walk(g, x, es, y)
  }

  /** The states reachable from `xs`, `xs` included. */
  ghost function ReachSet<S(!new), L(!new)>(g: set<Edge<S, L>>, xs: set<S>): set<S> {
    set y | y in xs + Targets(g) && exists x :: x in xs && Reach(g, x, y)
  }

  ghost predicate Closed<S, L>(g: set<Edge<S, L>>, xs: set<S>) {
    forall e :: e in g && e.src in xs ==> e.dst in xs
  }

  // ---------------------------------------------------------------- walks

  lemma {:induction false} WalkConcat<S(!new), L(!new)>(g: set<Edge<S, L>>, x: S, es: seq<Edge<S, L>>, y: S,
                                            fs: seq<Edge<S, L>>, z: S)
    requires Walk(g, x, es, y) && Walk(g, y, fs, z)
    ensures Walk(g, x, es + fs, z)
  {
    if es == [] {
      assert es + fs == fs;
    } else {
      WalkConcat(g, es[0].dst, es[1..], y, fs, z);
      assert (es + fs)[1..] == es[1..] + fs;
    }
  }

  lemma {:induction false} WalkSplit<S(!new), L(!new)>(g: set<Edge<S, L>>, x: S, es: seq<Edge<S, L>>, y: S, k: nat) returns (m: S)
    requires Walk(g, x, es, y) && k <= |es|
    ensures Walk(g, x, es[..k], m) && Walk(g, m, es[k..], y)
    ensures k < |es| ==> es[k] in g && m == es[k].src
  {
    if k == 0 {
      m := x;
      assert es[0..] == es;
    } else {
      m := WalkSplit(g, es[0].dst, es[1..], y, k - 1);
      assert es[..k][1..] == es[1..][..k - 1];
      assert es[k..] == es[1..][k - 1..];
    }
  }

  lemma {:induction false} WalkStays<S(!new), L(!new)>(g: set<Edge<S, L>>, x: S, es: seq<Edge<S, L>>, y: S, xs: set<S>)
    requires Walk(g, x, es, y) && x in xs && Closed(g, xs)
    ensures y in xs
  {
    if es != [] {
      WalkStays(g, es[0].dst, es[1..], y, xs);
    }
  }

  lemma {:induction false} WalkMonotone<S(!new), L(!new)>(g: set<Edge<S, L>>, h: set<Edge<S, L>>, x: S, es: seq<Edge<S, L>>, y: S)
    requires Walk(g, x, es, y) && g <= h
    ensures Walk(h, x, es, y)
  {
    if es != [] {
      WalkMonotone(g, h, es[0].dst, es[1..], y);
    }
  }

  lemma WalkOne<S(!new), L(!new)>(g: set<Edge<S, L>>, e: Edge<S, L>)
    requires e in g
    ensures Walk(g, e.src, [e], e.dst)
  {
    assert [e][1..] == [];
    assert Walk(g, e.dst, [e][1..], e.dst);
  }

  lemma {:induction false} WalkEnd<S(!new), L(!new)>(g: set<Edge<S, L>>, x: S, es: seq<Edge<S, L>>, y: S)
    requires Walk(g, x, es, y)
    ensures forall e :: e in es ==> e in g
    ensures es != [] ==> y == es[|es| - 1].dst && y in Targets(g)
  {
    if es != [] {
      WalkEnd(g, es[0].dst, es[1..], y);
      if |es| == 1 { assert es[1..] == []; }
      forall e | e in es ensures e in g {
        if e != es[0] { assert e in es[1..]; }
      }
    }
  }

  lemma ReachRefl<S(!new), L(!new)>(g: set<Edge<S, L>>, x: S)
    ensures Reach(g, x, x)
  {
    assert Walk(g, x, [], x);
  }

  lemma ReachEdge<S(!new), L(!new)>(g: set<Edge<S, L>>, e: Edge<S, L>)
    requires e in g
    ensures Reach(g, e.src, e.dst)
  {
    WalkOne(g, e);
  }

  lemma ReachTrans<S(!new), L(!new)>(g: set<Edge<S, L>>, x: S, y: S, z: S)
    requires Reach(g, x, y) && Reach(g, y, z)
    ensures Reach(g, x, z)
  {
    var es :| Walk(g, x, es, y);
    var fs :| Walk(g, y, fs, z);
    WalkConcat(g, x, es, y, fs, z);
  }

  // ---------------------------------------------------------------- closure

  /** Reachability is the least closed superset. */
  lemma ReachSetLeast<S(!new), L(!new)>(g: set<Edge<S, L>>, xs: set<S>, ys: set<S>)
    requires xs <= ys && Closed(g, ys)
    ensures ReachSet(g, xs) <= ys
  {
    forall y | y in ReachSet(g, xs) ensures y in ys {
      var x :| x in xs && Reach(g, x, y);
      var es :| Walk(g, x, es, y);
      WalkStays(g, x, es, y, ys);
    }
  }

  lemma ReachSetHas<S(!new), L(!new)>(g: set<Edge<S, L>>, xs: set<S>, x: S, y: S)
    requires x in xs && Reach(g, x, y)
    ensures y in ReachSet(g, xs)
  {
    var es :| Walk(g, x, es, y);
    WalkEnd(g, x, es, y);
  }

  lemma ReachSetClosed<S(!new), L(!new)>(g: set<Edge<S, L>>, xs: set<S>)
    ensures xs <= ReachSet(g, xs) && Closed(g, ReachSet(g, xs))
  {
    forall x | x in xs ensures x in ReachSet(g, xs) {
      ReachRefl(g, x);
      ReachSetHas(g, xs, x, x);
    }
    forall e | e in g && e.src in ReachSet(g, xs) ensures e.dst in ReachSet(g, xs) {
      var x :| x in xs && Reach(g, x, e.src);
      ReachEdge(g, e);
      ReachTrans(g, x, e.src, e.dst);
      ReachSetHas(g, xs, x, e.dst);
    }
  }

  /** `fixpoint (g + id) (xs)`: add images until nothing changes. */
  method Closure<S(==, !new), L(==, !new)>(g: set<Edge<S, L>>, xs: set<S>) returns (ys: set<S>)
    ensures ys == ReachSet(g, xs)
  {
    ys := xs;
    ReachSetClosed(g, xs);
    var next := ys + Post(g, ys);
    while next != ys
      invariant xs <= ys <= ReachSet(g, xs)
      invariant next == ys + Post(g, ys)
      invariant next <= ReachSet(g, xs)
      decreases ReachSet(g, xs) - ys
    {
      ys := next;
      next := ys + Post(g, ys);
    }
    forall e | e in g && e.src in ys ensures e.dst in ys {
      assert e.dst in Post(g, ys);
    }
    ReachSetLeast(g, xs, ys);
  }

  /** `fixpoint (g) (xs)` on a set that its own image stays in: keep only images until nothing changes. */
  ghost predicate SelfSustained<S(!new), L(!new)>(g: set<Edge<S, L>>, xs: set<S>) {
    forall x {:trigger HasEdgeInto(g, xs, x)} :: x in xs ==> HasEdgeInto(g, xs, x)
  }

  ghost predicate HasEdgeInto<S(!new), L(!new)>(g: set<Edge<S, L>>, xs: set<S>, y: S) {
    exists e :: e in g && e.src in xs && e.dst == y
  }

  lemma PostHas<S(!new), L(!new)>(g: set<Edge<S, L>>, xs: set<S>, y: S) returns (e: Edge<S, L>)
    requires y in Post(g, xs)
    ensures e in g && e.src in xs && e.dst == y
  {
    e :| e in g && e.src in xs && e.dst == y;
  }

  lemma SelfSustainedPost<S(!new), L(!new)>(g: set<Edge<S, L>>, xs: set<S>, ys: set<S>)
    requires SelfSustained(g, xs) && xs <= ys
    ensures xs <= Post(g, ys)
  {
    forall x | x in xs ensures x in Post(g, ys) {
      assert HasEdgeInto(g, xs, x);
    }
  }

  /** The result is the greatest subset of `xs` each of whose states has a predecessor in it. */
  method GreatestImage<S(==, !new), L(==, !new)>(g: set<Edge<S, L>>, xs: set<S>) returns (ys: set<S>)
    requires Closed(g, xs)
    ensures ys <= xs && Closed(g, ys) && SelfSustained(g, ys)
    ensures forall zs :: zs <= xs && SelfSustained(g, zs) ==> zs <= ys
  {
    ys := xs;
    var next := Post(g, ys);
    while next != ys
      invariant ys <= xs && Closed(g, ys)
      invariant next == Post(g, ys) && next <= ys
      invariant forall zs :: zs <= xs && SelfSustained(g, zs) ==> zs <= ys
      decreases ys
    {
      forall e | e in g && e.src in next ensures e.dst in next {
        assert e.dst in Post(g, ys);
      }
      forall zs | zs <= xs && SelfSustained(g, zs) ensures zs <= next {
        SelfSustainedPost(g, zs, ys);
      }
      ys := next;
      next := Post(g, ys);
    }
    forall x | x in ys ensures HasEdgeInto(g, ys, x) {
      assert x in Post(g, ys);
    }
  }

  // ---------------------------------------------------------------- finiteness

  ghost function Below(n: nat): (r: set<nat>)
    ensures forall i: nat :: i in r <==> i < n
  {
    if n == 0 then {} else Below(n - 1) + {n - 1}
  }

  ghost predicate Transitive<S(!new)>(b: set<(S, S)>) {
    forall x, y, z :: (x, y) in b && (y, z) in b ==> (x, z) in b
  }

  ghost predicate HasBefore<S(!new)>(d: set<S>, b: set<(S, S)>, v: S) {
    exists u :: u in d && (u, v) in b
  }

  /** In a finite set where every element has a predecessor under a transitive relation, every
      element has a predecessor that is its own predecessor. */
  lemma {:induction false} BackwardLoop<S(!new)>(d: set<S>, b: set<(S, S)>, x: S) returns (c: S)
    requires Transitive(b)
    requires forall v {:trigger HasBefore(d, b, v)} :: v in d ==> HasBefore(d, b, v)
    requires x in d
    ensures c in d && (c, c) in b && (c, x) in b
    decreases d
  {
    if (x, x) in b {
      c := x;
    } else {
      var before := set u | u in d && (u, x) in b;
      assert HasBefore(d, b, x);
      var y :| y in d && (y, x) in b;
      forall v | v in before ensures HasBefore(before, b, v) {
        assert HasBefore(d, b, v);
        var u :| u in d && (u, v) in b;
        assert (u, x) in b;
        assert u in before;
      }
      assert x !in before;
      c := BackwardLoop(before, b, y);
    }
  }

  ghost predicate NonEmptyWalk<S(!new), L(!new)>(g: set<Edge<S, L>>, x: S, y: S) {
    exists es :: es != [] && Walk(g, x, es, y)
  }

  lemma NonEmptyWalkTrans<S(!new), L(!new)>(g: set<Edge<S, L>>, x: S, y: S, z: S)
    requires NonEmptyWalk(g, x, y) && NonEmptyWalk(g, y, z)
    ensures NonEmptyWalk(g, x, z)
  {
    var es :| es != [] && Walk(g, x, es, y);
    var fs :| fs != [] && Walk(g, y, fs, z);
    WalkConcat(g, x, es, y, fs, z);
    assert es + fs != [];
  }

  ghost function WalksWithin<S(!new), L(!new)>(g: set<Edge<S, L>>, xs: set<S>): set<(S, S)> {
    set u, v | u in xs && v in xs && NonEmptyWalk(g, u, v) :: (u, v)
  }

  lemma WalksWithinTransitive<S(!new), L(!new)>(g: set<Edge<S, L>>, xs: set<S>)
    ensures Transitive(WalksWithin(g, xs))
  {
    var b := WalksWithin(g, xs);
    forall u, v, w | (u, v) in b && (v, w) in b ensures (u, w) in b {
      NonEmptyWalkTrans(g, u, v, w);
    }
  }

  /** Every state of a finite self-sustained set follows a cycle through the set. */
  lemma SustainedLoop<S(!new), L(!new)>(g: set<Edge<S, L>>, xs: set<S>, x: S) returns (c: S)
    requires SelfSustained(g, xs) && x in xs
    ensures c in xs && NonEmptyWalk(g, c, c) && NonEmptyWalk(g, c, x)
  {
    var b := WalksWithin(g, xs);
    WalksWithinTransitive(g, xs);
    forall v | v in xs ensures HasBefore(xs, b, v) {
      assert HasEdgeInto(g, xs, v);
      var t :| t in g && t.src in xs && t.dst == v;
      WalkOne(g, t);
      assert (t.src, v) in b;
    }
    c := BackwardLoop(xs, b, x);
  }

  /** Pigeonhole: a sequence over a finite set that is longer than the set repeats a value. */
  lemma {:induction false} Pigeonhole<T(!new)>(u: set<T>, s: seq<T>) returns (i: nat, j: nat)
    requires |s| > |u| && forall k :: 0 <= k < |s| ==> s[k] in u
    ensures i < j < |s| && s[i] == s[j]
    decreases |s|
  {
    var last := s[|s| - 1];
    if k :| 0 <= k < |s| - 1 && s[k] == last {
      i, j := k, |s| - 1;
    } else {
      assert last in u;
      i, j := Pigeonhole(u - {last}, s[..|s| - 1]);
    }
  }

  ghost predicate OccursFrom<T(!new)>(f: nat -> T, t: T, n: nat) {
    exists m: nat :: n <= m && f(m) == t
  }

  ghost predicate Recurs<T(!new)>(f: nat -> T, t: T) {
    forall n: nat :: OccursFrom(f, t, n)
  }

  /** Infinite pigeonhole: an infinite sequence over a finite set takes some value infinitely often. */
  lemma {:induction false} InfinitePigeonhole<T(!new)>(u: set<T>, f: nat -> T, from: nat) returns (t: T)
    requires forall n: nat :: n >= from ==> f(n) in u
    ensures t in u && Recurs(f, t)
    decreases u
  {
    t := f(from);
    if !Recurs(f, t) {
      var n: nat :| !OccursFrom(f, t, n);
      var later := if n >= from then n else from;
      t := InfinitePigeonhole(u - {t}, f, later);
    }
  }
}
