/** Minimal attacks of a set of 0/1 vectors held as a decision diagram (bin/Projector.hh).

    A diagram of height n has one level for each of n variables; an arc that is absent leads to `Null`. */
module Projector {

  datatype DD = Null | One | Node(lo: DD, hi: DD)

  /** Every path has `n` levels, and no node is empty. */
  predicate Shape(d: DD, n: nat)
    decreases n
  {
    match d
    case Null => true
    case One => n == 0
    case Node(lo, hi) => n > 0 && !(lo.Null? && hi.Null?) && Shape(lo, n - 1) && Shape(hi, n - 1)
  }

  /** The vector is a path of the diagram. */
  ghost predicate In(v: seq<bool>, d: DD)
    decreases |v|
  {
    match d
    case Null => false
    case One => v == []
    case Node(lo, hi) => v != [] && if v[0] then In(v[1..], hi) else In(v[1..], lo)
  }

  // ---------------------------------------------------------------- diagram operations

  /** The node with these children; without children it is empty. */
  function Mk(lo: DD, hi: DD): (d: DD) {
    if lo.Null? && hi.Null? then Null else Node(lo, hi)
  }

  function Plus(a: DD, b: DD): (d: DD) {
    if a.Null? then b
    else if b.Null? then a
    else if a.Node? && b.Node? then Mk(Plus(a.lo, b.lo), Plus(a.hi, b.hi))
    else a
  }

  function Minus(a: DD, b: DD): (d: DD) {
    if a.Null? || b.Null? then a
    else if a.Node? && b.Node? then Mk(Minus(a.lo, b.lo), Minus(a.hi, b.hi))
    else Null
  }

  lemma {:induction false} PlusIs(a: DD, b: DD, n: nat, v: seq<bool>)
    requires Shape(a, n) && Shape(b, n)
    ensures Shape(Plus(a, b), n)
    ensures In(v, Plus(a, b)) <==> In(v, a) || In(v, b)
    decreases n
  {
    if a.Node? && b.Node? {
      var w := if v == [] then [] else v[1..];
      PlusIs(a.lo, b.lo, n - 1, w);
      PlusIs(a.hi, b.hi, n - 1, w);
    }
  }

  lemma {:induction false} MinusIs(a: DD, b: DD, n: nat, v: seq<bool>)
    requires Shape(a, n) && Shape(b, n)
    ensures Shape(Minus(a, b), n)
    ensures In(v, Minus(a, b)) <==> In(v, a) && !In(v, b)
    decreases n
  {
    if a.Node? && b.Node? {
      var w := if v == [] then [] else v[1..];
      MinusIs(a.lo, b.lo, n - 1, w);
      MinusIs(a.hi, b.hi, n - 1, w);
    }
  }

  // ---------------------------------------------------------------- upward closure

  /** `Extend`: on the value 0 both values continue, on 1 only 1. */
  function Extend(d: DD): (r: DD) {
    match d
    case Null => Null
    case One => One
    case Node(lo, hi) => Mk(Extend(lo), Plus(Extend(lo), Extend(hi)))
  }

  /** Every 1 of `v` is a 1 of `w`. */
  ghost predicate Leq(v: seq<bool>, w: seq<bool>) {
    |v| == |w| && forall i {:trigger v[i]} {:trigger w[i]} :: 0 <= i < |v| && v[i] ==> w[i]
  }

  ghost predicate Above(w: seq<bool>, d: DD) {
    exists v :: In(v, d) && Leq(v, w)
  }

  lemma LeqStep(v: seq<bool>, w: seq<bool>)
    requires |v| == |w| > 0
    ensures Leq(v, w) <==> (v[0] ==> w[0]) && Leq(v[1..], w[1..])
  {
    if (v[0] ==> w[0]) && Leq(v[1..], w[1..]) {
      forall i | 0 <= i < |v| && v[i] ensures w[i] {
        if i > 0 { assert v[1..][i - 1]; }
      }
    }
    if Leq(v, w) {
      forall i | 0 <= i < |v[1..]| && v[1..][i] ensures w[1..][i] {
        assert v[i + 1];
      }
    }
  }

  /** A vector above one of a node is above one of a child. */
  lemma AboveNode(w: seq<bool>, d: DD, n: nat)
    requires Shape(d, n) && d.Node?
    ensures Above(w, d) <==> w != [] && (Above(w[1..], d.lo) || (w[0] && Above(w[1..], d.hi)))
  {
    if Above(w, d) {
      var v :| In(v, d) && Leq(v, w);
      LeqStep(v, w);
      assert In(v[1..], if v[0] then d.hi else d.lo) && Leq(v[1..], w[1..]);
    }
    if w != [] && Above(w[1..], d.lo) {
      var v :| In(v, d.lo) && Leq(v, w[1..]);
      Lift(false, v, w, d);
    }
    if w != [] && w[0] && Above(w[1..], d.hi) {
      var v :| In(v, d.hi) && Leq(v, w[1..]);
      Lift(true, v, w, d);
    }
  }

  lemma Lift(b: bool, v: seq<bool>, w: seq<bool>, d: DD)
    requires d.Node? && w != [] && (b ==> w[0]) && In(v, if b then d.hi else d.lo) && Leq(v, w[1..])
    ensures Above(w, d)
  {
    var u := [b] + v;
    assert u[1..] == v;
    LeqStep(u, w);
    assert In(u, d) && Leq(u, w);
  }

  /** `Extend` is the upward closure. */
  lemma {:induction false} ExtendIs(d: DD, n: nat, w: seq<bool>)
    requires Shape(d, n)
    ensures Shape(Extend(d), n)
    ensures In(w, Extend(d)) <==> Above(w, d)
    decreases n
  {
    match d
    case Null =>
    case One =>
      if w == [] { assert In([], d) && Leq([], w); }
    case Node(lo, hi) =>
      var x := if w == [] then [] else w[1..];
      ExtendIs(lo, n - 1, x);
      ExtendIs(hi, n - 1, x);
      PlusIs(Extend(lo), Extend(hi), n - 1, x);
      AboveNode(w, d, n);
  }

  // ---------------------------------------------------------------- minimal vectors

  ghost predicate Minimal(v: seq<bool>, d: DD) {
    In(v, d) && forall w :: In(w, d) && Leq(w, v) ==> w == v
  }

  /** `extractShortestAttacks`. */
  function Extract(d: DD, n: nat): (r: DD)
    requires Shape(d, n)
    ensures Shape(r, n)
    decreases n
  {
    match d
    case Null => Null
    case One => One
    case Node(lo, hi) =>
      ExtendIs(lo, n - 1, []);
      MinusIs(hi, Extend(lo), n - 1, []);
      Mk(Extract(lo, n - 1), Extract(Minus(hi, Extend(lo)), n - 1))
  }

  /** With a 0 in front, minimality is that of the 0 child. */
  lemma MinimalLo(v: seq<bool>, d: DD)
    requires d.Node? && v != [] && !v[0]
    ensures Minimal(v, d) <==> Minimal(v[1..], d.lo)
  {
    if Minimal(v, d) {
      forall w | In(w, d.lo) && Leq(w, v[1..]) ensures w == v[1..] {
        var u := [false] + w;
        assert u[1..] == w;
        LeqStep(u, v);
        assert In(u, d) && Leq(u, v);
      }
    }
    if Minimal(v[1..], d.lo) {
      forall w | In(w, d) && Leq(w, v) ensures w == v {
        LeqStep(w, v);
        assert w == [w[0]] + w[1..] && v == [v[0]] + v[1..];
      }
    }
  }

  /** With a 1 in front, it is that of the 1 child without what lies above the 0 child. */
  lemma MinimalHi(v: seq<bool>, d: DD, n: nat)
    requires Shape(d, n) && d.Node? && v != [] && v[0]
    ensures Minimal(v, d) <==> Minimal(v[1..], Minus(d.hi, Extend(d.lo)))
  {
    var left := Minus(d.hi, Extend(d.lo));
    forall w ensures In(w, left) <==> In(w, d.hi) && !Above(w, d.lo) {
      ExtendIs(d.lo, n - 1, w);
      MinusIs(d.hi, Extend(d.lo), n - 1, w);
    }
    if Minimal(v, d) {
      if Above(v[1..], d.lo) {
        var w :| In(w, d.lo) && Leq(w, v[1..]);
        FrontLeq(false, w, v);
        assert In([false] + w, d);
        assert false;
      }
      forall w | In(w, left) && Leq(w, v[1..]) ensures w == v[1..] {
        FrontLeq(true, w, v);
        assert In([true] + w, d);
      }
    }
    if Minimal(v[1..], left) {
      forall w | In(w, d) && Leq(w, v) ensures w == v {
        LeqStep(w, v);
        if w[0] {
          if Above(w[1..], d.lo) {
            AboveMore(w[1..], v[1..], d.lo);
            assert false;
          }
        } else {
          BelowLo(w, v, d);
          assert false;
        }
        assert w == [true] + w[1..] && v == [true] + v[1..];
      }
    }
  }

  lemma BelowLo(w: seq<bool>, v: seq<bool>, d: DD)
    requires d.Node? && In(w, d) && Leq(w, v) && !w[0]
    ensures Above(v[1..], d.lo)
  {
    LeqStep(w, v);
    assert In(w[1..], d.lo) && Leq(w[1..], v[1..]);
  }

  lemma FrontLeq(b: bool, w: seq<bool>, v: seq<bool>)
    requires v != [] && (b ==> v[0]) && Leq(w, v[1..])
    ensures ([b] + w)[1..] == w && ([b] + w)[0] == b && Leq([b] + w, v)
  {
    LeqStep([b] + w, v);
    assert ([b] + w)[1..] == w;
  }

  lemma AboveMore(w: seq<bool>, v: seq<bool>, d: DD)
    requires Above(w, d) && Leq(w, v)
    ensures Above(v, d)
  {
    var u :| In(u, d) && Leq(u, w);
    assert Leq(u, v);
  }

  /** Exactly the minimal vectors are kept. */
  lemma {:induction false} ExtractIs(d: DD, n: nat, v: seq<bool>)
    requires Shape(d, n)
    ensures In(v, Extract(d, n)) <==> Minimal(v, d)
    decreases n
  {
    match d
    case Null =>
    case One =>
    case Node(lo, hi) =>
      if v != [] {
        var left := Minus(hi, Extend(lo));
        ExtendIs(lo, n - 1, []);
        MinusIs(hi, Extend(lo), n - 1, []);
        if v[0] {
          MinimalHi(v, d, n);
          ExtractIs(left, n - 1, v[1..]);
        } else {
          MinimalLo(v, d);
          ExtractIs(lo, n - 1, v[1..]);
        }
      }
  }

  // ---------------------------------------------------------------- printing

  /** The paths of a diagram, 0 before 1 on every level. */
  function Vectors(d: DD): (r: seq<seq<bool>>) {
    match d
    case Null => []
    case One => [[]]
    case Node(lo, hi) => Prefixed(false, Vectors(lo)) + Prefixed(true, Vectors(hi))
  }

  function Prefixed(b: bool, vs: seq<seq<bool>>): (r: seq<seq<bool>>)
    ensures |r| == |vs| && forall i :: 0 <= i < |r| ==> r[i] == [b] + vs[i]
  {
    seq(|vs|, i requires 0 <= i < |vs| => [b] + vs[i])
  }

  /** Every vector of the diagram is listed, and nothing else. */
  lemma {:induction false} VectorsAre(d: DD, v: seq<bool>)
    ensures v in Vectors(d) <==> In(v, d)
    decreases d
  {
    match d
    case Null =>
    case One =>
    case Node(lo, hi) =>
      if v == [] {
      } else {
        VectorsAre(lo, v[1..]);
        VectorsAre(hi, v[1..]);
        PrefixedIn(false, Vectors(lo), v);
        PrefixedIn(true, Vectors(hi), v);
      }
  }

  lemma PrefixedIn(b: bool, vs: seq<seq<bool>>, v: seq<bool>)
    requires v != []
    ensures v in Prefixed(b, vs) <==> v[0] == b && v[1..] in vs
  {
    if v in Prefixed(b, vs) {
      var i :| 0 <= i < |vs| && Prefixed(b, vs)[i] == v;
      assert v[1..] == vs[i];
    }
    if v[0] == b && v[1..] in vs {
      var i :| 0 <= i < |vs| && vs[i] == v[1..];
      assert Prefixed(b, vs)[i] == v;
    }
  }

  /** No vector is listed twice. */
  lemma {:induction false} VectorsOnce(d: DD)
    ensures forall i, j :: 0 <= i < j < |Vectors(d)| ==> Vectors(d)[i] != Vectors(d)[j]
    decreases d
  {
    match d
    case Null =>
    case One =>
    case Node(lo, hi) =>
      VectorsOnce(lo);
      VectorsOnce(hi);
      var a, b := Prefixed(false, Vectors(lo)), Prefixed(true, Vectors(hi));
      forall i, j | 0 <= i < j < |a + b| ensures (a + b)[i] != (a + b)[j] {
        if j < |a| {
          assert a[i][1..] == Vectors(lo)[i] && a[j][1..] == Vectors(lo)[j];
        } else if i >= |a| {
          assert b[i - |a|][1..] == Vectors(hi)[i - |a|] && b[j - |a|][1..] == Vectors(hi)[j - |a|];
        } else {
          assert !a[i][0] && b[j - |a|][0];
        }
      }
  }

  /** What is printed: every minimal vector exactly once. */
  lemma AttacksListed(d: DD, n: nat)
    requires Shape(d, n)
    ensures forall v :: v in Vectors(Extract(d, n)) <==> Minimal(v, d)
    ensures forall i, j :: 0 <= i < j < |Vectors(Extract(d, n))| ==> Vectors(Extract(d, n))[i] != Vectors(Extract(d, n))[j]
  {
    forall v ensures v in Vectors(Extract(d, n)) <==> Minimal(v, d) {
      VectorsAre(Extract(d, n), v);
      ExtractIs(d, n, v);
    }
    VectorsOnce(Extract(d, n));
  }

  function Append(prefix: string, name: string): (r: string) {
    if prefix == [] then name else prefix + ", " + name
  }

  /** The names at the 1s of a vector, after what the prefix already holds. */
  function Text(prefix: string, labels: seq<string>, v: seq<bool>): (r: string)
    requires |v| == |labels| && forall i :: 0 <= i < |labels| ==> |labels[i]| > 5
    decreases |v|
  {
    if v == [] then prefix
    else Text(if v[0] then Append(prefix, labels[0][5..]) else prefix, labels[1..], v[1..])
  }

  ghost predicate Long(labels: seq<string>) {
    forall i :: 0 <= i < |labels| ==> |labels[i]| > 5
  }

  /** `lines` are the texts of `vs`, in order. */
  ghost predicate Texts(prefix: string, labels: seq<string>, vs: seq<seq<bool>>, lines: seq<string>) {
    |lines| == |vs| && Long(labels) &&
    forall i {:trigger lines[i]} {:trigger vs[i]} :: 0 <= i < |vs| ==> |vs[i]| == |labels| && lines[i] == Text(prefix, labels, vs[i])
  }

  lemma TextsNode(prefix: string, labels: seq<string>, vs: seq<seq<bool>>, lines: seq<string>, b: bool)
    requires labels != [] && Long(labels)
    requires Texts(if b then Append(prefix, labels[0][5..]) else prefix, labels[1..], vs, lines)
    ensures Texts(prefix, labels, Prefixed(b, vs), lines)
  {
    forall i | 0 <= i < |vs| ensures |Prefixed(b, vs)[i]| == |labels| && lines[i] == Text(prefix, labels, Prefixed(b, vs)[i]) {
      assert Prefixed(b, vs)[i][1..] == vs[i];
    }
  }

  lemma NodeVectors(d: DD, n: nat)
    requires Shape(d, n) && d.Node?
    ensures var left := Minus(d.hi, Extend(d.lo));
      && Shape(left, n - 1)
      && Vectors(Extract(d, n)) ==
        Prefixed(false, Vectors(Extract(d.lo, n - 1))) + Prefixed(true, Vectors(Extract(left, n - 1)))
  {
    ExtendIs(d.lo, n - 1, []);
    MinusIs(d.hi, Extend(d.lo), n - 1, []);
  }

  lemma NodeTexts(prefix: string, labels: seq<string>, lows: seq<seq<bool>>, highs: seq<seq<bool>>,
                  lines0: seq<string>, lines1: seq<string>)
    requires labels != [] && Long(labels)
    requires Texts(prefix, labels[1..], lows, lines0)
    requires Texts(Append(prefix, labels[0][5..]), labels[1..], highs, lines1)
    ensures Texts(prefix, labels, Prefixed(false, lows) + Prefixed(true, highs), lines0 + lines1)
  {
    TextsNode(prefix, labels, lows, lines0, false);
    TextsNode(prefix, labels, highs, lines1, true);
  }

  lemma NothingListed(d: DD, n: nat, prefix: string, labels: seq<string>)
    requires Long(labels)
    ensures Vectors(Extract(Null, n)) == [] && Texts(prefix, labels, [], []) && Minus(Null, d) == Null
  {
  }

  // ---------------------------------------------------------------- what a line says

  /** The positions of the 1s, from left to right. */
  ghost function Ones(v: seq<bool>): (at: seq<nat>)
    ensures forall i, j :: 0 <= i < j < |at| ==> at[i] < at[j]
    ensures forall i: nat :: i in at <==> i < |v| && v[i]
  {
    if v == [] then []
    else
      var w := v[..|v| - 1];
      assert forall i: nat :: i < |w| ==> v[i] == w[i];
      assert forall j :: 0 <= j < |Ones(w)| ==> Ones(w)[j] in Ones(w);
      Ones(w) + if v[|v| - 1] then [|v| - 1] else []
  }

  /** The names at the 1s, without their first five characters. */
  ghost function Names(labels: seq<string>, v: seq<bool>): (names: seq<string>)
    requires |v| == |labels| && Long(labels)
    ensures |names| == |Ones(v)|
  {
    seq(|Ones(v)|, j requires 0 <= j < |Ones(v)| => assert Ones(v)[j] in Ones(v); labels[Ones(v)[j]][5..])
  }

  /** The names with a comma and a space between each two. */
  ghost function Joined(names: seq<string>): (line: string) {
    if names == [] then ""
    else if |names| == 1 then names[0]
    else names[0] + ", " + Joined(names[1..])
  }

  ghost predicate Filled(names: seq<string>) {
    forall i {:trigger names[i]} :: 0 <= i < |names| ==> names[i] != ""
  }

  lemma {:induction false} JoinedLast(names: seq<string>, name: string)
    requires Filled(names) && name != ""
    ensures names != [] ==> Joined(names) != ""
    ensures Joined(names + [name]) == Append(Joined(names), name)
  {
    if names != [] {
      JoinedLast(names[1..], name);
      assert (names + [name])[1..] == names[1..] + [name];
      if |names| > 1 { assert names[1..] != []; }
    }
  }

  lemma NamesLast(labels: seq<string>, v: seq<bool>)
    requires |v| == |labels| > 0 && Long(labels)
    ensures var n := |v| - 1;
      Long(labels[..n]) && Names(labels, v) == Names(labels[..n], v[..n]) + if v[n] then [labels[n][5..]] else []
  {
    var n := |v| - 1;
    var names, fewer := Names(labels, v), Names(labels[..n], v[..n]);
    assert Ones(v) == Ones(v[..n]) + if v[n] then [n] else [];
    forall j | 0 <= j < |fewer| ensures names[j] == fewer[j] {
      assert Ones(v[..n])[j] in Ones(v[..n]);
    }
  }

  lemma NamesFilled(labels: seq<string>, v: seq<bool>)
    requires |v| == |labels| && Long(labels)
    ensures Filled(Names(labels, v))
  {
    forall j | 0 <= j < |Names(labels, v)| ensures Names(labels, v)[j] != "" {
      assert Ones(v)[j] in Ones(v);
    }
  }

  lemma {:induction false} TextLast(prefix: string, labels: seq<string>, v: seq<bool>)
    requires |v| == |labels| > 0 && Long(labels)
    ensures var n := |v| - 1;
      var before := Text(prefix, labels[..n], v[..n]);
      Text(prefix, labels, v) == if v[n] then Append(before, labels[n][5..]) else before
    decreases |v|
  {
    var n := |v| - 1;
    if n > 0 {
      TextLast(if v[0] then Append(prefix, labels[0][5..]) else prefix, labels[1..], v[1..]);
      assert v[1..][..n - 1] == v[..n][1..] && labels[1..][..n - 1] == labels[..n][1..];
    }
  }

  /** A line begun with nothing is the names at the 1s, in order, cut and joined. */
  lemma {:induction false} TextIs(labels: seq<string>, v: seq<bool>)
    requires |v| == |labels| && Long(labels)
    ensures Text("", labels, v) == Joined(Names(labels, v))
    decreases |v|
  {
    if v != [] {
      var n := |v| - 1;
      TextLast("", labels, v);
      NamesLast(labels, v);
      TextIs(labels[..n], v[..n]);
      NamesFilled(labels[..n], v[..n]);
      if v[n] { JoinedLast(Names(labels[..n], v[..n]), labels[n][5..]); }
      else { assert Names(labels[..n], v[..n]) + [] == Names(labels[..n], v[..n]); }
    }
  }

  /** Line by line the names of the vectors, joined. */
  ghost predicate Spelled(labels: seq<string>, vs: seq<seq<bool>>, lines: seq<string>) {
    |lines| == |vs| && Long(labels) &&
    forall i {:trigger lines[i]} {:trigger vs[i]} :: 0 <= i < |vs| ==>
      |vs[i]| == |labels| && lines[i] == Joined(Names(labels, vs[i]))
  }

  lemma TextsSpelled(labels: seq<string>, vs: seq<seq<bool>>, lines: seq<string>)
    requires Texts("", labels, vs, lines)
    ensures Spelled(labels, vs, lines)
  {
    forall i | 0 <= i < |vs| ensures lines[i] == Joined(Names(labels, vs[i])) {
      TextIs(labels, vs[i]);
    }
  }

  /** No label holds a comma after its first five characters, and no two agree there. */
  ghost predicate Telling(labels: seq<string>) {
    && (forall i :: 0 <= i < |labels| ==> |labels[i]| > 5 && ',' !in labels[i][5..])
    && (forall i, j :: 0 <= i < j < |labels| ==> labels[i][5..] != labels[j][5..])
  }

  ghost predicate NoComma(names: seq<string>) {
    forall i {:trigger names[i]} :: 0 <= i < |names| ==> ',' !in names[i]
  }

  lemma NotShorter(a: string, x: string, b: string, y: string)
    requires a + x == b + y && ',' !in b && (x == "" || x[0] == ',')
    ensures |b| <= |a|
  {
    if x != "" {
      assert (a + x)[|a|] == ',';
      assert forall i :: 0 <= i < |b| ==> (b + y)[i] == b[i] && b[i] in b;
    } else {
      assert |a| == |a + x| == |b + y|;
    }
  }

  lemma FirstName(a: string, x: string, b: string, y: string)
    requires a + x == b + y && ',' !in a && ',' !in b
    requires (x == "" || x[0] == ',') && (y == "" || y[0] == ',')
    ensures a == b && x == y
  {
    NotShorter(a, x, b, y);
    NotShorter(b, y, a, x);
    assert a == (a + x)[..|a|] && b == (b + y)[..|b|];
    assert x == (a + x)[|a|..] && y == (b + y)[|b|..];
  }

  lemma {:induction false} JoinedTells(a: seq<string>, b: seq<string>)
    requires Filled(a) && Filled(b) && NoComma(a) && NoComma(b) && Joined(a) == Joined(b)
    ensures a == b
  {
    if a != [] && b != [] {
      var x := if |a| == 1 then "" else ", " + Joined(a[1..]);
      var y := if |b| == 1 then "" else ", " + Joined(b[1..]);
      assert Joined(a) == a[0] + x && Joined(b) == b[0] + y;
      FirstName(a[0], x, b[0], y);
      if |a| > 1 {
        assert x[2..] == Joined(a[1..]) && y[2..] == Joined(b[1..]);
        JoinedTells(a[1..], b[1..]);
      }
      assert a == [a[0]] + a[1..] && b == [b[0]] + b[1..];
    }
  }

  /** With such labels a line tells its vector. */
  lemma LineTells(labels: seq<string>, v: seq<bool>, w: seq<bool>)
    requires Telling(labels) && |v| == |w| == |labels| && Joined(Names(labels, v)) == Joined(Names(labels, w))
    ensures v == w
  {
    NamesFilled(labels, v);
    NamesFilled(labels, w);
    NamesClean(labels, v);
    NamesClean(labels, w);
    JoinedTells(Names(labels, v), Names(labels, w));
    SameOnes(labels, v, w);
    SameOnes(labels, w, v);
  }

  /** So with such labels every minimal vector has a line of its own. */
  lemma LinesDiffer(d: DD, labels: seq<string>, lines: seq<string>)
    requires Telling(labels) && Shape(d, |labels|) && Spelled(labels, Vectors(Extract(d, |labels|)), lines)
    ensures forall i, j :: 0 <= i < j < |lines| ==> lines[i] != lines[j]
  {
    var vs := Vectors(Extract(d, |labels|));
    AttacksListed(d, |labels|);
    forall i, j | 0 <= i < j < |lines| ensures lines[i] != lines[j] {
      if lines[i] == lines[j] {
        LineTells(labels, vs[i], vs[j]);
        assert false;
      }
    }
  }

  lemma NamesClean(labels: seq<string>, v: seq<bool>)
    requires Telling(labels) && |v| == |labels|
    ensures NoComma(Names(labels, v))
  {
    forall j | 0 <= j < |Names(labels, v)| ensures ',' !in Names(labels, v)[j] {
      assert Ones(v)[j] in Ones(v);
    }
  }

  lemma SameOnes(labels: seq<string>, v: seq<bool>, w: seq<bool>)
    requires Telling(labels) && |v| == |w| == |labels| && Names(labels, v) == Names(labels, w)
    ensures forall i :: 0 <= i < |v| && v[i] ==> w[i]
  {
    forall i | 0 <= i < |v| && v[i] ensures w[i] {
      assert i in Ones(v);
      var j :| 0 <= j < |Ones(v)| && Ones(v)[j] == i;
      assert Names(labels, v)[j] == labels[i][5..] == Names(labels, w)[j];
      assert Ones(w)[j] in Ones(w);
    }
  }

  class AttackPrinter {
    var prefix: string
    var os: seq<string>

    constructor ()
      ensures prefix == "" && os == []
    {
      prefix, os := "", [];
    }

    /** `printShortestAttacks`: one line for each minimal vector, in order, and their number. The prefix is
        not restored when the last variable was used; callers cut it back. */
    method Print(d: DD, labels: seq<string>) returns (count: nat, ghost lines: seq<string>)
      requires Shape(d, |labels|) && Long(labels)
      modifies this
      ensures os == old(os) + lines && Texts(old(prefix), labels, Vectors(Extract(d, |labels|)), lines)
      ensures count == |lines|
      ensures old(prefix) == "" ==> Spelled(labels, Vectors(Extract(d, |labels|)), lines)
      ensures prefix == if d.Node? && !Minus(d.hi, Extend(d.lo)).Null? then Append(old(prefix), labels[0][5..]) else old(prefix)
      decreases |labels|
    {
      if d.One? {
        os := os + [prefix];
        count, lines := 1, [prefix];
        assert Texts(old(prefix), labels, Vectors(Extract(d, |labels|)), lines);
        if old(prefix) == "" { TextsSpelled(labels, Vectors(Extract(d, |labels|)), lines); }
        return;
      } else if d.Null? {
        return 0, [];
      }
      count, lines := PrintNode(d, labels);
      if old(prefix) == "" { TextsSpelled(labels, Vectors(Extract(d, |labels|)), lines); }
    }

    method PrintNode(d: DD, labels: seq<string>) returns (count: nat, ghost lines: seq<string>)
      requires Shape(d, |labels|) && Long(labels) && d.Node?
      modifies this
      ensures os == old(os) + lines && Texts(old(prefix), labels, Vectors(Extract(d, |labels|)), lines)
      ensures count == |lines|
      ensures prefix == if !Minus(d.hi, Extend(d.lo)).Null? then Append(old(prefix), labels[0][5..]) else old(prefix)
      decreases |labels|, 0
    {
      hide Texts, Vectors, Extract, Extend, Minus, Append, Prefixed;
      ghost var n, prefix0 := |labels|, prefix;
      NodeVectors(d, n);
      count := 0;
      var without := Null;
      ghost var lines0: seq<string>, lines1: seq<string> := [], [];
      NothingListed(Extend(d.lo), n - 1, prefix, labels[1..]);
      if !d.lo.Null? {
        without := d.lo;
        var pos := |prefix|;
        var c: nat;
        c, lines0 := Print(d.lo, labels[1..]);
        count := count + c;
        CutBack(prefix0, labels[1..], prefix);
        prefix := prefix[..pos];
      }
      ghost var left := Minus(d.hi, Extend(d.lo));
      NothingListed(Extend(d.lo), n - 1, Append(prefix0, labels[0][5..]), labels[1..]);
      if !d.hi.Null? {
        var toExplore := Minus(d.hi, Extend(without));
        if !toExplore.Null? {
          prefix := Append(prefix, labels[0][5..]);
          ghost var longer := prefix;
          var pos := |prefix|;
          var c: nat;
          c, lines1 := Print(toExplore, labels[1..]);
          count := count + c;
          CutBack(longer, labels[1..], prefix);
          prefix := prefix[..pos];
        }
      }
      NodeTexts(prefix0, labels, Vectors(Extract(d.lo, n - 1)), Vectors(Extract(left, n - 1)), lines0, lines1);
      lines := lines0 + lines1;
    }
  }

  /** Cutting back to the old length restores the prefix. */
  lemma CutBack(before: string, labels: seq<string>, after: string)
    requires after == before || (labels != [] && |labels[0]| > 5 && after == Append(before, labels[0][5..]))
    ensures |before| <= |after| && after[..|before|] == before
  {
  }

  // ---------------------------------------------------------------- projection

  predicate Keeps(name: string) {
    |name| > 5 && name[..5] == "Edge_"
  }

  function Kept(labels: seq<string>): (r: seq<string>)
    ensures forall i :: 0 <= i < |r| ==> |r[i]| > 5
  {
    if labels == [] then [] else (if Keeps(labels[0]) then [labels[0]] else []) + Kept(labels[1..])
  }

  /** `Projector`: levels with other names are dropped, their children united. */
  function Project(d: DD, labels: seq<string>): (r: DD)
    decreases |labels|
  {
    if labels == [] || !d.Node? then d
    else if Keeps(labels[0]) then Mk(Project(d.lo, labels[1..]), Project(d.hi, labels[1..]))
    else Plus(Project(d.lo, labels[1..]), Project(d.hi, labels[1..]))
  }

  /** The entries of a vector at the kept names. */
  ghost function Restrict(v: seq<bool>, labels: seq<string>): (r: seq<bool>)
    requires |v| == |labels|
  {
    if v == [] then [] else (if Keeps(labels[0]) then [v[0]] else []) + Restrict(v[1..], labels[1..])
  }

  ghost predicate Restricts(v: seq<bool>, labels: seq<string>, u: seq<bool>) {
    |u| == |labels| && Restrict(u, labels) == v
  }

  ghost predicate HasRestricted(v: seq<bool>, d: DD, labels: seq<string>) {
    exists u :: In(u, d) && Restricts(v, labels, u)
  }

  lemma RestrictedNode(v: seq<bool>, d: DD, labels: seq<string>)
    requires labels != [] && d.Node?
    ensures HasRestricted(v, d, labels) <==>
      if Keeps(labels[0]) then v != [] && HasRestricted(v[1..], if v[0] then d.hi else d.lo, labels[1..])
      else HasRestricted(v, d.lo, labels[1..]) || HasRestricted(v, d.hi, labels[1..])
  {
    if HasRestricted(v, d, labels) {
      var u :| In(u, d) && Restricts(v, labels, u);
      var rest := Restrict(u[1..], labels[1..]);
      if Keeps(labels[0]) {
        assert v == [u[0]] + rest;
      } else {
        assert v == [] + rest == rest;
      }
      assert In(u[1..], if u[0] then d.hi else d.lo) && Restricts(rest, labels[1..], u[1..]);
    }
    if Keeps(labels[0]) {
      if v != [] && HasRestricted(v[1..], if v[0] then d.hi else d.lo, labels[1..]) {
        var u :| In(u, if v[0] then d.hi else d.lo) && Restricts(v[1..], labels[1..], u);
        RestrictLift(v[0], u, d, labels);
        assert [v[0]] + v[1..] == v;
      }
    } else {
      if HasRestricted(v, d.lo, labels[1..]) {
        var u :| In(u, d.lo) && Restricts(v, labels[1..], u);
        RestrictLift(false, u, d, labels);
      }
      if HasRestricted(v, d.hi, labels[1..]) {
        var u :| In(u, d.hi) && Restricts(v, labels[1..], u);
        RestrictLift(true, u, d, labels);
      }
    }
  }

  lemma RestrictLift(b: bool, u: seq<bool>, d: DD, labels: seq<string>)
    requires labels != [] && d.Node? && |u| == |labels| - 1 && In(u, if b then d.hi else d.lo)
    ensures HasRestricted((if Keeps(labels[0]) then [b] else []) + Restrict(u, labels[1..]), d, labels)
  {
    var w := [b] + u;
    assert w[1..] == u;
    assert In(w, d) && Restricts((if Keeps(labels[0]) then [b] else []) + Restrict(u, labels[1..]), labels, w);
  }

  /** Projection keeps exactly the restrictions of the vectors, over the kept names. */
  lemma {:induction false} ProjectIs(d: DD, labels: seq<string>, v: seq<bool>)
    requires Shape(d, |labels|)
    ensures Shape(Project(d, labels), |Kept(labels)|)
    ensures In(v, Project(d, labels)) <==> HasRestricted(v, d, labels)
    decreases |labels|
  {
    if labels == [] {
      if v == [] && d.One? { assert In([], d) && Restricts([], labels, []); }
    } else if d.Node? {
      var n := |Kept(labels[1..])|;
      var x := if Keeps(labels[0]) && v != [] then v[1..] else v;
      ProjectIs(d.lo, labels[1..], x);
      ProjectIs(d.hi, labels[1..], x);
      if !Keeps(labels[0]) {
        PlusIs(Project(d.lo, labels[1..]), Project(d.hi, labels[1..]), n, v);
      }
      RestrictedNode(v, d, labels);
    }
  }
}
