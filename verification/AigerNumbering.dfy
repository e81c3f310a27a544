/** Topological renumbering by an explicit-stack search (its/aiger/aiger.c, `aiger_reencode_lit`).

    `order` is the sequence of variables in the order they receive codes; the variable at position k
    gets code 2(k+1). The search appends the gates below a literal, operands first. */
module AigerNumbering {
  import opened AigerNet
  import opened AigerStack
  import opened AigerCycles

  /** The code table holds exactly the codes of the variables of `order`. */
  ghost predicate Coded(code: seq<nat>, n: nat, order: seq<nat>) {
    && |code| == 2 * n && n > 0 && code[0] == 0 && code[1] == 1
    && (forall k: nat :: k < |order| ==> CodedAt(code, n, order, k))
    && (forall v: nat :: 0 < v < n && v !in order ==> Uncoded(code, n, v))
  }

  ghost predicate CodedAt(code: seq<nat>, n: nat, order: seq<nat>, k: nat)
    requires |code| == 2 * n && k < |order|
  {
    && 0 < order[k] < n
    && code[2 * order[k]] == 2 * (k + 1) && code[2 * order[k] + 1] == 2 * (k + 1) + 1
  }

  ghost predicate Uncoded(code: seq<nat>, n: nat, v: nat)
    requires |code| == 2 * n && 0 < v < n
  {
    code[2 * v] == 0 && code[2 * v + 1] == 0
  }

  lemma CodedVar(code: seq<nat>, n: nat, order: seq<nat>, v: nat)
    requires Coded(code, n, order) && 0 < v < n
    ensures v in order <==> code[2 * v] != 0
    ensures v in order <==> code[2 * v + 1] != 0
  {
    if v in order {
      var k: nat :| k < |order| && order[k] == v;
      assert CodedAt(code, n, order, k);
    } else {
      assert Uncoded(code, n, v);
    }
  }

  /** No variable is coded twice. */
  lemma CodedDistinct(code: seq<nat>, n: nat, order: seq<nat>, j: nat, k: nat)
    requires Coded(code, n, order) && j < k < |order|
    ensures order[j] != order[k]
  {
    assert CodedAt(code, n, order, j) && CodedAt(code, n, order, k);
  }

  /** Operands of a coded gate are coded before it. */
  ghost predicate OperandsBefore(net: Net, order: seq<nat>, k: nat)
    requires k < |order|
  {
    forall u :: Child(net, order[k], u) ==> u in order[..k]
  }

  ghost predicate Topological(net: Net, order: seq<nat>) {
    forall k: nat :: k < |order| ==> OperandsBefore(net, order, k)
  }

  predicate DefinedVar(net: Net, v: nat) {
    v == 0 || (v < |net.types| && (net.types[v].input || net.types[v].latch || net.types[v].isAnd))
  }

  /** Gates read defined variables, and no gate is an input or a latch. */
  ghost predicate Checked(net: Net) {
    && NetOk(net)
    && (forall v, u :: Child(net, v, u) ==> DefinedVar(net, u))
    && (forall v {:trigger net.types[v]} :: 0 <= v < |net.types| && net.types[v].isAnd ==> !net.types[v].input && !net.types[v].latch)
  }

  /** Inputs and latches are coded before the search starts. */
  ghost predicate LeavesCoded(net: Net, order: seq<nat>) {
    forall v {:trigger net.types[v]} :: 0 < v < |net.types| && (net.types[v].input || net.types[v].latch) ==> v in order
  }

  /** `v` is `root` or a gate below it. */
  ghost predicate Below(net: Net, root: nat, v: nat) {
    v == root || DependsOn(net, {}, root, v)
  }

  lemma BelowStep(net: Net, root: nat, v: nat, u: nat)
    requires Below(net, root, v) && Child(net, v, u) && IsGate(net, u) && IsGate(net, v)
    ensures Below(net, root, u)
  {
    assert Dep(net, {}, v, u);
    if v == root {
      assert ChainStep(net, {}, [v, u], 1);
      assert Chain(net, {}, [v, u]);
    } else {
      var p :| Chain(net, {}, p) && p[0] == root && p[|p| - 1] == v;
      var q := p + [u];
      forall j: nat | 1 <= j < |q| ensures ChainStep(net, {}, q, j) {
        if j < |p| { assert ChainStep(net, {}, p, j); }
      }
      assert Chain(net, {}, q);
    }
  }

  // ---------------------------------------------------------------- the state of the search

  ghost predicate OnStack(onstack: seq<bool>, u: nat) {
    u < |onstack| && onstack[u]
  }

  /** The gate under exploration that ends segment `k` has no code yet. */
  ghost predicate Open(net: Net, segs: seq<seq<nat>>, onstack: seq<bool>, order: seq<nat>, k: nat)
    requires k < |segs|
  {
    segs[k] != [] && OnStack(onstack, Last(segs[k])) && Last(segs[k]) !in order
  }

  /** Its operands are coded, wait in the next segment, or are being explored. */
  ghost predicate Pending(net: Net, segs: seq<seq<nat>>, onstack: seq<bool>, order: seq<nat>, k: nat)
    requires k + 1 < |segs| && segs[k] != []
  {
    forall u :: Child(net, Last(segs[k]), u) ==> u in order || u in segs[k + 1] || OnStack(onstack, u)
  }

  ghost predicate AllGates(net: Net, segs: seq<seq<nat>>, root: nat) {
    forall k, u :: 0 <= k < |segs| && u in segs[k] ==> IsGate(net, u) && Below(net, root, u)
  }

  ghost predicate SearchInv(net: Net, segs: seq<seq<nat>>, onstack: seq<bool>, order: seq<nat>, root: nat) {
    && |onstack| >= |net.types|
    && Shape(net, segs, root) && Distinct(segs) && AllGates(net, segs, root)
    && (forall k: nat :: k < |segs| - 1 ==> Open(net, segs, onstack, order, k) && Pending(net, segs, onstack, order, k))
    && (forall v {:trigger onstack[v]} :: 0 <= v < |onstack| && onstack[v] ==> OnPath(segs, v))
  }

  lemma StartNumbering(net: Net, onstack: seq<bool>, order: seq<nat>, root: nat)
    requires NetOk(net) && |onstack| >= |net.types| && IsGate(net, root) && root > 0
    requires forall v :: 0 <= v < |onstack| ==> !onstack[v]
    ensures SearchInv(net, [[root]], onstack, order, root)
  {
  }

  lemma AllGatesDrop(net: Net, segs: seq<seq<nat>>, root: nat)
    requires AllGates(net, segs, root) && segs != [] && segs[|segs| - 1] != []
    ensures AllGates(net, DropLast(segs), root)
  {
    var m := |segs| - 1;
    var next := DropLast(segs);
    forall k, u | 0 <= k < |next| && u in next[k] ensures IsGate(net, u) && Below(net, root, u) {
      var q :| 0 <= q < |next[k]| && next[k][q] == u;
      assert segs[k][q] == u;
      assert u in segs[k];
    }
  }

  /** Pop a gate that has a code or is being explored further down. */
  lemma StepSkip(net: Net, segs: seq<seq<nat>>, onstack: seq<bool>, order: seq<nat>, root: nat)
    requires SearchInv(net, segs, onstack, order, root) && segs[|segs| - 1] != []
    requires var j := Last(segs[|segs| - 1]); j in order || OnStack(onstack, j)
    ensures SearchInv(net, DropLast(segs), onstack, order, root)
  {
    ShapeDrop(net, segs, root);
    AllGatesDrop(net, segs, root);
    var m := |segs| - 1;
    var j := Last(segs[m]);
    var next := DropLast(segs);
    assert segs[m] == next[m] + [j];
    forall k: nat | k < |next| - 1
      ensures Open(net, next, onstack, order, k) && Pending(net, next, onstack, order, k)
    {
      assert Open(net, segs, onstack, order, k) && Pending(net, segs, onstack, order, k);
    }
    forall v | 0 <= v < |onstack| && onstack[v] ensures OnPath(next, v) {
      assert OnPath(segs, v);
      var k :| 0 <= k < |segs| - 1 && segs[k] != [] && Last(segs[k]) == v;
      assert next[k] == segs[k];
    }
  }

  /** The operands pushed: gates not being explored, the smaller one on top. */
  ghost function Pushed(net: Net, onstack: seq<bool>, v: nat): (r: seq<nat>)
    requires IsGate(net, v)
  {
    var a, b := Lit2Var(GateOf(net, v).rhs0), Lit2Var(GateOf(net, v).rhs1);
    var big, small := if a < b then b else a, if a < b then a else b;
    (if Pushes(net, onstack, big) then [big] else []) + (if Pushes(net, onstack, small) then [small] else [])
  }

  predicate Pushes(net: Net, onstack: seq<bool>, u: nat) {
    0 < u < |net.types| && !net.types[u].input && !net.types[u].latch && u < |onstack| && !onstack[u]
  }

  lemma PushedFacts(net: Net, onstack: seq<bool>, v: nat)
    requires Checked(net) && IsGate(net, v) && |onstack| >= |net.types|
    ensures forall u: nat :: u in Pushed(net, onstack, v) ==> Child(net, v, u) && IsGate(net, u)
    ensures forall u: nat :: Child(net, v, u) ==>
      u in Pushed(net, onstack, v) || onstack[u] || net.types[u].input || net.types[u].latch
  {
    forall u: nat | Child(net, v, u) ensures 0 < u < |net.types| && DefinedVar(net, u) && GateOk(net, u) {
      ChildInTable(net, v, u);
    }
  }

  /** Prefix step: the gate goes on the path and its operands on the stack. */
  lemma StepOpen(net: Net, segs: seq<seq<nat>>, onstack: seq<bool>, order: seq<nat>, root: nat)
    requires Checked(net) && LeavesCoded(net, order) && SearchInv(net, segs, onstack, order, root) && segs[|segs| - 1] != []
    requires var j := Last(segs[|segs| - 1]); j < |onstack| && !onstack[j] && j !in order && IsGate(net, j)
    ensures var j := Last(segs[|segs| - 1]);
      SearchInv(net, segs + [Pushed(net, onstack[j := true], j)], onstack[j := true], order, root)
  {
    var m := |segs| - 1;
    var j := Last(segs[m]);
    var onstack' := onstack[j := true];
    var kids := Pushed(net, onstack', j);
    var next := segs + [kids];
    PushedFacts(net, onstack', j);
    ShapeExplore(net, segs, root, kids);
    forall u | u in kids ensures Below(net, root, u) {
      BelowStep(net, root, j, u);
    }
    forall u | Child(net, j, u) ensures u in order || u in kids || OnStack(onstack', u) {
      ChildInTable(net, j, u);
    }
    hide Pushed, Below;
    OpenSegments(net, segs, onstack, order, root, kids, next, onstack');
    OpenPath(net, segs, onstack, order, root, kids, next, onstack');
  }

  lemma OpenSegments(net: Net, segs: seq<seq<nat>>, onstack: seq<bool>, order: seq<nat>, root: nat, kids: seq<nat>,
                     next: seq<seq<nat>>, onstack': seq<bool>)
    requires SearchInv(net, segs, onstack, order, root) && segs != [] && segs[|segs| - 1] != []
    requires var j := Last(segs[|segs| - 1]); j < |onstack| && !onstack[j] && j !in order && onstack' == onstack[j := true]
    requires next == segs + [kids]
    requires forall u :: Child(net, Last(segs[|segs| - 1]), u) ==> u in order || u in kids || OnStack(onstack', u)
    ensures forall k: nat :: k < |next| - 1 ==> Open(net, next, onstack', order, k) && Pending(net, next, onstack', order, k)
  {
    hide Below, AllGates, Shape, Distinct, Child;
    forall k: nat | k < |next| - 1
      ensures Open(net, next, onstack', order, k) && Pending(net, next, onstack', order, k)
    {
      if k < |segs| - 1 {
        assert Open(net, segs, onstack, order, k) && Pending(net, segs, onstack, order, k);
      }
    }
  }

  lemma OpenPath(net: Net, segs: seq<seq<nat>>, onstack: seq<bool>, order: seq<nat>, root: nat, kids: seq<nat>,
                 next: seq<seq<nat>>, onstack': seq<bool>)
    requires SearchInv(net, segs, onstack, order, root) && segs != [] && segs[|segs| - 1] != []
    requires var j := Last(segs[|segs| - 1]); j < |onstack| && !onstack[j] && onstack' == onstack[j := true]
    requires next == segs + [kids]
    ensures Distinct(next)
    ensures forall v {:trigger onstack'[v]} :: 0 <= v < |onstack'| && onstack'[v] ==> OnPath(next, v)
  {
    hide Below, AllGates, Shape, Child, Pending;
    var m := |segs| - 1;
    var j := Last(segs[m]);
    forall a, b | 0 <= a < b < |next| - 1 ensures next[a] != [] && next[b] != [] && Last(next[a]) != Last(next[b]) {
      assert Open(net, segs, onstack, order, a);
      if b < m { assert Open(net, segs, onstack, order, b); }
    }
    forall v | 0 <= v < |onstack'| && onstack'[v] ensures OnPath(next, v) {
      if v == j {
        assert Last(next[m]) == v;
      } else {
        assert OnPath(segs, v);
        var k :| 0 <= k < |segs| - 1 && segs[k] != [] && Last(segs[k]) == v;
        assert next[k] == segs[k];
      }
    }
  }

  /** Ranks fall along the path of open gates. */
  lemma {:induction false} PathDescends(net: Net, segs: seq<seq<nat>>, onstack: seq<bool>, order: seq<nat>, root: nat,
                                        rank: nat -> nat, k: nat, l: nat)
    requires SearchInv(net, segs, onstack, order, root) && Ranks(net, {}, rank) && k < l < |segs| - 1
    ensures segs[k] != [] && segs[l] != [] && rank(Last(segs[l])) < rank(Last(segs[k]))
    decreases l
  {
    assert Open(net, segs, onstack, order, k) && Open(net, segs, onstack, order, l) && BelowReads(net, segs, l);
    assert Last(segs[l - 1]) in segs[l - 1] && Last(segs[l]) in segs[l];
    assert Dep(net, {}, Last(segs[l - 1]), Last(segs[l]));
    if k < l - 1 {
      PathDescends(net, segs, onstack, order, root, rank, k, l - 1);
    }
  }

  /** Postfix step: all operands of the gate have codes, so it can have one. */
  lemma OperandsReady(net: Net, segs: seq<seq<nat>>, onstack: seq<bool>, order: seq<nat>, root: nat, rank: nat -> nat)
    requires SearchInv(net, segs, onstack, order, root) && Ranks(net, {}, rank) && Checked(net) && LeavesCoded(net, order)
    requires |segs| > 1 && segs[|segs| - 1] == []
    ensures segs[|segs| - 2] != [] && IsGate(net, Last(segs[|segs| - 2]))
    ensures forall u :: Child(net, Last(segs[|segs| - 2]), u) ==> u in order
  {
    var m := |segs| - 1;
    assert Open(net, segs, onstack, order, m - 1) && Pending(net, segs, onstack, order, m - 1);
    var v := Last(segs[m - 1]);
    assert v in segs[m - 1];
    forall u | Child(net, v, u) ensures u in order {
      ChildInTable(net, v, u);
      if OnStack(onstack, u) {
        assert OnPath(segs, u);
        var k: nat :| 0 <= k < |segs| - 1 && segs[k] != [] && Last(segs[k]) == u;
        assert u in segs[k];
        assert Dep(net, {}, v, u);
        if k < m - 1 {
          PathDescends(net, segs, onstack, order, root, rank, k, m - 1);
        }
      }
    }
  }

  lemma StepClose(net: Net, segs: seq<seq<nat>>, onstack: seq<bool>, order: seq<nat>, root: nat)
    requires SearchInv(net, segs, onstack, order, root)
    requires |segs| > 1 && segs[|segs| - 1] == [] && segs[|segs| - 2] != []
    ensures var v := Last(segs[|segs| - 2]);
      v < |onstack| && SearchInv(net, DropLast(segs[..|segs| - 1]), onstack[v := false], order + [v], root)
  {
    var m := |segs| - 1;
    assert Open(net, segs, onstack, order, m - 1);
    var v := Last(segs[m - 1]);
    var shorter := segs[..m];
    var next, onstack', order' := DropLast(shorter), onstack[v := false], order + [v];
    ShapePrefix(net, segs, root);
    ShapeDrop(net, shorter, root);
    assert AllGates(net, shorter, root);
    AllGatesDrop(net, shorter, root);
    assert segs[m - 1] == next[m - 1] + [v];
    forall k: nat | k < |next| - 1
      ensures Open(net, next, onstack', order', k) && Pending(net, next, onstack', order', k)
    {
      assert Open(net, segs, onstack, order, k) && Pending(net, segs, onstack, order, k);
      assert Last(segs[k]) != v;
    }
    forall w | 0 <= w < |onstack'| && onstack'[w] ensures OnPath(next, w) {
      assert OnPath(segs, w);
      var k :| 0 <= k < |segs| - 1 && segs[k] != [] && Last(segs[k]) == w;
      assert k < m - 1;
      assert next[k] == segs[k];
    }
  }

  // ---------------------------------------------------------------- the search

  ghost function NextCode(order: seq<nat>): (c: nat) {
    2 * |order| + 2
  }

  /** `aiger_new_code`: a variable without a code gets the next two. */
  method NewCode(v: nat, next: nat, code: array<nat>, ghost n: nat, ghost order: seq<nat>) returns (after: nat)
    requires Coded(code[..], n, order) && next == NextCode(order) && 0 < v < n && v !in order
    modifies code
    ensures Coded(code[..], n, order + [v]) && after == NextCode(order + [v])
  {
    ghost var was := code[..];
    code[Var2Lit(v)] := next;
    code[Var2Lit(v) + 1] := next + 1;
    after := next + 2;
    forall k: nat | k < |order| + 1 ensures CodedAt(code[..], n, order + [v], k) {
      if k < |order| { assert CodedAt(was, n, order, k); }
    }
    forall u: nat | 0 < u < n && u !in order + [v] ensures Uncoded(code[..], n, u) {
      assert Uncoded(was, n, u);
    }
  }

  lemma TopologicalMore(net: Net, order: seq<nat>, v: nat)
    requires Topological(net, order) && forall u :: Child(net, v, u) ==> u in order
    ensures Topological(net, order + [v])
  {
    var order' := order + [v];
    forall k: nat | k < |order'| ensures OperandsBefore(net, order', k) {
      if k < |order| {
        assert OperandsBefore(net, order, k);
        assert order'[..k] == order[..k];
      } else {
        assert order'[..k] == order;
      }
    }
  }

  /** What a call may add: gates of the cone of its root. */
  ghost predicate Extends(net: Net, root: nat, from: seq<nat>, to: seq<nat>) {
    from <= to && forall k: nat :: |from| <= k < |to| ==> IsGate(net, to[k]) && Below(net, root, to[k])
  }

  /** Gates neither coded nor under exploration. */
  ghost function Untouched(onstack: seq<bool>, order: seq<nat>): (r: set<nat>) {
    set v | 0 <= v < |onstack| && !onstack[v] && v !in order
  }

  lemma UntouchedShrinks(onstack: seq<bool>, order: seq<nat>, j: nat)
    requires j < |onstack| && !onstack[j] && j !in order
    ensures Untouched(onstack[j := true], order) < Untouched(onstack, order)
  {
    assert j in Untouched(onstack, order) && j !in Untouched(onstack[j := true], order);
  }

  lemma UntouchedSame(onstack: seq<bool>, order: seq<nat>, v: nat)
    requires v < |onstack| && onstack[v]
    ensures Untouched(onstack[v := false], order + [v]) == Untouched(onstack, order)
  {
  }

  lemma NumberingFacts(net: Net, segs: seq<seq<nat>>, onstack: seq<bool>, order: seq<nat>, root: nat)
    requires SearchInv(net, segs, onstack, order, root)
    ensures segs != [] && NonZero(segs)
    ensures segs[|segs| - 1] != [] ==> 0 < Last(segs[|segs| - 1]) < |net.types| && IsGate(net, Last(segs[|segs| - 1]))
    ensures |segs| > 1 ==>
      && segs[|segs| - 2] != [] && 0 < Last(segs[|segs| - 2]) < |net.types| && onstack[Last(segs[|segs| - 2])]
      && Last(segs[|segs| - 2]) !in order && IsGate(net, Last(segs[|segs| - 2])) && Below(net, root, Last(segs[|segs| - 2]))
  {
    if |segs| > 1 {
      assert Open(net, segs, onstack, order, |segs| - 2);
    }
  }

  lemma AllClear(net: Net, segs: seq<seq<nat>>, onstack: seq<bool>, order: seq<nat>, root: nat)
    requires SearchInv(net, segs, onstack, order, root) && |segs| == 1
    ensures forall v :: 0 <= v < |onstack| ==> !onstack[v]
  {
    assert forall v :: !OnPath(segs, v);
  }

  lemma PushPushed(net: Net, segs: seq<seq<nat>>, onstack: seq<bool>, j: nat)
    requires segs != [] && IsGate(net, j)
    ensures
      var a, b := Lit2Var(GateOf(net, j).rhs0), Lit2Var(GateOf(net, j).rhs1);
      var big, small := if a < b then b else a, if a < b then a else b;
      Join(segs) + [0] + (if Pushes(net, onstack, big) then [big] else []) + (if Pushes(net, onstack, small) then [small] else [])
      == Join(segs + [Pushed(net, onstack, j)])
  {
    var next := segs + [Pushed(net, onstack, j)];
    assert next[..|segs|] == segs;
  }

  lemma CodedEnds(code: seq<nat>, n: nat, order: seq<nat>)
    requires Coded(code, n, order)
    ensures |code| == 2 * n && n > 0 && code[0] == 0 && code[1] == 1
  {
  }

  /** A defined variable without a code is a gate. */
  lemma UncodedGate(net: Net, order: seq<nat>, v: nat)
    requires Checked(net) && LeavesCoded(net, order) && DefinedVar(net, v) && 0 < v < |net.types| && v !in order
    ensures net.types[v].isAnd && IsGate(net, v)
  {
    assert GateOk(net, v);
  }

  lemma ExtendsSelf(net: Net, root: nat, order: seq<nat>)
    ensures Extends(net, root, order, order)
  {
  }

  lemma ExtendsMore(net: Net, root: nat, from: seq<nat>, to: seq<nat>, v: nat)
    requires Extends(net, root, from, to) && IsGate(net, v) && Below(net, root, v)
    ensures Extends(net, root, from, to + [v])
  {
  }

  /** The search of `aiger_reencode_lit` below a gate. */
  method NumberGate(net: Net, root: nat, next0: nat, code: array<nat>, onstack: array<bool>,
                    ghost order0: seq<nat>, ghost rank: nat -> nat)
      returns (next: nat, ghost order: seq<nat>)
    requires Checked(net) && Ranks(net, {}, rank) && onstack.Length >= |net.types|
    requires Coded(code[..], |net.types|, order0) && next0 == NextCode(order0)
    requires Topological(net, order0) && LeavesCoded(net, order0)
    requires forall v :: 0 <= v < onstack.Length ==> !onstack[v]
    requires root > 0 && IsGate(net, root)
    modifies code, onstack
    ensures Coded(code[..], |net.types|, order) && next == NextCode(order)
    ensures Topological(net, order) && Extends(net, root, order0, order) && root in order
    ensures forall v :: 0 <= v < onstack.Length ==> !onstack[v]
  {
    hide Coded, SearchInv, Topological, Join, NonZero, Untouched, Pushed, DropLast, Below, Child, Ranks, Extends, NetOk;
    ghost var n := |net.types|;
    order, next := order0, next0;
    var stack := [root];
    ghost var segs := [[root]];
    ExtendsSelf(net, root, order0);
    StartNumbering(net, onstack[..], order, root);
    JoinOne(root);
    while stack != []
      invariant SearchInv(net, segs, onstack[..], order, root) && segs != [] && stack == Join(segs)
      invariant Coded(code[..], n, order) && next == NextCode(order)
      invariant Topological(net, order) && Extends(net, root, order0, order) && LeavesCoded(net, order)
      invariant root in order || root in segs[0]
      decreases Untouched(onstack[..], order), |stack|
    {
      NumberingFacts(net, segs, onstack[..], order, root);
      Top(segs);
      CodedEnds(code[..], n, order);
      ghost var onstacks := onstack[..];
      var top := stack[|stack| - 1];
      if top != 0 {
        CodedVar(code[..], n, order, top);
        if code[Var2Lit(top)] != 0 || onstack[top] {
          StepSkip(net, segs, onstacks, order, root);
          RootSkip(net, segs, onstacks, order, root);
          DropIs(segs);
          stack := stack[..|stack| - 1];
          segs := DropLast(segs);
        } else {
          StepOpen(net, segs, onstacks, order, root);
          UntouchedShrinks(onstacks, order, top);
          onstack[top] := true;
          assert onstack[..] == onstacks[top := true];
          PushPushed(net, segs, onstack[..], top);
          OperandsInTable(net, top);
          var child0, child1 := Lit2Var(GateOf(net, top).rhs0), Lit2Var(GateOf(net, top).rhs1);
          if child0 < child1 {
            child0, child1 := child1, child0;
          }
          stack := stack + [0];
          if child0 != 0 && !net.types[child0].input && !net.types[child0].latch && !onstack[child0] {
            stack := stack + [child0];
          }
          if child1 != 0 && !net.types[child1].input && !net.types[child1].latch && !onstack[child1] {
            stack := stack + [child1];
          }
          segs := segs + [Pushed(net, onstack[..], top)];
        }
      } else {
        OperandsReady(net, segs, onstacks, order, root, rank);
        StepClose(net, segs, onstacks, order, root);
        RootClose(net, segs, onstacks, order, root);
        TopZero(segs);
        top := stack[|stack| - 2];
        stack := stack[..|stack| - 2];
        TopologicalMore(net, order, top);
        ExtendsMore(net, root, order0, order, top);
        UntouchedSame(onstacks, order, top);
        onstack[top] := false;
        assert onstack[..] == onstacks[top := false];
        next := NewCode(top, next, code, n, order);
        segs := DropLast(segs[..|segs| - 1]);
        order := order + [top];
      }
    }
    NumberingFacts(net, segs, onstack[..], order, root);
    Top(segs);
    AllClear(net, segs, onstack[..], order, root);
  }

  lemma OperandsInTable(net: Net, v: nat)
    requires NetOk(net) && v < |net.types| && net.types[v].isAnd
    ensures IsGate(net, v) && Lit2Var(GateOf(net, v).rhs0) < |net.types| && Lit2Var(GateOf(net, v).rhs1) < |net.types|
  {
    assert GateOk(net, v);
  }

  /** The root waits at the bottom until it has its code. */
  lemma RootSkip(net: Net, segs: seq<seq<nat>>, onstack: seq<bool>, order: seq<nat>, root: nat)
    requires SearchInv(net, segs, onstack, order, root) && segs != [] && segs[|segs| - 1] != []
    requires root in order || root in segs[0]
    requires var j := Last(segs[|segs| - 1]); j in order || (j < |onstack| && onstack[j])
    ensures root in order || root in DropLast(segs)[0]
  {
    hide Below, Child;
    if |segs| == 1 {
      AllClear(net, segs, onstack, order, root);
      assert Last(segs[0]) in segs[0];
    }
  }

  lemma RootClose(net: Net, segs: seq<seq<nat>>, onstack: seq<bool>, order: seq<nat>, root: nat)
    requires SearchInv(net, segs, onstack, order, root) && |segs| > 1 && segs[|segs| - 2] != []
    requires root in order || root in segs[0]
    ensures var v := Last(segs[|segs| - 2]); root in order + [v] || root in DropLast(segs[..|segs| - 1])[0]
  {
    hide Below, Child;
    if |segs| == 2 {
      assert Last(segs[0]) in segs[0];
    }
  }

  /** `aiger_reencode_lit`: number everything below a literal and translate it. */
  method ReencodeLit(net: Net, lit: nat, next0: nat, code: array<nat>, onstack: array<bool>,
                     ghost order0: seq<nat>, ghost rank: nat -> nat)
      returns (res: nat, next: nat, ghost order: seq<nat>)
    requires Checked(net) && Ranks(net, {}, rank) && onstack.Length >= |net.types|
    requires Coded(code[..], |net.types|, order0) && next0 == NextCode(order0)
    requires Topological(net, order0) && LeavesCoded(net, order0)
    requires forall v :: 0 <= v < onstack.Length ==> !onstack[v]
    requires lit < 2 * |net.types| && DefinedVar(net, Lit2Var(lit))
    modifies code, onstack
    ensures Coded(code[..], |net.types|, order) && next == NextCode(order)
    ensures Topological(net, order) && Extends(net, Lit2Var(lit), order0, order)
    ensures lit >= 2 ==> Lit2Var(lit) in order
    ensures lit < code.Length && res == code[lit]
    ensures forall v :: 0 <= v < onstack.Length ==> !onstack[v]
  {
    hide Coded, SearchInv, Topological, Join, NonZero, NetOk, Untouched, Pushed, DropLast, Below, Child, Checked, LeavesCoded, Ranks;
    order, next := order0, next0;
    CodedEnds(code[..], |net.types|, order);
    if lit < 2 {
      return lit, next, order;
    }
    var v := Lit2Var(lit);
    CodedVar(code[..], |net.types|, order, v);
    res := code[lit];
    if res != 0 {
      return;
    }
    UncodedGate(net, order, v);
    if net.types[v].isAnd {
      next, order := NumberGate(net, v, next, code, onstack, order, rank);
    } else {
      assert false;
    }
    CodedEnds(code[..], |net.types|, order);
    CodedVar(code[..], |net.types|, order, v);
    res := code[lit];
  }
}