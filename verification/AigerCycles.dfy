/** The explicit-stack search for cyclic gate definitions (its/aiger/aiger.c, `aiger_check_for_cycles`).

    The search looks only at gates not marked before it starts: it reports an error exactly when some
    cycle runs through unmarked gates alone. For every net that is every cycle exactly with clear marks. */
module AigerCycles {
  import opened AigerNet
  import opened AigerStack

  /** An edge between two gates that the search may explore. */
  ghost predicate Dep(net: Net, seen: set<nat>, v: nat, u: nat) {
    Child(net, v, u) && IsGate(net, u) && v !in seen && u !in seen
  }

  /** A non-empty chain of such edges. */
  ghost predicate Chain(net: Net, seen: set<nat>, p: seq<nat>) {
    |p| >= 2 && forall k: nat :: 1 <= k < |p| ==> ChainStep(net, seen, p, k)
  }

  ghost predicate ChainStep(net: Net, seen: set<nat>, p: seq<nat>, k: nat)
    requires 1 <= k < |p|
  {
    Dep(net, seen, p[k - 1], p[k])
  }

  ghost predicate DependsOn(net: Net, seen: set<nat>, v: nat, u: nat) {
    exists p :: Chain(net, seen, p) && p[0] == v && p[|p| - 1] == u
  }

  /** Some gate that was not marked depends on itself through gates that were not marked. */
  ghost predicate Cyclic(net: Net, seen: set<nat>) {
    exists v :: DependsOn(net, seen, v, v)
  }

  /** Numbers that decrease along every edge. */
  ghost predicate Ranks(net: Net, seen: set<nat>, rank: nat -> nat) {
    forall v, u :: Dep(net, seen, v, u) ==> rank(u) < rank(v)
  }

  lemma {:induction false} ChainDescends(net: Net, seen: set<nat>, rank: nat -> nat, p: seq<nat>)
    requires Ranks(net, seen, rank) && Chain(net, seen, p)
    ensures rank(p[|p| - 1]) < rank(p[0])
    decreases |p|
  {
    assert ChainStep(net, seen, p, |p| - 1);
    if |p| > 2 {
      var q := p[..|p| - 1];
      forall k: nat | 1 <= k < |q| ensures ChainStep(net, seen, q, k) {
        assert ChainStep(net, seen, p, k);
      }
      ChainDescends(net, seen, rank, q);
    }
  }

  /** A rank excludes cycles. */
  lemma RankExcludesCycle(net: Net, seen: set<nat>, rank: nat -> nat)
    requires Ranks(net, seen, rank)
    ensures !Cyclic(net, seen)
  {
    forall v ensures !DependsOn(net, seen, v, v) {
      forall p | Chain(net, seen, p) && p[0] == v ensures p[|p| - 1] != v {
        ChainDescends(net, seen, rank, p);
      }
    }
  }

  // ---------------------------------------------------------------- the state of the search

  ghost function Last(s: seq<nat>): (r: nat)
    requires s != []
    ensures r in s
  {
    s[|s| - 1]
  }

  ghost predicate Done(mark: seq<bool>, onstack: seq<bool>, u: nat)
    requires u < |mark| == |onstack|
  {
    mark[u] && !onstack[u]
  }

  ghost predicate Sizes(net: Net, mark: seq<bool>, onstack: seq<bool>) {
    |mark| == |onstack| == |net.types|
  }

  /** The gate under exploration that ends segment `k`. */
  ghost predicate Exploring(net: Net, segs: seq<seq<nat>>, mark: seq<bool>, onstack: seq<bool>, seen: set<nat>, k: nat)
    requires Sizes(net, mark, onstack) && k < |segs|
  {
    segs[k] != [] &&
    var g := Last(segs[k]);
    IsGate(net, g) && mark[g] && onstack[g] && g !in seen
  }

  /** Children of the explored gate of segment `k` are done or wait in the next segment. */
  ghost predicate Waiting(net: Net, segs: seq<seq<nat>>, mark: seq<bool>, onstack: seq<bool>, k: nat)
    requires NetOk(net) && Sizes(net, mark, onstack) && k + 1 < |segs| && segs[k] != []
  {
    forall u :: Child(net, Last(segs[k]), u) && IsGate(net, u) ==>
      (Done(mark, onstack, u) || u in segs[k + 1])
  }

  ghost predicate Shape(net: Net, segs: seq<seq<nat>>, i: nat) {
    && segs != [] && NonZero(segs)
    && (forall u :: u in segs[0] ==> u == i)
    && (forall k, u :: 0 <= k < |segs| && u in segs[k] ==> u < |net.types|)
    && (forall k: nat :: 1 <= k < |segs| ==> BelowReads(net, segs, k))
  }

  /** Segment `k` holds variables the gate ending the segment below reads. */
  ghost predicate BelowReads(net: Net, segs: seq<seq<nat>>, k: nat)
    requires 1 <= k < |segs|
  {
    segs[k - 1] != [] && forall u :: u in segs[k] ==> Child(net, Last(segs[k - 1]), u)
  }

  ghost predicate OnPath(segs: seq<seq<nat>>, v: nat) {
    exists k :: 0 <= k < |segs| - 1 && segs[k] != [] && Last(segs[k]) == v
  }

  ghost predicate Distinct(segs: seq<seq<nat>>) {
    forall j, k :: 0 <= j < k < |segs| - 1 && segs[j] != [] && segs[k] != [] ==> Last(segs[j]) != Last(segs[k])
  }

  ghost predicate StackInv(net: Net, segs: seq<seq<nat>>, mark: seq<bool>, onstack: seq<bool>, seen: set<nat>, i: nat)
    requires NetOk(net) && Sizes(net, mark, onstack)
  {
    && Shape(net, segs, i) && Distinct(segs)
    && (forall k: nat :: k < |segs| - 1 ==> Exploring(net, segs, mark, onstack, seen, k) && Waiting(net, segs, mark, onstack, k))
    && (forall v {:trigger onstack[v]} :: 0 <= v < |onstack| && onstack[v] ==> OnPath(segs, v))
  }

  /** Gates in the order the search finished them; children come first. */
  ghost predicate Finished(net: Net, mark: seq<bool>, onstack: seq<bool>, seen: set<nat>, fin: seq<nat>)
    requires Sizes(net, mark, onstack)
  {
    && (forall v :: v in seen && v < |mark| ==> Done(mark, onstack, v))
    && (forall v :: 0 <= v < |mark| && IsGate(net, v) ==> (Done(mark, onstack, v) <==> v in seen || v in fin))
    && (forall k {:trigger fin[k]} :: 0 <= k < |fin| ==> ChildrenBefore(net, seen, fin, k))
    && (forall j, k :: 0 <= j < k < |fin| ==> fin[j] != fin[k])
  }

  ghost predicate ChildrenBefore(net: Net, seen: set<nat>, fin: seq<nat>, k: nat)
    requires k < |fin|
  {
    forall u :: Child(net, fin[k], u) && IsGate(net, u) ==> u in seen || u in fin[..k]
  }

  // ---------------------------------------------------------------- a gate met again on the stack closes a cycle

  lemma {:induction false} PathChain(net: Net, segs: seq<seq<nat>>, mark: seq<bool>, onstack: seq<bool>, seen: set<nat>, i: nat,
                                     k: nat, m: nat, u: nat) returns (p: seq<nat>)
    requires NetOk(net) && Sizes(net, mark, onstack) && StackInv(net, segs, mark, onstack, seen, i)
    requires k < m < |segs| && segs[k] != [] && u in segs[m] && IsGate(net, u) && u !in seen
    ensures Chain(net, seen, p) && p[0] == Last(segs[k]) && p[|p| - 1] == u
    decreases m
  {
    assert Exploring(net, segs, mark, onstack, seen, m - 1) && BelowReads(net, segs, m);
    var g := Last(segs[m - 1]);
    assert Dep(net, seen, g, u);
    if k == m - 1 {
      p := [g, u];
      assert ChainStep(net, seen, p, 1);
    } else {
      var q := PathChain(net, segs, mark, onstack, seen, i, k, m - 1, g);
      p := q + [u];
      forall j: nat | 1 <= j < |p| ensures ChainStep(net, seen, p, j) {
        if j < |q| { assert ChainStep(net, seen, q, j); }
      }
    }
  }

  lemma MetAgain(net: Net, segs: seq<seq<nat>>, mark: seq<bool>, onstack: seq<bool>, seen: set<nat>, i: nat)
    requires NetOk(net) && Sizes(net, mark, onstack) && StackInv(net, segs, mark, onstack, seen, i)
    requires segs[|segs| - 1] != [] && onstack[Last(segs[|segs| - 1])]
    ensures Cyclic(net, seen)
  {
    var m := |segs| - 1;
    var j := Last(segs[m]);
    assert OnPath(segs, j);
    var k :| 0 <= k < m && segs[k] != [] && Last(segs[k]) == j;
    assert Exploring(net, segs, mark, onstack, seen, k);
    var p := PathChain(net, segs, mark, onstack, seen, i, k, m, j);
    assert DependsOn(net, seen, j, j);
  }

  // ---------------------------------------------------------------- the steps of the search

  ghost predicate Inv(net: Net, segs: seq<seq<nat>>, mark: seq<bool>, onstack: seq<bool>, seen: set<nat>, i: nat, fin: seq<nat>)
    requires NetOk(net) && Sizes(net, mark, onstack)
  {
    StackInv(net, segs, mark, onstack, seen, i) && Finished(net, mark, onstack, seen, fin)
  }

  ghost function DropLast(segs: seq<seq<nat>>): (r: seq<seq<nat>>)
    requires segs != [] && segs[|segs| - 1] != []
  {
    var m := |segs| - 1;
    segs[m := segs[m][..|segs[m]| - 1]]
  }

  lemma ShapeDrop(net: Net, segs: seq<seq<nat>>, i: nat)
    requires Shape(net, segs, i) && Distinct(segs) && segs[|segs| - 1] != []
    ensures Shape(net, DropLast(segs), i) && Distinct(DropLast(segs))
  {
    var m := |segs| - 1;
    var next := DropLast(segs);
    forall k, u | 0 <= k < |next| && u in next[k] ensures u in segs[k] && u > 0 && u < |net.types| {
      var q :| 0 <= q < |next[k]| && next[k][q] == u;
      assert segs[k][q] == u;
    }
    forall k: nat | 1 <= k < |next| ensures BelowReads(net, next, k) {
      assert BelowReads(net, segs, k);
      forall u | u in next[k] ensures Child(net, Last(next[k - 1]), u) {
        assert u in segs[k];
      }
    }
  }

  /** Pop a variable that needs no exploring. */
  lemma StepDrop(net: Net, segs: seq<seq<nat>>, mark: seq<bool>, onstack: seq<bool>, seen: set<nat>, i: nat)
    requires NetOk(net) && Sizes(net, mark, onstack) && StackInv(net, segs, mark, onstack, seen, i)
    requires segs[|segs| - 1] != []
    requires var j := Last(segs[|segs| - 1]); j < |mark| && (!IsGate(net, j) || Done(mark, onstack, j))
    ensures StackInv(net, DropLast(segs), mark, onstack, seen, i)
  {
    ShapeDrop(net, segs, i);
    var m := |segs| - 1;
    var j := Last(segs[m]);
    var next := DropLast(segs);
    assert segs[m] == next[m] + [j];
    forall k: nat | k < |next| - 1
      ensures Exploring(net, next, mark, onstack, seen, k) && Waiting(net, next, mark, onstack, k)
    {
      assert Exploring(net, segs, mark, onstack, seen, k) && Waiting(net, segs, mark, onstack, k);
    }
    forall v | 0 <= v < |onstack| && onstack[v] ensures OnPath(next, v) {
      assert OnPath(segs, v);
      var k :| 0 <= k < |segs| - 1 && segs[k] != [] && Last(segs[k]) == v;
      assert next[k] == segs[k];
    }
  }

  /** Non-zero variables of the two operands, in the order they are pushed. */
  ghost function Kids(net: Net, v: nat): (r: seq<nat>)
    requires IsGate(net, v)
    ensures forall u :: u in r <==> Child(net, v, u)
  {
    var a, b := Lit2Var(GateOf(net, v).rhs0), Lit2Var(GateOf(net, v).rhs1);
    (if a > 0 then [a] else []) + (if b > 0 then [b] else [])
  }

  lemma ShapeExplore(net: Net, segs: seq<seq<nat>>, i: nat, kids: seq<nat>)
    requires NetOk(net) && Shape(net, segs, i) && segs[|segs| - 1] != [] && IsGate(net, Last(segs[|segs| - 1]))
    requires forall u :: u in kids ==> Child(net, Last(segs[|segs| - 1]), u)
    ensures Shape(net, segs + [kids], i)
  {
    var j := Last(segs[|segs| - 1]);
    var next := segs + [kids];
    forall u | u in kids ensures 0 < u < |net.types| {
      ChildInTable(net, j, u);
    }
    forall k: nat | 1 <= k < |next| ensures BelowReads(net, next, k) {
      if k < |segs| { assert BelowReads(net, segs, k); }
    }
  }

  /** Prefix step: mark the gate and push its operands. */
  lemma StepExplore(net: Net, segs: seq<seq<nat>>, mark: seq<bool>, onstack: seq<bool>, seen: set<nat>, i: nat, fin: seq<nat>)
    requires NetOk(net) && Sizes(net, mark, onstack) && Inv(net, segs, mark, onstack, seen, i, fin)
    requires segs[|segs| - 1] != [] && IsGate(net, Last(segs[|segs| - 1])) && !mark[Last(segs[|segs| - 1])]
    ensures var j := Last(segs[|segs| - 1]);
      Inv(net, segs + [Kids(net, j)], mark[j := true], onstack[j := true], seen, i, fin)
  {
    ShapeExplore(net, segs, i, Kids(net, Last(segs[|segs| - 1])));
    var m := |segs| - 1;
    var j := Last(segs[m]);
    var next, mark', onstack' := segs + [Kids(net, j)], mark[j := true], onstack[j := true];
    assert j !in seen by { assert !Done(mark, onstack, j); }
    forall k: nat | k < |next| - 1
      ensures Exploring(net, next, mark', onstack', seen, k) && Waiting(net, next, mark', onstack', k)
    {
      if k < m {
        assert Exploring(net, segs, mark, onstack, seen, k) && Waiting(net, segs, mark, onstack, k);
      }
    }
    forall a, b | 0 <= a < b < |next| - 1 ensures next[a] != [] && next[b] != [] && Last(next[a]) != Last(next[b]) {
      assert Exploring(net, segs, mark, onstack, seen, a);
      if b < m { assert Exploring(net, segs, mark, onstack, seen, b); }
    }
    forall v | 0 <= v < |onstack'| && onstack'[v] ensures OnPath(next, v) {
      if v == j {
        assert Last(next[m]) == v;
      } else {
        assert OnPath(segs, v);
        var k :| 0 <= k < |segs| - 1 && segs[k] != [] && Last(segs[k]) == v;
        assert next[k] == segs[k];
      }
    }
    FinishedExplore(net, mark, onstack, seen, fin, j);
  }

  lemma FinishedExplore(net: Net, mark: seq<bool>, onstack: seq<bool>, seen: set<nat>, fin: seq<nat>, j: nat)
    requires Sizes(net, mark, onstack) && Finished(net, mark, onstack, seen, fin) && j < |mark| && !mark[j]
    ensures Finished(net, mark[j := true], onstack[j := true], seen, fin)
  {
    forall k | 0 <= k < |fin| ensures ChildrenBefore(net, seen, fin, k) {
      var v := fin[k];
    }
  }

  /** Postfix step: everything below the gate is done, so the gate is. */
  lemma StepFinish(net: Net, segs: seq<seq<nat>>, mark: seq<bool>, onstack: seq<bool>, seen: set<nat>, i: nat, fin: seq<nat>)
    requires NetOk(net) && Sizes(net, mark, onstack) && Inv(net, segs, mark, onstack, seen, i, fin)
    requires |segs| > 1 && segs[|segs| - 1] == [] && segs[|segs| - 2] != []
    ensures var v := Last(segs[|segs| - 2]);
      v < |onstack| && Inv(net, DropLast(segs[..|segs| - 1]), mark, onstack[v := false], seen, i, fin + [v])
  {
    var m := |segs| - 1;
    assert Exploring(net, segs, mark, onstack, seen, m - 1) && Waiting(net, segs, mark, onstack, m - 1);
    var v := Last(segs[m - 1]);
    var shorter := segs[..m];
    var next, onstack' := DropLast(shorter), onstack[v := false];
    ShapePrefix(net, segs, i);
    ShapeDrop(net, shorter, i);
    assert segs[m - 1] == next[m - 1] + [v];
    forall k: nat | k < |next| - 1
      ensures Exploring(net, next, mark, onstack', seen, k) && Waiting(net, next, mark, onstack', k)
    {
      assert Exploring(net, segs, mark, onstack, seen, k) && Waiting(net, segs, mark, onstack, k);
      assert Last(segs[k]) != v;
    }
    forall w | 0 <= w < |onstack'| && onstack'[w] ensures OnPath(next, w) {
      assert OnPath(segs, w);
      var k :| 0 <= k < |segs| - 1 && segs[k] != [] && Last(segs[k]) == w;
      assert k < m - 1;
      assert next[k] == segs[k];
    }
    FinishedMore(net, mark, onstack, seen, fin, v);
  }

  lemma ShapePrefix(net: Net, segs: seq<seq<nat>>, i: nat)
    requires Shape(net, segs, i) && Distinct(segs) && |segs| > 1
    ensures Shape(net, segs[..|segs| - 1], i) && Distinct(segs[..|segs| - 1])
  {
    var next := segs[..|segs| - 1];
    forall k: nat | 1 <= k < |next| ensures BelowReads(net, next, k) {
      assert BelowReads(net, segs, k);
    }
  }

  lemma FinishedMore(net: Net, mark: seq<bool>, onstack: seq<bool>, seen: set<nat>, fin: seq<nat>, v: nat)
    requires Sizes(net, mark, onstack) && Finished(net, mark, onstack, seen, fin)
    requires v < |mark| && mark[v] && onstack[v] && IsGate(net, v) && v !in seen
    requires forall u :: Child(net, v, u) && IsGate(net, u) ==> Done(mark, onstack, u)
    ensures Finished(net, mark, onstack[v := false], seen, fin + [v])
  {
    var fin' := fin + [v];
    assert !Done(mark, onstack, v);
    forall k | 0 <= k < |fin'| ensures ChildrenBefore(net, seen, fin', k) {
      if k < |fin| {
        assert ChildrenBefore(net, seen, fin, k);
        assert fin'[..k] == fin[..k];
      } else {
        assert fin'[..k] == fin;
      }
    }
  }

  // ---------------------------------------------------------------- the search

  ghost function Unmarked(net: Net, mark: seq<bool>): (r: set<nat>) {
    set v | 0 <= v < |mark| && !mark[v]
  }

  ghost function Index(fin: seq<nat>, v: nat): (k: nat)
    ensures k < |fin| ==> fin[k] == v
    ensures v in fin ==> k < |fin|
  {
    if fin == [] then 0 else if fin[0] == v then 0 else 1 + Index(fin[1..], v)
  }

  /** When every gate is finished, finishing order is a rank. */
  lemma FinishedRanks(net: Net, mark: seq<bool>, onstack: seq<bool>, seen: set<nat>, fin: seq<nat>)
    requires Sizes(net, mark, onstack) && Finished(net, mark, onstack, seen, fin)
    requires forall v :: 0 <= v < |mark| && IsGate(net, v) ==> Done(mark, onstack, v)
    ensures !Cyclic(net, seen)
  {
    var rank: nat -> nat := v => Index(fin, v);
    forall v, u | Dep(net, seen, v, u) ensures rank(u) < rank(v) {
      assert v in fin;
      var k := Index(fin, v);
      assert ChildrenBefore(net, seen, fin, k);
      var l :| 0 <= l < k && fin[l] == u;
      IndexOf(fin, l);
    }
    RankExcludesCycle(net, seen, rank);
  }

  lemma {:induction false} IndexOf(fin: seq<nat>, l: nat)
    requires l < |fin|
    ensures Index(fin, fin[l]) <= l
  {
    if l > 0 && fin[0] != fin[l] {
      IndexOf(fin[1..], l - 1);
    }
  }

  lemma StartSearch(net: Net, mark: seq<bool>, onstack: seq<bool>, seen: set<nat>, i: nat)
    requires NetOk(net) && Sizes(net, mark, onstack) && 0 < i < |net.types| && forall v :: 0 <= v < |onstack| ==> !onstack[v]
    ensures StackInv(net, [[i]], mark, onstack, seen, i)
  {
  }

  lemma EmptyStack(net: Net, segs: seq<seq<nat>>, mark: seq<bool>, onstack: seq<bool>, seen: set<nat>, i: nat)
    requires NetOk(net) && Sizes(net, mark, onstack) && StackInv(net, segs, mark, onstack, seen, i) && |segs| == 1
    ensures forall v :: 0 <= v < |onstack| ==> !onstack[v]
  {
    assert forall v :: !OnPath(segs, v);
  }

  lemma SegsFacts(net: Net, segs: seq<seq<nat>>, mark: seq<bool>, onstack: seq<bool>, seen: set<nat>, i: nat)
    requires NetOk(net) && Sizes(net, mark, onstack) && StackInv(net, segs, mark, onstack, seen, i)
    ensures segs != [] && NonZero(segs)
    ensures segs[|segs| - 1] != [] ==> 0 < Last(segs[|segs| - 1]) < |net.types|
    ensures |segs| > 1 ==> segs[|segs| - 2] != [] && 0 < Last(segs[|segs| - 2]) < |net.types|
  {
    if |segs| > 1 {
      assert Exploring(net, segs, mark, onstack, seen, |segs| - 2);
    }
  }

  lemma GateInTable(net: Net, j: nat)
    requires NetOk(net) && j < |net.types| && net.types[j].isAnd
    ensures IsGate(net, j)
  {
    assert GateOk(net, j);
  }

  lemma MarkShrinks(net: Net, mark: seq<bool>, j: nat)
    requires j < |mark| && !mark[j]
    ensures Unmarked(net, mark[j := true]) < Unmarked(net, mark)
  {
    assert j in Unmarked(net, mark) && j !in Unmarked(net, mark[j := true]);
  }

  lemma PushKids(net: Net, segs: seq<seq<nat>>, j: nat)
    requires segs != [] && IsGate(net, j)
    ensures var a, b := Lit2Var(GateOf(net, j).rhs0), Lit2Var(GateOf(net, j).rhs1);
      Join(segs) + [0] + (if a > 0 then [a] else []) + (if b > 0 then [b] else []) == Join(segs + [Kids(net, j)])
  {
    var next := segs + [Kids(net, j)];
    assert next[..|segs|] == segs;
  }

  lemma StepExploreSplit(net: Net, segs: seq<seq<nat>>, mark: seq<bool>, onstack: seq<bool>, seen: set<nat>, i: nat, fin: seq<nat>)
    requires NetOk(net) && Sizes(net, mark, onstack)
    requires StackInv(net, segs, mark, onstack, seen, i) && Finished(net, mark, onstack, seen, fin)
    requires segs != [] && segs[|segs| - 1] != [] && IsGate(net, Last(segs[|segs| - 1])) && !mark[Last(segs[|segs| - 1])]
    ensures var j := Last(segs[|segs| - 1]);
      StackInv(net, segs + [Kids(net, j)], mark[j := true], onstack[j := true], seen, i) &&
      Finished(net, mark[j := true], onstack[j := true], seen, fin)
  {
    hide StackInv, Finished;
    StepExplore(net, segs, mark, onstack, seen, i, fin);
  }

  lemma StepFinishSplit(net: Net, segs: seq<seq<nat>>, mark: seq<bool>, onstack: seq<bool>, seen: set<nat>, i: nat, fin: seq<nat>)
    requires NetOk(net) && Sizes(net, mark, onstack)
    requires StackInv(net, segs, mark, onstack, seen, i) && Finished(net, mark, onstack, seen, fin)
    requires |segs| > 1 && segs[|segs| - 1] == [] && segs[|segs| - 2] != []
    ensures var v := Last(segs[|segs| - 2]);
      && v < |onstack| && StackInv(net, DropLast(segs[..|segs| - 1]), mark, onstack[v := false], seen, i)
      && Finished(net, mark, onstack[v := false], seen, fin + [v])
  {
    hide StackInv, Finished;
    StepFinish(net, segs, mark, onstack, seen, i, fin);
  }

  /** A zero on top stands above the gate to finish. */
  lemma TopZero(segs: seq<seq<nat>>)
    requires |segs| > 1 && segs[|segs| - 1] == [] && segs[|segs| - 2] != [] && NonZero(segs)
    ensures DropLast(segs[..|segs| - 1]) != []
    ensures var s := Join(segs);
      && |s| >= 2 && s[|s| - 2] == Last(segs[|segs| - 2]) && s[..|s| - 2] == Join(DropLast(segs[..|segs| - 1]))
  {
    var shorter := segs[..|segs| - 1];
    PopZero(segs);
    Top(shorter);
    PopVar(shorter);
    var s := Join(segs);
    assert s[..|s| - 1][..|s| - 2] == s[..|s| - 2];
  }

  /** `aiger_check_for_cycles`: an error exactly when a cycle runs through gates unmarked at the start. */
  method CheckForCycles(net: Net, mark: array<bool>, onstack: array<bool>) returns (error: bool)
    requires NetOk(net) && mark.Length == onstack.Length == |net.types| && mark != onstack
    requires forall v :: 0 <= v < onstack.Length ==> !onstack[v]
    modifies mark, onstack
    ensures error <==> Cyclic(net, MarkedIn(old(mark[..])))
    ensures !error ==> forall v :: 0 <= v < onstack.Length ==> !onstack[v]
    ensures !error ==> forall v :: 0 <= v < mark.Length && IsGate(net, v) ==> mark[v]
    ensures forall v :: 0 <= v < mark.Length && mark[v] ==> old(mark[v]) || IsGate(net, v)
  {
    hide Cyclic, Finished;
    ghost var seen := MarkedIn(mark[..]);
    ghost var fin: seq<nat> := [];
    NothingFinished(net, mark[..], onstack[..]);
    error := false;
    var i := 1;
    while !error && i < |net.types|
      invariant 1 <= i <= |net.types|
      invariant !error ==> forall v :: 0 <= v < onstack.Length ==> !onstack[v]
      invariant !error ==> Finished(net, mark[..], onstack[..], seen, fin)
      invariant !error ==> forall v :: 0 <= v < i && IsGate(net, v) ==> mark[v]
      invariant error ==> Cyclic(net, seen)
      invariant forall v :: 0 <= v < mark.Length && mark[v] ==> old(mark[v]) || IsGate(net, v)
    {
      if net.types[i].isAnd && !mark[i] {
        error, fin := SearchFrom(net, mark, onstack, i, seen, fin);
      }
      i := i + 1;
    }
    if !error {
      FinishedRanks(net, mark[..], onstack[..], seen, fin);
    }
  }

  ghost function MarkedIn(mark: seq<bool>): (r: set<nat>) {
    set v: nat | v < |mark| && mark[v]
  }

  lemma NothingFinished(net: Net, mark: seq<bool>, onstack: seq<bool>)
    requires Sizes(net, mark, onstack) && forall v :: 0 <= v < |onstack| ==> !onstack[v]
    ensures Finished(net, mark, onstack, MarkedIn(mark), [])
  {
  }

  /** Explore everything below gate `i`. */
  method SearchFrom(net: Net, mark: array<bool>, onstack: array<bool>, i: nat, ghost seen: set<nat>, ghost fin0: seq<nat>)
      returns (error: bool, ghost fin: seq<nat>)
    requires NetOk(net) && mark.Length == onstack.Length == |net.types| && mark != onstack && 0 < i < |net.types|
    requires forall v :: 0 <= v < onstack.Length ==> !onstack[v]
    requires net.types[i].isAnd && !mark[i] && Finished(net, mark[..], onstack[..], seen, fin0)
    modifies mark, onstack
    ensures error ==> Cyclic(net, seen)
    ensures !error ==> forall v :: 0 <= v < onstack.Length ==> !onstack[v]
    ensures !error ==> Finished(net, mark[..], onstack[..], seen, fin)
    ensures !error ==> mark[i] && forall v :: 0 <= v < mark.Length && old(mark[v]) ==> mark[v]
    ensures forall v :: 0 <= v < mark.Length && mark[v] ==> old(mark[v]) || IsGate(net, v)
  {
    hide StackInv, Finished, Cyclic, Join, NonZero, Inv, NetOk, Unmarked, Kids, DropLast;
    error, fin := false, fin0;
    var stack := [i];
    ghost var segs := [[i]];
    StartSearch(net, mark[..], onstack[..], seen, i);
    JoinOne(i);
    while stack != []
      invariant StackInv(net, segs, mark[..], onstack[..], seen, i) && Finished(net, mark[..], onstack[..], seen, fin)
      invariant segs != [] && stack == Join(segs)
      invariant mark[i] || segs == [[i]]
      invariant forall v :: 0 <= v < mark.Length && old(mark[v]) ==> mark[v]
      invariant forall v :: 0 <= v < mark.Length && mark[v] ==> old(mark[v]) || IsGate(net, v)
      decreases Unmarked(net, mark[..]), |stack|
    {
      SegsFacts(net, segs, mark[..], onstack[..], seen, i);
      Top(segs);
      ghost var m := |segs| - 1;
      var j := stack[|stack| - 1];
      ghost var marks, onstacks := mark[..], onstack[..];
      if j != 0 {
        if mark[j] && onstack[j] {
          MetAgain(net, segs, marks, onstacks, seen, i);
          return true, fin;
        }
        if !net.types[j].isAnd || mark[j] {
          StepDrop(net, segs, marks, onstacks, seen, i);
          DropIs(segs);
          stack := stack[..|stack| - 1];
          segs := DropLast(segs);
        } else {
          GateInTable(net, j);
          StepExploreSplit(net, segs, marks, onstacks, seen, i, fin);
          MarkShrinks(net, marks, j);
          mark[j] := true;
          onstack[j] := true;
          assert mark[..] == marks[j := true] && onstack[..] == onstacks[j := true];
          var g := GateOf(net, j);
          var a, b := Lit2Var(g.rhs0), Lit2Var(g.rhs1);
          PushKids(net, segs, j);
          stack := stack + [0];
          if a > 0 { stack := stack + [a]; }
          if b > 0 { stack := stack + [b]; }
          segs := segs + [Kids(net, j)];
        }
      } else {
        StepFinishSplit(net, segs, marks, onstacks, seen, i, fin);
        TopZero(segs);
        j := stack[|stack| - 2];
        stack := stack[..|stack| - 2];
        onstack[j] := false;
        assert onstack[..] == onstacks[j := false];
        segs := DropLast(segs[..m]);
        fin := fin + [j];
      }
    }
    SegsFacts(net, segs, mark[..], onstack[..], seen, i);
    Top(segs);
    EmptyStack(net, segs, mark[..], onstack[..], seen, i);
  }

  lemma JoinOne(i: nat)
    ensures Join([[i]]) == [i]
  {
  }

  lemma DropIs(segs: seq<seq<nat>>)
    requires segs != [] && segs[|segs| - 1] != []
    ensures DropLast(segs) != [] && var s := Join(segs); s != [] && s[..|s| - 1] == Join(DropLast(segs))
  {
    PopVar(segs);
  }

  lemma AllMarkedSeesNothing(net: Net, mark: seq<bool>)
    requires |mark| == |net.types| && forall v :: 0 <= v < |mark| && IsGate(net, v) ==> mark[v]
    ensures !Cyclic(net, MarkedIn(mark))
  {
    forall v ensures !DependsOn(net, MarkedIn(mark), v, v) {
      forall p ensures !Chain(net, MarkedIn(mark), p) {
        if |p| >= 2 {
          assert !ChainStep(net, MarkedIn(mark), p, 1);
        }
      }
    }
  }

  /** The only gate reads itself. */
  function SelfLoop(n: nat, v: nat): (net: Net)
    requires 0 < v < n
  {
    Net([And(2 * v, 2 * v, 2 * v)], seq(n, i => AType(false, false, i == v, 0)))
  }

  lemma SelfLoopCyclic(n: nat, v: nat)
    requires 0 < v < n
    ensures NetOk(SelfLoop(n, v)) && Cyclic(SelfLoop(n, v), {})
  {
    var net, p := SelfLoop(n, v), [v, v];
    assert IsGate(net, v) && Child(net, v, v);
    forall u | 0 <= u < n ensures GateOk(net, u) {}
    assert ChainStep(net, {}, p, 1);
    assert Chain(net, {}, p);
    assert DependsOn(net, {}, v, v);
  }

  /** Variable 0 is no gate, so its mark does not matter. */
  lemma ClearMarksSeeAll(net: Net, mark: seq<bool>)
    requires NetOk(net) && |mark| == |net.types| && forall v :: 0 < v < |mark| ==> !mark[v]
    ensures Cyclic(net, {}) ==> Cyclic(net, MarkedIn(mark))
  {
    if Cyclic(net, {}) {
      var v: nat :| DependsOn(net, {}, v, v);
      var p :| Chain(net, {}, p) && p[0] == v && p[|p| - 1] == v;
      forall k: nat | 1 <= k < |p| ensures ChainStep(net, MarkedIn(mark), p, k) {
        assert ChainStep(net, {}, p, k);
        ChildInTable(net, p[k - 1], p[k]);
      }
      assert Chain(net, MarkedIn(mark), p);
      assert DependsOn(net, MarkedIn(mark), v, v);
    }
  }

  /** With these marks the check reports every cycle of the net. */
  ghost predicate SeesAll(net: Net, mark: seq<bool>) {
    Cyclic(net, {}) ==> Cyclic(net, MarkedIn(mark))
  }

  /** The check is right for every net exactly when it starts with clear marks. */
  lemma MarksRightIff(mark: seq<bool>)
    ensures (forall net: Net {:trigger SeesAll(net, mark)} :: NetOk(net) && |net.types| == |mark| ==> SeesAll(net, mark))
            <==> forall v :: 0 < v < |mark| ==> !mark[v]
  {
    if forall v :: 0 < v < |mark| ==> !mark[v] {
      forall net: Net | NetOk(net) && |net.types| == |mark| ensures SeesAll(net, mark) {
        ClearMarksSeeAll(net, mark);
      }
    } else {
      var v: nat :| 0 < v < |mark| && mark[v];
      SelfLoopCyclic(|mark|, v);
      AllMarkedSeesNothing(SelfLoop(|mark|, v), mark);
      assert !SeesAll(SelfLoop(|mark|, v), mark);
    }
  }
}
