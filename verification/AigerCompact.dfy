/** The gate table after numbering: gates without a code dropped in place, the others translated, and the
    rest sorted by left-hand side (its/aiger/aiger.c, the second half of `aiger_reencode`). */
module AigerCompact {
  import opened AigerNet
  import opened AigerCycles
  import opened AigerNumbering
  import opened AigerCircuit
  import opened AigerRenumbered

  /** The translations of the gates that have a code, in table order. */
  ghost function Kept(ands: seq<And>, order: seq<nat>): (r: seq<And>)
    ensures |r| <= |ands|
  {
    if ands == [] then []
    else
      var last := ands[|ands| - 1];
      Kept(ands[..|ands| - 1], order) + if Known(order, last.lhs) then [NewGate(order, last)] else []
  }

  lemma {:induction false} KeptMembers(ands: seq<And>, order: seq<nat>, e: And)
    ensures e in Kept(ands, order) <==> exists i :: 0 <= i < |ands| && Known(order, ands[i].lhs) && e == NewGate(order, ands[i])
  {
    if ands != [] {
      var m := |ands| - 1;
      KeptMembers(ands[..m], order, e);
      if e in Kept(ands, order) {
        if e in Kept(ands[..m], order) {
          var i :| 0 <= i < m && Known(order, ands[..m][i].lhs) && e == NewGate(order, ands[..m][i]);
          assert Known(order, ands[i].lhs) && e == NewGate(order, ands[i]);
        } else {
          assert Known(order, ands[m].lhs) && e == NewGate(order, ands[m]);
        }
      }
      if i :| 0 <= i < |ands| && Known(order, ands[i].lhs) && e == NewGate(order, ands[i]) {
        if i < m {
          assert Known(order, ands[..m][i].lhs) && e == NewGate(order, ands[..m][i]);
        }
      }
    }
  }

  /** No two entries have the same left-hand side. */
  ghost predicate DistinctLhs(s: seq<And>) {
    forall i, j :: 0 <= i < j < |s| ==> s[i].lhs != s[j].lhs
  }

  lemma {:induction false} KeptDistinct(ands: seq<And>, order: seq<nat>)
    requires DistinctLhs(ands) && forall i :: 0 <= i < |ands| ==> ands[i].lhs >= 2 && !Sign(ands[i].lhs)
    ensures DistinctLhs(Kept(ands, order))
  {
    if ands != [] {
      var m := |ands| - 1;
      KeptDistinct(ands[..m], order);
      if Known(order, ands[m].lhs) {
        var r := Kept(ands[..m], order);
        forall k | 0 <= k < |r| ensures r[k].lhs != CodeOf(order, ands[m].lhs) {
          KeptMembers(ands[..m], order, r[k]);
          var i :| 0 <= i < m && Known(order, ands[..m][i].lhs) && r[k] == NewGate(order, ands[..m][i]);
          CodeVar(order, ands[i].lhs);
          CodeVar(order, ands[m].lhs);
        }
      }
    }
  }

  // ---------------------------------------------------------------- sorting

  ghost predicate SortedByLhs(s: seq<And>) {
    forall i, j :: 0 <= i < j < |s| ==> s[i].lhs <= s[j].lhs
  }

  ghost predicate StrictByLhs(s: seq<And>) {
    forall i, j :: 0 <= i < j < |s| ==> s[i].lhs < s[j].lhs
  }

  function Insert(x: And, s: seq<And>): (r: seq<And>) {
    if s == [] || x.lhs <= s[0].lhs then [x] + s else [s[0]] + Insert(x, s[1..])
  }

  lemma {:induction false} InsertPermutes(x: And, s: seq<And>)
    ensures multiset(Insert(x, s)) == multiset(s) + multiset{x}
  {
    if s != [] {
      assert s == [s[0]] + s[1..];
      InsertPermutes(x, s[1..]);
    }
  }

  lemma {:induction false} InsertSorts(x: And, s: seq<And>)
    requires SortedByLhs(s)
    ensures SortedByLhs(Insert(x, s))
  {
    if s != [] && x.lhs > s[0].lhs {
      InsertSorts(x, s[1..]);
      InsertPermutes(x, s[1..]);
      var rest := Insert(x, s[1..]);
      forall j | 0 <= j < |rest| ensures s[0].lhs <= rest[j].lhs {
        assert rest[j] in multiset(rest);
        assert rest[j] in s[1..] || rest[j] == x;
      }
    }
  }

  function Sort(s: seq<And>): (r: seq<And>)
    ensures SortedByLhs(r) && multiset(r) == multiset(s) && |r| == |s|
  {
    if s == [] then []
    else
      assert s == [s[0]] + s[1..];
      var rest := Sort(s[1..]);
      InsertSorts(s[0], rest);
      InsertPermutes(s[0], rest);
      assert |multiset(Insert(s[0], rest))| == |s|;
      Insert(s[0], rest)
  }

  /** `qsort` of the first `n` gates by left-hand side: some sorted permutation of them. */
  method SortAnds(ands: array<And>, n: nat)
    requires n <= ands.Length
    modifies ands
    ensures SortedByLhs(ands[..n]) && multiset(ands[..n]) == multiset(old(ands[..n]))
  {
    var s := Sort(ands[..n]);
    var i := 0;
    while i < n
      invariant 0 <= i <= n && ands[..i] == s[..i]
    {
      ands[i] := s[i];
      i := i + 1;
    }
    assert ands[..n] == s;
  }

  lemma TwoPlaces(s: seq<And>, i: nat, j: nat)
    requires i < j < |s| && s[i] == s[j]
    ensures multiset(s)[s[i]] >= 2
  {
    assert s == s[..j] + s[j..];
    assert s[..j][i] == s[i] && s[j..][0] == s[j];
    assert s[i] in s[..j] && s[i] in s[j..];
  }

  lemma {:induction false} OncePlace(s: seq<And>, e: And)
    requires DistinctLhs(s)
    ensures multiset(s)[e] <= 1
  {
    if s != [] {
      assert s == s[..|s| - 1] + [s[|s| - 1]];
      OncePlace(s[..|s| - 1], e);
      if e == s[|s| - 1] {
        assert e !in s[..|s| - 1];
      }
    }
  }

  /** Sorting a table of distinct left-hand sides leaves them strictly ascending. */
  lemma SortedStrict(s: seq<And>, r: seq<And>)
    requires DistinctLhs(s) && SortedByLhs(r) && multiset(r) == multiset(s)
    ensures StrictByLhs(r)
  {
    forall i, j | 0 <= i < j < |r| ensures r[i].lhs < r[j].lhs {
      if r[i].lhs == r[j].lhs {
        assert r[i] in multiset(s) && r[j] in multiset(s);
        assert r[i] == r[j];
        TwoPlaces(r, i, j);
        OncePlace(s, r[i]);
      }
    }
  }

  /** Strictly ascending tables with the same entries are equal. */
  lemma {:induction false} StrictUnique(a: seq<And>, b: seq<And>)
    requires StrictByLhs(a) && StrictByLhs(b) && forall e :: e in a <==> e in b
    ensures a == b
  {
    assert |b| > 0 ==> b[0] in a;
    if a != [] {
      assert a[0] in b;
      assert b[0] in a;
      assert a[0] == b[0];
      forall e ensures e in a[1..] <==> e in b[1..] {
        TailMember(a, e);
        TailMember(b, e);
      }
      StrictUnique(a[1..], b[1..]);
    }
  }

  lemma TailMember(a: seq<And>, e: And)
    requires a != [] && StrictByLhs(a)
    ensures e in a[1..] <==> e in a && e != a[0]
  {
    if e in a && e != a[0] {
      var i :| 0 <= i < |a| && a[i] == e;
      assert a[1..][i - 1] == e;
    }
  }

  // ---------------------------------------------------------------- the new gate table

  ghost function NewAnds(c: Circuit, order: seq<nat>): (r: seq<And>)
    requires OrderOk(c, order)
  {
    var n := |c.inputs| + |c.latches|;
    seq(|order| - n, k requires 0 <= k < |order| - n => NewGate(order, GateOf(NetOf(c), order[n + k])))
  }

  lemma NewLhs(c: Circuit, order: seq<nat>, p: nat)
    requires CheckedCircuit(c) && OrderOk(c, order) && |c.inputs| + |c.latches| <= p < |order|
    ensures IsGate(NetOf(c), order[p]) && NewGate(order, GateOf(NetOf(c), order[p])).lhs == 2 * (p + 1)
  {
    hide CheckedCircuit, Topological;
    GateFacts(c, order[p]);
    IndexIs(order, p);
  }

  lemma NewAndsStrict(c: Circuit, order: seq<nat>)
    requires CheckedCircuit(c) && OrderOk(c, order)
    ensures StrictByLhs(NewAnds(c, order))
  {
    hide CheckedCircuit, Topological, NewGate;
    var n := |c.inputs| + |c.latches|;
    var r := NewAnds(c, order);
    forall i, j | 0 <= i < j < |r| ensures r[i].lhs < r[j].lhs {
      NewLhs(c, order, n + i);
      NewLhs(c, order, n + j);
    }
  }

  /** The gate at position `p` is kept. */
  lemma NewIsKept(c: Circuit, order: seq<nat>, p: nat)
    requires CheckedCircuit(c) && OrderOk(c, order) && |c.inputs| + |c.latches| <= p < |order|
    ensures IsGate(NetOf(c), order[p]) && NewGate(order, GateOf(NetOf(c), order[p])) in Kept(c.ands, order)
  {
    hide CheckedCircuit, Topological, NewGate, Kept;
    GateFacts(c, order[p]);
    var i := c.types[order[p]].idx;
    var e := NewGate(order, c.ands[i]);
    KeptMembers(c.ands, order, e);
    assert Known(order, c.ands[i].lhs);
  }

  /** A kept gate has a position. */
  lemma KeptIsNew(c: Circuit, order: seq<nat>, i: nat) returns (p: nat)
    requires CheckedCircuit(c) && OrderOk(c, order) && i < |c.ands| && Known(order, c.ands[i].lhs)
    ensures |c.inputs| + |c.latches| <= p < |order| && IsGate(NetOf(c), order[p]) && GateOf(NetOf(c), order[p]) == c.ands[i]
  {
    hide Topological, Cyclic, Root, OrderOk;
    assert Owns(c, c.ands[i].lhs, AndType(i));
    p :| p < |order| && order[p] == Lit2Var(c.ands[i].lhs);
    if p < |c.inputs| + |c.latches| { LeafNoGate(c, order, p); }
  }

  lemma NewAndsKept(c: Circuit, order: seq<nat>, e: And)
    requires CheckedCircuit(c) && OrderOk(c, order)
    ensures e in NewAnds(c, order) <==> e in Kept(c.ands, order)
  {
    hide CheckedCircuit, Topological, NewGate, Kept;
    var n := |c.inputs| + |c.latches|;
    var r := NewAnds(c, order);
    KeptMembers(c.ands, order, e);
    if e in r {
      var k :| 0 <= k < |r| && r[k] == e;
      NewIsKept(c, order, n + k);
    }
    if i :| 0 <= i < |c.ands| && Known(order, c.ands[i].lhs) && e == NewGate(order, c.ands[i]) {
      var p := KeptIsNew(c, order, i);
      assert r[p - n] == e;
    }
  }

  /** Whatever sorted permutation of the kept gates the sort leaves, it is the new table. */
  lemma SortedKept(c: Circuit, order: seq<nat>, r: seq<And>)
    requires CheckedCircuit(c) && OrderOk(c, order)
    requires SortedByLhs(r) && multiset(r) == multiset(Kept(c.ands, order))
    ensures r == NewAnds(c, order)
  {
    hide OrderOk, Cyclic, Root;
    forall i, j | 0 <= i < j < |c.ands| ensures c.ands[i].lhs != c.ands[j].lhs {
      assert Owns(c, c.ands[i].lhs, AndType(i)) && Owns(c, c.ands[j].lhs, AndType(j));
    }
    forall i | 0 <= i < |c.ands| ensures c.ands[i].lhs >= 2 && !Sign(c.ands[i].lhs) {
      assert Owns(c, c.ands[i].lhs, AndType(i));
    }
    KeptDistinct(c.ands, order);
    SortedStrict(Kept(c.ands, order), r);
    NewAndsStrict(c, order);
    forall e ensures e in r <==> e in NewAnds(c, order) {
      NewAndsKept(c, order, e);
      assert e in r <==> e in multiset(r);
    }
    StrictUnique(r, NewAnds(c, order));
  }
}
