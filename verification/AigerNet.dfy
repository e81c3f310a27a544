/** And-inverter graphs as the AIGER library stores them (its/aiger/aiger.h, aiger.c).

    A literal is twice a variable plus a sign; variable 0 is the constant false. The type table says of
    each variable whether it is an input, a latch or a gate, and at which index of its table. The mark
    and on-stack bits of the table are kept in separate arrays. */
module AigerNet {

  function Lit2Var(lit: nat): (v: nat) {
    lit / 2
  }

  function Var2Lit(v: nat): (lit: nat) {
    2 * v
  }

  predicate Sign(lit: nat) {
    lit % 2 == 1
  }

  function Not(lit: nat): (r: nat) {
    if Sign(lit) then lit - 1 else lit + 1
  }

  datatype And = And(lhs: nat, rhs0: nat, rhs1: nat)
  datatype Latch = Latch(lit: nat, next: nat, reset: nat)
  datatype AType = AType(input: bool, latch: bool, isAnd: bool, idx: nat)

  /** The gate table and the type table. */
  datatype Net = Net(ands: seq<And>, types: seq<AType>)

  predicate IsGate(net: Net, v: nat) {
    v < |net.types| && net.types[v].isAnd && net.types[v].idx < |net.ands|
  }

  function GateOf(net: Net, v: nat): And
    requires IsGate(net, v)
  {
    net.ands[net.types[v].idx]
  }

  /** `u` is a variable the gate `v` reads. */
  predicate Child(net: Net, v: nat, u: nat) {
    IsGate(net, v) && u > 0 && (u == Lit2Var(GateOf(net, v).rhs0) || u == Lit2Var(GateOf(net, v).rhs1))
  }

  ghost predicate GateOk(net: Net, v: nat)
    requires v < |net.types|
  {
    net.types[v].isAnd ==>
      && net.types[v].idx < |net.ands| && GateOf(net, v).lhs == Var2Lit(v)
      && Lit2Var(GateOf(net, v).rhs0) < |net.types| && Lit2Var(GateOf(net, v).rhs1) < |net.types|
  }

  /** Gates are found through the type table and read variables of the table. */
  ghost predicate NetOk(net: Net) {
    |net.types| > 0 && !net.types[0].isAnd && forall v {:trigger net.types[v]} :: 0 <= v < |net.types| ==> GateOk(net, v)
  }

  lemma ChildInTable(net: Net, v: nat, u: nat)
    requires NetOk(net) && Child(net, v, u)
    ensures v < |net.types| && u < |net.types| && v > 0
  {
    assert GateOk(net, v);
  }
}
