/** The pooled allocator of the explicit-state engine (its/divine/pool.h).

    Free items are chained through their own first word, so the allocator is right only while no item shares
    a byte with another, with a free item, or with the unused end of a block. Words have 8 bytes. */
module Pool {

  const WORD_SIZE: nat := 8
  const MAX_BLOCK: nat := 4 * 1024 * 1024
  const NULL: nat := 0

  // ---------------------------------------------------------------- memory

  /** The words stored so far, by address. */
  type Memory = map<nat, nat>

  /** `n` bytes at `a` and `m` bytes at `b` share none. */
  predicate Apart(a: nat, n: nat, b: nat, m: nat) {
    n == 0 || m == 0 || a + n <= b || b + m <= a
  }

  /** A store destroys every word it overlaps. */
  function Store(mem: Memory, at: nat, w: nat): (r: Memory) {
    (map b | b in mem && Apart(b, WORD_SIZE, at, WORD_SIZE) :: mem[b])[at := w]
  }

  /** The chain of free items that starts at `head`. */
  ghost predicate Chain(mem: Memory, head: nat, items: seq<nat>)
    decreases |items|
  {
    if items == [] then head == NULL
    else head == items[0] && head != NULL && head in mem && Chain(mem, mem[head], items[1..])
  }

  /** A store apart from the words of a chain leaves the chain. */
  lemma {:induction false} ChainKept(mem: Memory, head: nat, items: seq<nat>, at: nat, w: nat)
    requires Chain(mem, head, items) && forall k :: 0 <= k < |items| ==> Apart(items[k], WORD_SIZE, at, WORD_SIZE)
    ensures Chain(Store(mem, at, w), head, items)
    decreases |items|
  {
    if items != [] {
      forall k | 0 <= k < |items[1..]| ensures Apart(items[1..][k], WORD_SIZE, at, WORD_SIZE) {
        assert items[1..][k] == items[k + 1];
      }
      ChainKept(mem, mem[head], items[1..], at, w);
    }
  }

  /** Returning an item keeps the chain in the free item right behind it exactly when items hold a word. */
  lemma NeighbourKeptIff(mem: Memory, a: nat, item: nat, w: nat)
    requires item > 0 && Chain(mem, a + item, [a + item])
    ensures Chain(Store(mem, a, w), a + item, [a + item]) <==> item >= WORD_SIZE
  {
    var after := Store(mem, a, w);
    if item >= WORD_SIZE {
      ChainKept(mem, a + item, [a + item], a, w);
    } else {
      assert a + item !in after;
    }
  }

  // ---------------------------------------------------------------- groups

  /** The items of one size: `current` to `last` is the unused end of the newest block, of size `back`. */
  datatype Group = Group(item: nat, used: nat, total: nat, free: nat, current: nat, last: nat, back: nat)

  const NO_GROUP := Group(0, 0, 0, NULL, 0, 0, 0)

  /** `adjustSize`: up to a multiple of 4. */
  function AdjustSize(bytes: nat): (r: nat)
    ensures r % 4 == 0 && bytes <= r < bytes + 4
  {
    (bytes + 3) / 4 * 4
  }

  function Min(a: nat, b: nat): (r: nat) {
    if a < b then a else b
  }

  /** A block added to the group; what was left of the last one is lost. */
  function Grow(g: Group, heap: nat): (r: Group) {
    var s := Min(4 * g.back, MAX_BLOCK);
    g.(current := heap, last := heap + s, total := g.total + s, back := s)
  }

  // ---------------------------------------------------------------- sizes

  /** When the last block holds an item, the next one does exactly for items that fit the largest block. */
  lemma BlockFitsIff(g: Group, heap: nat)
    requires g.item <= g.back
    ensures g.item <= Grow(g, heap).back <==> g.item <= MAX_BLOCK
  {
  }

  /** The tail of `allocate`: a new block if the item does not fit, then the next bytes. */
  ghost function TakeNext(g: Group, heap: nat): (r: Group) {
    var h := if g.current + g.item > g.last then Grow(g, heap) else g;
    h.(current := h.current + h.item, used := h.used + h.item)
  }

  /** A new group after `n` allocations with nothing freed, the blocks anywhere. */
  ghost function Taken(item: nat, heaps: nat -> nat, n: nat): (r: Group) {
    if n == 0 then Group(item, 0, 4096 * item, NULL, heaps(0), heaps(0) + 4096 * item, 4096 * item)
    else TakeNext(Taken(item, heaps, n - 1), heaps(n))
  }

  lemma {:induction false} FitsTaken(item: nat, heaps: nat -> nat, n: nat)
    requires 0 < item <= MAX_BLOCK
    ensures var g := Taken(item, heaps, n);
      g.item == item <= g.back && g.current <= g.last && g.used + (g.last - g.current) <= g.total
  {
    if n > 0 {
      FitsTaken(item, heaps, n - 1);
      BlockFitsIff(Taken(item, heaps, n - 1), heaps(n));
    }
  }

  lemma {:induction false} FirstBlockTaken(item: nat, heaps: nat -> nat, n: nat)
    requires item > 0 && n <= 4096
    ensures var g := Taken(item, heaps, n);
      && g.item == item && g.used == n * item && g.total == g.back == 4096 * item
      && g.current == heaps(0) + n * item && g.last == heaps(0) + 4096 * item
  {
    if n > 0 {
      FirstBlockTaken(item, heaps, n - 1);
      Multiple(item, n);
    }
  }

  lemma Multiple(item: nat, n: nat)
    requires 0 < n <= 4096
    ensures n * item == (n - 1) * item + item && n * item <= 4096 * item
  {
  }

  /** The assertion at the end of `allocate` holds throughout exactly for items that fit the largest block; above, the
      first allocation from the second block breaks it. */
  lemma UsedFitsIff(item: nat, heaps: nat -> nat)
    requires item > 0
    ensures (forall n: nat :: Taken(item, heaps, n).used <= Taken(item, heaps, n).total) <==> item <= MAX_BLOCK
    ensures item > MAX_BLOCK ==> Taken(item, heaps, 4097).used > Taken(item, heaps, 4097).total
  {
    if item <= MAX_BLOCK {
      forall n: nat ensures Taken(item, heaps, n).used <= Taken(item, heaps, n).total {
        FitsTaken(item, heaps, n);
      }
    } else {
      FirstBlockTaken(item, heaps, 4096);
      assert Taken(item, heaps, 4097) == TakeNext(Taken(item, heaps, 4096), heaps(4097));
    }
  }

  // ---------------------------------------------------------------- layouts

  /** Group `k` holds items of 4k bytes: those handed out, and those chained as free. */
  datatype Layout = Layout(groups: seq<Group>, live: seq<set<nat>>, spare: seq<seq<nat>>)

  ghost predicate Sized(st: Layout) {
    |st.live| == |st.spare| == |st.groups|
  }

  ghost predicate Item(st: Layout, k: nat, a: nat)
    requires Sized(st)
  {
    k < |st.groups| && (a in st.live[k] || a in st.spare[k])
  }

  ghost predicate Distinct(s: seq<nat>) {
    forall i, j :: 0 <= i < j < |s| ==> s[i] != s[j]
  }

  /** Bytes handed out are counted as used; used, free and unused bytes fit in the total. */
  ghost predicate Counted(st: Layout, k: nat)
    requires Sized(st) && k < |st.groups|
  {
    var g := st.groups[k];
    && g.current <= g.last
    && g.item * |st.live[k]| <= g.used
    && g.used + g.item * |st.spare[k]| + (g.last - g.current) <= g.total
  }

  ghost predicate GroupOk(st: Layout, k: nat)
    requires Sized(st) && k < |st.groups|
  {
    var g := st.groups[k];
    && Counted(st, k) && Distinct(st.spare[k]) && (forall a :: a in st.spare[k] ==> a !in st.live[k])
    && (if g.total == 0 then g == NO_GROUP && st.live[k] == {} && st.spare[k] == []
        else g.item == 4 * k && WORD_SIZE <= g.item <= MAX_BLOCK && g.item <= g.back && g.current > 0)
    && NULL !in st.live[k] && NULL !in st.spare[k]
  }

  /** No item shares a byte with another item or with the unused end of a block, and no two ends do. */
  ghost predicate AllApart(st: Layout)
    requires Sized(st) && forall k: nat {:trigger GroupOk(st, k)} :: k < |st.groups| ==> GroupOk(st, k)
  {
    && (forall k: nat, a: nat, l: nat, b: nat :: Item(st, k, a) && Item(st, l, b) && (k != l || a != b) ==> Apart(a, 4 * k, b, 4 * l))
    && (forall k: nat, a: nat, l: nat :: Item(st, k, a) && l < |st.groups| ==> ApartFromEnd(st, a, 4 * k, l))
    && (forall k: nat, l: nat :: k < l < |st.groups| ==> EndsApart(st, k, l))
  }

  ghost predicate ApartFromEnd(st: Layout, a: nat, n: nat, l: nat)
    requires Sized(st) && l < |st.groups|
  {
    var g := st.groups[l];
    g.current <= g.last && Apart(a, n, g.current, g.last - g.current)
  }

  ghost predicate EndsApart(st: Layout, k: nat, l: nat)
    requires Sized(st) && k < |st.groups| && l < |st.groups|
  {
    var g := st.groups[k];
    g.current <= g.last && ApartFromEnd(st, g.current, g.last - g.current, l)
  }

  ghost predicate Chains(st: Layout, mem: Memory)
    requires Sized(st)
  {
    forall k {:trigger st.spare[k]} :: 0 <= k < |st.groups| ==> Chain(mem, st.groups[k].free, st.spare[k])
  }

  ghost predicate LayoutOk(st: Layout) {
    && Sized(st) && (forall k: nat {:trigger GroupOk(st, k)} :: k < |st.groups| ==> GroupOk(st, k))
    && AllApart(st)
  }

  /** Memory that nothing in the pool uses. */
  ghost predicate Unused(st: Layout, a: nat, n: nat)
    requires Sized(st)
  {
    && a > 0
    && (forall k: nat, b: nat :: Item(st, k, b) ==> Apart(b, 4 * k, a, n))
    && (forall l: nat :: l < |st.groups| ==> ApartFromEnd(st, a, n, l))
  }

  // ---------------------------------------------------------------- what the operations do to the layout

  ghost function SetGroup(st: Layout, k: nat, g: Group): (r: Layout)
    requires k < |st.groups|
  {
    st.(groups := st.groups[k := g])
  }

  /** `newBlock`: another end; what was left of the old one is lost. */
  lemma NewEnd(st: Layout, k: nat, heap: nat, s: nat)
    requires LayoutOk(st) && k < |st.groups| && st.groups[k].total > 0 && Unused(st, heap, s)
    requires s == Min(4 * st.groups[k].back, MAX_BLOCK)
    ensures LayoutOk(SetGroup(st, k, Grow(st.groups[k], heap)))
  {
    var g' := Grow(st.groups[k], heap);
    var st' := SetGroup(st, k, g');
    assert GroupOk(st, k);
    forall l: nat | l < |st'.groups| ensures GroupOk(st', l) {
      assert GroupOk(st, l);
    }
    forall l: nat, a: nat | Item(st', l, a) ensures Item(st, l, a) {
    }
    forall l: nat, m: nat | l < m < |st'.groups| ensures EndsApart(st', l, m) {
      assert EndsApart(st, l, m);
      assert ApartFromEnd(st, heap, s, l) && ApartFromEnd(st, heap, s, m);
    }
    forall l: nat, a: nat, m: nat | Item(st', l, a) && m < |st'.groups| ensures ApartFromEnd(st', a, 4 * l, m) {
      assert ApartFromEnd(st, a, 4 * l, m);
    }
  }

  /** The same items, handed out or free; ends as they were or shorter. */
  ghost predicate SameItems(st: Layout, st': Layout) {
    && Sized(st) && Sized(st') && |st.groups| == |st'.groups|
    && (forall k: nat, a: nat {:trigger Item(st', k, a)} :: Item(st', k, a) <==> Item(st, k, a))
    && (forall l: nat {:trigger st'.groups[l]} :: l < |st.groups| ==>
      st'.groups[l].current == st.groups[l].current && st'.groups[l].last == st.groups[l].last)
  }

  lemma SameItemsApart(st: Layout, st': Layout)
    requires LayoutOk(st) && SameItems(st, st') && forall k: nat {:trigger GroupOk(st', k)} :: k < |st'.groups| ==> GroupOk(st', k)
    ensures LayoutOk(st')
  {
    forall k: nat, a: nat, l: nat | Item(st', k, a) && l < |st'.groups| ensures ApartFromEnd(st', a, 4 * k, l) {
      assert Item(st, k, a);
      assert ApartFromEnd(st, a, 4 * k, l);
      assert st'.groups[l].current == st.groups[l].current;
    }
    forall k: nat, l: nat | k < l < |st'.groups| ensures EndsApart(st', k, l) {
      assert EndsApart(st, k, l);
      assert st'.groups[l].current == st.groups[l].current && st'.groups[k].current == st.groups[k].current;
    }
  }

  lemma OneMore(item: nat, n: nat)
    ensures item * (n + 1) == item * n + item && item * n >= 0
  {
  }

  /** The first free item is handed out. */
  ghost function TakeSpare(st: Layout, k: nat, next: nat): (r: Layout)
    requires Sized(st) && k < |st.groups| && st.spare[k] != []
  {
    var g := st.groups[k];
    Layout(st.groups[k := g.(free := next, used := g.used + g.item)],
      st.live[k := st.live[k] + {st.spare[k][0]}], st.spare[k := st.spare[k][1..]])
  }

  lemma TakeSpareOk(st: Layout, k: nat, next: nat)
    requires LayoutOk(st) && k < |st.groups| && st.spare[k] != []
    ensures LayoutOk(TakeSpare(st, k, next)) && st.spare[k][0] !in st.live[k]
  {
    hide AllApart;
    var st' := TakeSpare(st, k, next);
    assert GroupOk(st, k);
    OneMore(st.groups[k].item, |st.live[k]|);
    OneMore(st.groups[k].item, |st.spare[k]| - 1);
    forall l: nat | l < |st'.groups| ensures GroupOk(st', l) {
      assert GroupOk(st, l);
      if l == k { GroupTook(st, k, next); }
    }
    forall l: nat, a: nat ensures Item(st', l, a) <==> Item(st, l, a) {
      if l == k { assert st.spare[k] == [st.spare[k][0]] + st.spare[k][1..]; }
    }
    SameItemsApart(st, st');
  }

  lemma GroupTook(st: Layout, k: nat, next: nat)
    requires Sized(st) && k < |st.groups| && GroupOk(st, k) && st.spare[k] != []
    ensures GroupOk(TakeSpare(st, k, next), k)
  {
    var items := st.spare[k];
    OneMore(st.groups[k].item, |st.live[k]|);
    OneMore(st.groups[k].item, |items| - 1);
    assert items == [items[0]] + items[1..];
    assert items[0] in items;
    assert forall a :: a in items[1..] ==> a in items && a != items[0];
  }

  /** A live item becomes the first free one; `used` drops, or `total` grows when it is stolen. */
  ghost function GiveBack(st: Layout, k: nat, a: nat, stolen: bool): (r: Layout)
    requires Sized(st) && k < |st.groups| && GroupOk(st, k) && a in st.live[k]
  {
    UsedEnough(st, k, a);
    var g := st.groups[k];
    Layout(st.groups[k := if stolen then g.(free := a, total := g.total + g.item) else g.(free := a, used := g.used - g.item)],
      st.live[k := st.live[k] - {a}], st.spare[k := [a] + st.spare[k]])
  }

  lemma UsedEnough(st: Layout, k: nat, a: nat)
    requires Sized(st) && k < |st.groups| && GroupOk(st, k) && a in st.live[k]
    ensures st.groups[k].item <= st.groups[k].used && |st.live[k]| > 0
  {
    assert |st.live[k] - {a}| == |st.live[k]| - 1;
    OneMore(st.groups[k].item, |st.live[k] - {a}|);
  }

  lemma GroupGave(st: Layout, k: nat, a: nat, stolen: bool)
    requires Sized(st) && k < |st.groups| && GroupOk(st, k) && a in st.live[k]
    ensures GroupOk(GiveBack(st, k, a, stolen), k)
  {
    UsedEnough(st, k, a);
    OneMore(st.groups[k].item, |st.live[k]| - 1);
    OneMore(st.groups[k].item, |st.spare[k]|);
    assert |st.live[k] - {a}| == |st.live[k]| - 1;
    assert |[a] + st.spare[k]| == |st.spare[k]| + 1;
    assert forall b :: b in [a] + st.spare[k] <==> b == a || b in st.spare[k];
  }

  lemma GiveBackOk(st: Layout, k: nat, a: nat, stolen: bool)
    requires LayoutOk(st) && k < |st.groups| && GroupOk(st, k) && a in st.live[k]
    ensures LayoutOk(GiveBack(st, k, a, stolen))
  {
    hide AllApart;
    var st' := GiveBack(st, k, a, stolen);
    forall l: nat | l < |st'.groups| ensures GroupOk(st', l) {
      assert GroupOk(st, l);
      if l == k { GroupGave(st, k, a, stolen); }
    }
    var spare := [a] + st.spare[k];
    assert st'.spare[k] == spare && st'.live[k] == st.live[k] - {a};
    assert spare[0] == a && forall b :: b in spare <==> b == a || b in st.spare[k];
    forall l: nat, b: nat ensures Item(st', l, b) <==> Item(st, l, b) {
      if l != k && l < |st.groups| { assert st'.live[l] == st.live[l] && st'.spare[l] == st.spare[l]; }
    }
    SameItemsApart(st, st');
  }

  /** The next bytes of the block are handed out. */
  ghost function TakeEnd(st: Layout, k: nat): (r: Layout)
    requires Sized(st) && k < |st.groups|
  {
    var g := st.groups[k];
    Layout(st.groups[k := g.(current := g.current + g.item, used := g.used + g.item)], st.live[k := st.live[k] + {g.current}], st.spare)
  }

  lemma TakeEndOk(st: Layout, k: nat)
    requires LayoutOk(st) && k < |st.groups| && st.groups[k].total > 0 && st.groups[k].current + st.groups[k].item <= st.groups[k].last
    ensures LayoutOk(TakeEnd(st, k)) && !Item(st, k, st.groups[k].current)
  {
    hide AllApart, Counted;
    var st' := TakeEnd(st, k);
    assert GroupOk(st, k);
    EndIsNew(st, k);
    forall l: nat | l < |st'.groups| ensures GroupOk(st', l) {
      assert GroupOk(st, l);
      if l == k { GroupTookEnd(st, k); } else { OtherGroup(st, st', l); }
    }
    EndTakenApart(st, k);
  }

  lemma EndIsNew(st: Layout, k: nat)
    requires LayoutOk(st) && k < |st.groups| && st.groups[k].total > 0
    requires GroupOk(st, k) && st.groups[k].current + st.groups[k].item <= st.groups[k].last
    ensures !Item(st, k, st.groups[k].current)
  {
    hide Counted;
    forall b: nat | Item(st, k, b) ensures b != st.groups[k].current {
      assert ApartFromEnd(st, b, 4 * k, k);
    }
  }

  lemma GroupTookEnd(st: Layout, k: nat)
    requires Sized(st) && k < |st.groups| && GroupOk(st, k) && st.groups[k].total > 0
    requires st.groups[k].current + st.groups[k].item <= st.groups[k].last && !Item(st, k, st.groups[k].current)
    ensures GroupOk(TakeEnd(st, k), k)
  {
    var g := st.groups[k];
    OneMore(g.item, |st.live[k]|);
    assert |st.live[k] + {g.current}| == |st.live[k]| + 1;
  }

  /** A group the operation does not touch. */
  lemma OtherGroup(st: Layout, st': Layout, l: nat)
    requires Sized(st) && Sized(st') && l < |st.groups| == |st'.groups| && GroupOk(st, l)
    requires st'.groups[l] == st.groups[l] && st'.live[l] == st.live[l] && st'.spare[l] == st.spare[l]
    ensures GroupOk(st', l)
  {
  }

  lemma EndTakenApart(st: Layout, k: nat)
    requires LayoutOk(st) && k < |st.groups| && GroupOk(st, k) && st.groups[k].total > 0
    requires st.groups[k].current + st.groups[k].item <= st.groups[k].last
    requires forall l: nat {:trigger GroupOk(TakeEnd(st, k), l)} :: l < |st.groups| ==> GroupOk(TakeEnd(st, k), l)
    ensures AllApart(TakeEnd(st, k))
  {
    hide GroupOk;
    var g, st' := st.groups[k], TakeEnd(st, k);
    var a := g.current;
    GroupSize(st, k);
    forall l: nat, b: nat, m: nat, d: nat | Item(st', l, b) && Item(st', m, d) && (l != m || b != d)
      ensures Apart(b, 4 * l, d, 4 * m)
    {
      if Item(st, l, b) { assert ApartFromEnd(st, b, 4 * l, k); }
      if Item(st, m, d) { assert ApartFromEnd(st, d, 4 * m, k); }
    }
    forall l: nat, b: nat, m: nat | Item(st', l, b) && m < |st'.groups| ensures ApartFromEnd(st', b, 4 * l, m) {
      if Item(st, l, b) {
        assert ApartFromEnd(st, b, 4 * l, m);
      } else if m < k {
        assert EndsApart(st, m, k);
      } else if m > k {
        assert EndsApart(st, k, m);
      }
    }
    forall l: nat, m: nat | l < m < |st'.groups| ensures EndsApart(st', l, m) {
      assert EndsApart(st, l, m);
    }
  }

  lemma GroupSize(st: Layout, k: nat)
    requires Sized(st) && k < |st.groups| && GroupOk(st, k) && st.groups[k].total > 0
    ensures st.groups[k].item == 4 * k && st.groups[k].current <= st.groups[k].last && WORD_SIZE <= 4 * k <= MAX_BLOCK
    ensures st.groups[k].item <= st.groups[k].back
  {
  }

  /** Memory from elsewhere becomes a free item, and counts in the total. */
  ghost function TakeIn(st: Layout, k: nat, a: nat): (r: Layout)
    requires Sized(st) && k < |st.groups|
  {
    var g := st.groups[k];
    Layout(st.groups[k := g.(free := a, total := g.total + g.item)], st.live, st.spare[k := [a] + st.spare[k]])
  }

  lemma TakeInOk(st: Layout, k: nat, a: nat)
    requires LayoutOk(st) && k < |st.groups| && st.groups[k].total > 0 && Unused(st, a, 4 * k)
    ensures LayoutOk(TakeIn(st, k, a))
  {
    var g, st' := st.groups[k], TakeIn(st, k, a);
    assert GroupOk(st, k);
    assert !Item(st, k, a);
    OneMore(g.item, |st.spare[k]|);
    assert forall b :: b in st'.spare[k] <==> b == a || b in st.spare[k];
    forall l: nat | l < |st'.groups| ensures GroupOk(st', l) {
      assert GroupOk(st, l);
    }
    TakenInApart(st, k, a);
  }

  lemma TakenInApart(st: Layout, k: nat, a: nat)
    requires LayoutOk(st) && k < |st.groups| && Unused(st, a, 4 * k)
    requires forall l: nat {:trigger GroupOk(TakeIn(st, k, a), l)} :: l < |st.groups| ==> GroupOk(TakeIn(st, k, a), l)
    ensures AllApart(TakeIn(st, k, a))
  {
    hide GroupOk;
    var st' := TakeIn(st, k, a);
    forall l: nat, b: nat ensures Item(st', l, b) <==> Item(st, l, b) || (l == k && b == a) {
      if l == k { assert b in [a] + st.spare[k] <==> b == a || b in st.spare[k]; }
    }
    forall l: nat, b: nat, m: nat | Item(st', l, b) && m < |st'.groups| ensures ApartFromEnd(st', b, 4 * l, m) {
      assert ApartFromEnd(st, b, 4 * l, m);
    }
    forall l: nat, m: nat | l < m < |st'.groups| ensures EndsApart(st', l, m) {
      assert EndsApart(st, l, m);
    }
  }

  /** The pool with `a` before the chain of group `k`, wherever it came from. */
  ghost function WithStolen(st: Layout, k: nat, a: nat): (r: Layout)
    requires Sized(st) && k < |st.groups|
  {
    Layout(st.groups[k := st.groups[k].(free := a, total := st.groups[k].total + 4 * k)],
      st.live[k := st.live[k] - {a}], st.spare[k := [a] + st.spare[k]])
  }

  lemma TakenOver(st: Layout, k: nat, a: nat)
    requires LayoutOk(st) && k < |st.groups| && st.groups[k].total > 0
    requires a in st.live[k] || Unused(st, a, 4 * k)
    ensures GroupOk(st, k) && WithStolen(st, k, a) == if a in st.live[k] then GiveBack(st, k, a, true) else TakeIn(st, k, a)
  {
    hide AllApart, Counted;
    assert GroupOk(st, k);
    if a !in st.live[k] { assert st.live[k] - {a} == st.live[k]; }
    assert st.live[k := st.live[k] - {a}] == if a in st.live[k] then GiveBack(st, k, a, true).live else st.live;
  }

  /** `createGroup`: the table grows to hold group `k`, which starts with one block. */
  ghost function AddGroup(st: Layout, k: nat, heap: nat): (r: Layout)
    requires Sized(st)
  {
    var more := if k < |st.groups| then 0 else k + 1 - |st.groups|;
    var s := 4096 * (4 * k);
    Layout((st.groups + seq(more, j => NO_GROUP))[k := Group(4 * k, 0, s, NULL, heap, heap + s, s)],
      st.live + seq(more, j => {}), st.spare + seq(more, j => []))
  }

  lemma AddGroupOk(st: Layout, k: nat, heap: nat)
    requires LayoutOk(st) && WORD_SIZE <= 4 * k <= MAX_BLOCK && (k < |st.groups| ==> st.groups[k].total == 0)
    requires Unused(st, heap, 4096 * (4 * k))
    ensures LayoutOk(AddGroup(st, k, heap))
  {
    var st' := AddGroup(st, k, heap);
    forall l: nat | l < |st'.groups| ensures GroupOk(st', l) {
      if l < |st.groups| { assert GroupOk(st, l); }
    }
    AddedApart(st, k, heap);
  }

  lemma AddedApart(st: Layout, k: nat, heap: nat)
    requires LayoutOk(st) && 0 < k && (k < |st.groups| ==> st.groups[k].total == 0) && Unused(st, heap, 4096 * (4 * k))
    requires forall l: nat {:trigger GroupOk(AddGroup(st, k, heap), l)} ::
      l < |AddGroup(st, k, heap).groups| ==> GroupOk(AddGroup(st, k, heap), l)
    ensures AllApart(AddGroup(st, k, heap))
  {
    hide GroupOk;
    var s, st' := 4096 * (4 * k), AddGroup(st, k, heap);
    forall l: nat, b: nat ensures Item(st', l, b) <==> Item(st, l, b) {
    }
    forall l: nat, b: nat, m: nat | Item(st', l, b) && m < |st'.groups| ensures ApartFromEnd(st', b, 4 * l, m) {
      if m < |st.groups| { assert ApartFromEnd(st, b, 4 * l, m); }
    }
    forall l: nat, m: nat | l < m < |st'.groups| ensures EndsApart(st', l, m) {
      if m < |st.groups| { assert EndsApart(st, l, m); }
      if l < |st.groups| { assert ApartFromEnd(st, heap, s, l); }
      if m < |st.groups| { assert ApartFromEnd(st, heap, s, m); }
    }
  }

  // ---------------------------------------------------------------- the free chains

  /** A store into an item leaves every chain, since no free item shares a word with it. */
  lemma StoreKeepsChains(st: Layout, mem: Memory, k: nat, a: nat, at: nat, w: nat)
    requires LayoutOk(st) && Chains(st, mem) && k < |st.groups| && a in st.live[k]
    requires a <= at && at + WORD_SIZE <= a + 4 * k
    ensures Chains(st, Store(mem, at, w))
  {
    forall l | 0 <= l < |st.groups| ensures Chain(Store(mem, at, w), st.groups[l].free, st.spare[l]) {
      assert GroupOk(st, l) && GroupOk(st, k);
      forall i | 0 <= i < |st.spare[l]| ensures Apart(st.spare[l][i], WORD_SIZE, at, WORD_SIZE) {
        var b := st.spare[l][i];
        assert b in st.spare[l];
        assert Item(st, l, b) && Item(st, k, a);
        assert Apart(b, 4 * l, a, 4 * k);
      }
      ChainKept(mem, st.groups[l].free, st.spare[l], at, w);
    }
  }

  /** So does a store into memory the pool does not use. */
  lemma StoreOutside(st: Layout, mem: Memory, a: nat, n: nat, w: nat)
    requires LayoutOk(st) && Chains(st, mem) && Unused(st, a, n) && n >= WORD_SIZE
    ensures Chains(st, Store(mem, a, w))
  {
    forall l | 0 <= l < |st.groups| ensures Chain(Store(mem, a, w), st.groups[l].free, st.spare[l]) {
      assert GroupOk(st, l);
      forall i | 0 <= i < |st.spare[l]| ensures Apart(st.spare[l][i], WORD_SIZE, a, WORD_SIZE) {
        var b := st.spare[l][i];
        assert b in st.spare[l];
        assert Item(st, l, b);
      }
      ChainKept(mem, st.groups[l].free, st.spare[l], a, w);
    }
  }

  lemma ChainTail(mem: Memory, head: nat, items: seq<nat>)
    requires Chain(mem, head, items)
    ensures items == [] <==> head == NULL
    ensures items != [] ==> head == items[0] && head in mem && Chain(mem, mem[head], items[1..])
  {
  }

  lemma ChainPushed(mem: Memory, head: nat, items: seq<nat>, a: nat)
    requires a != NULL && Chain(Store(mem, a, head), head, items)
    ensures Chain(Store(mem, a, head), a, [a] + items)
  {
    assert ([a] + items)[1..] == items;
  }

  lemma AddedChains(st: Layout, k: nat, heap: nat, mem: Memory)
    requires LayoutOk(st) && Chains(st, mem) && (k < |st.groups| ==> st.groups[k].total == 0)
    ensures Chains(AddGroup(st, k, heap), mem)
  {
    var st' := AddGroup(st, k, heap);
    forall l | 0 <= l < |st'.groups| ensures Chain(mem, st'.groups[l].free, st'.spare[l]) {
      if l < |st.groups| {
        assert GroupOk(st, l);
        assert st.spare[l] == st'.spare[l];
      }
    }
  }

  lemma EndFacts(st: Layout, k: nat)
    requires LayoutOk(st) && k < |st.groups| && st.groups[k].total > 0
    ensures Sized(st) && GroupOk(st, k) && st.groups[k].current > 0
  {
    assert GroupOk(st, k);
  }

  /** The chain of group `k` gains its new first item. */
  lemma Pushed(st: Layout, st': Layout, mem: Memory, k: nat, a: nat)
    requires Sized(st) && Sized(st') && k < |st.groups| == |st'.groups| && a != NULL
    requires Chains(st, Store(mem, a, st.groups[k].free))
    requires st'.spare == st.spare[k := [a] + st.spare[k]] && st'.groups[k].free == a
    requires forall l {:trigger st'.groups[l]} :: 0 <= l < |st.groups| && l != k ==> st'.groups[l] == st.groups[l]
    ensures Chains(st', Store(mem, a, st.groups[k].free))
  {
    var after := Store(mem, a, st.groups[k].free);
    forall l | 0 <= l < |st'.groups| ensures Chain(after, st'.groups[l].free, st'.spare[l]) {
      assert Chain(after, st.groups[l].free, st.spare[l]);
      if l == k { ChainPushed(mem, st.groups[k].free, st.spare[k], a); }
    }
  }

  lemma UsedFits(st: Layout, k: nat)
    requires Sized(st) && k < |st.groups| && GroupOk(st, k)
    ensures st.groups[k].used <= st.groups[k].total
  {
    OneMore(st.groups[k].item, |st.spare[k]|);
  }

  lemma LiveGroup(st: Layout, k: nat, a: nat)
    requires LayoutOk(st) && k < |st.groups| && a in st.live[k]
    ensures GroupOk(st, k) && st.groups[k].total > 0 && st.groups[k].item == 4 * k && WORD_SIZE <= 4 * k
  {
    assert GroupOk(st, k);
  }

  lemma NotLive(st: Layout, k: nat, a: nat)
    requires LayoutOk(st) && (k < |st.groups| ==> st.groups[k].total == 0)
    ensures !(k < |st.groups| && a in st.live[k])
  {
    if k < |st.groups| { assert GroupOk(st, k); }
  }

  lemma UnusedAfter(st: Layout, k: nat, heap: nat, a: nat, n: nat)
    requires LayoutOk(st) && (k < |st.groups| ==> st.groups[k].total == 0)
    requires Unused(st, a, n) && Apart(a, n, heap, 4096 * (4 * k))
    ensures Unused(AddGroup(st, k, heap), a, n)
  {
    var st' := AddGroup(st, k, heap);
    forall l: nat, b: nat ensures Item(st', l, b) <==> Item(st, l, b) {
    }
    forall l: nat | l < |st'.groups| ensures ApartFromEnd(st', a, n, l) {
      if l < |st.groups| { assert ApartFromEnd(st, a, n, l); }
    }
  }

  // ---------------------------------------------------------------- one call after another

  /** The first item of a chain. */
  ghost function Head(items: seq<nat>): (r: nat) {
    if items == [] then NULL else items[0]
  }

  ghost predicate HasGroup(st: Layout, k: nat) {
    k < |st.groups| && st.groups[k].total != 0
  }

  /** Every group but `k` is as it was, and those added are empty. */
  ghost predicate OthersKept(st: Layout, st': Layout, k: nat) {
    && Sized(st) && Sized(st') && k < |st'.groups| && |st.groups| <= |st'.groups|
    && forall l: nat {:trigger st'.groups[l]} {:trigger st'.live[l]} {:trigger st'.spare[l]} :: l < |st'.groups| && l != k ==>
      if l < |st.groups| then st'.groups[l] == st.groups[l] && st'.live[l] == st.live[l] && st'.spare[l] == st.spare[l]
      else st'.groups[l] == NO_GROUP && st'.live[l] == {} && st'.spare[l] == []
  }

  /** `free`: the item is not live, and stands before the old chain. */
  ghost predicate Freed(st: Layout, st': Layout, k: nat, ptr: nat) {
    && OthersKept(st, st', k) && |st'.groups| == |st.groups| && HasGroup(st, k)
    && ptr in st.live[k] && st'.live[k] == st.live[k] - {ptr} && st'.spare[k] == [ptr] + st.spare[k]
    && var g, g' := st.groups[k], st'.groups[k];
      g' == g.(free := ptr, used := g'.used) && g'.used + 4 * k == g.used
  }

  /** `steal`: the item stands before the old chain of its group, which counts it as one more. */
  ghost predicate Stolen(st: Layout, st': Layout, k: nat, ptr: nat, heap: nat) {
    && OthersKept(st, st', k) && |st'.groups| == (if k < |st.groups| then |st.groups| else k + 1)
    && st'.live[k] == (if HasGroup(st, k) then st.live[k] - {ptr} else {})
    && st'.spare[k] == [ptr] + (if HasGroup(st, k) then st.spare[k] else [])
    && st'.groups[k] == (if HasGroup(st, k) then st.groups[k].(free := ptr, total := st.groups[k].total + 4 * k)
      else Group(4 * k, 0, 4097 * (4 * k), ptr, heap, heap + 4096 * (4 * k), 4096 * (4 * k)))
  }

  /** `allocate`: the head of the chain if there is one; else the next bytes of the block if they hold the item;
      else the start of another block. */
  ghost predicate Allocated(st: Layout, st': Layout, k: nat, heap: nat, ret: nat) {
    && OthersKept(st, st', k) && |st'.groups| == (if k < |st.groups| then |st.groups| else k + 1)
    && st'.live[k] == (if HasGroup(st, k) then st.live[k] else {}) + {ret}
    && if !HasGroup(st, k) then
      && ret == heap && st'.spare[k] == []
      && st'.groups[k] == Group(4 * k, 4 * k, 4096 * (4 * k), NULL, heap + 4 * k, heap + 4096 * (4 * k), 4096 * (4 * k))
    else
      var g, items := st.groups[k], st.spare[k];
      if items != [] then
        && ret == items[0] && st'.spare[k] == items[1..]
        && st'.groups[k] == g.(free := Head(items[1..]), used := g.used + 4 * k)
      else if g.current + 4 * k <= g.last then
        && ret == g.current && st'.spare[k] == []
        && st'.groups[k] == g.(current := ret + 4 * k, used := g.used + 4 * k)
      else
        var s := if 4 * g.back < 4194304 then 4 * g.back else 4194304;
        && ret == heap && st'.spare[k] == []
        && st'.groups[k] == g.(current := ret + 4 * k, used := g.used + 4 * k, last := heap + s, total := g.total + s, back := s)
  }

  /** The steps `allocate` takes, one after the other. */
  ghost function AllocateSteps(st: Layout, k: nat, heap: nat): (r: (Layout, nat))
    requires Sized(st) && k > 0
  {
    var st1 := if HasGroup(st, k) then st else AddGroup(st, k, heap);
    if st1.spare[k] != [] then (TakeSpare(st1, k, Head(st1.spare[k][1..])), st1.spare[k][0])
    else
      var g := st1.groups[k];
      var st2 := if g.current + 4 * k > g.last then SetGroup(st1, k, Grow(g, heap)) else st1;
      (TakeEnd(st2, k), st2.groups[k].current)
  }

  lemma IsAllocated(st: Layout, k: nat, heap: nat)
    requires LayoutOk(st) && k > 0
    ensures Allocated(st, AllocateSteps(st, k, heap).0, k, heap, AllocateSteps(st, k, heap).1)
  {
    hide AllApart, Counted;
    if k < |st.groups| { assert GroupOk(st, k); }
  }

  lemma IsStolen(st: Layout, k: nat, ptr: nat, heap: nat)
    requires LayoutOk(st)
    ensures Stolen(st, WithStolen(if HasGroup(st, k) then st else AddGroup(st, k, heap), k, ptr), k, ptr, heap)
  {
    hide AllApart, Counted;
    if k < |st.groups| { assert GroupOk(st, k); }
  }

  /** What is freed is handed out by the next allocation of its size, and all is as before the two. */
  lemma FreedComesBack(st: Layout, st': Layout, st'': Layout, k: nat, ptr: nat, heap: nat, ret: nat)
    requires Freed(st, st', k, ptr) && st.groups[k].free == Head(st.spare[k]) && Allocated(st', st'', k, heap, ret)
    ensures ret == ptr && st'' == st
  {
    assert st'.spare[k][1..] == st.spare[k];
    assert st''.live[k] == st.live[k];
    assert forall l: nat {:trigger st.groups[l]} :: l < |st.groups| ==> st''.groups[l] == st.groups[l];
    assert st''.groups == st.groups && st''.live == st.live && st''.spare == st.spare;
  }

  /** The same for a stolen item, but for the total that counts it. */
  lemma StolenComesBack(st: Layout, st': Layout, st'': Layout, k: nat, ptr: nat, block: nat, heap: nat, ret: nat)
    requires k > 0 && Stolen(st, st', k, ptr, block) && Allocated(st', st'', k, heap, ret)
    ensures ret == ptr && st''.spare[k] == (if HasGroup(st, k) then st.spare[k] else [])
    ensures st''.live[k] == (if HasGroup(st, k) then st.live[k] + {ptr} else {ptr}) && OthersKept(st, st'', k)
  {
    assert forall l: nat {:trigger st''.groups[l]} :: l < |st''.groups| && l != k ==>
      st''.groups[l] == st'.groups[l] && st''.live[l] == st'.live[l] && st''.spare[l] == st'.spare[l];
  }

  /** Items freed one after another are handed out again last first, which restores the pool. */
  lemma {:induction false} LastFreedFirst(freeing: seq<Layout>, taking: seq<Layout>, k: nat, ptrs: seq<nat>, heaps: seq<nat>, rets: seq<nat>)
    requires |freeing| == |taking| == |ptrs| + 1 && |heaps| == |rets| == |ptrs| && freeing[|ptrs|] == taking[0]
    requires forall i :: 0 <= i < |ptrs| ==> Freed(freeing[i], freeing[i + 1], k, ptrs[i])
    requires forall i :: 0 <= i < |rets| ==> Allocated(taking[i], taking[i + 1], k, heaps[i], rets[i])
    requires HasGroup(freeing[0], k) && k < |freeing[0].spare| && freeing[0].groups[k].free == Head(freeing[0].spare[k])
    ensures taking[|ptrs|] == freeing[0] && forall i :: 0 <= i < |ptrs| ==> rets[i] == ptrs[|ptrs| - 1 - i]
  {
    var n := |ptrs|;
    if n > 0 {
      assert freeing[n - 1 + 1] == freeing[n] && taking[0 + 1] == taking[1];
      assert Freed(freeing[n - 1], freeing[n], k, ptrs[n - 1]) && Allocated(taking[0], taking[1], k, heaps[0], rets[0]);
      assert freeing[n - 1].groups[k].free == Head(freeing[n - 1].spare[k]) by {
        if n > 1 { assert Freed(freeing[n - 2], freeing[n - 2 + 1], k, ptrs[n - 2]); }
      }
      FreedComesBack(freeing[n - 1], freeing[n], taking[1], k, ptrs[n - 1], heaps[0], rets[0]);
      forall i | 0 <= i < n - 1 ensures Allocated(taking[1..][i], taking[1..][i + 1], k, heaps[1..][i], rets[1..][i]) {
        assert Allocated(taking[i + 1], taking[i + 1 + 1], k, heaps[i + 1], rets[i + 1]);
      }
      LastFreedFirst(freeing[..n], taking[1..], k, ptrs[..n - 1], heaps[1..], rets[1..]);
      forall i | 0 <= i < n ensures rets[i] == ptrs[n - 1 - i] {
        if i > 0 { assert rets[1..][i - 1] == ptrs[..n - 1][n - 2 - (i - 1)]; }
      }
    }
  }

  // ---------------------------------------------------------------- the allocator

  class Pool {
    var groups: seq<Group>
    var mem: Memory
    ghost var live: seq<set<nat>>
    ghost var spare: seq<seq<nat>>

    constructor ()
      ensures Valid() && groups == []
    {
      groups, mem, live, spare := [], map[], [], [];
    }

    ghost function Current(): (st: Layout)
      reads this
    {
      Layout(groups, live, spare)
    }

    ghost predicate Valid()
      reads this
    {
      LayoutOk(Current()) && Chains(Current(), mem)
    }

    /** Address `a` is a live item of 4k bytes. */
    ghost predicate IsLive(k: nat, a: nat)
      reads this
    {
      k < |live| && a in live[k]
    }

    /** `group`: is there one for this size? */
    predicate Has(k: nat)
      reads this`groups
    {
      k < |groups| && groups[k].total != 0
    }

    /** How much an allocation may ask of the heap. */
    function BlockSize(k: nat): (s: nat)
      reads this`groups
    {
      if Has(k) then Min(4 * groups[k].back, MAX_BLOCK) else 4096 * (4 * k)
    }

    /** `createGroup`, with the block the heap returned. */
    method CreateGroup(k: nat, heap: nat)
      requires Valid() && WORD_SIZE <= 4 * k <= MAX_BLOCK && !Has(k) && Unused(Current(), heap, 4096 * (4 * k))
      modifies this`groups, this`live, this`spare
      ensures Valid() && Has(k) && groups[k].current + groups[k].item <= groups[k].last && groups[k].free == NULL
      ensures Current() == AddGroup(old(Current()), k, heap)
      ensures forall l, a :: IsLive(l, a) <==> old(IsLive(l, a))
    {
      ghost var st := Current();
      AddGroupOk(st, k, heap);
      ghost var st' := AddGroup(st, k, heap);
      var g := Group(4 * k, 0, 4096 * (4 * k), NULL, heap, heap + 4096 * (4 * k), 4096 * (4 * k));
      if k >= |groups| {
        groups := groups + seq(k + 1 - |groups|, j => NO_GROUP);
      }
      groups := groups[k := g];
      live, spare := st'.live, st'.spare;
      assert groups == st'.groups;
      AddedChains(st, k, heap, mem);
    }

    /** `newBlock`, with the block the heap returned. */
    method NewBlock(k: nat, heap: nat)
      requires Valid() && Has(k) && Unused(Current(), heap, BlockSize(k))
      modifies this`groups
      ensures Valid() && Has(k) && groups[k].current + groups[k].item <= groups[k].last && groups[k].free == old(groups[k].free)
      ensures Current() == SetGroup(old(Current()), k, Grow(old(groups)[k], heap))
    {
      ghost var st := Current();
      assert GroupOk(st, k);
      NewEnd(st, k, heap, BlockSize(k));
      groups := groups[k := Grow(groups[k], heap)];
      assert Current() == SetGroup(st, k, groups[k]);
    }

    /** `allocate`: an item that was not live, and so apart from every live one: the first free one, else the next
        bytes of the block, else the start of another. `heap` is the block operator new would return. */
    method Allocate(bytes: nat, heap: nat) returns (ret: nat)
      requires Valid() && 4 < bytes <= MAX_BLOCK
      requires Unused(Current(), heap, BlockSize(AdjustSize(bytes) / 4))
      modifies this`groups, this`live, this`spare
      ensures Valid() && ret != NULL
      ensures var k := AdjustSize(bytes) / 4;
        && !old(IsLive(k, ret)) && (forall l, a :: IsLive(l, a) <==> old(IsLive(l, a)) || (l == k && a == ret))
        && Has(k) && groups[k].used <= groups[k].total && Allocated(old(Current()), Current(), k, heap, ret)
      ensures var k := AdjustSize(bytes) / 4;
        old(Has(k)) ==>
          if old(spare[k]) != [] then
            && ret == old(spare[k])[0] && spare[k] == old(spare[k])[1..]
            && groups[k].current == old(groups[k].current) && groups[k].total == old(groups[k].total)
          else spare[k] == [] && ret == if old(groups[k].current + 4 * k <= groups[k].last) then old(groups[k].current) else heap
      ensures !old(Has(AdjustSize(bytes) / 4)) ==> ret == heap
    {
      var size := AdjustSize(bytes);
      var k := size / 4;
      ghost var st := Current();
      if !Has(k) {
        CreateGroup(k, heap);
      }
      GroupFacts(k);
      if groups[k].free != NULL {
        ret := TakeFree(k);
      } else {
        if groups[k].current + size > groups[k].last {
          NewBlock(k, heap);
        }
        ret := TakeCurrent(k);
      }
      assert (Current(), ret) == AllocateSteps(st, k, heap);
      IsAllocated(st, k, heap);
    }

    lemma GroupFacts(k: nat)
      requires Valid() && Has(k)
      ensures Sized(Current()) && groups[k].item == 4 * k && (groups[k].free == NULL <==> spare[k] == [])
    {
      assert GroupOk(Current(), k);
      assert Chain(mem, groups[k].free, spare[k]);
      ChainTail(mem, groups[k].free, spare[k]);
    }

    /** The first free item; the next one is in its first word. */
    method TakeFree(k: nat) returns (ret: nat)
      requires Valid() && Has(k) && groups[k].free != NULL
      modifies this`groups, this`live, this`spare
      ensures Valid() && ret != NULL && Has(k) && groups[k].used <= groups[k].total
      ensures !old(IsLive(k, ret)) && forall l, a :: IsLive(l, a) <==> old(IsLive(l, a)) || (l == k && a == ret)
      ensures old(Sized(Current()) && spare[k] != [] && ret == spare[k][0])
      ensures Current() == TakeSpare(old(Current()), k, Head(old(spare[k])[1..]))
    {
      ghost var st := Current();
      assert Chain(mem, groups[k].free, spare[k]);
      ChainTail(mem, groups[k].free, spare[k]);
      ret := groups[k].free;
      var next := mem[ret];
      TakeSpareOk(st, k, next);
      ghost var st' := TakeSpare(st, k, next);
      assert GroupOk(st, k) && GroupOk(st', k);
      groups := groups[k := groups[k].(free := next, used := groups[k].used + groups[k].item)];
      live, spare := st'.live, st'.spare;
      assert Current() == st';
      UsedFits(st', k);
    }

    /** The next bytes of the block. */
    method TakeCurrent(k: nat) returns (ret: nat)
      requires Valid() && Has(k) && groups[k].current + groups[k].item <= groups[k].last
      modifies this`groups, this`live
      ensures Valid() && ret != NULL && Has(k) && groups[k].used <= groups[k].total
      ensures !old(IsLive(k, ret)) && forall l, a :: IsLive(l, a) <==> old(IsLive(l, a)) || (l == k && a == ret)
      ensures Sized(old(Current())) && ret == old(groups[k].current) && Current() == TakeEnd(old(Current()), k)
    {
      hide LayoutOk, GroupOk;
      ghost var st := Current();
      EndFacts(st, k);
      TakeEndOk(st, k);
      ghost var st' := TakeEnd(st, k);
      EndFacts(st', k);
      var g := groups[k];
      ret := g.current;
      groups := groups[k := g.(current := g.current + g.item, used := g.used + g.item)];
      live := st'.live;
      assert Current() == st';
      UsedFits(st', k);
    }

    /** `release`: the item's first word takes the chain. */
    method Release(k: nat, ptr: nat)
      requires k < |groups|
      modifies this`groups, this`mem
      ensures mem == Store(old(mem), ptr, old(groups)[k].free) && groups == old(groups)[k := old(groups)[k].(free := ptr)]
    {
      mem := Store(mem, ptr, groups[k].free);
      groups := groups[k := groups[k].(free := ptr)];
    }

    /** `free`: a live item goes back to the chain. */
    method Free(ptr: nat, bytes: nat)
      requires Valid() && (ptr != NULL ==> bytes > 0 && IsLive(AdjustSize(bytes) / 4, ptr))
      modifies this`groups, this`mem, this`live, this`spare
      ensures Valid()
      ensures var k := AdjustSize(bytes) / 4;
        if ptr == NULL then Current() == old(Current()) && mem == old(mem)
        else Freed(old(Current()), Current(), k, ptr) && forall l, a :: IsLive(l, a) <==> old(IsLive(l, a)) && !(l == k && a == ptr)
    {
      if ptr == NULL { return; }
      var size := AdjustSize(bytes);
      var k := size / 4;
      ghost var st, mem0 := Current(), mem;
      LiveGroup(st, k, ptr);
      GiveBackOk(st, k, ptr, false);
      ghost var st' := GiveBack(st, k, ptr, false);
      UsedEnough(st, k, ptr);
      StoreKeepsChains(st, mem0, k, ptr, ptr, groups[k].free);
      Release(k, ptr);
      groups := groups[k := groups[k].(used := groups[k].used - size)];
      live, spare := st'.live, st'.spare;
      assert Current() == st';
      Pushed(st, st', mem0, k, ptr);
    }

    /** `steal`: the pool takes over memory, whether it handed it out itself or it comes from elsewhere. */
    method Steal(ptr: nat, bytes: nat, heap: nat)
      requires Valid() && ptr != NULL && 4 < bytes <= MAX_BLOCK
      requires var k := AdjustSize(bytes) / 4;
        && (IsLive(k, ptr) || Unused(Current(), ptr, 4 * k))
        && (!Has(k) ==> Unused(Current(), heap, 4096 * (4 * k)) && Apart(ptr, 4 * k, heap, 4096 * (4 * k)))
      modifies this`groups, this`mem, this`live, this`spare
      ensures Valid()
      ensures var k := AdjustSize(bytes) / 4;
        && Has(k) && Stolen(old(Current()), Current(), k, ptr, heap)
        && forall l, a :: IsLive(l, a) <==> old(IsLive(l, a)) && !(l == k && a == ptr)
    {
      var size := AdjustSize(bytes);
      var k := size / 4;
      ghost var st := Current();
      if !Has(k) {
        NotLive(Current(), k, ptr);
        UnusedAfter(Current(), k, heap, ptr, 4 * k);
        CreateGroup(k, heap);
      }
      TakeOver(k, ptr);
      IsStolen(st, k, ptr, heap);
    }

    /** The part of `steal` that follows once the group exists. */
    method TakeOver(k: nat, ptr: nat)
      requires Valid() && Has(k) && ptr != NULL && WORD_SIZE <= 4 * k && (IsLive(k, ptr) || Unused(Current(), ptr, 4 * k))
      modifies this`groups, this`mem, this`live, this`spare
      ensures Valid() && Has(k) && Sized(old(Current()))
      ensures Current() == WithStolen(old(Current()), k, ptr)
    {
      ghost var st, mem0 := Current(), mem;
      assert GroupOk(st, k);
      ghost var st' := if IsLive(k, ptr) then GiveBack(st, k, ptr, true) else TakeIn(st, k, ptr);
      TakenOver(st, k, ptr);
      if IsLive(k, ptr) {
        GiveBackOk(st, k, ptr, true);
        StoreKeepsChains(st, mem0, k, ptr, ptr, groups[k].free);
      } else {
        TakeInOk(st, k, ptr);
        StoreOutside(st, mem0, ptr, 4 * k, groups[k].free);
      }
      groups := groups[k := groups[k].(total := groups[k].total + 4 * k)];
      Release(k, ptr);
      live, spare := st'.live, st'.spare;
      assert Current() == st';
      Pushed(st, st', mem0, k, ptr);
    }

    /** A client stores a word into a live item. */
    method ClientStore(k: nat, a: nat, at: nat, w: nat)
      requires Valid() && IsLive(k, a) && a <= at && at + WORD_SIZE <= a + 4 * k
      modifies this`mem
      ensures Valid() && at in mem && mem[at] == w
    {
      StoreKeepsChains(Current(), mem, k, a, at, w);
      mem := Store(mem, at, w);
    }
  }
}