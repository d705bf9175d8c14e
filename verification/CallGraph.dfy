/**
 * The call graph that mcount builds in memory: 64 hash heads, each the head of a chain of function entries, each of
 * those with its own list of arcs. Memory is a map from addresses to words, pointers are addresses, and 0 is null.
 */
module CallGraph {
  import opened Unsigned
  import Numerals

  type Memory = map<int, int>

  function Load(mem: Memory, a: int): int { if a in mem then mem[a] else 0 }
  function Store(mem: Memory, a: int, v: int): Memory { mem[a := v] }

  const BUCKETS := 64
  const NODE := 12  // bytes in a function entry, and in an arc

  /** Bits 5 to 10 of the address of the called function choose its bucket. */
  function Bucket(self: nat): (b: nat)
    ensures b < BUCKETS
  {
    self / 32 % BUCKETS
  }

  /** The address of __mcount_fn_head[b]. */
  function Head(base: int, b: int): int { base + 4 * b }

  /** The assembler's `(self >> 3) & 0xFC` is the offset of the head: bits 5 to 10 of the address, times 4. */
  lemma HeadOffset(base: int, self: nat)
    ensures Head(base, Bucket(self)) == base + self / 8 % 256 / 4 * 4
  {
    HeadOffsetOf(base, self, self % 32, self / 32 % 64, self / 32 / 64);
  }

  lemma HeadOffsetOf(base: int, self: nat, low: nat, bucket: nat, high: nat)
    requires low < 32 && bucket < 64 && self == (high * 64 + bucket) * 32 + low
    ensures Bucket(self) == bucket && Head(base, Bucket(self)) == base + self / 8 % 256 / 4 * 4
  {
    var e, r := low / 8, low % 8;
    Numerals.DivUnique(self, 8, high * 256 + bucket * 4 + e, r);
    Numerals.DivUnique(high * 256 + bucket * 4 + e, 256, high, bucket * 4 + e);
    Numerals.DivUnique(bucket * 4 + e, 4, bucket, e);
    Numerals.DivUnique(self, 32, high * 64 + bucket, low);
    Numerals.DivUnique(high * 64 + bucket, 64, high, bucket);
  }

  // ---- what the chains mean

  datatype Arcs = NoArc | Arc(addr: int, from: nat, count: nat, next: Arcs)
  datatype Fns = NoFn | Fn(addr: int, self: nat, arcs: Arcs, next: Fns)

  /** What each node address was handed out for. */
  datatype Owner = FnEntry(self: nat) | FnArc(fn: int, from: nat)

  /** `p` heads a list of the arcs `arcs`, all belonging to the entry `fn`; the newest, at the highest address, first. */
  ghost predicate ArcsAt(mem: Memory, nodes: map<int, Owner>, p: int, arcs: Arcs, fn: int)
    decreases arcs
  {
    match arcs
    case NoArc => p == 0
    case Arc(addr, from, count, next) =>
      && p == addr && p != 0 && p in nodes && nodes[p] == FnArc(fn, from)
      && Load(mem, p) < p && Load(mem, p + 4) == from && Load(mem, p + 8) == count < M
      && ArcsAt(mem, nodes, Load(mem, p), next, fn)
  }

  ghost predicate FnsAt(mem: Memory, nodes: map<int, Owner>, p: int, fns: Fns, b: int)
    decreases fns
  {
    match fns
    case NoFn => p == 0
    case Fn(addr, self, arcs, next) =>
      && p == addr && p != 0 && p in nodes && nodes[p] == FnEntry(self) && Bucket(self) == b
      && Load(mem, p) < p && Load(mem, p + 4) == self
      && ArcsAt(mem, nodes, Load(mem, p + 8), arcs, p)
      && FnsAt(mem, nodes, Load(mem, p), next, b)
  }

  ghost predicate GraphAt(mem: Memory, nodes: map<int, Owner>, base: int, chains: seq<Fns>) {
    |chains| == BUCKETS
    && forall b :: 0 <= b < BUCKETS ==> FnsAt(mem, nodes, Load(mem, Head(base, b)), chains[b], b)
  }

  /** mcount reads the first arc of an entry without testing for null. */
  predicate AllHaveArcs(fns: Fns) { fns.NoFn? || (fns.arcs.Arc? && AllHaveArcs(fns.next)) }

  predicate HasArc(arcs: Arcs, q: int, from: nat) {
    arcs.Arc? && ((arcs.addr == q && arcs.from == from) || HasArc(arcs.next, q, from))
  }

  predicate HasFn(fns: Fns, f: int, self: nat) {
    fns.Fn? && ((fns.addr == f && fns.self == self) || HasFn(fns.next, f, self))
  }

  predicate HasArcIn(fns: Fns, f: int, self: nat, q: int, from: nat) {
    fns.Fn? && ((fns.addr == f && fns.self == self && HasArc(fns.arcs, q, from)) || HasArcIn(fns.next, f, self, q, from))
  }

  // ---- counting, in the 32 bits of a count

  function Add32(a: nat, b: nat): (r: nat)
    ensures r < M
  {
    (a + b) % M
  }

  function ArcTally(arcs: Arcs, from: nat): nat {
    if arcs.NoArc? then 0 else Add32(if arcs.from == from then arcs.count else 0, ArcTally(arcs.next, from))
  }

  /** All the counts of calls of `self` from `from`, over every copy of the entry and of the arc. */
  function Tally(fns: Fns, self: nat, from: nat): nat {
    if fns.NoFn? then 0 else Add32(if fns.self == self then ArcTally(fns.arcs, from) else 0, Tally(fns.next, self, from))
  }

  lemma AddAssoc(a: nat, b: nat, c: nat)
    ensures Add32(Add32(a, b), c) == Add32(a, b + c) == Add32(a, Add32(b, c))
    ensures Add32(a, b) == Add32(b, a)
  {
    ModAbsorb(c, a + b);
    ModAbsorb(a, b + c);
  }

  lemma ModAbsorb(a: nat, b: nat)
    ensures (a + b % M) % M == (a + b) % M
  {
  }

  // ---- the updates

  function SetArc(arcs: Arcs, q: int, v: nat): Arcs {
    match arcs
    case NoArc => NoArc
    case Arc(addr, from, count, next) =>
      if addr == q then Arc(addr, from, v, next) else Arc(addr, from, count, SetArc(next, q, v))
  }

  function SetCount(fns: Fns, f: int, q: int, v: nat): Fns {
    match fns
    case NoFn => NoFn
    case Fn(addr, self, arcs, next) =>
      if addr == f then Fn(addr, self, SetArc(arcs, q, v), next) else Fn(addr, self, arcs, SetCount(next, f, q, v))
  }

  function AddArc(fns: Fns, f: int, q: int, from: nat): Fns {
    match fns
    case NoFn => NoFn
    case Fn(addr, self, arcs, next) =>
      if addr == f then Fn(addr, self, Arc(q, from, 1, arcs), next) else Fn(addr, self, arcs, AddArc(next, f, q, from))
  }

  // ---- frames: what a store leaves alone

  /** Memory agrees on the nodes other than `but`. */
  ghost predicate Agrees(mem: Memory, mem': Memory, nodes: map<int, Owner>, but: int) {
    forall p :: p in nodes && p != but ==>
      Load(mem', p) == Load(mem, p) && Load(mem', p + 4) == Load(mem, p + 4) && Load(mem', p + 8) == Load(mem, p + 8)
  }

  ghost predicate Extends(nodes: map<int, Owner>, nodes': map<int, Owner>) {
    forall p :: p in nodes ==> p in nodes' && nodes'[p] == nodes[p]
  }

  lemma {:induction false} ArcsFrame(mem: Memory, mem': Memory, nodes: map<int, Owner>, nodes': map<int, Owner>, p: int,
                                     arcs: Arcs, fn: int, but: int)
    requires ArcsAt(mem, nodes, p, arcs, fn) && Agrees(mem, mem', nodes, but) && Extends(nodes, nodes')
    requires p < but || but !in nodes || nodes[but].FnEntry? || nodes[but].fn != fn
    ensures ArcsAt(mem', nodes', p, arcs, fn)
    decreases arcs
  {
    if arcs.Arc? {
      ArcsFrame(mem, mem', nodes, nodes', Load(mem, p), arcs.next, fn, but);
    }
  }

  /** A store into an arc leaves alone the chains without its entry; one into an entry, the chains of lower entries. */
  lemma {:induction false} FnsFrame(mem: Memory, mem': Memory, nodes: map<int, Owner>, nodes': map<int, Owner>, p: int,
                                    fns: Fns, b: int, but: int, f: int)
    requires FnsAt(mem, nodes, p, fns, b) && Agrees(mem, mem', nodes, but) && Extends(nodes, nodes')
    requires but in nodes ==> if nodes[but].FnEntry? then but == f else nodes[but].fn == f
    requires p < f || f !in nodes || nodes[f].FnArc? || Bucket(nodes[f].self) != b
    ensures FnsAt(mem', nodes', p, fns, b)
    decreases fns
  {
    if fns.Fn? {
      ArcsFrame(mem, mem', nodes, nodes', Load(mem, p + 8), fns.arcs, p, but);
      FnsFrame(mem, mem', nodes, nodes', Load(mem, p), fns.next, b, but, f);
    }
  }

  // ---- each update of memory is the update of the meaning

  lemma {:induction false} SetArcAt(mem: Memory, mem': Memory, nodes: map<int, Owner>, p: int, arcs: Arcs, fn: int,
                                    q: int, from: nat, v: nat)
    requires ArcsAt(mem, nodes, p, arcs, fn) && HasArc(arcs, q, from) && Agrees(mem, mem', nodes, q)
    requires Load(mem', q) == Load(mem, q) && Load(mem', q + 4) == Load(mem, q + 4) && Load(mem', q + 8) == v < M
    ensures ArcsAt(mem', nodes, p, SetArc(arcs, q, v), fn)
    decreases arcs
  {
    if p == q {
      ArcsFrame(mem, mem', nodes, nodes, Load(mem, p), arcs.next, fn, q);
    } else {
      SetArcAt(mem, mem', nodes, Load(mem, p), arcs.next, fn, q, from, v);
    }
  }

  lemma {:induction false} SetCountAt(mem: Memory, mem': Memory, nodes: map<int, Owner>, p: int, fns: Fns, b: int,
                                      f: int, self: nat, q: int, from: nat, v: nat)
    requires FnsAt(mem, nodes, p, fns, b) && HasArcIn(fns, f, self, q, from) && Agrees(mem, mem', nodes, q)
    requires q in nodes && nodes[q] == FnArc(f, from)
    requires Load(mem', q) == Load(mem, q) && Load(mem', q + 4) == Load(mem, q + 4) && Load(mem', q + 8) == v < M
    ensures FnsAt(mem', nodes, p, SetCount(fns, f, q, v), b)
    decreases fns
  {
    if p == f {
      HeadIsIt(mem, nodes, p, fns, b, f, self, q, from);
      SetArcAt(mem, mem', nodes, Load(mem, p + 8), fns.arcs, p, q, from, v);
      FnsFrame(mem, mem', nodes, nodes, Load(mem, p), fns.next, b, q, f);
    } else {
      ArcsFrame(mem, mem', nodes, nodes, Load(mem, p + 8), fns.arcs, p, q);
      SetCountAt(mem, mem', nodes, Load(mem, p), fns.next, b, f, self, q, from, v);
    }
  }

  /** Addresses fall along a chain, so an entry below the head is not the head. */
  lemma {:induction false} HeadIsIt(mem: Memory, nodes: map<int, Owner>, p: int, fns: Fns, b: int, f: int, self: nat,
                                    q: int, from: nat)
    requires FnsAt(mem, nodes, p, fns, b) && HasArcIn(fns, f, self, q, from)
    ensures f <= p && f in nodes && nodes[f] == FnEntry(self) && Bucket(self) == b && f != 0
    ensures p == f ==> fns.self == self && HasArc(fns.arcs, q, from)
    ensures q in nodes && nodes[q] == FnArc(f, from) && 0 <= Load(mem, q + 8) < M && q != 0
    decreases fns
  {
    if fns.addr == f && fns.self == self && HasArc(fns.arcs, q, from) {
      ArcIsNode(mem, nodes, Load(mem, p + 8), fns.arcs, p, q, from);
    } else {
      HeadIsIt(mem, nodes, Load(mem, p), fns.next, b, f, self, q, from);
    }
  }

  lemma {:induction false} ArcIsNode(mem: Memory, nodes: map<int, Owner>, p: int, arcs: Arcs, fn: int, q: int, from: nat)
    requires ArcsAt(mem, nodes, p, arcs, fn) && HasArc(arcs, q, from)
    ensures q in nodes && nodes[q] == FnArc(fn, from) && 0 <= Load(mem, q + 8) < M && q != 0
    decreases arcs
  {
    if !(arcs.addr == q && arcs.from == from) {
      ArcIsNode(mem, nodes, Load(mem, p), arcs.next, fn, q, from);
    }
  }

  lemma {:induction false} FnIsNode(mem: Memory, nodes: map<int, Owner>, p: int, fns: Fns, b: int, f: int, self: nat)
    requires FnsAt(mem, nodes, p, fns, b) && HasFn(fns, f, self)
    ensures f <= p && f in nodes && nodes[f] == FnEntry(self) && f != 0 && Bucket(self) == b
    ensures p == f ==> fns.self == self
    decreases fns
  {
    if !(fns.addr == f && fns.self == self) {
      FnIsNode(mem, nodes, Load(mem, p), fns.next, b, f, self);
    }
  }

  /** The arc `q` was filled in and then became the arc_head of `f`. */
  lemma {:induction false} AddArcAt(mem: Memory, mem': Memory, nodes: map<int, Owner>, nodes': map<int, Owner>, p: int,
                                    fns: Fns, b: int, f: int, self: nat, q: int, from: nat)
    requires FnsAt(mem, nodes, p, fns, b) && HasFn(fns, f, self) && Agrees(mem, mem', nodes, f) && Extends(nodes, nodes')
    requires q in nodes' && nodes'[q] == FnArc(f, from) && q > 0 && f in nodes && forall p :: p in nodes ==> p < q
    requires Load(mem', f) == Load(mem, f) && Load(mem', f + 4) == Load(mem, f + 4) && Load(mem', f + 8) == q
    requires Load(mem', q) == Load(mem, f + 8) && Load(mem', q + 4) == from && Load(mem', q + 8) == 1
    ensures FnsAt(mem', nodes', p, AddArc(fns, f, q, from), b)
    decreases fns
  {
    if p == f {
      FnIsNode(mem, nodes, p, fns, b, f, self);
      ArcsFrame(mem, mem', nodes, nodes', Load(mem, p + 8), fns.arcs, p, f);
      FnsFrame(mem, mem', nodes, nodes', Load(mem, p), fns.next, b, f, f);
    } else {
      FnIsNode(mem, nodes, p, fns, b, f, self);
      ArcsFrame(mem, mem', nodes, nodes', Load(mem, p + 8), fns.arcs, p, f);
      AddArcAt(mem, mem', nodes, nodes', Load(mem, p), fns.next, b, f, self, q, from);
    }
  }

  // ---- each update changes one tally and no other

  /** Replacing a count takes the old one off the tally and adds the new one. */
  predicate Replaced(tally: nat, tally': nat, count: nat, count': nat) {
    Add32(tally', count) == Add32(tally, count')
  }

  lemma ReplacedBeside(tally: nat, tally': nat, count: nat, count': nat, other: nat)
    requires Replaced(tally, tally', count, count')
    ensures Replaced(Add32(other, tally), Add32(other, tally'), count, count')
    ensures Replaced(Add32(tally, other), Add32(tally', other), count, count')
  {
    hide Add32;
    AddAssoc(other, tally, count');
    AddAssoc(other, tally', count);
    AddAssoc(tally, other, 0);
    AddAssoc(tally', other, 0);
  }

  lemma ReplacedAlone(count: nat, count': nat, other: nat)
    ensures Replaced(Add32(count, other), Add32(count', other), count, count')
  {
    hide Add32;
    AddAssoc(other, count, count');
    AddAssoc(other, count', count);
    AddAssoc(count, other, 0);
    AddAssoc(count', other, 0);
    AddAssoc(count, count', 0);
  }

  lemma {:induction false} SetArcCounts(mem: Memory, nodes: map<int, Owner>, p: int, arcs: Arcs, fn: int, q: int,
                                        from: nat, v: nat, from': nat)
    requires ArcsAt(mem, nodes, p, arcs, fn) && HasArc(arcs, q, from)
    ensures 0 <= Load(mem, q + 8)
    ensures if from' == from then Replaced(ArcTally(arcs, from'), ArcTally(SetArc(arcs, q, v), from'), Load(mem, q + 8), v)
            else ArcTally(SetArc(arcs, q, v), from') == ArcTally(arcs, from')
    decreases arcs
  {
    hide Add32, Replaced;
    ArcIsNode(mem, nodes, p, arcs, fn, q, from);
    if p == q {
      ReplacedAlone(arcs.count, v, ArcTally(arcs.next, from'));
    } else {
      SetArcCounts(mem, nodes, Load(mem, p), arcs.next, fn, q, from, v, from');
      if from' == from {
        ReplacedBeside(ArcTally(arcs.next, from), ArcTally(SetArc(arcs.next, q, v), from), Load(mem, q + 8), v,
                       if arcs.from == from' then arcs.count else 0);
      }
    }
  }

  lemma {:induction false} SetCountCounts(mem: Memory, nodes: map<int, Owner>, p: int, fns: Fns, b: int, f: int, self: nat,
                                          q: int, from: nat, v: nat, self': nat, from': nat)
    requires FnsAt(mem, nodes, p, fns, b) && HasArcIn(fns, f, self, q, from)
    ensures 0 <= Load(mem, q + 8)
    ensures if self' == self && from' == from
            then Replaced(Tally(fns, self', from'), Tally(SetCount(fns, f, q, v), self', from'), Load(mem, q + 8), v)
            else Tally(SetCount(fns, f, q, v), self', from') == Tally(fns, self', from')
    decreases fns
  {
    hide Add32, Replaced, ArcTally;
    HeadIsIt(mem, nodes, p, fns, b, f, self, q, from);
    if p == f {
      SetArcCounts(mem, nodes, Load(mem, p + 8), fns.arcs, p, q, from, v, from');
      if self' == self && from' == from {
        ReplacedBeside(ArcTally(fns.arcs, from), ArcTally(SetArc(fns.arcs, q, v), from), Load(mem, q + 8), v,
                       Tally(fns.next, self, from));
      }
    } else {
      SetCountCounts(mem, nodes, Load(mem, p), fns.next, b, f, self, q, from, v, self', from');
      if self' == self && from' == from {
        ReplacedBeside(Tally(fns.next, self, from), Tally(SetCount(fns.next, f, q, v), self, from), Load(mem, q + 8), v,
                       if fns.self == self then ArcTally(fns.arcs, from) else 0);
      }
    }
  }

  lemma {:induction false} AddArcCounts(mem: Memory, nodes: map<int, Owner>, p: int, fns: Fns, b: int, f: int, self: nat,
                                        q: int, from: nat, self': nat, from': nat)
    requires FnsAt(mem, nodes, p, fns, b) && HasFn(fns, f, self)
    ensures Tally(AddArc(fns, f, q, from), self', from') ==
            if self' == self && from' == from then Add32(Tally(fns, self', from'), 1) else Tally(fns, self', from')
    decreases fns
  {
    hide Add32, ArcsAt, Bucket;
    FnIsNode(mem, nodes, p, fns, b, f, self);
    var c, t := if fns.self == self' then ArcTally(fns.arcs, from') else 0, Tally(fns.next, self', from');
    AddAssoc(1, c, t);
    AddAssoc(c, t, 1);
    AddAssoc(c, 1, t);
    if p == f {
      OneMore(fns.arcs, from');
    } else {
      AddArcCounts(mem, nodes, Load(mem, p), fns.next, b, f, self, q, from, self', from');
    }
  }

  lemma OneMore(arcs: Arcs, from: nat)
    ensures Add32(1, ArcTally(arcs, from)) == Add32(ArcTally(arcs, from), 1)
    ensures Add32(0, ArcTally(arcs, from)) == ArcTally(arcs, from)
  {
    TallyIs32(arcs, from);
  }

  lemma TallyIs32(arcs: Arcs, from: nat)
    ensures ArcTally(arcs, from) < M
  {
  }

  lemma NewFnCounts(fns: Fns, q: int, self: nat, self': nat, from': nat)
    ensures Tally(Fn(q, self, NoArc, fns), self', from') == Tally(fns, self', from')
  {
  }

  // ---- nothing is forgotten, and without interruption nothing is there twice

  /** Every entry and arc of `old` is still there. */
  ghost predicate Grows(fns: Fns, fns': Fns) {
    && (forall f, self :: HasFn(fns, f, self) ==> HasFn(fns', f, self))
    && (forall f, self, q, from :: HasArcIn(fns, f, self, q, from) ==> HasArcIn(fns', f, self, q, from))
  }

  lemma {:induction false} SetArcKeeps(arcs: Arcs, q: int, v: nat, q': int, from: nat)
    ensures HasArc(SetArc(arcs, q, v), q', from) == HasArc(arcs, q', from)
    ensures KnowsArc(SetArc(arcs, q, v), from) == KnowsArc(arcs, from)
    ensures DistinctArcs(SetArc(arcs, q, v)) == DistinctArcs(arcs)
    decreases arcs
  {
    if arcs.Arc? {
      SetArcKeeps(arcs.next, q, v, q', from);
      SetArcKeeps(arcs.next, q, v, q', arcs.from);
    }
  }

  lemma {:induction false} SetCountKeeps(fns: Fns, f: int, q: int, v: nat, f': int, self: nat, q': int, from: nat)
    ensures HasFn(SetCount(fns, f, q, v), f', self) == HasFn(fns, f', self)
    ensures HasArcIn(SetCount(fns, f, q, v), f', self, q', from) == HasArcIn(fns, f', self, q', from)
    ensures Knows(SetCount(fns, f, q, v), self) == Knows(fns, self)
    ensures Distinct(SetCount(fns, f, q, v)) == Distinct(fns)
    ensures AllHaveArcs(fns) ==> AllHaveArcs(SetCount(fns, f, q, v))
    decreases fns
  {
    if fns.Fn? {
      SetArcKeeps(fns.arcs, q, v, q', from);
      SetCountKeeps(fns.next, f, q, v, f', self, q', from);
      SetCountKeeps(fns.next, f, q, v, f', fns.self, q', from);
    }
  }

  lemma {:induction false} AddArcKeeps(fns: Fns, f: int, q: int, from: nat, f': int, self': nat, q': int, from': nat)
    ensures HasFn(AddArc(fns, f, q, from), f', self') == HasFn(fns, f', self')
    ensures HasArcIn(fns, f', self', q', from') ==> HasArcIn(AddArc(fns, f, q, from), f', self', q', from')
    ensures Knows(AddArc(fns, f, q, from), self') == Knows(fns, self')
    ensures !KnowsArc(ArcsOf(fns, f), from) && Distinct(fns) ==> Distinct(AddArc(fns, f, q, from))
    ensures AllHaveArcs(fns) ==> AllHaveArcs(AddArc(fns, f, q, from))
    decreases fns
  {
    if fns.Fn? {
      AddArcKeeps(fns.next, f, q, from, f', self', q', from');
      AddArcKeeps(fns.next, f, q, from, f', fns.self, q', from');
    }
  }

  lemma SetCountGrows(fns: Fns, f: int, q: int, v: nat)
    ensures Grows(fns, SetCount(fns, f, q, v))
    ensures Distinct(SetCount(fns, f, q, v)) == Distinct(fns)
    ensures AllHaveArcs(fns) ==> AllHaveArcs(SetCount(fns, f, q, v))
  {
    hide HasFn, HasArcIn, SetCount, Distinct, AllHaveArcs, Knows;
    SetCountKeeps(fns, f, q, v, 0, 0, 0, 0);
    forall f', self | HasFn(fns, f', self) ensures HasFn(SetCount(fns, f, q, v), f', self) {
      SetCountKeeps(fns, f, q, v, f', self, 0, 0);
    }
    forall f', self, q', from | HasArcIn(fns, f', self, q', from) ensures HasArcIn(SetCount(fns, f, q, v), f', self, q', from) {
      SetCountKeeps(fns, f, q, v, f', self, q', from);
    }
  }

  lemma AddArcGrows(fns: Fns, f: int, q: int, from: nat)
    ensures Grows(fns, AddArc(fns, f, q, from))
    ensures !KnowsArc(ArcsOf(fns, f), from) && Distinct(fns) ==> Distinct(AddArc(fns, f, q, from))
    ensures AllHaveArcs(fns) ==> AllHaveArcs(AddArc(fns, f, q, from))
  {
    hide HasFn, HasArcIn, AddArc, Distinct, AllHaveArcs, Knows, KnowsArc, ArcsOf;
    AddArcKeeps(fns, f, q, from, 0, 0, 0, 0);
    forall f', self | HasFn(fns, f', self) ensures HasFn(AddArc(fns, f, q, from), f', self) {
      AddArcKeeps(fns, f, q, from, f', self, 0, 0);
    }
    forall f', self, q', from' | HasArcIn(fns, f', self, q', from')
      ensures HasArcIn(AddArc(fns, f, q, from), f', self, q', from')
    {
      AddArcKeeps(fns, f, q, from, f', self, q', from');
    }
  }

  predicate Knows(fns: Fns, self: nat) { fns.Fn? && (fns.self == self || Knows(fns.next, self)) }
  predicate KnowsArc(arcs: Arcs, from: nat) { arcs.Arc? && (arcs.from == from || KnowsArc(arcs.next, from)) }

  function ArcsOf(fns: Fns, f: int): Arcs {
    if fns.NoFn? then NoArc else if fns.addr == f then fns.arcs else ArcsOf(fns.next, f)
  }

  /** One entry for each function and one arc for each of its callers. */
  predicate Distinct(fns: Fns) {
    fns.Fn? ==> !Knows(fns.next, fns.self) && DistinctArcs(fns.arcs) && Distinct(fns.next)
  }

  predicate DistinctArcs(arcs: Arcs) {
    arcs.Arc? ==> !KnowsArc(arcs.next, arcs.from) && DistinctArcs(arcs.next)
  }

  predicate KnowsPair(fns: Fns, self: nat, from: nat) {
    fns.Fn? && ((fns.self == self && KnowsArc(fns.arcs, from)) || KnowsPair(fns.next, self, from))
  }

  /** With one entry for each function, that entry has all the arcs. */
  lemma {:induction false} KnowsPairIn(mem: Memory, nodes: map<int, Owner>, p: int, fns: Fns, b: int, f: int, self: nat,
                                       from: nat)
    requires FnsAt(mem, nodes, p, fns, b) && HasFn(fns, f, self) && Distinct(fns)
    ensures KnowsPair(fns, self, from) == KnowsArc(ArcsOf(fns, f), from)
    decreases fns
  {
    FnIsNode(mem, nodes, p, fns, b, f, self);
    if p != f {
      KnowsPairIn(mem, nodes, Load(mem, p), fns.next, b, f, self, from);
      HasMeansKnows(fns.next, f, self);
    } else {
      UnknownPair(fns.next, self, from);
    }
  }

  lemma {:induction false} HasMeansKnows(fns: Fns, f: int, self: nat)
    requires HasFn(fns, f, self)
    ensures Knows(fns, self)
  {
    if !(fns.addr == f && fns.self == self) {
      HasMeansKnows(fns.next, f, self);
    }
  }

  lemma {:induction false} UnknownPair(fns: Fns, self: nat, from: nat)
    requires !Knows(fns, self)
    ensures !KnowsPair(fns, self, from) && Tally(fns, self, from) == 0
  {
    if fns.Fn? {
      UnknownPair(fns.next, self, from);
    }
  }

  lemma {:induction false} UnknownArc(arcs: Arcs, from: nat)
    requires !KnowsArc(arcs, from)
    ensures ArcTally(arcs, from) == 0
  {
    if arcs.Arc? {
      UnknownArc(arcs.next, from);
    }
  }

  /** What has been counted is known. */
  lemma {:induction false} TallyMeansKnown(fns: Fns, self: nat, from: nat)
    requires Tally(fns, self, from) != 0
    ensures KnowsPair(fns, self, from)
  {
    if !(fns.self == self && KnowsArc(fns.arcs, from)) {
      UnknownArcIf(fns.arcs, from);
      TallyMeansKnown(fns.next, self, from);
    }
  }

  lemma UnknownArcIf(arcs: Arcs, from: nat)
    ensures !KnowsArc(arcs, from) ==> ArcTally(arcs, from) == 0
  {
    if !KnowsArc(arcs, from) {
      UnknownArc(arcs, from);
    }
  }

  /** With one arc for each caller of each function, the count of the arc is the tally. */
  lemma {:induction false} CountIsTally(mem: Memory, nodes: map<int, Owner>, p: int, fns: Fns, b: int, f: int, self: nat,
                                        q: int, from: nat)
    requires FnsAt(mem, nodes, p, fns, b) && HasArcIn(fns, f, self, q, from) && Distinct(fns)
    ensures Tally(fns, self, from) == Load(mem, q + 8)
    decreases fns
  {
    HeadIsIt(mem, nodes, p, fns, b, f, self, q, from);
    if p == f {
      CountIsArcTally(mem, nodes, Load(mem, p + 8), fns.arcs, p, q, from);
      UnknownPair(fns.next, self, from);
    } else {
      CountIsTally(mem, nodes, Load(mem, p), fns.next, b, f, self, q, from);
      ArcMeansKnows(fns.next, f, self, q, from);
    }
  }

  lemma {:induction false} ArcMeansKnows(fns: Fns, f: int, self: nat, q: int, from: nat)
    requires HasArcIn(fns, f, self, q, from)
    ensures Knows(fns, self)
  {
    if !(fns.addr == f && fns.self == self && HasArc(fns.arcs, q, from)) {
      ArcMeansKnows(fns.next, f, self, q, from);
    }
  }

  lemma {:induction false} CountIsArcTally(mem: Memory, nodes: map<int, Owner>, p: int, arcs: Arcs, fn: int, q: int,
                                           from: nat)
    requires ArcsAt(mem, nodes, p, arcs, fn) && HasArc(arcs, q, from) && DistinctArcs(arcs)
    ensures ArcTally(arcs, from) == Load(mem, q + 8)
    decreases arcs
  {
    ArcIsNode(mem, nodes, p, arcs, fn, q, from);
    if p == q {
      ArcAtHead(mem, nodes, p, arcs, fn, from);
      UnknownArc(arcs.next, from);
    } else {
      CountIsArcTally(mem, nodes, Load(mem, p), arcs.next, fn, q, from);
      HasMeansKnowsArc(arcs.next, q, from);
    }
  }

  lemma ArcAtHead(mem: Memory, nodes: map<int, Owner>, p: int, arcs: Arcs, fn: int, from: nat)
    requires ArcsAt(mem, nodes, p, arcs, fn) && HasArc(arcs, p, from)
    ensures arcs.from == from
  {
    ArcIsNode(mem, nodes, p, arcs, fn, p, from);
  }

  lemma {:induction false} HasMeansKnowsArc(arcs: Arcs, q: int, from: nat)
    requires HasArc(arcs, q, from)
    ensures KnowsArc(arcs, from)
  {
    if !(arcs.addr == q && arcs.from == from) {
      HasMeansKnowsArc(arcs.next, q, from);
    }
  }

  function ArcCount(arcs: Arcs, q: int): nat {
    if arcs.NoArc? then 0 else if arcs.addr == q then arcs.count else ArcCount(arcs.next, q)
  }

  /** The count of the arc `q` of the entry `f`. */
  function CountIn(fns: Fns, f: int, q: int): nat {
    if fns.NoFn? then 0 else if fns.addr == f then ArcCount(fns.arcs, q) else CountIn(fns.next, f, q)
  }

  lemma {:induction false} CountInMemory(mem: Memory, nodes: map<int, Owner>, p: int, fns: Fns, b: int, f: int, self: nat,
                                         q: int, from: nat)
    requires FnsAt(mem, nodes, p, fns, b) && HasArcIn(fns, f, self, q, from)
    ensures Load(mem, q + 8) == CountIn(fns, f, q)
    decreases fns
  {
    HeadIsIt(mem, nodes, p, fns, b, f, self, q, from);
    if p == f {
      ArcCountInMemory(mem, nodes, Load(mem, p + 8), fns.arcs, p, q, from);
    } else {
      CountInMemory(mem, nodes, Load(mem, p), fns.next, b, f, self, q, from);
    }
  }

  lemma {:induction false} ArcCountInMemory(mem: Memory, nodes: map<int, Owner>, p: int, arcs: Arcs, fn: int, q: int,
                                            from: nat)
    requires ArcsAt(mem, nodes, p, arcs, fn) && HasArc(arcs, q, from)
    ensures Load(mem, q + 8) == ArcCount(arcs, q)
    decreases arcs
  {
    if p != q {
      ArcCountInMemory(mem, nodes, Load(mem, p), arcs.next, fn, q, from);
    }
  }

  // ---- walking a chain that may change on the way

  /** The chain from the entry `f` on. */
  function TailFns(fns: Fns, f: int): Fns {
    if fns.NoFn? || fns.addr == f then fns else TailFns(fns.next, f)
  }

  function TailArcs(arcs: Arcs, q: int): Arcs {
    if arcs.NoArc? || arcs.addr == q then arcs else TailArcs(arcs.next, q)
  }

  /** Where the search for an entry goes from `f`. */
  lemma {:induction false} NextFn(mem: Memory, nodes: map<int, Owner>, p: int, fns: Fns, b: int, f: int, self: nat)
    requires FnsAt(mem, nodes, p, fns, b) && HasFn(fns, f, self)
    ensures Load(mem, f) < f && Load(mem, f + 4) == self
    ensures var here := TailFns(fns, f);
            && here.Fn? && here.self == self && TailFns(fns, Load(mem, f)) == here.next
            && (if Load(mem, f) == 0 then here.next.NoFn? else here.next.Fn? && HasFn(fns, Load(mem, f), here.next.self))
    decreases fns
  {
    FnIsNode(mem, nodes, p, fns, b, f, self);
    if p == f {
      TailAt(mem, nodes, Load(mem, f), fns.next, b);
    } else {
      NextFn(mem, nodes, Load(mem, p), fns.next, b, f, self);
    }
  }

  lemma TailAt(mem: Memory, nodes: map<int, Owner>, p: int, fns: Fns, b: int)
    requires FnsAt(mem, nodes, p, fns, b)
    ensures TailFns(fns, p) == fns && (fns.Fn? ==> HasFn(fns, p, fns.self))
  {
  }

  /** Where the search for an arc goes from `q`. */
  lemma {:induction false} NextArc(mem: Memory, nodes: map<int, Owner>, p: int, arcs: Arcs, fn: int, q: int, from: nat)
    requires ArcsAt(mem, nodes, p, arcs, fn) && HasArc(arcs, q, from)
    ensures Load(mem, q) < q <= p && Load(mem, q + 4) == from
    ensures var here := TailArcs(arcs, q);
            && here.Arc? && here.from == from && TailArcs(arcs, Load(mem, q)) == here.next
            && (if Load(mem, q) == 0 then here.next.NoArc?
                else here.next.Arc? && HasArc(arcs, Load(mem, q), here.next.from))
    decreases arcs
  {
    ArcIsNode(mem, nodes, p, arcs, fn, q, from);
    if p == q {
      ArcAtHead(mem, nodes, p, arcs, fn, from);
    } else {
      NextArc(mem, nodes, Load(mem, p), arcs.next, fn, q, from);
    }
  }

  /** Arcs of an entry and arcs in a chain. */
  lemma {:induction false} ArcsOfEntry(mem: Memory, nodes: map<int, Owner>, p: int, fns: Fns, b: int, f: int, self: nat,
                                       q: int, from: nat)
    requires FnsAt(mem, nodes, p, fns, b) && HasFn(fns, f, self)
    ensures HasArcIn(fns, f, self, q, from) == HasArc(ArcsOf(fns, f), q, from)
    ensures ArcsAt(mem, nodes, Load(mem, f + 8), ArcsOf(fns, f), f)
    ensures AllHaveArcs(fns) ==> ArcsOf(fns, f).Arc?
    decreases fns
  {
    FnIsNode(mem, nodes, p, fns, b, f, self);
    if p != f {
      ArcsOfEntry(mem, nodes, Load(mem, p), fns.next, b, f, self, q, from);
    } else if HasArcIn(fns, f, self, q, from) {
      HeadIsIt(mem, nodes, p, fns, b, f, self, q, from);
    }
  }

  // ---- what each update does to what is known and counted

  lemma {:induction false} SetArcCount(arcs: Arcs, q: int, v: nat, q': int)
    ensures ArcCount(SetArc(arcs, q, v), q') == ArcCount(arcs, q') || (q' == q && ArcCount(SetArc(arcs, q, v), q') == v)
    decreases arcs
  {
    if arcs.Arc? {
      SetArcCount(arcs.next, q, v, q');
    }
  }

  lemma {:induction false} SetCountCount(fns: Fns, f: int, q: int, v: nat, f': int, q': int)
    ensures CountIn(SetCount(fns, f, q, v), f', q') == CountIn(fns, f', q')
            || (f' == f && q' == q && CountIn(SetCount(fns, f, q, v), f', q') == v)
    decreases fns
  {
    if fns.Fn? {
      SetArcCount(fns.arcs, q, v, q');
      SetCountCount(fns.next, f, q, v, f', q');
    }
  }

  lemma {:induction false} SetCountKnows(fns: Fns, f: int, q: int, v: nat, self: nat, from: nat)
    ensures KnowsPair(SetCount(fns, f, q, v), self, from) == KnowsPair(fns, self, from)
    decreases fns
  {
    if fns.Fn? {
      SetArcKeeps(fns.arcs, q, v, 0, from);
      SetCountKnows(fns.next, f, q, v, self, from);
    }
  }

  lemma {:induction false} AddArcCount(fns: Fns, f: int, q: int, from: nat, f': int, q': int)
    requires q' != q
    ensures CountIn(AddArc(fns, f, q, from), f', q') == CountIn(fns, f', q')
    decreases fns
  {
    if fns.Fn? {
      AddArcCount(fns.next, f, q, from, f', q');
    }
  }

  lemma {:induction false} AddArcKnows(mem: Memory, nodes: map<int, Owner>, p: int, fns: Fns, b: int, f: int, self: nat,
                                       q: int, from: nat, self': nat, from': nat)
    requires FnsAt(mem, nodes, p, fns, b) && HasFn(fns, f, self)
    ensures KnowsPair(AddArc(fns, f, q, from), self', from') ==
            (KnowsPair(fns, self', from') || (self' == self && from' == from))
    decreases fns
  {
    FnIsNode(mem, nodes, p, fns, b, f, self);
    if p != f {
      AddArcKnows(mem, nodes, Load(mem, p), fns.next, b, f, self, q, from, self', from');
    }
  }

  lemma {:induction false} ArcMeansPair(fns: Fns, f: int, self: nat, q: int, from: nat)
    requires HasArcIn(fns, f, self, q, from)
    ensures KnowsPair(fns, self, from)
  {
    if fns.addr == f && fns.self == self && HasArc(fns.arcs, q, from) {
      HasMeansKnowsArc(fns.arcs, q, from);
    } else {
      ArcMeansPair(fns.next, f, self, q, from);
    }
  }
}
