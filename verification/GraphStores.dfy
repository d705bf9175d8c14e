/** What the stores of mcount and of the clients of sbrk do to the whole call graph. */
module GraphStores {
  import opened Unsigned
  import opened CallGraph
  import opened Heap

  // ---- whole-graph effects of the stores that each update makes

  /** Nodes do not overlap each other or the hash heads. */
  ghost predicate Spread(nodes: map<int, Owner>, base: int) {
    && (forall p :: p in nodes ==> base + 4 * BUCKETS <= p)
    && (forall p, q :: p in nodes && q in nodes && p != q ==> Apart(Region(p, NODE), Region(q, NODE)))
  }

  lemma GraphSetCount(mem: Memory, nodes: map<int, Owner>, base: int, chains: seq<Fns>, self: nat, f: int, q: int,
                      from: nat, v: nat)
    requires GraphAt(mem, nodes, base, chains) && Spread(nodes, base) && v < M
    requires HasArcIn(chains[Bucket(self)], f, self, q, from)
    ensures GraphAt(Store(mem, q + 8, v), nodes, base, chains[Bucket(self) := SetCount(chains[Bucket(self)], f, q, v)])
  {
    hide HasArcIn, SetCount, FnsAt, Bucket;
    var k := Bucket(self);
    HeadIsIt(mem, nodes, Load(mem, Head(base, k)), chains[k], k, f, self, q, from);
    var mem' := Store(mem, q + 8, v);
    forall b | 0 <= b < BUCKETS
      ensures FnsAt(mem', nodes, Load(mem', Head(base, b)), chains[k := SetCount(chains[k], f, q, v)][b], b)
    {
      if b == k {
        SetCountAt(mem, mem', nodes, Load(mem, Head(base, b)), chains[b], b, f, self, q, from, v);
      } else {
        FnsFrame(mem, mem', nodes, nodes, Load(mem, Head(base, b)), chains[b], b, q, f);
      }
    }
  }

  /** `q` is a node of memory that nothing uses yet, above all the nodes in use. */
  ghost predicate Unused(nodes: map<int, Owner>, base: int, q: int) {
    base + 4 * BUCKETS <= q && 0 < q && forall p :: p in nodes ==> p + NODE <= q
  }

  function ArcStored(mem: Memory, f: int, q: int, from: nat): Memory {
    Store(Store(Store(Store(mem, q + 4, from), q + 8, 1), q, Load(mem, f + 8)), f + 8, q)
  }

  lemma GraphAddArc(mem: Memory, nodes: map<int, Owner>, base: int, chains: seq<Fns>, self: nat, f: int, q: int, from: nat)
    requires GraphAt(mem, nodes, base, chains) && Spread(nodes, base) && Unused(nodes, base, q)
    requires HasFn(chains[Bucket(self)], f, self)
    ensures GraphAt(ArcStored(mem, f, q, from), nodes[q := FnArc(f, from)], base,
                    chains[Bucket(self) := AddArc(chains[Bucket(self)], f, q, from)])
  {
    hide HasFn, AddArc, FnsAt, Bucket, ArcStored;
    var k := Bucket(self);
    FnIsNode(mem, nodes, Load(mem, Head(base, k)), chains[k], k, f, self);
    var mem', nodes' := ArcStored(mem, f, q, from), nodes[q := FnArc(f, from)];
    ArcStores(mem, nodes, base, f, q, from);
    forall b | 0 <= b < BUCKETS
      ensures FnsAt(mem', nodes', Load(mem', Head(base, b)),
                    chains[k := AddArc(chains[k], f, q, from)][b], b)
    {
      if b == k {
        AddArcAt(mem, mem', nodes, nodes', Load(mem, Head(base, b)), chains[b], b, f, self, q, from);
      } else {
        FnsFrame(mem, mem', nodes, nodes', Load(mem, Head(base, b)), chains[b], b, f, f);
      }
    }
  }

  lemma ArcStores(mem: Memory, nodes: map<int, Owner>, base: int, f: int, q: int, from: nat)
    requires Spread(nodes, base) && Unused(nodes, base, q) && f in nodes
    ensures var mem' := ArcStored(mem, f, q, from);
            && Agrees(mem, mem', nodes, f)
            && Load(mem', f) == Load(mem, f) && Load(mem', f + 4) == Load(mem, f + 4) && Load(mem', f + 8) == q
            && Load(mem', q) == Load(mem, f + 8) && Load(mem', q + 4) == from && Load(mem', q + 8) == 1
            && forall b :: 0 <= b < BUCKETS ==> Load(mem', Head(base, b)) == Load(mem, Head(base, b))
  {
  }

  function FnStored(mem: Memory, head: int, q: int, self: nat): Memory {
    Store(Store(Store(Store(mem, q + 4, self), q + 8, 0), q, Load(mem, head)), head, q)
  }

  lemma GraphNewFn(mem: Memory, nodes: map<int, Owner>, base: int, chains: seq<Fns>, self: nat, q: int)
    requires GraphAt(mem, nodes, base, chains) && Spread(nodes, base) && Unused(nodes, base, q)
    ensures var k := Bucket(self);
            GraphAt(FnStored(mem, Head(base, k), q, self), nodes[q := FnEntry(self)], base,
                    chains[k := Fn(q, self, NoArc, chains[k])])
  {
    hide Bucket, FnStored;
    var k := Bucket(self);
    var mem', nodes' := FnStored(mem, Head(base, k), q, self), nodes[q := FnEntry(self)];
    FnStores(mem, nodes, base, k, q, self);
    forall b | 0 <= b < BUCKETS
      ensures FnsAt(mem', nodes', Load(mem', Head(base, b)), chains[k := Fn(q, self, NoArc, chains[k])][b], b)
    {
      FnsFrame(mem, mem', nodes, nodes', Load(mem, Head(base, b)), chains[b], b, q, q);
    }
  }

  lemma FnStores(mem: Memory, nodes: map<int, Owner>, base: int, k: nat, q: int, self: nat)
    requires Spread(nodes, base) && Unused(nodes, base, q) && k < BUCKETS
    ensures var mem' := FnStored(mem, Head(base, k), q, self);
            && Agrees(mem, mem', nodes, q)
            && Load(mem', q) == Load(mem, Head(base, k)) && Load(mem', q + 4) == self && Load(mem', q + 8) == 0
            && Load(mem', Head(base, k)) == q
            && forall b :: 0 <= b < BUCKETS && b != k ==> Load(mem', Head(base, b)) == Load(mem, Head(base, b))
  {
  }

  /** A store outside the nodes and the heads does not touch the graph. */
  lemma GraphFrame(mem: Memory, nodes: map<int, Owner>, base: int, chains: seq<Fns>, a: int, v: int)
    requires GraphAt(mem, nodes, base, chains)
    requires base + 4 * BUCKETS <= a
    requires forall p :: p in nodes ==> a + 4 <= p || p + NODE <= a
    ensures GraphAt(Store(mem, a, v), nodes, base, chains)
  {
    hide FnsAt;
    forall b | 0 <= b < BUCKETS
      ensures FnsAt(Store(mem, a, v), nodes, Load(Store(mem, a, v), Head(base, b)), chains[b], b)
    {
      FnsFrame(mem, Store(mem, a, v), nodes, nodes, Load(mem, Head(base, b)), chains[b], b, a, a);
    }
  }

  // ---- clients

  /** The word at `a` lies in the region. */
  predicate InRegion(r: Region, a: int) { r.start <= a && a + 4 <= r.start + r.size }

  ghost predicate Untouched(mem: Memory, mem': Memory, clients: seq<Region>) {
    forall i, a :: 0 <= i < |clients| && InRegion(clients[i], a) ==> Load(mem', a) == Load(mem, a)
  }

  lemma ArcMissesClients(start: int, end: int, slab: Region, nodes: map<int, Owner>, clients: seq<Region>, mem: Memory,
                         f: int, q: int, from: nat)
    requires Layout(start, end, slab, nodes, clients) && f in nodes && q in nodes
    ensures Untouched(mem, ArcStored(mem, f, q, from), clients)
  {
  }

  lemma CountMissesClients(start: int, end: int, slab: Region, nodes: map<int, Owner>, clients: seq<Region>, mem: Memory,
                           q: int, v: int)
    requires Layout(start, end, slab, nodes, clients) && q in nodes
    ensures Untouched(mem, Store(mem, q + 8, v), clients)
  {
  }

  lemma FnMissesClients(start: int, end: int, slab: Region, nodes: map<int, Owner>, clients: seq<Region>, mem: Memory,
                        head: int, q: int, self: nat)
    requires Layout(start, end, slab, nodes, clients) && q in nodes && head < start
    ensures Untouched(mem, FnStored(mem, head, q, self), clients)
  {
  }

  lemma UntouchedTrans(mem: Memory, mem': Memory, mem'': Memory, clients: seq<Region>, clients': seq<Region>)
    requires Untouched(mem, mem', clients) && Untouched(mem', mem'', clients') && clients <= clients'
    ensures Untouched(mem, mem'', clients)
  {
  }

  lemma UntouchedSame(mem: Memory, clients: seq<Region>)
    ensures Untouched(mem, mem, clients)
  {
  }

  // ---- what the updates record

  /** The chains hold one call of `self` from `from` more than before, and nothing was lost. */
  ghost predicate Recorded(chains: seq<Fns>, chains': seq<Fns>, self: nat, from: nat) {
    && |chains| == |chains'| == BUCKETS
    && AllGrow(chains, chains')
    && (forall s: nat, f: nat :: Tally(chains'[Bucket(s)], s, f) ==
          if s == self && f == from then Add32(Tally(chains[Bucket(s)], s, f), 1) else Tally(chains[Bucket(s)], s, f))
    && (forall s: nat, f: nat :: KnowsPair(chains'[Bucket(s)], s, f) ==
          (KnowsPair(chains[Bucket(s)], s, f) || (s == self && f == from)))
  }

  /** The arcs that were there have the counts that they had. */
  ghost predicate CountsKept(chains: seq<Fns>, chains': seq<Fns>)
    requires |chains| == |chains'| == BUCKETS
  {
    forall s: nat, f: nat, e, q :: HasArcIn(chains[Bucket(s)], e, s, q, f) ==>
      CountIn(chains'[Bucket(s)], e, q) == CountIn(chains[Bucket(s)], e, q)
  }

  /** ... but for the arc `q'` of `self` and `from`, which has the count `v`. */
  ghost predicate CountsSet(chains: seq<Fns>, chains': seq<Fns>, self: nat, from: nat, e': int, q': int, v: nat)
    requires |chains| == |chains'| == BUCKETS
  {
    forall s: nat, f: nat, e, q :: HasArcIn(chains[Bucket(s)], e, s, q, f) ==>
      || CountIn(chains'[Bucket(s)], e, q) == CountIn(chains[Bucket(s)], e, q)
      || (s == self && f == from && e == e' && q == q' && CountIn(chains'[Bucket(s)], e, q) == v)
  }

  ghost predicate AllGrow(chains: seq<Fns>, chains': seq<Fns>)
    requires |chains| == |chains'|
  {
    forall b :: 0 <= b < |chains| ==> Grows(chains[b], chains'[b])
  }

  ghost predicate AllDistinct(chains: seq<Fns>) { forall b :: 0 <= b < |chains| ==> Distinct(chains[b]) }
  ghost predicate ArcsEverywhere(chains: seq<Fns>) { forall b :: 0 <= b < |chains| ==> AllHaveArcs(chains[b]) }

  /** One count was replaced: the tally of its pair has lost the old one and gained the new one. */
  ghost predicate CountSet(chains: seq<Fns>, chains': seq<Fns>, self: nat, from: nat, count: nat, count': nat) {
    && |chains| == |chains'| == BUCKETS
    && AllGrow(chains, chains')
    && (forall s: nat, f: nat ::
          if s == self && f == from then Replaced(Tally(chains[Bucket(s)], s, f), Tally(chains'[Bucket(s)], s, f), count, count')
          else Tally(chains'[Bucket(s)], s, f) == Tally(chains[Bucket(s)], s, f))
    && (forall s: nat, f: nat :: KnowsPair(chains'[Bucket(s)], s, f) == KnowsPair(chains[Bucket(s)], s, f))
  }

  lemma SetCountRecords(mem: Memory, nodes: map<int, Owner>, base: int, chains: seq<Fns>, self: nat, f: int, q: int,
                        from: nat, v: nat)
    requires GraphAt(mem, nodes, base, chains) && HasArcIn(chains[Bucket(self)], f, self, q, from)
    requires ArcsEverywhere(chains)
    ensures 0 <= Load(mem, q + 8) < M && q in nodes
    ensures var chains' := chains[Bucket(self) := SetCount(chains[Bucket(self)], f, q, v)];
            && CountSet(chains, chains', self, from, Load(mem, q + 8), v) && ArcsEverywhere(chains')
            && CountsSet(chains, chains', self, from, f, q, v)
            && (AllDistinct(chains) ==> AllDistinct(chains'))
  {
    hide HasArcIn, HasFn, SetCount, FnsAt, Bucket, Tally, Add32, AllHaveArcs, Distinct, Knows, Grows, Replaced, KnowsPair, CountIn;
    GrowsItself(chains);
    var k := Bucket(self);
    var chain, chain' := chains[k], SetCount(chains[k], f, q, v);
    HeadIsIt(mem, nodes, Load(mem, Head(base, k)), chain, k, f, self, q, from);
    SetCountGrows(chain, f, q, v);
    forall s: nat, f': nat | Bucket(s) == k
      ensures if s == self && f' == from then Replaced(Tally(chain, s, f'), Tally(chain', s, f'), Load(mem, q + 8), v)
              else Tally(chain', s, f') == Tally(chain, s, f')
    {
      SetCountCounts(mem, nodes, Load(mem, Head(base, k)), chain, k, f, self, q, from, v, s, f');
    }
    forall s: nat, f': nat
      ensures KnowsPair(chain', s, f') == KnowsPair(chain, s, f')
    {
      SetCountKnows(chain, f, q, v, s, f');
    }
    forall s: nat, f': nat, e, q' | Bucket(s) == k && HasArcIn(chain, e, s, q', f')
      ensures CountIn(chain', e, q') == CountIn(chain, e, q')
              || (s == self && f' == from && e == f && q' == q && CountIn(chain', e, q') == v)
    {
      SetCountCount(chain, f, q, v, e, q');
      HeadIsIt(mem, nodes, Load(mem, Head(base, k)), chain, k, e, s, q', f');
    }
  }

  lemma AddArcRecords(mem: Memory, nodes: map<int, Owner>, base: int, chains: seq<Fns>, self: nat, f: int, q: int, from: nat)
    requires GraphAt(mem, nodes, base, chains) && HasFn(chains[Bucket(self)], f, self)
    ensures var chains' := chains[Bucket(self) := AddArc(chains[Bucket(self)], f, q, from)];
            && Recorded(chains, chains', self, from)
            && (q !in nodes ==> CountsKept(chains, chains'))
            && (ArcsEverywhere(chains) ==> ArcsEverywhere(chains'))
            && (AllDistinct(chains) && !KnowsArc(ArcsOf(chains[Bucket(self)], f), from) ==> AllDistinct(chains'))
  {
    hide HasArcIn, HasFn, AddArc, FnsAt, Bucket, Tally, Add32, AllHaveArcs, Distinct, Knows, KnowsArc, ArcsOf, Grows, KnowsPair,
      CountIn;
    GrowsItself(chains);
    var k := Bucket(self);
    var chain, chain' := chains[k], AddArc(chains[k], f, q, from);
    AddArcGrows(chain, f, q, from);
    forall s: nat, f': nat | Bucket(s) == k
      ensures Tally(chain', s, f') == if s == self && f' == from then Add32(Tally(chain, s, f'), 1) else Tally(chain, s, f')
    {
      AddArcCounts(mem, nodes, Load(mem, Head(base, k)), chain, k, f, self, q, from, s, f');
    }
    forall s: nat, f': nat
      ensures KnowsPair(chain', s, f') == (KnowsPair(chain, s, f') || (s == self && f' == from))
    {
      AddArcKnows(mem, nodes, Load(mem, Head(base, k)), chain, k, f, self, q, from, s, f');
    }
    forall s: nat, f': nat, e, q' | q !in nodes && Bucket(s) == k && HasArcIn(chain, e, s, q', f')
      ensures CountIn(chain', e, q') == CountIn(chain, e, q')
    {
      HeadIsIt(mem, nodes, Load(mem, Head(base, k)), chain, k, e, s, q', f');
      AddArcCount(chain, f, q, from, e, q');
    }
  }

  /** A new entry and its first arc. */
  lemma NewFnRecords(chains: seq<Fns>, chains': seq<Fns>, chains'': seq<Fns>, self: nat, f: int, q: int, from: nat)
    requires |chains| == BUCKETS && chains' == chains[Bucket(self) := Fn(f, self, NoArc, chains[Bucket(self)])]
    requires chains'' == chains'[Bucket(self) := AddArc(chains'[Bucket(self)], f, q, from)]
    requires Recorded(chains', chains'', self, from) && CountsKept(chains', chains'') && ArcsEverywhere(chains)
    requires forall s: nat, f', e, q' :: HasArcIn(chains[Bucket(s)], e, s, q', f') ==> e != f
    ensures Recorded(chains, chains'', self, from) && ArcsEverywhere(chains'') && CountsKept(chains, chains'')
    ensures AllDistinct(chains) && !Knows(chains[Bucket(self)], self) ==> AllDistinct(chains'')
  {
    hide Bucket, Add32;
    var k := Bucket(self);
    forall s: nat, f': nat
      ensures Tally(chains'[Bucket(s)], s, f') == Tally(chains[Bucket(s)], s, f')
    {
      NewFnCounts(chains[k], f, self, s, f');
      TallyIs32Fns(chains[k], s, f');
    }
    assert Grows(chains[k], chains'[k]);
    assert AllGrow(chains, chains');
    assert forall s: nat, f': nat :: KnowsPair(chains'[Bucket(s)], s, f') == KnowsPair(chains[Bucket(s)], s, f');
    forall s: nat, f': nat, e, q' | HasArcIn(chains[Bucket(s)], e, s, q', f')
      ensures CountIn(chains''[Bucket(s)], e, q') == CountIn(chains[Bucket(s)], e, q')
    {
      assert HasArcIn(chains'[Bucket(s)], e, s, q', f');
    }
    GrowTrans(chains, chains', chains'');
    assert chains'' == chains[k := Fn(f, self, Arc(q, from, 1, NoArc), chains[k])];
    assert DistinctArcs(Arc(q, from, 1, NoArc));
  }

  lemma TallyIs32Fns(fns: Fns, self: nat, from: nat)
    ensures Tally(fns, self, from) < M
  {
  }

  lemma RecordedGrows(chains: seq<Fns>, chains': seq<Fns>, self: nat, from: nat)
    requires Recorded(chains, chains', self, from)
    ensures |chains| == |chains'| == BUCKETS && AllGrow(chains, chains')
  {
  }

  lemma GrownArc(chains: seq<Fns>, chains': seq<Fns>, b: nat, f: int, self: nat, q: int, from: nat)
    requires |chains| == |chains'| && b < |chains| && AllGrow(chains, chains') && HasArcIn(chains[b], f, self, q, from)
    ensures HasArcIn(chains'[b], f, self, q, from)
  {
    hide HasArcIn, HasFn;
    assert Grows(chains[b], chains'[b]);
  }

  lemma GrownFn(chains: seq<Fns>, chains': seq<Fns>, b: nat, f: int, self: nat)
    requires |chains| == |chains'| && b < |chains| && AllGrow(chains, chains') && HasFn(chains[b], f, self)
    ensures HasFn(chains'[b], f, self)
  {
    hide HasArcIn, HasFn;
    assert Grows(chains[b], chains'[b]);
  }

  lemma GrowsItself(chains: seq<Fns>)
    ensures AllGrow(chains, chains)
  {
    hide HasFn, HasArcIn;
  }

  lemma GrowTrans(chains: seq<Fns>, chains': seq<Fns>, chains'': seq<Fns>)
    requires |chains| == |chains'| == |chains''| && AllGrow(chains, chains') && AllGrow(chains', chains'')
    ensures AllGrow(chains, chains'')
  {
    hide HasFn, HasArcIn;
  }

  lemma GrantNothing(start: int, end: int, end': int, slab: Region, nodes: map<int, Owner>, clients: seq<Region>)
    requires Layout(start, end, slab, nodes, clients) && end <= end'
    ensures Layout(start, end', slab, nodes, clients)
  {
  }

  lemma NodesGrow(mem: Memory, nodes: map<int, Owner>, base: int, chains: seq<Fns>, q: int, owner: Owner)
    requires GraphAt(mem, nodes, base, chains) && q !in nodes
    ensures GraphAt(mem, nodes[q := owner], base, chains)
  {
    hide FnsAt;
    forall b | 0 <= b < BUCKETS
      ensures FnsAt(mem, nodes[q := owner], Load(mem, Head(base, b)), chains[b], b)
    {
      FnsFrame(mem, mem, nodes, nodes[q := owner], Load(mem, Head(base, b)), chains[b], b, q, q);
    }
  }
}
