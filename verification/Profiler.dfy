/** The memory users of the HAL: sbrk, the slab allocator of mcount, and mcount itself with its call graph. */
module Profiler {
  import opened Unsigned
  import opened CallGraph
  import opened Heap
  import opened GraphStores
  import opened ProfiledRuns

  class Memories {
    const base: int        // __mcount_fn_head
    const start: int       // __alt_heap_start
    const limit: int       // __alt_heap_limit
    var heapEnd: int
    var slabPtr: int
    var slabSize: int
    var mem: Memory
    ghost var nodes: map<int, Owner>
    var clients: seq<Region>  // what the clients of sbrk were given
    ghost var chains: seq<Fns>

    /** The lay-out of memory is sound, and the hash heads lead to `chains`. */
    ghost predicate Core()
      reads this
    {
      && base + 4 * BUCKETS <= start && limit % 4 == 0 && heapEnd <= limit < 0x8000_0000
      && Layout(start, heapEnd, Region(slabPtr, slabSize), nodes, clients)
      && |chains| == BUCKETS && GraphAt(mem, nodes, base, chains)
    }

    ghost predicate Inv()
      reads this
    {
      Core() && ArcsEverywhere(chains)
    }

    ghost function Now(): Snap
      reads this
    {
      Snap(mem, nodes, clients, chains, AlignUp(heapEnd))
    }

    /** The heap cannot give mcount another slab: a run is followed up to there. */
    ghost predicate Exhausted()
      reads this
    {
      AlignUp(heapEnd) + SLAB > limit
    }

    constructor (base: int, start: int, limit: int)
      requires 0 < start <= limit < 0x8000_0000 && limit % 4 == 0 && base + 4 * BUCKETS <= start
      ensures Inv() && AllDistinct(chains) && clients == []
      ensures forall self: nat, from: nat :: Tally(chains[Bucket(self)], self, from) == 0
    {
      this.base, this.start, this.limit := base, start, limit;
      heapEnd, slabPtr, slabSize, mem := start, 0, 0, map[];
      nodes, clients, chains := map[], [], seq(BUCKETS, _ => NoFn);
    }

    /** `ALT_SBRK`. A refused request still leaves heap_end aligned. */
    method Sbrk(incr: int) returns (prev: int)
      requires 0 <= heapEnd <= limit
      modifies `heapEnd
      ensures AlignUp(old(heapEnd)) + incr <= limit ==> prev == AlignUp(old(heapEnd)) && heapEnd == prev + incr
      ensures AlignUp(old(heapEnd)) + incr > limit ==> prev == FAIL == 0xFFFF_FFFF && heapEnd == AlignUp(old(heapEnd))
    {
      heapEnd := AlignUp(heapEnd);
      if heapEnd + incr > limit {
        return FAIL;
      }
      prev := heapEnd;
      heapEnd := heapEnd + incr;
    }

    /** A client grows the heap; it owns the region it gets. */
    method Grant(incr: nat) returns (prev: int)
      requires Core()
      modifies `heapEnd, `clients
      ensures Core() && heapEnd >= old(heapEnd)
      ensures clients == if prev == FAIL then old(clients) else old(clients) + [Region(prev, incr)]
      ensures prev != FAIL <==> AlignUp(old(heapEnd)) + incr <= limit
      ensures heapEnd == AlignUp(old(heapEnd)) + if prev == FAIL then 0 else incr
    {
      hide GraphAt;
      prev := Sbrk(incr);
      if prev != FAIL {
        GrantClient(start, old(heapEnd), Region(slabPtr, slabSize), nodes, clients, Region(prev, incr));
        clients := clients + [Region(prev, incr)];
      } else {
        GrantNothing(start, old(heapEnd), heapEnd, Region(slabPtr, slabSize), nodes, clients);
      }
    }

    /** `mcount_allocate`, for a node. The result of sbrk is not looked at: with no room for another slab it hands out
        (void*)-1, and so it does exactly then. */
    method Allocate(ghost owner: Owner) returns (data: int)
      requires Core()
      modifies `heapEnd, `slabPtr, `slabSize, `nodes
      ensures data == FAIL <==> old(slabSize) < 12 && AlignUp(old(heapEnd)) + 1020 > limit
      ensures data == FAIL ==> heapEnd == AlignUp(old(heapEnd))
      ensures data != FAIL ==>
                && Core() && Unused(old(nodes), base, data) && nodes == old(nodes)[data := owner]
                && data == (if old(slabSize) < NODE then AlignUp(old(heapEnd)) else old(slabPtr))
                && heapEnd == (if old(slabSize) < NODE then AlignUp(old(heapEnd)) + SLAB else old(heapEnd))
                && slabPtr == data + NODE && slabSize == (if old(slabSize) < 12 then 1020 else old(slabSize)) - 12
    {
      hide GraphAt;
      if NODE > slabSize {
        slabPtr := Sbrk(SLAB);
        slabSize := SLAB;
        if slabPtr != FAIL {
          GrantSlab(start, old(heapEnd), old(Region(slabPtr, slabSize)), nodes, clients, Region(slabPtr, SLAB));
        }
      }
      data := slabPtr;
      slabPtr := slabPtr + NODE;
      slabSize := slabSize - NODE;
      if data != FAIL {
        CutNode(start, heapEnd, Region(data, slabSize + NODE), nodes, clients, owner);
        NodesGrow(mem, nodes, base, chains, data, owner);
        nodes := nodes[data := owner];
      }
    }

    /** The first loop of mcount: an entry of `self`, or null. Handlers run between any two steps of it, `during` from here
        on and `rest` after the search; nothing is missed if they are not profiled. */
    method FindFn(self: nat, during: Events) returns (ok: bool, f: int, rest: Events, ghost lost: multiset<(nat, nat)>)
      requires Inv()
      modifies `heapEnd, `slabPtr, `slabSize, `nodes, `clients, `mem, `chains
      ensures !ok ==> Exhausted() && old(Now()).top + Need(during) > limit
      ensures ok ==> Inv() && Went(old(Now()), Now(), during, rest, lost) && Size(rest) <= Size(during)
      ensures ok && f != 0 ==> HasFn(chains[Bucket(self)], f, self)
      ensures ok && f == 0 && NoCalls(during) ==> !Knows(chains[Bucket(self)], self)
      decreases Size(during), 3
    {
      hide Need;
      hide Bucket, GraphAt, Layout, HasFn, Knows, TailFns, ArcsEverywhere, NoCalls, Size, Keeps, Went, IsEntry;
      ghost var k := Bucket(self);
      f := 0;
      ok, rest, lost := Preempt(during, during, Now(), multiset{});
      if !ok {
        return;
      }
      EntryStart(k);
      f := Load(mem, Head(base, Bucket(self)));
      while f != 0
        invariant Inv() && Went(old(Now()), Now(), during, rest, lost) && Size(rest) <= Size(during)
        invariant if f == 0 then TailFns(chains[k], f) == NoFn else IsEntry(chains[k], nodes, f)
        invariant NoCalls(during) ==> Knows(chains[k], self) == Knows(TailFns(chains[k], f), self)
        decreases f
      {
        ghost var before := Now();
        EntryStep(k, f, self);
        ok, rest, lost := Preempt(rest, during, old(Now()), lost);
        if !ok {
          return;
        }
        StillEntry(before, Now(), k, f);
        EntryStep(k, f, self);
        if Load(mem, f + 4) == self {
          return;
        }
        f := Load(mem, f);
      }
      KnowsNone(self);
    }

    lemma EntryStart(k: nat)
      requires Core() && k < BUCKETS
      ensures var f := Load(mem, Head(base, k));
              && TailFns(chains[k], f) == chains[k]
              && if f == 0 then chains[k] == NoFn else IsEntry(chains[k], nodes, f)
    {
      hide Layout;
      HeadsInGraph(k);
      TailAt(mem, nodes, Load(mem, Head(base, k)), chains[k], k);
    }

    /** Where the search goes from an entry. */
    lemma EntryStep(k: nat, f: int, self: nat)
      requires Core() && k < BUCKETS && IsEntry(chains[k], nodes, f)
      ensures 0 < f && Load(mem, f) < f && (Load(mem, f + 4) == self ==> HasFn(chains[k], f, self))
      ensures var next := Load(mem, f);
              && (if next == 0 then TailFns(chains[k], next) == NoFn else IsEntry(chains[k], nodes, next))
              && (Load(mem, f + 4) != self ==> Knows(TailFns(chains[k], f), self) == Knows(TailFns(chains[k], next), self))
    {
      hide HasFn, TailFns, FnsAt, GraphAt;
      HeadsInGraph(k);
      var head := Load(mem, Head(base, k));
      NextFn(mem, nodes, head, chains[k], k, f, nodes[f].self);
      FnIsNode(mem, nodes, head, chains[k], k, f, nodes[f].self);
      if Load(mem, f) != 0 {
        FnIsNode(mem, nodes, head, chains[k], k, Load(mem, f), TailFns(chains[k], f).next.self);
      }
    }

    lemma HeadsInGraph(b: nat)
      requires Core() && b < BUCKETS
      ensures FnsAt(mem, nodes, Load(mem, Head(base, b)), chains[b], b)
    {
      hide FnsAt;
    }

    /** The second loop: an arc from `from` of the entry `f`, or null. Its first arc is read without a test. It may find
        an arc that a handler has added meanwhile. */
    method FindArc(self: nat, f: int, from: nat, during: Events)
      returns (ok: bool, q: int, rest: Events, ghost lost: multiset<(nat, nat)>)
      requires Inv() && HasFn(chains[Bucket(self)], f, self)
      modifies `heapEnd, `slabPtr, `slabSize, `nodes, `clients, `mem, `chains
      ensures !ok ==> Exhausted() && old(Now()).top + Need(during) > limit
      ensures ok ==> Inv() && Went(old(Now()), Now(), during, rest, lost) && Size(rest) <= Size(during)
      ensures ok ==> HasFn(chains[Bucket(self)], f, self)
      ensures ok && q != 0 ==> HasArcIn(chains[Bucket(self)], f, self, q, from)
      ensures ok && q == 0 && NoCalls(during) ==> !KnowsArc(ArcsOf(chains[Bucket(self)], f), from)
      decreases Size(during), 3
    {
      hide Need;
      hide Bucket, GraphAt, Layout, HasFn, HasArcIn, KnowsArc, TailArcs, ArcsOf, ArcsEverywhere, NoCalls, Size, Keeps, Went, IsArc;
      ghost var k := Bucket(self);
      ghost var before := Now();
      q := 0;
      ok, rest, lost := Preempt(during, during, Now(), multiset{});
      if !ok {
        return;
      }
      StillFn(before, Now(), k, f, self);
      ArcStart(k, f, self);
      q := Load(mem, f + 8);
      while true
        invariant Inv() && Went(old(Now()), Now(), during, rest, lost) && Size(rest) <= Size(during)
        invariant q != 0 && HasFn(chains[k], f, self) && IsArc(chains[k], nodes, f, self, q)
        invariant NoCalls(during) ==> KnowsArc(ArcsOf(chains[k], f), from) == KnowsArc(TailArcs(ArcsOf(chains[k], f), q), from)
        decreases q
      {
        before := Now();
        ArcStep(k, f, self, q, from);
        ok, rest, lost := Preempt(rest, during, old(Now()), lost);
        if !ok {
          return;
        }
        StillFn(before, Now(), k, f, self);
        StillArc(before, Now(), k, f, self, q);
        ArcStep(k, f, self, q, from);
        if Load(mem, q + 4) == from {
          return;
        }
        q := Load(mem, q);
        if q == 0 {
          return;
        }
      }
    }

    /** The first arc of an entry. */
    lemma ArcStart(k: nat, f: int, self: nat)
      requires Inv() && k < BUCKETS && HasFn(chains[k], f, self)
      ensures var q := Load(mem, f + 8);
              q != 0 && IsArc(chains[k], nodes, f, self, q) && TailArcs(ArcsOf(chains[k], f), q) == ArcsOf(chains[k], f)
    {
      hide FnsAt, GraphAt, HasFn, HasArcIn, Layout, ArcsOf, AllHaveArcs;
      HeadsInGraph(k);
      var head := Load(mem, Head(base, k));
      ArcsOfEntry(mem, nodes, head, chains[k], k, f, self, 0, 0);
      var arcs := ArcsOf(chains[k], f);
      ArcsOfEntry(mem, nodes, head, chains[k], k, f, self, arcs.addr, arcs.from);
    }

    /** Where the search goes from an arc. */
    lemma ArcStep(k: nat, f: int, self: nat, q: int, from: nat)
      requires Core() && k < BUCKETS && HasFn(chains[k], f, self) && IsArc(chains[k], nodes, f, self, q)
      ensures 0 < q && Load(mem, q) < q && (Load(mem, q + 4) == from ==> HasArcIn(chains[k], f, self, q, from))
      ensures Load(mem, q) != 0 ==> IsArc(chains[k], nodes, f, self, Load(mem, q))
      ensures Load(mem, q + 4) != from ==>
                KnowsArc(TailArcs(ArcsOf(chains[k], f), q), from) ==
                (Load(mem, q) != 0 && KnowsArc(TailArcs(ArcsOf(chains[k], f), Load(mem, q)), from))
    {
      hide FnsAt, GraphAt, HasFn, HasArcIn, ArcsOf, TailArcs, ArcsAt, HasArc;
      HeadsInGraph(k);
      var head, arcs, x := Load(mem, Head(base, k)), ArcsOf(chains[k], f), nodes[q].from;
      ArcsOfEntry(mem, nodes, head, chains[k], k, f, self, q, x);
      NextArc(mem, nodes, Load(mem, f + 8), arcs, f, q, x);
      ArcIsNode(mem, nodes, Load(mem, f + 8), arcs, f, q, x);
      if Load(mem, q) != 0 {
        var y := TailArcs(arcs, q).next.from;
        ArcsOfEntry(mem, nodes, head, chains[k], k, f, self, Load(mem, q), y);
        ArcIsNode(mem, nodes, Load(mem, f + 8), arcs, f, Load(mem, q), y);
      }
    }

    /** Handlers run some of what is left of `all`, of which `pending` is left since `origin`. */
    method Preempt(pending: Events, ghost all: Events, ghost origin: Snap, ghost before: multiset<(nat, nat)>)
      returns (ok: bool, rest: Events, ghost lost: multiset<(nat, nat)>)
      requires Inv() && (Went(origin, Now(), all, pending, before) || (origin == Now() && all == pending && before == multiset{}))
      modifies `heapEnd, `slabPtr, `slabSize, `nodes, `clients, `mem, `chains
      ensures !ok ==> Exhausted() && origin.top + Need(all) > limit
      ensures ok ==> Inv() && Went(origin, Now(), all, rest, lost) && Size(rest) <= Size(pending)
      ensures ok ==> Keeps(old(Now()), Now()) && (NoCalls(all) ==> chains == old(chains))
      decreases Size(pending), 2
    {
      hide Need;
      hide GraphAt, Layout, Went, ArcsEverywhere, Keeps;
      WentNowhere(Now(), pending);
      WentKeeps(Now(), Now(), pending, pending, multiset{});
      ok, rest, lost := true, pending, before;
      var events: nat := *;
      while events > 0 && rest != Done
        invariant Inv() && Went(origin, Now(), all, rest, lost) && Size(rest) <= Size(pending)
        invariant Keeps(old(Now()), Now()) && (NoCalls(all) ==> chains == old(chains))
        invariant |chains| == |old(chains)|
      {
        ghost var mid, left, l := Now(), rest, multiset{};
        WentKeeps(origin, mid, all, left, lost);
        ok, rest, l := Step(rest);
        if !ok {
          return;
        }
        WentKeeps(mid, Now(), left, rest, l);
        KeepsTrans(old(Now()), mid, Now());
        WentTrans(origin, mid, Now(), all, left, rest, lost, l);
        lost := lost + l;
        events := events - 1;
      }
    }

    /** The next event of a run. */
    method Step(pending: Events) returns (ok: bool, rest: Events, ghost lost: multiset<(nat, nat)>)
      requires Inv() && pending != Done
      modifies `heapEnd, `slabPtr, `slabSize, `nodes, `clients, `mem, `chains
      ensures !ok ==> Exhausted() && old(Now()).top + Need(pending) > limit
      ensures rest == pending.rest && Size(rest) < Size(pending)
      ensures ok ==> Inv() && Went(old(Now()), Now(), pending, rest, lost)
      decreases Size(pending), 1
    {
      hide GraphAt, Layout, Went, ArcsEverywhere;
      ok, rest, lost := true, pending.rest, multiset{};
      match pending
      case Request(incr, _) =>
        var _ := Grant(incr);
        WordsUnwritten(old(Now()), Now(), pending);
        WentClient(old(Now()), Now(), pending);
      case Write(index, offset, value, _) =>
        ClientWrite(index, offset, value);
        WordWritten(old(Now()), Now(), pending);
        WentClient(old(Now()), Now(), pending);
      case Call(self, from, during, window, _) =>
        ok, lost := Mcount(self, from, during, window, rest);
    }

    /** Any run. It completes if the heap holds what it may need. At its end every tally has grown by the calls made, but
        for lapses; where no search is interrupted by a profiled handler the loss is exactly what the run determines. The
        words of clients hold what clients stored, and nothing that was handed out has been handed out again. */
    method Run(events: Events) returns (ok: bool, ghost lost: multiset<(nat, nat)>)
      requires Inv()
      modifies `heapEnd, `slabPtr, `slabSize, `nodes, `clients, `mem, `chains
      ensures !ok ==> Exhausted() && old(Now()).top + Need(events) > limit
      ensures ok ==> Inv() && Went(old(Now()), Now(), events, Done, lost)
      ensures ok ==> forall s: nat, f: nat :: Counted(old(chains), chains, events, s, f)
      decreases Size(events), 2
    {
      hide GraphAt, Layout, Went, ArcsEverywhere, Counted, Need;
      WentNowhere(Now(), events);
      var rest := events;
      ok, lost := true, multiset{};
      while rest != Done
        invariant Inv() && Went(old(Now()), Now(), events, rest, lost) && Size(rest) <= Size(events)
        decreases Size(rest)
      {
        ghost var mid, left, l := Now(), rest, multiset{};
        WentKeeps(old(Now()), mid, events, left, lost);
        ok, rest, l := Step(rest);
        if !ok {
          return;
        }
        WentTrans(old(Now()), mid, Now(), events, left, rest, lost, l);
        lost := lost + l;
      }
      RunCounts(old(Now()), Now(), events, lost);
    }

    /** What __mcount_record does for a function that has no entry yet. */
    method NewFn(self: nat) returns (f: int)
      requires Inv()
      modifies `heapEnd, `slabPtr, `slabSize, `nodes, `mem, `chains
      ensures f == FAIL ==> Exhausted() && old(Now()).top + SLAB > limit
      ensures f != FAIL ==>
                && Now().top <= old(Now()).top + SLAB && f !in old(nodes)
                && Core() && chains == old(chains)[Bucket(self) := Fn(f, self, NoArc, old(chains)[Bucket(self)])]
                && Extends(old(nodes), nodes) && Untouched(old(mem), mem, clients)
    {
      hide Bucket, GraphAt, FnsAt, AllHaveArcs, Layout, Untouched;
      f := Allocate(FnEntry(self));
      if f == FAIL {
        return;
      }
      SpreadOut(old(nodes), old(clients));
      var head := Head(base, Bucket(self));
      GraphNewFn(mem, old(nodes), base, chains, self, f);
      HeadBelowHeap(Bucket(self));
      FnMissesClients(start, heapEnd, Region(slabPtr, slabSize), nodes, clients, mem, head, f, self);
      mem := Store(mem, f + 4, self);
      mem := Store(mem, f + 8, 0);
      mem := Store(mem, f, Load(mem, head));
      mem := Store(mem, head, f);
      chains := chains[Bucket(self) := Fn(f, self, NoArc, chains[Bucket(self)])];
    }

    /** The rest of __mcount_record: an arc of count 1 at the head of the entry's list. */
    method NewArc(self: nat, f: int, from: nat) returns (q: int)
      requires Core() && HasFn(chains[Bucket(self)], f, self)
      modifies `heapEnd, `slabPtr, `slabSize, `nodes, `mem, `chains
      ensures q == FAIL ==> Exhausted() && old(Now()).top + SLAB > limit
      ensures q != FAIL ==>
                && Now().top <= old(Now()).top + SLAB
                && Core() && Extends(old(nodes), nodes) && Untouched(old(mem), mem, clients)
                && chains == old(chains)[Bucket(self) := AddArc(old(chains)[Bucket(self)], f, q, from)]
                && Recorded(old(chains), chains, self, from) && CountsKept(old(chains), chains)
                && (old(ArcsEverywhere(chains)) ==> ArcsEverywhere(chains))
                && (old(AllDistinct(chains)) && !old(KnowsArc(ArcsOf(chains[Bucket(self)], f), from)) ==>
                      AllDistinct(chains))
    {
      hide Untouched, CountsKept;
      hide Bucket, GraphAt, FnsAt, AllHaveArcs, Layout, HasFn, AddArc, Recorded, AllDistinct, ArcsEverywhere, KnowsArc, ArcsOf;
      HeadsInGraph(Bucket(self));
      FnIsNode(mem, nodes, Load(mem, Head(base, Bucket(self))), chains[Bucket(self)], Bucket(self), f, self);
      q := Allocate(FnArc(f, from));
      if q == FAIL {
        return;
      }
      SpreadOut(old(nodes), old(clients));
      GraphAddArc(mem, old(nodes), base, chains, self, f, q, from);
      AddArcRecords(mem, old(nodes), base, chains, self, f, q, from);
      ArcMissesClients(start, heapEnd, Region(slabPtr, slabSize), nodes, clients, mem, f, q, from);
      mem := Store(mem, q + 4, from);
      mem := Store(mem, q + 8, 1);
      mem := Store(mem, q, Load(mem, f + 8));
      mem := Store(mem, f + 8, q);
      chains := chains[Bucket(self) := AddArc(chains[Bucket(self)], f, q, from)];
    }

    /** `__mcount_record`, with interrupts disabled. */
    method Record(self: nat, from: nat, entry: int) returns (ok: bool)
      requires Inv() && (entry != 0 ==> HasFn(chains[Bucket(self)], entry, self))
      modifies `heapEnd, `slabPtr, `slabSize, `nodes, `mem, `chains
      ensures !ok ==> Exhausted() && old(Now()).top + 2 * SLAB > limit
      ensures ok ==> Inv() && Keeps(old(Now()), Now()) && Recorded(old(chains), chains, self, from)
      ensures ok ==> Untouched(old(mem), mem, clients) && CountsKept(old(chains), chains)
      ensures ok ==> Now().top <= old(Now()).top + 2 * SLAB
      ensures ok && old(AllDistinct(chains)) && !old(if entry == 0 then Knows(chains[Bucket(self)], self)
                                                     else KnowsArc(ArcsOf(chains[Bucket(self)], entry), from)) ==>
                AllDistinct(chains)
    {
      hide Bucket, GraphAt, FnsAt, AllHaveArcs, Layout, Distinct, HasArcIn;
      hide Recorded, AllDistinct, ArcsEverywhere, Knows, KnowsArc, ArcsOf, AllGrow, Untouched, CountsKept;
      var f := entry;
      UntouchedSame(mem, clients);
      if f == 0 {
        f := NewFn(self);
        if f == FAIL {
          return false;
        }
      }
      ghost var chains', mem' := chains, mem;
      var q := NewArc(self, f, from);
      if q == FAIL {
        return false;
      }
      UntouchedTrans(old(mem), mem', mem, clients, clients);
      if entry == 0 {
        FreshEntry(old(mem), old(nodes), old(chains), f);
        NewFnRecords(old(chains), chains', chains, self, f, q, from);
      }
      RecordedGrows(old(chains), chains, self, from);
      ok := true;
    }

    /** `mcount`: the fast path loads, increments and stores the count of an arc that exists, the slow path calls
        __mcount_record. Handlers run `during` until then, and `window` between the load and the store. What they count of
        the same pair in that window is lost: the tally grows by one only, and so is right exactly if they do not call it (up
        to a multiple of 2^32). `rest` is what the run has after the call. */
    method Mcount(self: nat, from: nat, during: Events, window: Events, ghost rest: Events)
      returns (ok: bool, ghost lost: multiset<(nat, nat)>)
      requires Inv()
      modifies `heapEnd, `slabPtr, `slabSize, `nodes, `clients, `mem, `chains
      ensures !ok ==> Exhausted() && old(Now()).top + Need(Call(self, from, during, window, rest)) > limit
      ensures ok ==> Inv() && Went(old(Now()), Now(), Call(self, from, during, window, rest), rest, lost)
      ensures ok && old(AllDistinct(chains) && KnowsPair(chains[Bucket(self)], self, from)) && NoCalls(during) && Quiet(window) ==>
                var before, after := old(Tally(chains[Bucket(self)], self, from)), Tally(chains[Bucket(self)], self, from);
                && after == Add32(before, 1)
                && (after == Add32(before, Calls(Call(self, from, during, window, Done), self, from)) <==>
                      Calls(window, self, from) % M == 0)
      decreases Size(during) + Size(window), 5
    {
      hide Need;
      hide Bucket, GraphAt, Layout, HasFn, HasArcIn, Knows, KnowsArc, KnowsPair, ArcsOf, AllDistinct, ArcsEverywhere, NoCalls,
        Quiet, Went, Keeps, Size, Tally, Add32;
      ghost var before, k := Now(), Bucket(self);
      NeedOf(self, from, during, window, rest);
      InterruptedTally(self, from, during, window, Tally(chains[k], self, from));
      var f, q, left;
      ok, f, left, lost := FindFn(self, during);
      if !ok {
        return;
      }
      q := 0;
      WentKeeps(before, Now(), during, left, lost);
      if f != 0 {
        ghost var mid, pending, l := Now(), left, multiset{};
        ok, q, left, l := FindArc(self, f, from, left);
        if !ok {
          return;
        }
        WentTrans(before, mid, Now(), during, pending, left, lost, l);
        lost := lost + l;
        WentKeeps(before, Now(), during, left, lost);
      }
      ghost var mid, l := Now(), multiset{};
      PairNotFound(self, f, q, from);
      ok, l := Run(left);
      if !ok {
        return;
      }
      WentKeeps(mid, Now(), left, Done, l);
      WentTrans(before, mid, Now(), during, left, Done, lost, l);
      lost := lost + l;
      if q != 0 {
        StillArcIn(mid, Now(), k, f, self, q, from);
        ok, lost := Increment(self, from, f, q, window, rest, before, during, lost);
      } else {
        if f != 0 {
          StillFn(mid, Now(), k, f, self);
        }
        ok, lost := RecordCall(self, from, f, window, rest, before, during, lost);
      }
    }

    /** What a search that came back with nothing says. */
    lemma PairNotFound(self: nat, f: int, q: int, from: nat)
      requires Core() && (f == 0 ==> q == 0) && (f != 0 ==> HasFn(chains[Bucket(self)], f, self))
      ensures AllDistinct(chains) && q == 0
              && (if f == 0 then !Knows(chains[Bucket(self)], self) else !KnowsArc(ArcsOf(chains[Bucket(self)], f), from)) ==>
                !KnowsPair(chains[Bucket(self)], self, from)
    {
      hide Bucket, GraphAt, Layout, HasFn, KnowsArc, KnowsPair, ArcsOf, Knows, FnsAt, Tally, Distinct;
      HeadsInGraph(Bucket(self));
      var chain := chains[Bucket(self)];
      if AllDistinct(chains) {
        if f != 0 {
          KnowsPairIn(mem, nodes, Load(mem, Head(base, Bucket(self))), chain, Bucket(self), f, self, from);
        } else if !Knows(chain, self) {
          UnknownPair(chain, self, from);
        }
      }
    }

    /** The fast path, once the arc is found. */
    method Increment(self: nat, from: nat, f: int, q: int, window: Events, ghost rest: Events, ghost origin: Snap, ghost during: Events,
                     ghost before: multiset<(nat, nat)>) returns (ok: bool, ghost lost: multiset<(nat, nat)>)
      requires Inv() && HasArcIn(chains[Bucket(self)], f, self, q, from) && Went(origin, Now(), during, Done, before)
      modifies `heapEnd, `slabPtr, `slabSize, `nodes, `clients, `mem, `chains
      ensures !ok ==> Exhausted() && origin.top + Need(during) + Need(window) > limit
      ensures ok ==> Inv() && Went(origin, Now(), Call(self, from, during, window, rest), rest, lost)
      ensures ok && old(AllDistinct(chains)) && Quiet(window) ==>
                Tally(chains[Bucket(self)], self, from) == Add32(old(Tally(chains[Bucket(self)], self, from)), 1)
      decreases Size(window), 4
    {
      hide Need;
      hide Bucket, GraphAt, Layout, HasArcIn, SetCount, CountSet, CountsSet, AllDistinct, ArcsEverywhere, NoCalls, Quiet, Went, Keeps,
        Size, Tally, Add32, Untouched, CountIn;
      ghost var s0, k := Now(), Bucket(self);
      CountOf(self, f, q, from);
      var count: nat := Load(mem, q + 8);
      ghost var l;
      WentKeeps(origin, s0, during, Done, before);
      FlagsOfCall(self, from, during, window, rest);
      ok, l := Run(window);
      if !ok {
        lost := l;
        return;
      }
      ghost var s1 := Now();
      WentKeeps(s0, s1, window, Done, l);
      StillArcIn(s0, s1, k, f, self, q, from);
      CountOf(self, f, q, from);
      ghost var v: nat, chain' := Load(mem, q + 8), SetCount(chains[k], f, q, Add32(count, 1));
      SetCountRecords(mem, nodes, base, chains, self, f, q, from, Add32(count, 1));
      SpreadOut(nodes, clients);
      GraphSetCount(mem, nodes, base, chains, self, f, q, from, Add32(count, 1));
      CountMissesClients(start, heapEnd, Region(slabPtr, slabSize), nodes, clients, mem, q, Add32(count, 1));
      mem := Store(mem, q + 8, Add32(count, 1));
      SetCountKeeps(chains[k], f, q, Add32(count, 1), f, self, q, from);
      chains := chains[k := chain'];
      CountOf(self, f, q, from);
      WentFast(origin, s0, s1, Now(), self, from, during, window, rest, before, l, f, q, count, v);
      lost := before + l + multiset{}[(self, from) := (v - count) % M];
    }

    /** The slow path: the call is recorded with interrupts disabled. */
    method RecordCall(self: nat, from: nat, f: int, window: Events, ghost rest: Events, ghost origin: Snap, ghost during: Events,
                      ghost before: multiset<(nat, nat)>) returns (ok: bool, ghost lost: multiset<(nat, nat)>)
      requires Inv() && (f != 0 ==> HasFn(chains[Bucket(self)], f, self)) && Went(origin, Now(), during, Done, before)
      requires NoCalls(during) ==> !(if f == 0 then Knows(chains[Bucket(self)], self)
                                     else KnowsArc(ArcsOf(chains[Bucket(self)], f), from))
      modifies `heapEnd, `slabPtr, `slabSize, `nodes, `clients, `mem, `chains
      ensures !ok ==> Exhausted() && origin.top + 2 * SLAB + Need(during) + Need(window) > limit
      ensures ok ==> Inv() && Went(origin, Now(), Call(self, from, during, window, rest), rest, lost)
      decreases Size(window), 4
    {
      hide Need;
      hide Bucket, GraphAt, Layout, HasFn, Knows, KnowsArc, ArcsOf, AllDistinct, ArcsEverywhere, NoCalls, Went, Keeps, Size,
        Recorded, Untouched, KnowsPair, CountsKept;
      ghost var s0 := Now();
      lost := before;
      WentKeeps(origin, s0, during, Done, before);
      FlagsOfCall(self, from, during, window, rest);
      PairNotFound(self, f, 0, from);
      ok := Record(self, from, f);
      if !ok {
        return;
      }
      ghost var s1 := Now();
      ghost var l;
      ok, l := Run(window);
      if !ok {
        return;
      }
      WentSlow(origin, s0, s1, Now(), self, from, during, window, rest, before, l);
      lost := before + l;
    }

    /** The count of an arc, and the tally if it is the only one of its pair. */
    lemma CountOf(self: nat, f: int, q: int, from: nat)
      requires Core() && HasArcIn(chains[Bucket(self)], f, self, q, from)
      ensures 0 <= Load(mem, q + 8) < M && q in nodes && Load(mem, q + 8) == CountIn(chains[Bucket(self)], f, q)
      ensures AllDistinct(chains) ==> Tally(chains[Bucket(self)], self, from) == Load(mem, q + 8)
    {
      hide FnsAt, HasArcIn, Layout, Bucket, Tally, GraphAt, Distinct, CountIn;
      HeadsInGraph(Bucket(self));
      var head := Load(mem, Head(base, Bucket(self)));
      HeadIsIt(mem, nodes, head, chains[Bucket(self)], Bucket(self), f, self, q, from);
      CountInMemory(mem, nodes, head, chains[Bucket(self)], Bucket(self), f, self, q, from);
      if AllDistinct(chains) {
        CountIsTally(mem, nodes, head, chains[Bucket(self)], Bucket(self), f, self, q, from);
      }
    }

    /** Three calls of which the third interrupts the increment of the second: two are counted. */
    method InterruptedIncrement(self: nat, from: nat)
      requires Inv() && AllDistinct(chains) && Tally(chains[Bucket(self)], self, from) == 0
      requires AlignUp(heapEnd) + 6 * SLAB <= limit
      modifies `heapEnd, `slabPtr, `slabSize, `nodes, `clients, `mem, `chains
      ensures Inv() && Tally(chains[Bucket(self)], self, from) == 2
    {
      hide Bucket, GraphAt, Layout, ArcsEverywhere, Tally, Went, KnowsPair, AllDistinct;
      var call := Call(self, from, Done, Done, Done);
      ghost var before := Now();
      assert Need(call) == 2 * SLAB && Need(Call(self, from, Done, call, Done)) == 4 * SLAB;
      ghost var l;
      var ok;
      ok, l := Run(call);
      WentKeeps(before, Now(), call, Done, l);
      assert Counted(before.chains, chains, call, self, from);
      assert Calls(call, self, from) == 1 && Lapses(call, self, from) == 0 && Quiet(call) && NoCalls(Done);
      assert Tally(chains[Bucket(self)], self, from) == 1;
      TallyMeansKnown(chains[Bucket(self)], self, from);
      ok, l := Mcount(self, from, Done, call, Done);
    }

    /** A client stores a word into its `index`-th region. */
    method ClientWrite(index: nat, offset: nat, value: int)
      requires Core()
      modifies `mem
      ensures Core()
      ensures mem == if index < |clients| && IsWord(clients[index], offset)
                     then Store(old(mem), clients[index].start + offset, value) else old(mem)
      ensures forall j: nat, o: nat :: j < |clients| && IsWord(clients[j], o) ==>
                Load(mem, clients[j].start + o) ==
                if j == index && o == offset then value else Load(old(mem), clients[j].start + o)
    {
      hide GraphAt;
      if index < |clients| && IsWord(clients[index], offset) {
        GraphFrame(mem, nodes, base, chains, clients[index].start + offset, value);
        mem := Store(mem, clients[index].start + offset, value);
      }
    }

    /** A node that is new is no entry of the old graph. */
    lemma FreshEntry(mem: Memory, nodes: map<int, Owner>, chains: seq<Fns>, f: int)
      requires GraphAt(mem, nodes, base, chains) && f !in nodes
      ensures forall s: nat, x, e, q :: HasArcIn(chains[Bucket(s)], e, s, q, x) ==> e != f
    {
      hide Bucket, HasArcIn, FnsAt;
      forall s: nat, x, e, q | HasArcIn(chains[Bucket(s)], e, s, q, x)
        ensures e != f
      {
        HeadIsIt(mem, nodes, Load(mem, Head(base, Bucket(s))), chains[Bucket(s)], Bucket(s), e, s, q, x);
      }
    }

    lemma HeadBelowHeap(b: nat)
      requires Core() && b < BUCKETS
      ensures Head(base, b) < start
    {
    }

    lemma SpreadOut(nodes: map<int, Owner>, clients: seq<Region>)
      requires base + 4 * BUCKETS <= start && exists end, slab :: Layout(start, end, slab, nodes, clients)
      ensures Spread(nodes, base)
    {
    }
  }

  /** `f` is an entry of the chain. */
  ghost predicate IsEntry(fns: Fns, nodes: map<int, Owner>, f: int) {
    f != 0 && f in nodes && nodes[f].FnEntry? && HasFn(fns, f, nodes[f].self)
  }

  /** `q` is an arc of the entry `f`. */
  ghost predicate IsArc(fns: Fns, nodes: map<int, Owner>, f: int, self: nat, q: int) {
    q in nodes && nodes[q].FnArc? && HasArcIn(fns, f, self, q, nodes[q].from)
  }

  // What was found stays where it was while handlers run.

  lemma StillEntry(a: Snap, b: Snap, k: nat, f: int)
    requires |a.chains| == |b.chains| && Keeps(a, b) && k < |a.chains| && IsEntry(a.chains[k], a.nodes, f)
    ensures IsEntry(b.chains[k], b.nodes, f)
  {
    hide HasFn, AllGrow;
    GrownFn(a.chains, b.chains, k, f, a.nodes[f].self);
  }

  lemma StillFn(a: Snap, b: Snap, k: nat, f: int, self: nat)
    requires |a.chains| == |b.chains| && Keeps(a, b) && k < |a.chains| && HasFn(a.chains[k], f, self)
    ensures HasFn(b.chains[k], f, self)
  {
    hide HasFn, AllGrow;
    GrownFn(a.chains, b.chains, k, f, self);
  }

  lemma StillArc(a: Snap, b: Snap, k: nat, f: int, self: nat, q: int)
    requires |a.chains| == |b.chains| && Keeps(a, b) && k < |a.chains| && IsArc(a.chains[k], a.nodes, f, self, q)
    ensures IsArc(b.chains[k], b.nodes, f, self, q)
  {
    hide HasArcIn, AllGrow;
    GrownArc(a.chains, b.chains, k, f, self, q, a.nodes[q].from);
  }

  lemma StillArcIn(a: Snap, b: Snap, k: nat, f: int, self: nat, q: int, from: nat)
    requires |a.chains| == |b.chains| && Keeps(a, b) && k < |a.chains| && HasArcIn(a.chains[k], f, self, q, from)
    ensures HasArcIn(b.chains[k], f, self, q, from)
  {
    hide HasArcIn, AllGrow;
    GrownArc(a.chains, b.chains, k, f, self, q, from);
  }

  lemma WordsUnwritten(a: Snap, b: Snap, made: Events)
    requires made.Request? && a.mem == b.mem && a.clients <= b.clients
    ensures WordsHeld(a, b, made, made.rest)
  {
  }

  lemma WordWritten(a: Snap, b: Snap, made: Events)
    requires made.Write? && a.clients == b.clients
    requires forall j: nat, o: nat :: j < |a.clients| && IsWord(a.clients[j], o) ==>
               Load(b.mem, a.clients[j].start + o) ==
               if j == made.index && o == made.offset then made.value else Load(a.mem, a.clients[j].start + o)
    ensures WordsHeld(a, b, made, made.rest)
  {
  }

  lemma NeedOf(self: nat, from: nat, during: Events, window: Events, rest: Events)
    ensures Need(Call(self, from, during, window, rest)) == 2 * SLAB + Need(during) + Need(window) + Need(rest)
  {
  }

  lemma KnowsNone(self: nat)
    ensures !Knows(NoFn, self)
  {
  }
}
