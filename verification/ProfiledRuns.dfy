/** Runs of sbrk and mcount, and what a run has done to memory when part of it has happened. */
module ProfiledRuns {
  import opened Unsigned
  import opened CallGraph
  import opened Heap
  import opened GraphStores

  /** What happens from here on: a client asks sbrk for memory, a client stores a word into memory it was given, or a
      profiled function is called. Interrupts are on in mcount but for __mcount_record: `during` is what handlers do from
      the start of a call until its arc is found or recorded, `window` what they do between the load and the store of its
      count or, if the call recorded a new arc, after that. */
  datatype Events =
    | Done
    | Request(incr: nat, rest: Events)
    | Write(index: nat, offset: nat, value: int, rest: Events)
    | Call(self: nat, from: nat, during: Events, window: Events, rest: Events)

  function Size(events: Events): nat {
    match events
    case Done => 0
    case Request(_, rest) => 1 + Size(rest)
    case Write(_, _, _, rest) => 1 + Size(rest)
    case Call(_, _, during, window, rest) => 1 + Size(during) + Size(window) + Size(rest)
  }

  /** How often `self` is called from `from`. */
  function Calls(events: Events, self: nat, from: nat): nat {
    match events
    case Done => 0
    case Request(_, rest) => Calls(rest, self, from)
    case Write(_, _, _, rest) => Calls(rest, self, from)
    case Call(self', from', during, window, rest) =>
      Calls(during, self, from) + Calls(window, self, from) + (if self == self' && from == from' then 1 else 0)
      + Calls(rest, self, from)
  }

  predicate NoCalls(events: Events) {
    match events
    case Done => true
    case Request(_, rest) => NoCalls(rest)
    case Write(_, _, _, rest) => NoCalls(rest)
    case Call(_, _, _, _, _) => false
  }

  /** No handler that interrupts the search of mcount is itself profiled. */
  predicate Quiet(events: Events) {
    match events
    case Done => true
    case Request(_, rest) => Quiet(rest)
    case Write(_, _, _, rest) => Quiet(rest)
    case Call(_, _, during, window, rest) => NoCalls(during) && Quiet(window) && Quiet(rest)
  }

  /** No handler that interrupts the increment of a count is itself profiled. */
  predicate Atomic(events: Events) {
    match events
    case Done => true
    case Request(_, rest) => Atomic(rest)
    case Write(_, _, _, rest) => Atomic(rest)
    case Call(_, _, during, window, rest) => Atomic(during) && NoCalls(window) && Atomic(rest)
  }

  /** How many calls of `self` from `from` handlers make while an increment of the same count is under way. */
  function Lapses(events: Events, self: nat, from: nat): nat {
    match events
    case Done => 0
    case Request(_, rest) => Lapses(rest, self, from)
    case Write(_, _, _, rest) => Lapses(rest, self, from)
    case Call(self', from', during, window, rest) =>
      Lapses(during, self, from) + Lapses(window, self, from)
      + (if self == self' && from == from' then Calls(window, self, from) else 0) + Lapses(rest, self, from)
  }

  /** How many calls of `self` from `from` go uncounted in a run in which no search is interrupted by a profiled handler:
      those in the windows of increments of the same count. A call that finds no arc of its pair increments nothing. `known`
      tells whether there is an arc at the start. */
  function Lost(events: Events, self: nat, from: nat, known: bool): nat {
    match events
    case Done => 0
    case Request(_, rest) => Lost(rest, self, from, known)
    case Write(_, _, _, rest) => Lost(rest, self, from, known)
    case Call(self', from', _, window, rest) =>
      if self == self' && from == from' then
        (if known then Calls(window, self, from) else Lost(window, self, from, true)) + Lost(rest, self, from, true)
      else
        Lost(window, self, from, known) + Lost(rest, self, from, known || Calls(window, self, from) > 0)
  }

  /** How much the heap may have to give. */
  function Need(events: Events): nat {
    match events
    case Done => 0
    case Request(incr, rest) => incr + 3 + Need(rest)
    case Write(_, _, _, rest) => Need(rest)
    case Call(_, _, during, window, rest) => 2 * SLAB + Need(during) + Need(window) + Need(rest)
  }

  /** The word at `offset` of the `index`-th region, which held `w`, after the stores of the clients. */
  function Held(events: Events, index: nat, offset: nat, w: int): int {
    match events
    case Done => w
    case Request(_, rest) => Held(rest, index, offset, w)
    case Write(index', offset', value, rest) =>
      Held(rest, index, offset, if index == index' && offset == offset' then value else w)
    case Call(_, _, during, window, rest) =>
      Held(rest, index, offset, Held(window, index, offset, Held(during, index, offset, w)))
  }

  // ---- equality of 32-bit words

  predicate Same(x: int, y: int) { (x - y) % M == 0 }

  lemma SameAdd(x: int, y: int, z: int)
    requires Same(x, y)
    ensures Same(x + z, y + z)
  {
  }

  lemma SameTrans(x: int, y: int, z: int)
    requires Same(x, y) && Same(y, z)
    ensures Same(x, z)
  {
    var v, w := (x - y) / M, (y - z) / M;
    assert x - z == (v + w) * M;
  }

  lemma SameSelf(x: int)
    ensures Same(x, x)
  {
  }

  lemma SameSum(x: nat, y: nat, z: nat)
    requires x < M && Same(x, y + z)
    ensures x == Add32(y, z)
  {
    var w := (x - y - z) / M;
    assert y + z == x - w * M;
  }

  lemma SumSame(x: nat, y: nat)
    ensures Same(Add32(x, y), x + y)
  {
  }

  /** A count `c`, loaded, incremented and stored over a count that has become `v` in between. */
  lemma LostIncrements(tally: nat, tally': nat, v: nat, c: nat)
    requires Replaced(tally, tally', v, Add32(c, 1))
    ensures Same(tally' + (v - c) % M, tally + 1)
  {
    var i, j, k, l := (v - c) / M, (tally' + v) / M, (c + 1) / M, (tally + Add32(c, 1)) / M;
    assert tally' + v - j * M == tally + (c + 1 - k * M) - l * M;
    assert (v - c) % M == v - c - i * M;
    assert tally' + (v - c) % M - (tally + 1) == (j - k - l - i) * M;
  }

  // ---- what a part of a run does to one pair of functions

  /** What the chains of a graph say of a pair: how often it was called, and whether it has an arc. */
  datatype Mark = Mark(tally: nat, known: bool)

  function MarkOf(chains: seq<Fns>, s: nat, f: nat): Mark
    requires |chains| == BUCKETS
  {
    Mark(Tally(chains[Bucket(s)], s, f), KnowsPair(chains[Bucket(s)], s, f))
  }

  /** The run `made` has happened up to `left`: the tally has grown by the calls made except `n` increments lost, no more
      than there are lapses; and there is an arc if there was one or a call was made. */
  predicate PairWent(s: nat, f: nat, made: Events, left: Events, x: Mark, y: Mark, n: nat) {
    && Calls(left, s, f) <= Calls(made, s, f)
    && Same(y.tally + n + Calls(left, s, f), x.tally + Calls(made, s, f))
    && n + Lapses(left, s, f) <= Lapses(made, s, f)
    && (y.known <==> x.known || Calls(left, s, f) < Calls(made, s, f))
  }

  /** ... and exactly the calls that the run determines are lost. */
  predicate PairExact(s: nat, f: nat, made: Events, left: Events, x: Mark, y: Mark, n: nat) {
    Same(n + Lost(left, s, f, y.known), Lost(made, s, f, x.known))
  }

  lemma PairTrans(s: nat, f: nat, e0: Events, e1: Events, e2: Events, x: Mark, y: Mark, z: Mark, n1: nat, n2: nat)
    requires PairWent(s, f, e0, e1, x, y, n1) && PairWent(s, f, e1, e2, y, z, n2)
    ensures PairWent(s, f, e0, e2, x, z, n1 + n2)
  {
    hide Same, Calls, Lapses;
    SameAdd(z.tally + n2 + Calls(e2, s, f), y.tally + Calls(e1, s, f), n1);
    SameTrans(z.tally + n2 + Calls(e2, s, f) + n1, y.tally + n1 + Calls(e1, s, f), x.tally + Calls(e0, s, f));
  }

  lemma ExactTrans(s: nat, f: nat, e0: Events, e1: Events, e2: Events, x: Mark, y: Mark, z: Mark, n1: nat, n2: nat)
    requires PairExact(s, f, e0, e1, x, y, n1) && PairExact(s, f, e1, e2, y, z, n2)
    ensures PairExact(s, f, e0, e2, x, z, n1 + n2)
  {
    hide Same, Lost;
    SameAdd(n2 + Lost(e2, s, f, z.known), Lost(e1, s, f, y.known), n1);
    SameTrans(n1 + n2 + Lost(e2, s, f, z.known), n1 + Lost(e1, s, f, y.known), Lost(e0, s, f, x.known));
  }

  lemma PairNowhere(s: nat, f: nat, events: Events, x: Mark)
    ensures PairWent(s, f, events, events, x, x, 0) && PairExact(s, f, events, events, x, x, 0)
  {
    hide Same;
    SameSelf(x.tally + Calls(events, s, f));
    SameSelf(Lost(events, s, f, x.known));
  }

  lemma PairClient(s: nat, f: nat, made: Events, x: Mark)
    requires made.Request? || made.Write?
    ensures PairWent(s, f, made, made.rest, x, x, 0) && PairExact(s, f, made, made.rest, x, x, 0)
  {
    hide Same;
    SameSelf(x.tally + Calls(made, s, f));
    SameSelf(Lost(made, s, f, x.known));
  }

  predicate Pairs(s: nat, f: nat, self: nat, from: nat) { s == self && f == from }

  lemma CallsOf(self: nat, from: nat, during: Events, window: Events, rest: Events, s: nat, f: nat)
    ensures var call := Call(self, from, during, window, rest);
            && Calls(call, s, f) ==
               Calls(during, s, f) + Calls(window, s, f) + (if Pairs(s, f, self, from) then 1 else 0) + Calls(rest, s, f)
            && Lapses(call, s, f) ==
               Lapses(during, s, f) + Lapses(window, s, f) + (if Pairs(s, f, self, from) then Calls(window, s, f) else 0)
               + Lapses(rest, s, f)
    ensures Calls(Done, s, f) == Lapses(Done, s, f) == 0
  {
  }

  lemma LostOf(self: nat, from: nat, during: Events, window: Events, rest: Events, s: nat, f: nat, known: bool)
    ensures Lost(Call(self, from, during, window, rest), s, f, known) ==
            if Pairs(s, f, self, from) then
              (if known then Calls(window, s, f) else Lost(window, s, f, true)) + Lost(rest, s, f, true)
            else Lost(window, s, f, known) + Lost(rest, s, f, known || Calls(window, s, f) > 0)
    ensures Lost(Done, s, f, known) == 0
  {
  }

  /** Marks before a call that finds its arc, before and after its window, and after its store: the count loaded is `count`,
      that stored over is `v`. */
  predicate Stored(s: nat, f: nat, self: nat, from: nat, window: Events, z: Mark, w: Mark, count: nat, v: nat) {
    && w.known == z.known
    && if Pairs(s, f, self, from)
       then z.known && Replaced(z.tally, w.tally, v, Add32(count, 1)) && (v - count) % M <= Calls(window, s, f)
       else w.tally == z.tally
  }

  function LostHere(s: nat, f: nat, self: nat, from: nat, count: nat, v: nat): nat {
    if Pairs(s, f, self, from) then (v - count) % M else 0
  }

  lemma PairFast(s: nat, f: nat, self: nat, from: nat, during: Events, window: Events, rest: Events,
                 x: Mark, y: Mark, z: Mark, w: Mark, n1: nat, n2: nat, count: nat, v: nat)
    requires PairWent(s, f, during, Done, x, y, n1) && PairWent(s, f, window, Done, y, z, n2)
    requires Stored(s, f, self, from, window, z, w, count, v)
    ensures PairWent(s, f, Call(self, from, during, window, rest), rest, x, w, n1 + n2 + LostHere(s, f, self, from, count, v))
  {
    hide Same, Calls, Lapses, Replaced, Add32;
    CallsOf(self, from, during, window, rest, s, f);
    var one := if Pairs(s, f, self, from) then 1 else 0;
    var n3 := LostHere(s, f, self, from, count, v);
    if one == 1 {
      LostIncrements(z.tally, w.tally, v, count);
    } else {
      SameSelf(w.tally);
    }
    SameAdd(w.tally + n3, z.tally + one, n2 + n1 + Calls(rest, s, f));
    SameAdd(z.tally + n2, y.tally + Calls(window, s, f), one + n1 + Calls(rest, s, f));
    SameAdd(y.tally + n1, x.tally + Calls(during, s, f), Calls(window, s, f) + one + Calls(rest, s, f));
    SameTrans(z.tally + n2 + (one + n1 + Calls(rest, s, f)), y.tally + Calls(window, s, f) + (one + n1 + Calls(rest, s, f)),
              x.tally + Calls(during, s, f) + (Calls(window, s, f) + one + Calls(rest, s, f)));
    SameTrans(w.tally + n3 + (n2 + n1 + Calls(rest, s, f)), z.tally + n2 + (one + n1 + Calls(rest, s, f)),
              x.tally + Calls(during, s, f) + (Calls(window, s, f) + one + Calls(rest, s, f)));
  }

  /** With one arc for each pair and an uninterrupted search, the counts are the tallies. */
  lemma ExactFast(s: nat, f: nat, self: nat, from: nat, during: Events, window: Events, rest: Events,
                  x: Mark, z: Mark, w: Mark, n2: nat, count: nat, v: nat)
    requires PairWent(s, f, window, Done, x, z, n2) && PairExact(s, f, window, Done, x, z, n2)
    requires Stored(s, f, self, from, window, z, w, count, v)
    requires Pairs(s, f, self, from) ==> x.known && x.tally == count && z.tally == v
    ensures PairExact(s, f, Call(self, from, during, window, rest), rest, x, w, n2 + LostHere(s, f, self, from, count, v))
  {
    hide Same, Calls, Lapses, Lost, Replaced, Add32;
    LostOf(self, from, during, window, rest, s, f, x.known);
    LostOf(self, from, during, window, rest, s, f, z.known);
    CallsOf(self, from, during, window, rest, s, f);
    if Pairs(s, f, self, from) {
      RemainderSame(v - count);
      SameAdd((v - count) % M, v - count, n2 + Lost(rest, s, f, true));
      SameAdd(z.tally + n2, x.tally + Calls(window, s, f), Lost(rest, s, f, true) - count);
      SameTrans((v - count) % M + (n2 + Lost(rest, s, f, true)), z.tally + n2 + (Lost(rest, s, f, true) - count),
                Calls(window, s, f) + Lost(rest, s, f, true));
    } else {
      SameAdd(n2, Lost(window, s, f, x.known), Lost(rest, s, f, w.known));
    }
  }

  lemma RemainderSame(x: int)
    ensures Same(x % M, x)
  {
  }

  predicate RecordedOne(s: nat, f: nat, self: nat, from: nat, y: Mark, z: Mark) {
    if Pairs(s, f, self, from) then z.known && z.tally == Add32(y.tally, 1) else z == y
  }

  lemma PairSlow(s: nat, f: nat, self: nat, from: nat, during: Events, window: Events, rest: Events,
                 x: Mark, y: Mark, z: Mark, w: Mark, n1: nat, n2: nat)
    requires PairWent(s, f, during, Done, x, y, n1) && RecordedOne(s, f, self, from, y, z)
    requires PairWent(s, f, window, Done, z, w, n2)
    ensures PairWent(s, f, Call(self, from, during, window, rest), rest, x, w, n1 + n2)
  {
    hide Same, Calls, Lapses, Add32;
    CallsOf(self, from, during, window, rest, s, f);
    var one := if Pairs(s, f, self, from) then 1 else 0;
    if one == 1 {
      SumSame(y.tally, 1);
    } else {
      SameSelf(y.tally);
    }
    SameAdd(z.tally, y.tally + one, n1 + Calls(window, s, f) + Calls(rest, s, f));
    SameAdd(w.tally + n2, z.tally + Calls(window, s, f), n1 + Calls(rest, s, f));
    SameAdd(y.tally + n1, x.tally + Calls(during, s, f), one + Calls(window, s, f) + Calls(rest, s, f));
    SameTrans(z.tally + (n1 + Calls(window, s, f) + Calls(rest, s, f)),
              y.tally + one + (n1 + Calls(window, s, f) + Calls(rest, s, f)),
              x.tally + Calls(during, s, f) + (one + Calls(window, s, f) + Calls(rest, s, f)));
    SameTrans(w.tally + n2 + (n1 + Calls(rest, s, f)), z.tally + (n1 + Calls(window, s, f) + Calls(rest, s, f)),
              x.tally + Calls(during, s, f) + (one + Calls(window, s, f) + Calls(rest, s, f)));
  }

  lemma ExactSlow(s: nat, f: nat, self: nat, from: nat, during: Events, window: Events, rest: Events,
                  x: Mark, z: Mark, w: Mark, n2: nat)
    requires RecordedOne(s, f, self, from, x, z) && (Pairs(s, f, self, from) ==> !x.known)
    requires PairWent(s, f, window, Done, z, w, n2) && PairExact(s, f, window, Done, z, w, n2)
    ensures PairExact(s, f, Call(self, from, during, window, rest), rest, x, w, n2)
  {
    hide Same, Calls, Lapses, Lost, Add32;
    LostOf(self, from, during, window, rest, s, f, x.known);
    LostOf(self, from, during, window, rest, s, f, w.known);
    CallsOf(self, from, during, window, rest, s, f);
    SameAdd(n2, Lost(window, s, f, z.known), Lost(rest, s, f, w.known));
  }

  // ---- what a part of a run does to memory

  /** `top` is the first address that sbrk has not given away. */
  datatype Snap = Snap(mem: Memory, nodes: map<int, Owner>, clients: seq<Region>, chains: seq<Fns>, top: int)

  /** Everything handed out and everything in the graph is still there. */
  ghost predicate Keeps(a: Snap, b: Snap)
    requires |a.chains| == |b.chains|
  {
    AllGrow(a.chains, b.chains) && Extends(a.nodes, b.nodes) && a.clients <= b.clients
  }

  ghost predicate AllPairsWent(a: seq<Fns>, b: seq<Fns>, made: Events, left: Events, lost: multiset<(nat, nat)>)
    requires |a| == |b| == BUCKETS
  {
    forall s: nat, f: nat :: PairWent(s, f, made, left, MarkOf(a, s, f), MarkOf(b, s, f), lost[(s, f)])
  }

  ghost predicate AllPairsExact(a: seq<Fns>, b: seq<Fns>, made: Events, left: Events, lost: multiset<(nat, nat)>)
    requires |a| == |b| == BUCKETS
  {
    forall s: nat, f: nat :: PairExact(s, f, made, left, MarkOf(a, s, f), MarkOf(b, s, f), lost[(s, f)])
  }

  /** No count has moved by more than the calls of its pair. */
  ghost predicate ArcsMoved(a: seq<Fns>, b: seq<Fns>, made: Events, left: Events)
    requires |a| == |b| == BUCKETS
  {
    forall s: nat, f: nat, e, q :: HasArcIn(a[Bucket(s)], e, s, q, f) ==>
      Moved(CountIn(a[Bucket(s)], e, q), CountIn(b[Bucket(s)], e, q), Calls(made, s, f) - Calls(left, s, f))
  }

  predicate Moved(x: nat, y: nat, most: int) { (y - x) % M <= most }

  /** Each word of a client's memory holds what clients last stored there, or what it held before. */
  ghost predicate WordsHeld(a: Snap, b: Snap, made: Events, left: Events) {
    forall j: nat, o: nat :: j < |a.clients| && IsWord(a.clients[j], o) ==>
      Held(left, j, o, Load(b.mem, a.clients[j].start + o)) == Held(made, j, o, Load(a.mem, a.clients[j].start + o))
  }

  predicate IsWord(r: Region, offset: nat) { offset % 4 == 0 && offset + 4 <= r.size }

  /** From `a` to `b`, the run `made` has happened up to `left`. */
  ghost predicate Went(a: Snap, b: Snap, made: Events, left: Events, lost: multiset<(nat, nat)>) {
    && |a.chains| == |b.chains| == BUCKETS
    && Keeps(a, b)
    && AllPairsWent(a.chains, b.chains, made, left, lost)
    && ArcsMoved(a.chains, b.chains, made, left)
    && WordsHeld(a, b, made, left)
    && b.top + Need(left) <= a.top + Need(made)
    && (NoCalls(made) ==> NoCalls(left) && b.chains == a.chains && lost == multiset{})
    && (Quiet(made) ==> Quiet(left))
    && (Quiet(made) && AllDistinct(a.chains) ==> AllDistinct(b.chains) && AllPairsExact(a.chains, b.chains, made, left, lost))
  }

  lemma KeepsTrans(a: Snap, b: Snap, c: Snap)
    requires |a.chains| == |b.chains| == |c.chains| && Keeps(a, b) && Keeps(b, c)
    ensures Keeps(a, c)
  {
    hide AllGrow;
    GrowTrans(a.chains, b.chains, c.chains);
  }

  lemma MovedTrans(a: seq<Fns>, b: seq<Fns>, c: seq<Fns>, e0: Events, e1: Events, e2: Events)
    requires |a| == |b| == |c| == BUCKETS && AllGrow(a, b) && ArcsMoved(a, b, e0, e1) && ArcsMoved(b, c, e1, e2)
    ensures ArcsMoved(a, c, e0, e2)
  {
    hide HasArcIn, CountIn, Bucket, Calls, AllGrow, Moved;
    forall s: nat, f: nat, e, q | HasArcIn(a[Bucket(s)], e, s, q, f)
      ensures Moved(CountIn(a[Bucket(s)], e, q), CountIn(c[Bucket(s)], e, q), Calls(e0, s, f) - Calls(e2, s, f))
    {
      GrownArc(a, b, Bucket(s), e, s, q, f);
      MovedSum(CountIn(a[Bucket(s)], e, q), CountIn(b[Bucket(s)], e, q), CountIn(c[Bucket(s)], e, q),
               Calls(e0, s, f) - Calls(e1, s, f), Calls(e1, s, f) - Calls(e2, s, f));
    }
  }

  lemma MovedSum(x: nat, y: nat, z: nat, m: int, n: int)
    requires Moved(x, y, m) && Moved(y, z, n)
    ensures Moved(x, z, m + n)
  {
    RemainderSum(y - x, z - y);
  }

  lemma RemainderSum(x: int, y: int)
    ensures (x + y) % M <= x % M + y % M
  {
    var v, w := x / M, y / M;
    assert x + y == (v + w) * M + (x % M + y % M);
  }

  lemma MovedNot(x: nat, n: nat)
    ensures Moved(x, x, n)
  {
  }

  lemma MovedOne(x: nat, y: nat, m: int)
    requires Moved(x, y, m)
    ensures Moved(x, Add32(y, 1), m + 1)
  {
    RemainderSum(y - x, 1);
    SumSame(y, 1);
    var less: int := x;
    SameAdd(Add32(y, 1), y + 1, -less);
    SameRemainder(Add32(y, 1) - x, y + 1 - x);
  }

  lemma SameRemainder(x: int, y: int)
    requires Same(x, y)
    ensures x % M == y % M
  {
    var w := (x - y) / M;
    assert x == y + w * M;
  }

  lemma WordsTrans(a: Snap, b: Snap, c: Snap, e0: Events, e1: Events, e2: Events)
    requires a.clients <= b.clients && WordsHeld(a, b, e0, e1) && WordsHeld(b, c, e1, e2)
    ensures WordsHeld(a, c, e0, e2)
  {
    hide Held;
  }

  lemma WentTrans(a: Snap, b: Snap, c: Snap, e0: Events, e1: Events, e2: Events,
                  l1: multiset<(nat, nat)>, l2: multiset<(nat, nat)>)
    requires Went(a, b, e0, e1, l1) && Went(b, c, e1, e2, l2)
    ensures Went(a, c, e0, e2, l1 + l2)
  {
    hide PairWent, PairExact, AllGrow, AllDistinct, ArcsMoved, WordsHeld, NoCalls, Quiet, MarkOf, Need;
    KeepsTrans(a, b, c);
    forall s: nat, f: nat
      ensures PairWent(s, f, e0, e2, MarkOf(a.chains, s, f), MarkOf(c.chains, s, f), (l1 + l2)[(s, f)])
    {
      PairTrans(s, f, e0, e1, e2, MarkOf(a.chains, s, f), MarkOf(b.chains, s, f), MarkOf(c.chains, s, f),
                l1[(s, f)], l2[(s, f)]);
    }
    if Quiet(e0) && AllDistinct(a.chains) {
      forall s: nat, f: nat
        ensures PairExact(s, f, e0, e2, MarkOf(a.chains, s, f), MarkOf(c.chains, s, f), (l1 + l2)[(s, f)])
      {
        ExactTrans(s, f, e0, e1, e2, MarkOf(a.chains, s, f), MarkOf(b.chains, s, f), MarkOf(c.chains, s, f),
                   l1[(s, f)], l2[(s, f)]);
      }
    }
    MovedTrans(a.chains, b.chains, c.chains, e0, e1, e2);
    WordsTrans(a, b, c, e0, e1, e2);
  }

  lemma WentNowhere(a: Snap, events: Events)
    requires |a.chains| == BUCKETS
    ensures Went(a, a, events, events, multiset{})
  {
    hide PairWent, PairExact, AllDistinct, NoCalls, Quiet, AllGrow, MarkOf, Need, Held, Moved, Calls, HasArcIn, CountIn, Bucket;
    GrowsItself(a.chains);
    forall s: nat, f: nat
      ensures PairWent(s, f, events, events, MarkOf(a.chains, s, f), MarkOf(a.chains, s, f), multiset{}[(s, f)])
      ensures PairExact(s, f, events, events, MarkOf(a.chains, s, f), MarkOf(a.chains, s, f), multiset{}[(s, f)])
    {
      PairNowhere(s, f, events, MarkOf(a.chains, s, f));
    }
    NotMoved(a.chains, events, events);
  }

  lemma NotMoved(a: seq<Fns>, made: Events, left: Events)
    requires |a| == BUCKETS && forall s: nat, f: nat :: Calls(left, s, f) <= Calls(made, s, f)
    ensures ArcsMoved(a, a, made, left)
  {
    hide HasArcIn, CountIn, Bucket, Calls, Moved;
    forall s: nat, f: nat, e, q | HasArcIn(a[Bucket(s)], e, s, q, f)
      ensures Moved(CountIn(a[Bucket(s)], e, q), CountIn(a[Bucket(s)], e, q), Calls(made, s, f) - Calls(left, s, f))
    {
      MovedNot(CountIn(a[Bucket(s)], e, q), Calls(made, s, f) - Calls(left, s, f));
    }
  }

  /** A request or a store of a client. */
  lemma WentClient(a: Snap, b: Snap, made: Events)
    requires made.Request? || made.Write?
    requires |a.chains| == BUCKETS && b.chains == a.chains && b.nodes == a.nodes && a.clients <= b.clients
    requires WordsHeld(a, b, made, made.rest) && b.top + Need(made.rest) <= a.top + Need(made)
    ensures Went(a, b, made, made.rest, multiset{})
  {
    hide PairWent, PairExact, AllDistinct, AllGrow, MarkOf, Need, WordsHeld, ArcsMoved;
    GrowsItself(a.chains);
    forall s: nat, f: nat
      ensures PairWent(s, f, made, made.rest, MarkOf(a.chains, s, f), MarkOf(a.chains, s, f), multiset{}[(s, f)])
      ensures PairExact(s, f, made, made.rest, MarkOf(a.chains, s, f), MarkOf(a.chains, s, f), multiset{}[(s, f)])
    {
      PairClient(s, f, made, MarkOf(a.chains, s, f));
    }
    NotMoved(a.chains, made, made.rest);
  }

  lemma {:induction false} NoCallsMeansNone(events: Events, s: nat, f: nat)
    requires NoCalls(events)
    ensures Calls(events, s, f) == 0
    decreases events
  {
    match events
    case Done =>
    case Request(_, rest) => NoCallsMeansNone(rest, s, f);
    case Write(_, _, _, rest) => NoCallsMeansNone(rest, s, f);
  }

  /** The words of clients after a call: the profiler's own stores, from `c` to `d`, miss them. */
  lemma WordsOfCall(a: Snap, b: Snap, c: Snap, d: Snap, e: Snap, self: nat, from: nat, during: Events, window: Events,
                    rest: Events)
    requires a.clients <= b.clients <= c.clients <= d.clients
    requires WordsHeld(a, b, during, Done) && Untouched(b.mem, c.mem, b.clients)
    requires WordsHeld(c, d, window, Done) && Untouched(d.mem, e.mem, d.clients)
    ensures WordsHeld(a, e, Call(self, from, during, window, rest), rest)
  {
    hide Held;
    forall j: nat, o: nat | j < |a.clients| && IsWord(a.clients[j], o)
      ensures Held(rest, j, o, Load(e.mem, a.clients[j].start + o)) ==
              Held(Call(self, from, during, window, rest), j, o, Load(a.mem, a.clients[j].start + o))
    {
      var p := a.clients[j].start + o;
      assert InRegion(b.clients[j], p) && InRegion(d.clients[j], p);
      HeldOf(self, from, during, window, rest, j, o, Load(a.mem, p));
      HeldDone(j, o, Load(b.mem, p));
      HeldDone(j, o, Load(d.mem, p));
    }
  }

  lemma HeldOf(self: nat, from: nat, during: Events, window: Events, rest: Events, j: nat, o: nat, w: int)
    ensures Held(Call(self, from, during, window, rest), j, o, w) == Held(rest, j, o, Held(window, j, o, Held(during, j, o, w)))
  {
  }

  lemma HeldDone(j: nat, o: nat, w: int)
    ensures Held(Done, j, o, w) == w
  {
  }

  // ---- a call

  /** A call that found its arc: from `c` to `d` its count is stored, over what has become `v` in the window. */
  lemma WentFast(a: Snap, b: Snap, c: Snap, d: Snap, self: nat, from: nat, during: Events, window: Events, rest: Events,
                 l1: multiset<(nat, nat)>, l2: multiset<(nat, nat)>, f: int, q: int, count: nat, v: nat)
    requires Went(a, b, during, Done, l1) && Went(b, c, window, Done, l2)
    requires HasArcIn(b.chains[Bucket(self)], f, self, q, from)
    requires CountIn(b.chains[Bucket(self)], f, q) == count && CountIn(c.chains[Bucket(self)], f, q) == v
    requires CountSet(c.chains, d.chains, self, from, v, Add32(count, 1))
    requires CountsSet(c.chains, d.chains, self, from, f, q, Add32(count, 1))
    requires d.nodes == c.nodes && d.clients == c.clients && d.top == c.top && Untouched(c.mem, d.mem, c.clients)
    requires AllDistinct(c.chains) ==> AllDistinct(d.chains)
    requires AllDistinct(b.chains) ==> MarkOf(b.chains, self, from).tally == count
    requires AllDistinct(c.chains) ==> MarkOf(c.chains, self, from).tally == v
    ensures Went(a, d, Call(self, from, during, window, rest), rest, l1 + l2 + multiset{}[(self, from) := (v - count) % M])
  {
    hide PairWent, PairExact, AllGrow, AllDistinct, Untouched, NoCalls, Quiet, MarkOf, Need, WordsHeld, ArcsMoved, CountsSet,
      CountSet, HasArcIn, CountIn, Bucket, Moved, Stored, AllPairsWent, AllPairsExact, Calls;
    var call := Call(self, from, during, window, rest);
    var l3 := multiset{}[(self, from) := (v - count) % M];
    CountSetGrows(c.chains, d.chains, self, from, v, Add32(count, 1));
    KeepsTrans(b, c, d);
    KeepsTrans(a, b, d);
    StoredAll(b, c, d, self, from, window, l2, f, q, count, v);
    FastPairs(a, b, c, d, self, from, during, window, rest, l1, l2, count, v);
    FlagsOfCall(self, from, during, window, rest);
    if Quiet(call) && AllDistinct(a.chains) {
      KnownMark(b.chains, self, from, f, q);
      FastExact(b, c, d, self, from, during, window, rest, l2, count, v);
      assert l1 + l2 + l3 == l2 + l3;
    }
    FastMoved(a.chains, b.chains, c.chains, d.chains, self, from, during, window, rest, f, q);
    UntouchedSame(b.mem, b.clients);
    WordsOfCall(a, b, b, c, d, self, from, during, window, rest);
  }

  lemma KnownMark(chains: seq<Fns>, self: nat, from: nat, f: int, q: int)
    requires |chains| == BUCKETS && HasArcIn(chains[Bucket(self)], f, self, q, from)
    ensures MarkOf(chains, self, from).known
  {
    hide HasArcIn, Bucket;
    ArcMeansPair(chains[Bucket(self)], f, self, q, from);
  }

  lemma CountSetGrows(chains: seq<Fns>, chains': seq<Fns>, self: nat, from: nat, count: nat, count': nat)
    requires CountSet(chains, chains', self, from, count, count')
    ensures |chains| == |chains'| == BUCKETS && AllGrow(chains, chains')
  {
  }

  lemma FlagsOfCall(self: nat, from: nat, during: Events, window: Events, rest: Events)
    ensures var call := Call(self, from, during, window, rest);
            && !NoCalls(call) && Need(call) == 2 * SLAB + Need(during) + Need(window) + Need(rest) && Need(Done) == 0
            && (Quiet(call) ==> NoCalls(during) && Quiet(during) && Quiet(window) && Quiet(rest))
  {
    NoCallsIsQuiet(during);
  }

  lemma {:induction false} NoCallsIsQuiet(events: Events)
    ensures NoCalls(events) ==> Quiet(events)
    decreases events
  {
    match events
    case Done =>
    case Request(_, rest) => NoCallsIsQuiet(rest);
    case Write(_, _, _, rest) => NoCallsIsQuiet(rest);
    case Call(_, _, _, _, _) =>
  }

  lemma StoredAll(b: Snap, c: Snap, d: Snap, self: nat, from: nat, window: Events, l2: multiset<(nat, nat)>,
                  f: int, q: int, count: nat, v: nat)
    requires Went(b, c, window, Done, l2) && |d.chains| == BUCKETS
    requires HasArcIn(b.chains[Bucket(self)], f, self, q, from)
    requires CountIn(b.chains[Bucket(self)], f, q) == count && CountIn(c.chains[Bucket(self)], f, q) == v
    requires CountSet(c.chains, d.chains, self, from, v, Add32(count, 1))
    ensures forall s: nat, x: nat ::
              Stored(s, x, self, from, window, MarkOf(c.chains, s, x), MarkOf(d.chains, s, x), count, v)
  {
    hide AllGrow, HasArcIn, CountIn, Bucket, Tally, KnowsPair, Replaced, Add32, Calls, AllPairsWent, AllPairsExact, WordsHeld;
    GrownArc(b.chains, c.chains, Bucket(self), f, self, q, from);
    ArcMeansPair(c.chains[Bucket(self)], f, self, q, from);
    CallsOf(self, from, Done, Done, Done, self, from);
    assert Moved(count, v, Calls(window, self, from) - Calls(Done, self, from));
  }

  lemma FastPairs(a: Snap, b: Snap, c: Snap, d: Snap, self: nat, from: nat, during: Events, window: Events, rest: Events,
                  l1: multiset<(nat, nat)>, l2: multiset<(nat, nat)>, count: nat, v: nat)
    requires Went(a, b, during, Done, l1) && Went(b, c, window, Done, l2) && |d.chains| == BUCKETS
    requires forall s: nat, x: nat ::
               Stored(s, x, self, from, window, MarkOf(c.chains, s, x), MarkOf(d.chains, s, x), count, v)
    ensures AllPairsWent(a.chains, d.chains, Call(self, from, during, window, rest), rest,
                         l1 + l2 + multiset{}[(self, from) := (v - count) % M])
  {
    hide PairWent, MarkOf, Stored, AllPairsExact, ArcsMoved, WordsHeld, Keeps;
    var lost := l1 + l2 + multiset{}[(self, from) := (v - count) % M];
    forall s: nat, x: nat
      ensures PairWent(s, x, Call(self, from, during, window, rest), rest, MarkOf(a.chains, s, x), MarkOf(d.chains, s, x),
                       lost[(s, x)])
    {
      PairFast(s, x, self, from, during, window, rest, MarkOf(a.chains, s, x), MarkOf(b.chains, s, x),
               MarkOf(c.chains, s, x), MarkOf(d.chains, s, x), l1[(s, x)], l2[(s, x)], count, v);
    }
  }

  lemma FastExact(b: Snap, c: Snap, d: Snap, self: nat, from: nat, during: Events, window: Events, rest: Events,
                  l2: multiset<(nat, nat)>, count: nat, v: nat)
    requires Went(b, c, window, Done, l2) && |d.chains| == BUCKETS && Quiet(window) && AllDistinct(b.chains)
    requires MarkOf(b.chains, self, from) == Mark(count, true) && MarkOf(c.chains, self, from).tally == v
    requires forall s: nat, x: nat ::
               Stored(s, x, self, from, window, MarkOf(c.chains, s, x), MarkOf(d.chains, s, x), count, v)
    ensures AllPairsExact(b.chains, d.chains, Call(self, from, during, window, rest), rest,
                          l2 + multiset{}[(self, from) := (v - count) % M])
  {
    hide PairWent, PairExact, MarkOf, Stored, ArcsMoved, WordsHeld, Keeps, Quiet, AllDistinct;
    var lost := l2 + multiset{}[(self, from) := (v - count) % M];
    forall s: nat, x: nat
      ensures PairExact(s, x, Call(self, from, during, window, rest), rest, MarkOf(b.chains, s, x), MarkOf(d.chains, s, x),
                        lost[(s, x)])
    {
      ExactFast(s, x, self, from, during, window, rest, MarkOf(b.chains, s, x), MarkOf(c.chains, s, x),
                MarkOf(d.chains, s, x), l2[(s, x)], count, v);
    }
  }

  lemma FastMoved(a: seq<Fns>, b: seq<Fns>, c: seq<Fns>, d: seq<Fns>, self: nat, from: nat, during: Events, window: Events,
                  rest: Events, f: int, q: int)
    requires |a| == |b| == |c| == |d| == BUCKETS && AllGrow(a, b) && AllGrow(b, c)
    requires ArcsMoved(a, b, during, Done) && ArcsMoved(b, c, window, Done)
    requires CountsSet(c, d, self, from, f, q, Add32(CountIn(b[Bucket(self)], f, q), 1))
    ensures ArcsMoved(a, d, Call(self, from, during, window, rest), rest)
  {
    hide HasArcIn, CountIn, Bucket, Calls, Lapses, AllGrow, Moved, Add32;
    forall s: nat, x: nat, e, p | HasArcIn(a[Bucket(s)], e, s, p, x)
      ensures Moved(CountIn(a[Bucket(s)], e, p), CountIn(d[Bucket(s)], e, p),
                    Calls(Call(self, from, during, window, rest), s, x) - Calls(rest, s, x))
    {
      CallsOf(self, from, during, window, rest, s, x);
      GrownArc(a, b, Bucket(s), e, s, p, x);
      GrownArc(b, c, Bucket(s), e, s, p, x);
      var i, j, k := CountIn(a[Bucket(s)], e, p), CountIn(b[Bucket(s)], e, p), CountIn(c[Bucket(s)], e, p);
      assert Moved(i, j, Calls(during, s, x) - Calls(Done, s, x)) && Moved(j, k, Calls(window, s, x) - Calls(Done, s, x));
      MovedSum(i, j, k, Calls(during, s, x), Calls(window, s, x));
      MovedOne(i, j, Calls(during, s, x));
      MovedMore(i, k, Calls(during, s, x) + Calls(window, s, x),
                Calls(Call(self, from, during, window, rest), s, x) - Calls(rest, s, x));
      if Pairs(s, x, self, from) {
        MovedMore(i, Add32(j, 1), Calls(during, s, x) + 1,
                  Calls(Call(self, from, during, window, rest), s, x) - Calls(rest, s, x));
      }
    }
  }

  lemma MovedMore(x: nat, y: nat, m: int, n: int)
    requires Moved(x, y, m) && m <= n
    ensures Moved(x, y, n)
  {
  }

  /** A call that recorded a new arc, whereupon the handlers of the window ran. */
  lemma WentSlow(a: Snap, b: Snap, c: Snap, d: Snap, self: nat, from: nat, during: Events, window: Events, rest: Events,
                 l1: multiset<(nat, nat)>, l2: multiset<(nat, nat)>)
    requires Went(a, b, during, Done, l1) && Went(c, d, window, Done, l2)
    requires Recorded(b.chains, c.chains, self, from) && CountsKept(b.chains, c.chains)
    requires Keeps(b, c) && b.clients == c.clients && Untouched(b.mem, c.mem, b.clients) && c.top <= b.top + 2 * SLAB
    requires NoCalls(during) && AllDistinct(b.chains) ==>
               AllDistinct(c.chains) && !KnowsPair(b.chains[Bucket(self)], self, from)
    ensures Went(a, d, Call(self, from, during, window, rest), rest, l1 + l2)
  {
    hide PairWent, PairExact, AllGrow, AllDistinct, Untouched, NoCalls, Quiet, Need, WordsHeld, ArcsMoved, CountsKept, Recorded,
      HasArcIn, CountIn, Bucket, Moved, AllPairsWent, AllPairsExact, Calls, KnowsPair, Tally, RecordedOne;
    KeepsTrans(b, c, d);
    KeepsTrans(a, b, d);
    RecordedMarks(b.chains, c.chains, self, from);
    SlowPairs(a, b, c, d, self, from, during, window, rest, l1, l2);
    FlagsOfCall(self, from, during, window, rest);
    if Quiet(Call(self, from, during, window, rest)) && AllDistinct(a.chains) {
      SlowExact(a, c, d, self, from, during, window, rest, l2);
      assert l1 + l2 == l2;
    }
    SlowMoved(a.chains, b.chains, c.chains, d.chains, self, from, during, window, rest);
    UntouchedSame(d.mem, d.clients);
    WordsOfCall(a, b, c, d, d, self, from, during, window, rest);
  }

  lemma RecordedMarks(b: seq<Fns>, c: seq<Fns>, self: nat, from: nat)
    requires Recorded(b, c, self, from)
    ensures |b| == |c| == BUCKETS
    ensures forall s: nat, x: nat :: RecordedOne(s, x, self, from, MarkOf(b, s, x), MarkOf(c, s, x))
  {
    hide AllGrow, Bucket, Tally, KnowsPair, Add32;
  }

  lemma SlowPairs(a: Snap, b: Snap, c: Snap, d: Snap, self: nat, from: nat, during: Events, window: Events, rest: Events,
                  l1: multiset<(nat, nat)>, l2: multiset<(nat, nat)>)
    requires Went(a, b, during, Done, l1) && Went(c, d, window, Done, l2)
    requires forall s: nat, x: nat :: RecordedOne(s, x, self, from, MarkOf(b.chains, s, x), MarkOf(c.chains, s, x))
    ensures AllPairsWent(a.chains, d.chains, Call(self, from, during, window, rest), rest, l1 + l2)
  {
    hide PairWent, MarkOf, RecordedOne, AllPairsExact, ArcsMoved, WordsHeld, Keeps;
    forall s: nat, x: nat
      ensures PairWent(s, x, Call(self, from, during, window, rest), rest, MarkOf(a.chains, s, x), MarkOf(d.chains, s, x),
                       (l1 + l2)[(s, x)])
    {
      PairSlow(s, x, self, from, during, window, rest, MarkOf(a.chains, s, x), MarkOf(b.chains, s, x),
               MarkOf(c.chains, s, x), MarkOf(d.chains, s, x), l1[(s, x)], l2[(s, x)]);
    }
  }

  lemma SlowExact(b: Snap, c: Snap, d: Snap, self: nat, from: nat, during: Events, window: Events, rest: Events,
                  l2: multiset<(nat, nat)>)
    requires |b.chains| == BUCKETS && Went(c, d, window, Done, l2) && Quiet(window) && AllDistinct(c.chains)
    requires !KnowsPair(b.chains[Bucket(self)], self, from)
    requires forall s: nat, x: nat :: RecordedOne(s, x, self, from, MarkOf(b.chains, s, x), MarkOf(c.chains, s, x))
    ensures AllPairsExact(b.chains, d.chains, Call(self, from, during, window, rest), rest, l2)
  {
    hide PairWent, PairExact, RecordedOne, ArcsMoved, WordsHeld, Keeps, Quiet, AllDistinct, Tally, KnowsPair;
    forall s: nat, x: nat
      ensures PairExact(s, x, Call(self, from, during, window, rest), rest, MarkOf(b.chains, s, x), MarkOf(d.chains, s, x),
                        l2[(s, x)])
    {
      ExactSlow(s, x, self, from, during, window, rest, MarkOf(b.chains, s, x), MarkOf(c.chains, s, x),
                MarkOf(d.chains, s, x), l2[(s, x)]);
    }
  }

  lemma SlowMoved(a: seq<Fns>, b: seq<Fns>, c: seq<Fns>, d: seq<Fns>, self: nat, from: nat, during: Events, window: Events,
                  rest: Events)
    requires |a| == |b| == |c| == |d| == BUCKETS && AllGrow(a, b) && AllGrow(b, c)
    requires ArcsMoved(a, b, during, Done) && CountsKept(b, c) && ArcsMoved(c, d, window, Done)
    ensures ArcsMoved(a, d, Call(self, from, during, window, rest), rest)
  {
    hide HasArcIn, CountIn, Bucket, Calls, Lapses, AllGrow, Moved;
    forall s: nat, x: nat, e, p | HasArcIn(a[Bucket(s)], e, s, p, x)
      ensures Moved(CountIn(a[Bucket(s)], e, p), CountIn(d[Bucket(s)], e, p),
                    Calls(Call(self, from, during, window, rest), s, x) - Calls(rest, s, x))
    {
      CallsOf(self, from, during, window, rest, s, x);
      GrownArc(a, b, Bucket(s), e, s, p, x);
      GrownArc(b, c, Bucket(s), e, s, p, x);
      var i, j, k := CountIn(a[Bucket(s)], e, p), CountIn(b[Bucket(s)], e, p), CountIn(d[Bucket(s)], e, p);
      assert Moved(i, j, Calls(during, s, x) - Calls(Done, s, x)) && Moved(j, k, Calls(window, s, x) - Calls(Done, s, x));
      MovedSum(i, j, k, Calls(during, s, x), Calls(window, s, x));
      MovedMore(i, k, Calls(during, s, x) + Calls(window, s, x),
                Calls(Call(self, from, during, window, rest), s, x) - Calls(rest, s, x));
    }
  }

  // ---- what a whole run says

  /** An increment that was interrupted adds one to the tally of its pair: the right number exactly if no handler called the
      same pair in the window (up to a multiple of 2^32). */
  lemma InterruptedTally(self: nat, from: nat, during: Events, window: Events, tally: nat)
    ensures NoCalls(during) ==>
              (Add32(tally, 1) == Add32(tally, Calls(Call(self, from, during, window, Done), self, from)) <==>
               Calls(window, self, from) % M == 0)
  {
    hide Calls, Add32;
    CallsOf(self, from, during, window, Done, self, from);
    if NoCalls(during) {
      NoCallsMeansNone(during, self, from);
      OneMoreIsSame(tally, Calls(window, self, from));
    }
  }

  lemma OneMoreIsSame(tally: nat, n: nat)
    ensures Add32(tally, 1) == Add32(tally, n + 1) <==> n % M == 0
  {
    var v, w := (tally + 1) / M, (tally + n + 1) / M;
    if Add32(tally, 1) == Add32(tally, n + 1) {
      assert n == (w - v) * M;
    }
    if n % M == 0 {
      assert tally + n + 1 == tally + 1 + n / M * M;
    }
  }

  lemma WentKeeps(a: Snap, b: Snap, made: Events, left: Events, lost: multiset<(nat, nat)>)
    requires Went(a, b, made, left, lost)
    ensures |a.chains| == |b.chains| == BUCKETS && Keeps(a, b) && b.top + Need(left) <= a.top + Need(made)
    ensures NoCalls(made) ==> NoCalls(left) && a.chains == b.chains
    ensures Quiet(made) && AllDistinct(a.chains) ==> AllDistinct(b.chains)
  {
  }

  /** The tallies after a run, in 32 bits: they fall short of the calls made by no more than the lapses, and so are right for
      every pair without lapses; and where no search is interrupted by a profiled handler, they fall short by exactly the
      calls that the run determines to be lost, and so are right exactly if these are none (or a multiple of 2^32). */
  ghost predicate Counted(a: seq<Fns>, b: seq<Fns>, events: Events, s: nat, f: nat)
    requires |a| == |b| == BUCKETS
  {
    var before, after := Tally(a[Bucket(s)], s, f), Tally(b[Bucket(s)], s, f);
    && (before + Calls(events, s, f) - after) % M <= Lapses(events, s, f)
    && (Lapses(events, s, f) == 0 ==> after == Add32(before, Calls(events, s, f)))
    && (Quiet(events) && AllDistinct(a) ==>
          var lost := Lost(events, s, f, KnowsPair(a[Bucket(s)], s, f));
          && Add32(after, lost) == Add32(before, Calls(events, s, f))
          && (after == Add32(before, Calls(events, s, f)) <==> lost % M == 0))
  }

  lemma RunCounts(a: Snap, b: Snap, events: Events, lost: multiset<(nat, nat)>)
    requires Went(a, b, events, Done, lost)
    ensures |a.chains| == |b.chains| == BUCKETS
    ensures forall s: nat, f: nat :: Counted(a.chains, b.chains, events, s, f)
  {
    hide PairWent, PairExact, ArcsMoved, WordsHeld, Keeps, Counted, Quiet, AllDistinct;
    forall s: nat, f: nat
      ensures Counted(a.chains, b.chains, events, s, f)
    {
      PairCounts(a.chains, b.chains, events, lost[(s, f)], s, f);
    }
  }

  lemma PairCounts(a: seq<Fns>, b: seq<Fns>, events: Events, n: nat, s: nat, f: nat)
    requires |a| == |b| == BUCKETS && PairWent(s, f, events, Done, MarkOf(a, s, f), MarkOf(b, s, f), n)
    requires Quiet(events) && AllDistinct(a) ==> PairExact(s, f, events, Done, MarkOf(a, s, f), MarkOf(b, s, f), n)
    ensures Counted(a, b, events, s, f)
  {
    hide Same, Tally, KnowsPair, Bucket, Add32, Quiet, AllDistinct, Calls, Lapses, Lost;
    var before, after, calls := Tally(a[Bucket(s)], s, f), Tally(b[Bucket(s)], s, f), Calls(events, s, f);
    CallsOf(s, f, Done, Done, Done, s, f);
    TallyIs32Fns(b[Bucket(s)], s, f);
    FallsShort(before + calls, after, n);
    if Lapses(events, s, f) == 0 {
      SameSum(after, before, calls);
    }
    if Quiet(events) && AllDistinct(a) {
      var lost := Lost(events, s, f, KnowsPair(a[Bucket(s)], s, f));
      LostOf(s, f, Done, Done, Done, s, f, MarkOf(b, s, f).known);
      SameAdd(n, lost, after);
      SameBack(after + n, after + lost);
      SameTrans(after + lost, after + n, before + calls);
      SumsSame(after, lost, before, calls);
    }
  }

  lemma FallsShort(all: nat, after: nat, n: nat)
    requires Same(after + n, all)
    ensures (all - after) % M <= n
  {
    var w := (after + n - all) / M;
    assert all - after == n - w * M;
    assert (all - after) % M == n % M;
  }

  lemma SameBack(x: int, y: int)
    requires Same(x, y)
    ensures Same(y, x)
  {
    var w := (x - y) / M;
    assert y - x == -w * M;
  }

  lemma SumsSame(after: nat, lost: nat, before: nat, calls: nat)
    requires Same(after + lost, before + calls) && after < M
    ensures Add32(after, lost) == Add32(before, calls)
    ensures after == Add32(before, calls) <==> lost % M == 0
  {
    SameRemainder(after + lost, before + calls);
    RightIf(after, lost);
  }

  lemma RightIf(after: nat, lost: nat)
    requires after < M
    ensures after == (after + lost) % M <==> lost % M == 0
  {
    var w := (after + lost) / M;
    assert after + lost == w * M + (after + lost) % M;
    if lost % M == 0 {
      assert after + lost == after + lost / M * M;
    }
  }

  /** Lost calls are lapses, and calls without a profiled handler in any window have none. */
  lemma {:induction false} LostIsLapse(events: Events, s: nat, f: nat, known: bool)
    ensures Lost(events, s, f, known) <= Lapses(events, s, f)
    decreases events
  {
    match events
    case Done =>
    case Request(_, rest) => LostIsLapse(rest, s, f, known);
    case Write(_, _, _, rest) => LostIsLapse(rest, s, f, known);
    case Call(_, _, _, window, rest) =>
      LostIsLapse(window, s, f, true);
      LostIsLapse(window, s, f, known);
      LostIsLapse(rest, s, f, true);
      LostIsLapse(rest, s, f, known || Calls(window, s, f) > 0);
  }

  lemma {:induction false} AtomicHasNoLapses(events: Events, s: nat, f: nat)
    requires Atomic(events)
    ensures Lapses(events, s, f) == 0
    decreases events
  {
    match events
    case Done =>
    case Request(_, rest) => AtomicHasNoLapses(rest, s, f);
    case Write(_, _, _, rest) => AtomicHasNoLapses(rest, s, f);
    case Call(_, _, during, window, rest) =>
      AtomicHasNoLapses(during, s, f);
      NoCallsMeansNone(window, s, f);
      NoLapsesWithoutCalls(window, s, f);
      AtomicHasNoLapses(rest, s, f);
  }

  lemma {:induction false} NoLapsesWithoutCalls(events: Events, s: nat, f: nat)
    requires NoCalls(events)
    ensures Lapses(events, s, f) == 0
    decreases events
  {
    match events
    case Done =>
    case Request(_, rest) => NoLapsesWithoutCalls(rest, s, f);
    case Write(_, _, _, rest) => NoLapsesWithoutCalls(rest, s, f);
  }
}
