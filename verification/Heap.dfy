/** The heap that sbrk hands out, and the slab that mcount cuts its nodes from. */
module Heap {
  import opened CallGraph

  const SLAB := 1020
  const FAIL := 0xFFFF_FFFF  // (caddr_t) -1

  function AlignUp(a: int): int { (a + 3) / 4 * 4 }

  /** The least multiple of 4 from `a` on. */
  lemma AlignUpIs(a: int)
    ensures a <= AlignUp(a) <= a + 3 && AlignUp(a) % 4 == 0
  {
  }

  datatype Region = Region(start: int, size: int)

  predicate Apart(r: Region, s: Region) {
    r.start + r.size <= s.start || s.start + s.size <= r.start
  }

  ghost predicate InHeap(r: Region, start: int, end: int) {
    r.start % 4 == 0 && 0 <= r.size && start <= r.start && r.start + r.size <= end
  }

  /** Every node and every region given to a client is word-aligned and in the heap, and no two of them, nor one of them
      and what is left of the slab, overlap. */
  ghost predicate Layout(start: int, end: int, slab: Region, nodes: map<int, Owner>, clients: seq<Region>) {
    && 0 < start <= end
    && slab.start % 4 == 0 && 0 <= slab.size && 0 <= slab.start && slab.start + slab.size <= end
    && (slab.size > 0 ==> start <= slab.start)
    && (forall p :: p in nodes ==> p % 4 == 0 && start <= p && p + NODE <= slab.start)
    && (forall p, q :: p in nodes && q in nodes && p != q ==> Apart(Region(p, NODE), Region(q, NODE)))
    && (forall i :: 0 <= i < |clients| ==> InHeap(clients[i], start, end) && Apart(clients[i], slab))
    && (forall i, j :: 0 <= i < j < |clients| ==> Apart(clients[i], clients[j]))
    && (forall i, p :: 0 <= i < |clients| && p in nodes ==> Apart(clients[i], Region(p, NODE)))
  }

  lemma GrantClient(start: int, end: int, slab: Region, nodes: map<int, Owner>, clients: seq<Region>, r: Region)
    requires Layout(start, end, slab, nodes, clients)
    requires r.start % 4 == 0 && 0 <= r.size && end <= r.start
    ensures Layout(start, r.start + r.size, slab, nodes, clients + [r])
  {
  }

  lemma GrantSlab(start: int, end: int, slab: Region, nodes: map<int, Owner>, clients: seq<Region>, r: Region)
    requires Layout(start, end, slab, nodes, clients)
    requires r.start % 4 == 0 && 0 <= r.size && end <= r.start
    ensures Layout(start, r.start + r.size, r, nodes, clients)
  {
  }

  lemma CutNode(start: int, end: int, slab: Region, nodes: map<int, Owner>, clients: seq<Region>, owner: Owner)
    requires Layout(start, end, slab, nodes, clients) && NODE <= slab.size
    ensures Layout(start, end, Region(slab.start + NODE, slab.size - NODE), nodes[slab.start := owner], clients)
  {
  }
}
