/** The circular buffers of the JTAG UART driver: `buf[out..inn)`, wrapping at the end of the buffer.
    One slot always stays free, so that equal indices mean "empty" only. */
module Ring {

  /** An index moved forward to at most the end of the buffer, which the C code writes as `i % n`. */
  function Wrap(i: nat, n: nat): (r: nat)
    requires 0 < n && i <= n
    ensures r < n && r == i % n
  {
    if i == n then 0 else i
  }

  /** Number of elements between the two indices. */
  function Queued(out: nat, inn: nat, n: nat): (q: nat)
    requires out < n && inn < n
    ensures q < n
    ensures Wrap(inn + 1, n) == out <==> q == n - 1
    ensures inn == out <==> q == 0
  {
    if out <= inn then inn - out else inn + n - out
  }

  /** The queued elements, oldest first. */
  function Contents<T>(buf: seq<T>, out: nat, inn: nat): (s: seq<T>)
    requires out < |buf| && inn < |buf|
    ensures |s| == Queued(out, inn, |buf|)
  {
    if out <= inn then buf[out..inn] else buf[out..] + buf[..inn]
  }

  /** Storing into the free run that starts at `inn` disturbs nothing queued. */
  lemma FreeRun<T>(buf: seq<T>, buf': seq<T>, out: nat, inn: nat, k: nat)
    requires out < |buf| == |buf'| && inn + k <= |buf|
    requires inn < |buf| && Queued(out, inn, |buf|) + k < |buf|
    requires forall i :: 0 <= i < |buf| && !(inn <= i < inn + k) ==> buf'[i] == buf[i]
    ensures Contents(buf', out, inn) == Contents(buf, out, inn)
  {
  }

  /** Moving `inn` past a run inside the buffer queues exactly that run, also when the index wraps to zero. */
  lemma Append<T>(buf: seq<T>, out: nat, inn: nat, k: nat)
    requires out < |buf| && inn < |buf| && inn + k <= |buf| && Queued(out, inn, |buf|) + k < |buf|
    ensures Contents(buf, out, Wrap(inn + k, |buf|)) == Contents(buf, out, inn) + buf[inn..inn + k]
  {
  }

  /** Moving `out` past a run inside the buffer removes exactly that run. */
  lemma Drop<T>(buf: seq<T>, out: nat, inn: nat, k: nat)
    requires out < |buf| && inn < |buf| && out + k <= |buf| && k <= Queued(out, inn, |buf|)
    ensures Contents(buf, Wrap(out + k, |buf|), inn) == Contents(buf, out, inn)[k..]
    ensures Contents(buf, out, inn)[..k] == buf[out..out + k]
  {
  }

  /** Up to the end of the buffer, queued elements lie in order from `out` on. */
  lemma Oldest<T>(buf: seq<T>, out: nat, inn: nat, j: nat)
    requires out < |buf| && inn < |buf| && out + j < |buf| && j < Queued(out, inn, |buf|)
    ensures Contents(buf, out, inn)[j] == buf[out + j]
  {
  }

  /** No ABA: while one index stands still, the other comes back to a sampled value exactly when the number of
      queued elements is the sampled one, that is, when nothing moved. */
  lemma NoReturn(out: nat, out': nat, inn: nat, inn': nat, n: nat)
    requires out < n && out' < n && inn < n && inn' < n
    ensures Queued(out, inn, n) == Queued(out', inn, n) <==> out == out'
    ensures Queued(out, inn, n) == Queued(out, inn', n) <==> inn == inn'
  {
  }
}
