/** A table of handlers that others register into while a connection is being served. */
module HandlerTable {
  /** A registration, and the order in which registrations of a batch apply. */
  type Registration<H> = (int, H)

  function Apply<H>(handlers: map<int, H>, batch: seq<Registration<H>>): map<int, H> {
    if batch == [] then handlers
    else Apply(handlers, batch[..|batch| - 1])[batch[|batch| - 1].0 := batch[|batch| - 1].1]
  }

  /** The handlers after the first n batches. */
  function HandlersAfter<H>(handlers: map<int, H>, batches: nat -> seq<Registration<H>>, n: nat): map<int, H> {
    if n == 0 then handlers else Apply(HandlersAfter(handlers, batches, n - 1), batches(n - 1))
  }

  /** The table that the i-th lookup sees when batch i is registered just before it. */
  function RegistryOf<H>(handlers: map<int, H>, batches: nat -> seq<Registration<H>>): nat -> map<int, H> {
    (i: nat) => HandlersAfter(handlers, batches, i + 1)
  }

  lemma NoBatches<H>(handlers: map<int, H>, batches: nat -> seq<Registration<H>>)
    ensures HandlersAfter(handlers, batches, 0) == handlers
  {
  }

  lemma NextBatch<H>(handlers: map<int, H>, batches: nat -> seq<Registration<H>>, n: nat)
    ensures HandlersAfter(handlers, batches, n + 1) == Apply(HandlersAfter(handlers, batches, n), batches(n))
    ensures RegistryOf(handlers, batches)(n) == HandlersAfter(handlers, batches, n + 1)
  {
  }

  /** The last registration of a type in a batch decides; types that are not in it keep their handlers. */
  lemma {:induction false} LastDecides<H>(handlers: map<int, H>, batch: seq<Registration<H>>, mt: int, i: int)
    requires -1 <= i < |batch|
    requires i >= 0 ==> batch[i].0 == mt
    requires forall j :: i < j < |batch| ==> batch[j].0 != mt
    ensures mt in Apply(handlers, batch) <==> i >= 0 || mt in handlers
    ensures mt in Apply(handlers, batch) ==> Apply(handlers, batch)[mt] == if i >= 0 then batch[i].1 else handlers[mt]
  {
    if i < |batch| - 1 {
      LastDecides(handlers, batch[..|batch| - 1], mt, i);
    }
  }
}
