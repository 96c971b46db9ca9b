/** The topology entities and the heap that holds them.

    `DeclareQueue` keeps a pointer to its `Queue` and `DeclareBinding` reads
    the queue and exchange through the binding's references, so the model
    makes the heap explicit: a `Store` maps references to the records they
    currently point at. A value captured by a factory is a field of the
    declaration; a value read through a reference is looked up in the store
    at apply time. */
module Topology {
  import opened Amqp

  /** A non-nil `*Queue`. */
  datatype QueueRef = QueueRef(addr: nat)

  /** A reference to an `Exchange` record. */
  datatype ExchangeRef = ExchangeRef(addr: nat)

  /** The fields of `Queue` that declarations read or write. An empty `name`
      asks the broker to choose one. */
  datatype Queue = Queue(name: string, durable: bool, autoDelete: bool, exclusive: bool, args: Table)

  /** The fields of `Exchange` that declarations read. */
  datatype Exchange = Exchange(name: string, kind: string, durable: bool, autoDelete: bool, args: Table)

  /** A binding of a queue to an exchange under a routing key; the queue and
      the exchange are held by reference. */
  datatype Binding = Binding(queue: QueueRef, exchange: ExchangeRef, key: string, args: Table)

  /** The heap: the record each live reference points at. */
  datatype Store = Store(queues: map<QueueRef, Queue>, exchanges: map<ExchangeRef, Exchange>)

  /** `a` and `b` agree on every field a declaration reads from a queue,
      except the name. */
  predicate SameSettings(a: Queue, b: Queue)
  {
    a.durable == b.durable && a.autoDelete == b.autoDelete && a.exclusive == b.exclusive && a.args == b.args
  }

  /** Two heaps hold the same references and the same records, except that
      queue names may differ. */
  predicate SameButNames(a: Store, b: Store)
  {
    && a.exchanges == b.exchanges
    && a.queues.Keys == b.queues.Keys
    && forall q :: q in a.queues ==> SameSettings(a.queues[q], b.queues[q])
  }

  /** The heap after the assignment `q.Name = name`. */
  function SetQueueName(st: Store, q: QueueRef, name: string): (st': Store)
    requires q in st.queues
    ensures SameButNames(st, st')
    ensures st'.queues[q].name == name
    ensures forall p :: p in st.queues && p != q ==> st'.queues[p] == st.queues[p]
  {
    st.(queues := st.queues[q := st.queues[q].(name := name)])
  }

  /** Assigning a queue's name twice keeps only the second assignment. */
  lemma SetQueueNameTwice(st: Store, q: QueueRef, first: string, second: string)
    requires q in st.queues
    ensures SetQueueName(SetQueueName(st, q, first), q, second) == SetQueueName(st, q, second)
  {
    var a := SetQueueName(SetQueueName(st, q, first), q, second);
    var b := SetQueueName(st, q, second);
    assert a.queues.Keys == b.queues.Keys;
    assert forall p :: p in a.queues ==> a.queues[p] == b.queues[p];
  }

  /** If `a'` differs from `a`, `b` from `a` and `b'` from `b` only in queue
      names, then `a'` differs from `b'` only in queue names. */
  lemma SameButNamesThrough(a: Store, a': Store, b: Store, b': Store)
    requires SameButNames(a, a') && SameButNames(a, b) && SameButNames(b, b')
    ensures SameButNames(a', b')
  {
    forall q | q in a'.queues
      ensures SameSettings(a'.queues[q], b'.queues[q])
    {
      assert q in a.queues;
      assert SameSettings(a.queues[q], a'.queues[q]);
      assert SameSettings(b.queues[q], b'.queues[q]);
    }
  }

  /** Heaps that differ at most in queue names, and agree on those too, are equal. */
  lemma SameNamesSameStore(a: Store, b: Store)
    requires SameButNames(a, b)
    requires forall q :: q in a.queues ==> a.queues[q].name == b.queues[q].name
    ensures a == b
  {
    forall q | q in a.queues
      ensures a.queues[q] == b.queues[q]
    {
      assert SameSettings(a.queues[q], b.queues[q]);
    }
    assert a.queues == b.queues;
  }
}
