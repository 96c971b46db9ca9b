/** Deferred topology declarations.

    A `Declaration` is a replayable callback that, applied to a `Declarer`,
    makes exactly one call on it. Each constructor of the datatype is the
    closure one factory builds and holds exactly what that closure captures:
    the queue declaration a reference to its queue plus the name the queue
    had when the factory ran, the exchange declaration a copy of the
    exchange, the binding declaration a copy of the binding (which itself
    refers to its queue and exchange), and the other three their argument. */
module Declarations {
  import opened Amqp
  import opened Topology
  import opened Declarer

  datatype Declaration =
    | QueueDecl(queue: QueueRef, requested: string)
    | ExchangeDecl(exchange: Exchange)
    | BindingDecl(binding: Binding)
    | ConfirmDecl(noWait: bool)
    | NotifyPublishDecl(confirm: ConfirmChan)
    | NotifyReturnDecl(rc: ReturnChan)

  /** What one application leaves behind: the heap, the double's trace, and
      the error the callback returns. */
  datatype Effect = Effect(store: Store, trace: seq<Call>, err: Option<Error>)

  /** Every reference the declaration follows when applied points into the heap. */
  predicate Resolves(d: Declaration, st: Store)
  {
    match d
    case QueueDecl(q, _) => q in st.queues
    case BindingDecl(b) => b.queue in st.queues && b.exchange in st.exchanges
    case _ => true
  }

  /** Only the references matter, so heaps that differ in queue names resolve alike. */
  lemma ResolvesSameButNames(d: Declaration, a: Store, b: Store)
    requires SameButNames(a, b)
    ensures Resolves(d, a) <==> Resolves(d, b)
  {
    match d
    case QueueDecl(q, _) =>
      assert q in a.queues <==> q in a.queues.Keys;
    case BindingDecl(bd) =>
      assert bd.queue in a.queues <==> bd.queue in a.queues.Keys;
    case _ =>
  }

  /** Applying `d` to the recording declarer whose trace so far is `trace`.
      The queue declaration first resets the queue's name to the captured
      one, calls `QueueDeclare` with the queue's fields as they now are, and
      then stores the returned name whether or not an error came with it. */
  function Apply(d: Declaration, st: Store, trace: seq<Call>, o: Oracle): (r: Effect)
    requires Resolves(d, st)
    ensures |r.trace| == |trace| + 1 && r.trace[..|trace|] == trace
    ensures SameButNames(st, r.store)
    ensures forall q :: q in st.queues && !(d.QueueDecl? && d.queue == q) ==> r.store.queues[q] == st.queues[q]
    ensures d.QueueDecl? ==> r.store.queues[d.queue].name == o(|trace|, r.trace[|trace|]).queueName
    ensures r.err == if d.NotifyPublishDecl? || d.NotifyReturnDecl? then None else o(|trace|, r.trace[|trace|]).err
  {
    match d
    case QueueDecl(q, requested) =>
      var reset := SetQueueName(st, q, requested);
      var cur := reset.queues[q];
      var c := QueueDeclare(cur.name, cur.durable, cur.autoDelete, cur.exclusive, false, cur.args);
      var reply := o(|trace|, c);
      Effect(SetQueueName(reset, q, reply.queueName), trace + [c], reply.err)
    case ExchangeDecl(e) =>
      var c := ExchangeDeclare(e.name, e.kind, e.durable, e.autoDelete, false, false, e.args);
      Effect(st, trace + [c], o(|trace|, c).err)
    case BindingDecl(b) =>
      var c := QueueBind(st.queues[b.queue].name, b.key, st.exchanges[b.exchange].name, false, b.args);
      Effect(st, trace + [c], o(|trace|, c).err)
    case ConfirmDecl(noWait) =>
      var c := Confirm(noWait);
      Effect(st, trace + [c], o(|trace|, c).err)
    case NotifyPublishDecl(ch) =>
      Effect(st, trace + [NotifyPublish(ch)], None)
    case NotifyReturnDecl(ch) =>
      Effect(st, trace + [NotifyReturn(ch)], None)
  }

  /** `DeclareQueue(q)`: the declaration keeps the reference `q` and the
      name `q` has when the factory runs. Whenever it is applied, to
      whatever heap, it sends that captured name (not the queue's current
      name), sends the current durability, auto-delete, exclusivity and
      arguments with `noWait` false, leaves `q` named as the declarer
      answered, even when the declarer also failed, and returns the
      declarer's error. */
  function DeclareQueue(st: Store, q: QueueRef): (d: Declaration)
    requires q in st.queues
    ensures forall later: Store :: Resolves(d, later) <==> q in later.queues
    ensures forall later: Store, trace: seq<Call>, o: Oracle {:trigger Apply(d, later, trace, o)} :: q in later.queues ==>
      var cur := later.queues[q];
      var c := QueueDeclare(st.queues[q].name, cur.durable, cur.autoDelete, cur.exclusive, false, cur.args);
      Apply(d, later, trace, o) == Effect(SetQueueName(later, q, o(|trace|, c).queueName), trace + [c], o(|trace|, c).err)
  {
    QueueDeclEffect(q, st.queues[q].name);
    QueueDecl(q, st.queues[q].name)
  }

  /** Applying a queue declaration that captured `requested`, to whatever
      heap: it sends the captured name (not the queue's current name), sends the current durability,
      auto-delete, exclusivity and arguments with `noWait` false, leaves the
      queue named as the declarer answered, even when the declarer also
      failed, and returns the declarer's error. The reset of the name to the
      captured one is overwritten by the declarer's answer. */
  lemma QueueDeclEffect(q: QueueRef, requested: string)
    ensures forall later: Store, trace: seq<Call>, o: Oracle {:trigger Apply(QueueDecl(q, requested), later, trace, o)} :: q in later.queues ==>
      var cur := later.queues[q];
      var c := QueueDeclare(requested, cur.durable, cur.autoDelete, cur.exclusive, false, cur.args);
      Apply(QueueDecl(q, requested), later, trace, o)
        == Effect(SetQueueName(later, q, o(|trace|, c).queueName), trace + [c], o(|trace|, c).err)
  {
    forall later: Store, trace: seq<Call>, o: Oracle | q in later.queues
      ensures var cur := later.queues[q];
              var c := QueueDeclare(requested, cur.durable, cur.autoDelete, cur.exclusive, false, cur.args);
              Apply(QueueDecl(q, requested), later, trace, o)
                == Effect(SetQueueName(later, q, o(|trace|, c).queueName), trace + [c], o(|trace|, c).err)
    {
      var cur := later.queues[q];
      var c := QueueDeclare(requested, cur.durable, cur.autoDelete, cur.exclusive, false, cur.args);
      SetQueueNameTwice(later, q, requested, o(|trace|, c).queueName);
    }
  }

  /** `DeclareExchange(e)`: applied to any heap, the declaration makes one
      `ExchangeDeclare` call carrying the copy of `e` taken by the factory,
      with `internal` and `noWait` false, changes nothing in the heap and
      returns the declarer's error. */
  function DeclareExchange(e: Exchange): (d: Declaration)
    ensures forall st: Store :: Resolves(d, st)
    ensures forall st: Store, trace: seq<Call>, o: Oracle ::
      var c := ExchangeDeclare(e.name, e.kind, e.durable, e.autoDelete, false, false, e.args);
      Apply(d, st, trace, o) == Effect(st, trace + [c], o(|trace|, c).err)
  {
    ExchangeDecl(e)
  }

  /** `DeclareBinding(b)`: applied to a heap, the declaration makes one
      `QueueBind` call whose queue and exchange names are those the
      referenced records have in that heap at apply time, with the key and
      arguments of `b` and `noWait` false; it changes nothing in the heap
      and returns the declarer's error. */
  function DeclareBinding(b: Binding): (d: Declaration)
    ensures forall st: Store :: Resolves(d, st) <==> b.queue in st.queues && b.exchange in st.exchanges
    ensures forall st: Store, trace: seq<Call>, o: Oracle :: b.queue in st.queues && b.exchange in st.exchanges ==>
      var c := QueueBind(st.queues[b.queue].name, b.key, st.exchanges[b.exchange].name, false, b.args);
      Apply(d, st, trace, o) == Effect(st, trace + [c], o(|trace|, c).err)
  {
    BindingDecl(b)
  }

  /** `DeclareConfirm(noWait)`: one `Confirm` call with the same flag, the
      heap untouched, the declarer's error returned. */
  function DeclareConfirm(noWait: bool): (d: Declaration)
    ensures forall st: Store :: Resolves(d, st)
    ensures forall st: Store, trace: seq<Call>, o: Oracle ::
      Apply(d, st, trace, o) == Effect(st, trace + [Confirm(noWait)], o(|trace|, Confirm(noWait)).err)
  {
    ConfirmDecl(noWait)
  }

  /** `DeclareNotifyPublish(ch)`: one `NotifyPublish(ch)` call, the heap
      untouched, and no error whatever the declarer answers. */
  function DeclareNotifyPublish(ch: ConfirmChan): (d: Declaration)
    ensures forall st: Store :: Resolves(d, st)
    ensures forall st: Store, trace: seq<Call>, o: Oracle ::
      Apply(d, st, trace, o) == Effect(st, trace + [NotifyPublish(ch)], None)
  {
    NotifyPublishDecl(ch)
  }

  /** `DeclareNotifyReturn(ch)`: one `NotifyReturn(ch)` call, the heap
      untouched, and no error whatever the declarer answers. */
  function DeclareNotifyReturn(ch: ReturnChan): (d: Declaration)
    ensures forall st: Store :: Resolves(d, st)
    ensures forall st: Store, trace: seq<Call>, o: Oracle ::
      Apply(d, st, trace, o) == Effect(st, trace + [NotifyReturn(ch)], None)
  {
    NotifyReturnDecl(ch)
  }

  /** A queue declaration does not depend on the name its queue has when it
      is applied: renaming the queue beforehand changes nothing in the call,
      the heap it leaves or the error it returns. */
  lemma QueueDeclIgnoresCurrentName(q: QueueRef, requested: string, st: Store, name: string, trace: seq<Call>, o: Oracle)
    requires q in st.queues
    ensures Apply(QueueDecl(q, requested), SetQueueName(st, q, name), trace, o) == Apply(QueueDecl(q, requested), st, trace, o)
  {
    SetQueueNameTwice(st, q, name, requested);
  }

  /** Applying any declaration a second time, right after the first, makes
      the same call again: what the first application wrote (a queue name
      assigned by the declarer) does not leak into the replay. */
  lemma ReplayIssuesSameCall(d: Declaration, st: Store, trace: seq<Call>, o: Oracle)
    requires Resolves(d, st)
    ensures var r1 := Apply(d, st, trace, o);
            var r2 := Apply(d, r1.store, r1.trace, o);
            r2.trace == r1.trace + [r1.trace[|trace|]]
  {
    var r1 := Apply(d, st, trace, o);
    ResolvesSameButNames(d, st, r1.store);
    if d.QueueDecl? {
      var q := d.queue;
      var given := r1.store.queues[q].name;
      assert r1.store == SetQueueName(st, q, given) by {
        SetQueueNameTwice(st, q, d.requested, given);
        assert SetQueueName(st, q, given).queues == r1.store.queues;
      }
      QueueDeclIgnoresCurrentName(q, d.requested, st, given, r1.trace, o);
    }
  }

  /** The second of two applications of a queue declaration built for a
      queue named "": it sends "" again although the first left the queue
      named "q-1234", and leaves the queue named "q-5678" as the second
      answer says. */
  lemma QueueReplayResetsName(st: Store, q: QueueRef, trace: seq<Call>, o: Oracle)
    requires q in st.queues && st.queues[q].name == ""
    requires var cur := st.queues[q];
             var c := QueueDeclare("", cur.durable, cur.autoDelete, cur.exclusive, false, cur.args);
             o(|trace|, c).queueName == "q-1234" && o(|trace| + 1, c).queueName == "q-5678"
    ensures var d := DeclareQueue(st, q);
            var r1 := Apply(d, st, trace, o);
            var r2 := Apply(d, r1.store, r1.trace, o);
            && r1.store.queues[q].name == "q-1234"
            && r2.trace[|trace| + 1].name == ""
            && r2.store.queues[q].name == "q-5678"
  {
    var cur := st.queues[q];
    var c := QueueDeclare("", cur.durable, cur.autoDelete, cur.exclusive, false, cur.args);
    var d := DeclareQueue(st, q);
    QueueDeclEffect(q, "");
    var r1 := Apply(d, st, trace, o);
    assert r1 == Effect(SetQueueName(st, q, "q-1234"), trace + [c], o(|trace|, c).err);
    var later := r1.store;
    assert later.queues[q] == cur.(name := "q-1234");
    assert r1.trace == trace + [c];
    var r2 := Apply(d, later, r1.trace, o);
    assert r2 == Effect(SetQueueName(later, q, "q-5678"), r1.trace + [c], o(|trace| + 1, c).err);
  }

  /** A binding applied right after the declaration of its queue sends the
      name the declarer assigned to that queue, not the name the queue had
      when either declaration was built. */
  lemma BindingSeesAssignedName(st: Store, b: Binding, trace: seq<Call>, o: Oracle)
    requires b.queue in st.queues && b.exchange in st.exchanges
    ensures var r1 := Apply(DeclareQueue(st, b.queue), st, trace, o);
            var r2 := Apply(DeclareBinding(b), r1.store, r1.trace, o);
            r2.trace[|trace| + 1]
              == QueueBind(o(|trace|, r1.trace[|trace|]).queueName, b.key, st.exchanges[b.exchange].name, false, b.args)
  {
    QueueDeclEffect(b.queue, st.queues[b.queue].name);
  }

  /** The concrete case: a queue requested with the empty name, which the
      declarer names "q-1", is bound under the name "q-1". */
  lemma EmptyNameBindsAssigned(st: Store, b: Binding, trace: seq<Call>, o: Oracle)
    requires b.queue in st.queues && b.exchange in st.exchanges
    requires st.queues[b.queue].name == ""
    requires var cur := st.queues[b.queue];
             o(|trace|, QueueDeclare("", cur.durable, cur.autoDelete, cur.exclusive, false, cur.args)).queueName == "q-1"
    ensures var r1 := Apply(DeclareQueue(st, b.queue), st, trace, o);
            var r2 := Apply(DeclareBinding(b), r1.store, r1.trace, o);
            r2.trace[|trace| + 1].name == "q-1"
  {
    BindingSeesAssignedName(st, b, trace, o);
  }
}
