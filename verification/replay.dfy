/** Applying an ordered list of declarations to one declarer, as the owner
    of the list does on every (re)connection: in order, one at a time,
    stopping at the first error. This pass is the caller's, not part of the
    declaration mechanism; it is here to state what the mechanism guarantees
    across a whole pass and across two consecutive passes. */
module Replay {
  import opened Amqp
  import opened Topology
  import opened Declarer
  import opened Declarations

  /** Every declaration of the list follows only references into the heap. */
  predicate AllResolve(ds: seq<Declaration>, st: Store)
  {
    forall i :: 0 <= i < |ds| ==> Resolves(ds[i], st)
  }

  /** Heaps that differ only in queue names resolve the same lists. */
  lemma AllResolveSameButNames(ds: seq<Declaration>, a: Store, b: Store)
    requires SameButNames(a, b)
    requires AllResolve(ds, a)
    ensures AllResolve(ds, b)
  {
    forall i | 0 <= i < |ds|
      ensures Resolves(ds[i], b)
    {
      ResolvesSameButNames(ds[i], a, b);
    }
  }

  /** One pass over `ds`: each declaration is applied to the heap the
      previous one left; the first error ends the pass and is its result. */
  function Pass(ds: seq<Declaration>, st: Store, trace: seq<Call>, o: Oracle): (r: Effect)
    requires AllResolve(ds, st)
    ensures |trace| <= |r.trace| <= |trace| + |ds| && r.trace[..|trace|] == trace
    ensures r.err.None? ==> |r.trace| == |trace| + |ds|
    ensures r.err.Some? ==> |r.trace| > |trace| && r.err == o(|r.trace| - 1, r.trace[|r.trace| - 1]).err
    ensures SameButNames(st, r.store)
    decreases |ds|
  {
    if ds == [] then Effect(st, trace, None)
    else
      var first := Apply(ds[0], st, trace, o);
      if first.err.Some? then first
      else
        AllResolveSameButNames(ds[1..], st, first.store);
        Pass(ds[1..], first.store, first.trace, o)
  }

  /** A pass stops at the first error: in a pass that returns no error every
      call, and in one that returns an error every call but the last, was
      answered without error or was a notification, whose answer is never
      an error. */
  lemma {:induction false} PassStopsAtFirstError(ds: seq<Declaration>, st: Store, trace: seq<Call>, o: Oracle)
    requires AllResolve(ds, st)
    ensures var r := Pass(ds, st, trace, o);
            forall i :: |trace| <= i < |r.trace| - (if r.err.Some? then 1 else 0) ==>
              o(i, r.trace[i]).err.None? || r.trace[i].NotifyPublish? || r.trace[i].NotifyReturn?
    decreases |ds|
  {
    if ds != [] {
      var first := Apply(ds[0], st, trace, o);
      if first.err.None? {
        AllResolveSameButNames(ds[1..], st, first.store);
        PassStopsAtFirstError(ds[1..], first.store, first.trace, o);
        var r := Pass(ds[1..], first.store, first.trace, o);
        assert r.trace[|trace|] == first.trace[|trace|] by {
          assert r.trace[..|first.trace|] == first.trace;
        }
        PassUnfold(ds, st, trace, o);
        var c := first.trace[|trace|];
        assert o(|trace|, c).err.None? || c.NotifyPublish? || c.NotifyReturn? by {
          match ds[0]
          case NotifyPublishDecl(ch) => assert c == NotifyPublish(ch);
          case NotifyReturnDecl(ch) => assert c == NotifyReturn(ch);
          case _ =>
        }
      }
    }
  }

  /** The queues a declaration has declared once it has run, given those
      declared before it. */
  function Declared(d: Declaration, before: set<QueueRef>): set<QueueRef>
  {
    if d.QueueDecl? then before + {d.queue} else before
  }

  /** Some declaration before position `i` of `ds` declares queue `q`. */
  ghost predicate DeclaredBefore(ds: seq<Declaration>, i: int, q: QueueRef)
  {
    exists j :: 0 <= j < i && j < |ds| && ds[j].QueueDecl? && ds[j].queue == q
  }

  /** Every binding of `ds` refers to a queue that is in `declared` or is
      declared earlier in `ds`, so the binding reads a name written in the
      same pass. */
  ghost predicate Covered(ds: seq<Declaration>, declared: set<QueueRef>)
  {
    forall i :: 0 <= i < |ds| && ds[i].BindingDecl? ==>
      ds[i].binding.queue in declared || DeclaredBefore(ds, i, ds[i].binding.queue)
  }

  /** The ordering a pass must respect: a binding comes after a declaration
      of its queue. */
  ghost predicate WellOrdered(ds: seq<Declaration>)
  {
    Covered(ds, {})
  }

  lemma CoveredTail(ds: seq<Declaration>, declared: set<QueueRef>)
    requires |ds| > 0 && Covered(ds, declared)
    ensures Covered(ds[1..], Declared(ds[0], declared))
  {
    var tail := ds[1..];
    var next := Declared(ds[0], declared);
    forall i | 0 <= i < |tail| && tail[i].BindingDecl?
      ensures tail[i].binding.queue in next || DeclaredBefore(tail, i, tail[i].binding.queue)
    {
      var q := tail[i].binding.queue;
      assert ds[i + 1] == tail[i];
      if q !in declared {
        var j :| 0 <= j < i + 1 && j < |ds| && ds[j].QueueDecl? && ds[j].queue == q;
        if j > 0 {
          assert tail[j - 1] == ds[j];
        }
      }
    }
  }

  /** Two heaps that differ only in queue names, and agree on the names of
      the queues in `declared`. */
  ghost predicate Agree(a: Store, b: Store, declared: set<QueueRef>)
  {
    SameButNames(a, b) && forall q :: q in declared && q in a.queues ==> a.queues[q].name == b.queues[q].name
  }

  /** One declaration applied to two agreeing heaps, at any trace positions,
      makes the same call, returns the same error, and leaves heaps that
      agree also on the queue it declared; every other queue keeps its
      record in both. */
  lemma ApplyAgree(d: Declaration, a: Store, ta: seq<Call>, b: Store, tb: seq<Call>, o: Oracle, declared: set<QueueRef>)
    requires Resolves(d, a) && Resolves(d, b)
    requires Agree(a, b, declared)
    requires d.BindingDecl? ==> d.binding.queue in declared
    requires Deterministic(o)
    ensures var ra := Apply(d, a, ta, o);
            var rb := Apply(d, b, tb, o);
            && ra.trace[|ta|] == rb.trace[|tb|]
            && ra.err == rb.err
            && Agree(ra.store, rb.store, Declared(d, declared))
            && forall q :: q in a.queues ==>
                 ra.store.queues[q].name == rb.store.queues[q].name
                 || (ra.store.queues[q] == a.queues[q] && rb.store.queues[q] == b.queues[q])
  {
    var ra := Apply(d, a, ta, o);
    var rb := Apply(d, b, tb, o);
    SameCall(d, a, ta, b, tb, o, declared);
    var c := ra.trace[|ta|];
    assert o(|ta|, c) == o(|tb|, c) by {
      assert o(|ta|, c) == o(0, c);
      assert o(|tb|, c) == o(0, c);
    }
    SameButNamesThrough(a, ra.store, b, rb.store);
    forall q | q in a.queues
      ensures ra.store.queues[q].name == rb.store.queues[q].name
              || (ra.store.queues[q] == a.queues[q] && rb.store.queues[q] == b.queues[q])
      ensures q in Declared(d, declared) ==> ra.store.queues[q].name == rb.store.queues[q].name
    {
      if d.QueueDecl? && d.queue == q {
        assert ra.store.queues[q].name == o(|ta|, c).queueName;
      }
    }
  }

  /** The call part of `ApplyAgree`: the declaration reads nothing in which
      the two heaps differ. */
  lemma SameCall(d: Declaration, a: Store, ta: seq<Call>, b: Store, tb: seq<Call>, o: Oracle, declared: set<QueueRef>)
    requires Resolves(d, a) && Resolves(d, b)
    requires Agree(a, b, declared)
    requires d.BindingDecl? ==> d.binding.queue in declared
    ensures Apply(d, a, ta, o).trace[|ta|] == Apply(d, b, tb, o).trace[|tb|]
  {
    match d
    case QueueDecl(q, _) =>
      assert SameSettings(a.queues[q], b.queues[q]);
    case BindingDecl(bd) =>
      assert a.queues[bd.queue].name == b.queues[bd.queue].name;
    case _ =>
  }

  /** A pass over a non-empty list is its first declaration followed, when
      that succeeded, by a pass over the rest from where it left off. */
  lemma PassUnfold(ds: seq<Declaration>, st: Store, trace: seq<Call>, o: Oracle)
    requires |ds| > 0 && AllResolve(ds, st)
    ensures var first := Apply(ds[0], st, trace, o);
            && (first.err.Some? ==> Pass(ds, st, trace, o) == first)
            && (first.err.None? ==>
                  AllResolve(ds[1..], first.store)
                  && Pass(ds, st, trace, o) == Pass(ds[1..], first.store, first.trace, o))
  {
    var first := Apply(ds[0], st, trace, o);
    AllResolveSameButNames(ds[1..], st, first.store);
  }

  /** Each queue either ends with the same name in both heaps or is
      untouched in both, when that holds of each of two consecutive steps. */
  lemma NamesAgreeOrUntouched(a: Store, a1: Store, ra: Store, b: Store, b1: Store, rb: Store)
    requires SameButNames(a, a1) && SameButNames(a, b) && SameButNames(b, b1)
    requires SameButNames(a1, ra) && SameButNames(b1, rb)
    requires forall q :: q in a.queues ==>
               a1.queues[q].name == b1.queues[q].name || (a1.queues[q] == a.queues[q] && b1.queues[q] == b.queues[q])
    requires forall q :: q in a1.queues ==>
               ra.queues[q].name == rb.queues[q].name || (ra.queues[q] == a1.queues[q] && rb.queues[q] == b1.queues[q])
    ensures forall q :: q in a.queues ==>
              ra.queues[q].name == rb.queues[q].name || (ra.queues[q] == a.queues[q] && rb.queues[q] == b.queues[q])
  {
    forall q | q in a.queues
      ensures ra.queues[q].name == rb.queues[q].name || (ra.queues[q] == a.queues[q] && rb.queues[q] == b.queues[q])
    {
      assert q in a1.queues;
    }
  }

  /** The first declaration of a covered list that is a binding refers to a
      queue already declared. */
  lemma CoveredHead(ds: seq<Declaration>, declared: set<QueueRef>)
    requires |ds| > 0 && Covered(ds, declared)
    ensures ds[0].BindingDecl? ==> ds[0].binding.queue in declared
  {
    if ds[0].BindingDecl? {
      assert !DeclaredBefore(ds, 0, ds[0].binding.queue);
    }
  }

  /** A pass over a list whose bindings are covered, run on two agreeing
      heaps against a deterministic declarer, makes the same calls and ends
      with the same error; at the end every queue either has the same name
      in both heaps or was left untouched in both. */
  lemma {:induction false} PassAgree(ds: seq<Declaration>, a: Store, ta: seq<Call>, b: Store, tb: seq<Call>, o: Oracle, declared: set<QueueRef>)
    requires AllResolve(ds, a) && AllResolve(ds, b)
    requires Covered(ds, declared)
    requires Agree(a, b, declared)
    requires Deterministic(o)
    ensures var ra := Pass(ds, a, ta, o);
            var rb := Pass(ds, b, tb, o);
            && ra.trace[|ta|..] == rb.trace[|tb|..]
            && ra.err == rb.err
            && forall q :: q in a.queues ==>
                 ra.store.queues[q].name == rb.store.queues[q].name
                 || (ra.store.queues[q] == a.queues[q] && rb.store.queues[q] == b.queues[q])
    decreases |ds|
  {
    if ds != [] {
      var d := ds[0];
      assert Resolves(d, a) && Resolves(d, b);
      CoveredHead(ds, declared);
      var a1 := Apply(d, a, ta, o);
      var b1 := Apply(d, b, tb, o);
      ApplyAgree(d, a, ta, b, tb, o, declared);
      PassUnfold(ds, a, ta, o);
      PassUnfold(ds, b, tb, o);
      if a1.err.None? {
        var ra := Pass(ds[1..], a1.store, a1.trace, o);
        var rb := Pass(ds[1..], b1.store, b1.trace, o);
        CoveredTail(ds, declared);
        PassAgree(ds[1..], a1.store, a1.trace, b1.store, b1.trace, o, Declared(d, declared));
        TraceAfterStep(ta, a1.trace, ra.trace);
        TraceAfterStep(tb, b1.trace, rb.trace);
        NamesAgreeOrUntouched(a, a1.store, ra.store, b, b1.store, rb.store);
      }
    }
  }

  /** A trace that extends `mid` by one call, itself extended to `full`:
      the part of `full` past `pre` is that call followed by the part past `mid`. */
  lemma TraceAfterStep(pre: seq<Call>, mid: seq<Call>, full: seq<Call>)
    requires |mid| == |pre| + 1 && mid[..|pre|] == pre
    requires |mid| <= |full| && full[..|mid|] == mid
    ensures full[|pre|..] == [mid[|pre|]] + full[|mid|..]
  {
    assert full[|pre|] == mid[|pre|];
  }

  /** Replaying a well-ordered list right after a pass over it, against a
      broker that answers a redeclaration as it answered the first, makes
      exactly the calls of the first pass again, ends with the same error and
      leaves the heap as the first pass left it: the reset of each queue's
      name to the requested one keeps replays from drifting. */
  lemma ReplayStable(ds: seq<Declaration>, st: Store, trace: seq<Call>, o: Oracle)
    requires AllResolve(ds, st)
    requires WellOrdered(ds)
    requires Deterministic(o)
    ensures var first := Pass(ds, st, trace, o);
            AllResolve(ds, first.store)
            && var second := Pass(ds, first.store, first.trace, o);
            && second.trace == first.trace + first.trace[|trace|..]
            && second.err == first.err
            && second.store == first.store
  {
    var first := Pass(ds, st, trace, o);
    AllResolveSameButNames(ds, st, first.store);
    var second := Pass(ds, first.store, first.trace, o);
    PassAgree(ds, st, trace, first.store, first.trace, o, {});
    assert second.trace == first.trace + second.trace[|first.trace|..] by {
      assert second.trace[..|first.trace|] == first.trace;
    }
    SameButNamesThrough(st, first.store, first.store, second.store);
    forall q | q in first.store.queues
      ensures first.store.queues[q].name == second.store.queues[q].name
    {
      assert q in st.queues;
    }
    SameNamesSameStore(first.store, second.store);
  }

  /** The topology of the end-to-end example: a durable "topic" exchange
      "ex", a durable queue requested with the empty name, and a binding of
      the two under the key "rk", declared in that order. */
  function Example(st: Store, qr: QueueRef, er: ExchangeRef): seq<Declaration>
    requires qr in st.queues
  {
    [DeclareExchange(Exchange("ex", "topic", true, false, NilTable)),
     DeclareQueue(st, qr),
     DeclareBinding(Binding(qr, er, "rk", NilTable))]
  }

  /** When the broker accepts the exchange and names the queue "q-1", the
      pass makes exactly the three calls in order, and the binding carries
      the assigned name "q-1". */
  lemma ExampleSucceeds(st: Store, qr: QueueRef, er: ExchangeRef, trace: seq<Call>, o: Oracle)
    requires qr in st.queues && er in st.exchanges
    requires st.exchanges[er].name == "ex"
    requires st.queues[qr] == Queue("", true, false, false, NilTable)
    requires o(|trace|, ExchangeDeclare("ex", "topic", true, false, false, false, NilTable)).err == None
    requires o(|trace| + 1, QueueDeclare("", true, false, false, false, NilTable)) == Reply("q-1", None)
    ensures AllResolve(Example(st, qr, er), st)
    ensures Pass(Example(st, qr, er), st, trace, o).trace
              == trace + [ExchangeDeclare("ex", "topic", true, false, false, false, NilTable),
                          QueueDeclare("", true, false, false, false, NilTable),
                          QueueBind("q-1", "rk", "ex", false, NilTable)]
  {
    var ds := Example(st, qr, er);
    assert AllResolve(ds, st);
    var r1 := Apply(ds[0], st, trace, o);
    PassUnfold(ds, st, trace, o);
    var r2 := Apply(ds[1], r1.store, r1.trace, o);
    PassUnfold(ds[1..], r1.store, r1.trace, o);
    assert r2.store.queues[qr].name == "q-1";
    var r3 := Apply(ds[2], r2.store, r2.trace, o);
    PassUnfold(ds[2..], r2.store, r2.trace, o);
    assert ds[2..][1..] == [];
  }

  /** When the broker rejects the exchange, the pass stops there: one call,
      the broker's error, and the heap untouched. */
  lemma ExampleStopsOnExchangeError(st: Store, qr: QueueRef, er: ExchangeRef, trace: seq<Call>, o: Oracle, e: Error)
    requires qr in st.queues && er in st.exchanges
    requires o(|trace|, ExchangeDeclare("ex", "topic", true, false, false, false, NilTable)).err == Some(e)
    ensures AllResolve(Example(st, qr, er), st)
    ensures var r := Pass(Example(st, qr, er), st, trace, o);
            && r.trace == trace + [ExchangeDeclare("ex", "topic", true, false, false, false, NilTable)]
            && r.err == Some(e)
            && r.store == st
  {
    var ds := Example(st, qr, er);
    assert AllResolve(ds, st);
    PassUnfold(ds, st, trace, o);
  }
}
