# Deferred topology declarations (cony `declaration.go`)

This project models the declaration mechanism of the cony AMQP client in
Dafny. A `Declaration` is a replayable callback `func(Declarer) error`: a
connection manager keeps an ordered list of them and, on every
(re)connection, applies them to the new channel so that queues, exchanges,
bindings, confirm mode and notification channels are set up again. Six
factories build the callbacks: `DeclareQueue`, `DeclareExchange`,
`DeclareBinding`, `DeclareConfirm`, `DeclareNotifyPublish` and
`DeclareNotifyReturn`. Each callback makes exactly one call on the narrow
`Declarer` capability.

How the model is built:

- `amqp.dfy` (`Amqp`): the client library's tables, channels and errors as
  opaque tokens that are only ever copied.
- `topology.dfy` (`Topology`): `Queue`, `Exchange` and `Binding` records,
  plus the heap `Store` that maps references to the records they point at.
  A declaration holds either a captured value or a reference. A captured
  value is a field of the declaration. A reference is looked up in the
  store when the declaration is applied.
- `declarer.dfy` (`Declarer`): the capability as a recording test double.
  It keeps a trace of `Call` events. An `Oracle` gives the reply to the
  call at each trace position: the queue name `QueueDeclare` returns, and
  the error.
- `declaration.dfy` (`Declarations`): one `Declaration` constructor per
  factory, the factories themselves, and `Apply(d, store, trace, oracle)`,
  which returns the new store, the new trace and the callback's error.
- `replay.dfy` (`Replay`): applies a list of declarations in order and
  stops at the first error. This is the caller's loop; it is not in
  `declaration.go`. It is here only to state what declarations guarantee
  over a pass and over a replay.

The main result is `Replay.ReplayStable`. Take a list in which every binding
comes after a declaration of its queue, and a broker that answers a
redeclaration the same way it answered the first. Then a second pass makes
exactly the calls of the first pass, returns the same error and leaves the
heap unchanged. This holds because of the reset at `declaration.go:22`: each
application of `DeclareQueue` starts again from the name captured at
construction.

## Model

| member | source | states |
|---|---|---|
| `Declarations.Apply` | declaration.go:5-81 | Every application appends exactly one call to the declarer's trace. Only a queue declaration changes the heap, and only the name of its own queue, which ends as the name the declarer returned. The error is the declarer's for the four declare/bind/confirm operations and nil for the two notifications |
| `Declarations.DeclareQueue` | declaration.go:19-34 | The declaration keeps a reference to the queue and the name the queue has when the factory runs. On every later apply, to any heap, the `QueueDeclare` call carries that captured name, not the current one. Durable, autoDelete, exclusive and args come from the queue's current record, and noWait is false. The queue then holds the returned name even if an error came back, and the result is the declarer's error unchanged |
| `Declarations.QueueDeclEffect` | declaration.go:21-34 | The same apply behaviour for a queue declaration with any captured name: the reset at line 22 followed by the write at line 31 comes to one write of the returned name, and the call carries the captured name with the current settings and noWait false |
| `Declarations.DeclareExchange` | declaration.go:38-49 | On any heap: one `ExchangeDeclare` with the name, kind, durable, autoDelete and args of the exchange copied at construction, and internal=false, noWait=false. The heap is unchanged, including every queue record, and the declarer's error is returned unchanged |
| `Declarations.DeclareBinding` | declaration.go:52-61 | On any heap: one `QueueBind` whose queue and exchange names are read through the binding's references at apply time. Key and args come from the binding, and noWait is false. The heap is unchanged and the declarer's error is returned |
| `Declarations.DeclareConfirm` | declaration.go:63-67 | One `Confirm` call carrying the same noWait flag. The heap is unchanged and the declarer's error is returned |
| `Declarations.DeclareNotifyPublish` | declaration.go:69-74 | One `NotifyPublish` call with the given channel. The heap is unchanged, and the result is nil for every oracle |
| `Declarations.DeclareNotifyReturn` | declaration.go:76-81 | One `NotifyReturn` call with the given channel. The heap is unchanged, and the result is nil for every oracle |
| `Declarations.QueueDeclIgnoresCurrentName` | declaration.go:20-23 | Renaming the queue before applying its declaration changes neither the call, nor the resulting heap, nor the error |
| `Declarations.ReplayIssuesSameCall` | declaration.go:19-81 | For every kind of declaration, applying it again right after a first application makes the same call again. A name assigned by the first application does not leak into the second |
| `Declarations.QueueReplayResetsName` | declaration.go:20-31 | A queue requested as "" is named "q-1234" by the first apply. The second apply still sends "", and the queue ends named "q-5678", as the second reply says |
| `Declarations.BindingSeesAssignedName` | declaration.go:52-60 | A binding applied after its queue's declaration sends the name the declarer assigned to the queue |
| `Declarations.EmptyNameBindsAssigned` | declaration.go:54-56 | A queue requested with the empty name and named "q-1" by the declarer is bound as "q-1" |
| `Topology.SetQueueName` | declaration.go:30-32 | Writing a queue's name changes only that field of that queue. Every other record and every reference in the heap stays the same |
| `Topology.SetQueueNameTwice` | declaration.go:22-31 | Writing a queue's name twice leaves only the second name |
| `Replay.ApplyAgree` | declaration.go:19-60 | Take two heaps that differ only in queue names and agree on the queues already declared. One declaration, against a deterministic broker, makes the same call on both, returns the same error, and afterwards they also agree on the queue it declared |
| `Replay.PassAgree` | declaration.go:19-60 | Take a pass whose bindings all follow a declaration of their queue, run on two such heaps. Both runs make the same calls and return the same error. At the end, each queue either has the same name in both heaps or was left untouched in both |
| `Replay.ReplayStable` | declaration.go:20-22 | Take a list in which every binding follows a declaration of its queue, and a deterministic broker. Replaying the list after a pass makes the same calls, returns the same error and leaves the heap the first pass left |
| `Replay.ExampleSucceeds` | declaration.go:38-60 | The exchange "ex", a queue requested as "" and named "q-1", and a binding under "rk" produce exactly three calls: ExchangeDeclare("ex","topic",true,false,false,false,nil), QueueDeclare("",true,false,false,false,nil), QueueBind("q-1","rk","ex",false,nil) |
| `Replay.ExampleStopsOnExchangeError` | declaration.go:38-48 | If the exchange declaration fails, the pass stops after that single call with the broker's error. No queue or binding call is made and the heap is unchanged |

## Left out

- The mutex `q.l` (declaration.go:30-32) and concurrent readers of `Queue.Name`: locking has no meaning in a sequential model, and only the value the name ends with is modelled. The write at line 22 is not locked in the source, and a concurrent reader could see the reset name for a moment; the model does not cover that.
- The real `*amqp.Channel` and the broker: the `Declarer` is a recording double whose answers come from an oracle. Broker-side idempotency appears only as the `Deterministic` hypothesis of the replay lemmas.
- The contents of `amqp.Table`, `amqp.Confirmation`, `amqp.Return` and Go channel semantics: they are opaque tokens passed through unchanged. The channel returned by `NotifyPublish` and `NotifyReturn` is thrown away by the source and is not modelled.
- Nil pointers: a nil `*Queue` makes `DeclareQueue` panic at construction, and a binding with a nil queue panics when applied. The model requires every reference to point into the heap (`requires q in st.queues`, `Resolves`), because the source does not handle these cases.
- The connection manager's reconnect, retry and back-off loop: it is not part of this model. `Replay.Pass`, the in-order application of one list that stops at the first error (`Replay.PassStopsAtFirstError`), is the caller's loop and is not in `declaration.go`; it is modelled only to state `Replay.ReplayStable` and the end-to-end example.
- Declarations.DeclareBinding: `Binding`'s Go definition is not part of this model, and the model treats both of its links, to the queue and to the exchange, as references read when the binding is applied. No declaration writes an exchange, so this differs from a copied exchange only if the caller edits the exchange between building and applying the binding.
- Fields of `Queue`, `Exchange` and `Binding` that `declaration.go` does not read: their definitions are not part of this model.
