/** The `Declarer` capability, modelled as a recording test double.

    Every invocation is appended to a trace of `Call` events, and the double
    answers from a script (`Oracle`) that gives, for the call at each trace
    position, the name of the returned `amqp.Queue` and the error. Indexing
    the script by position lets two applications of the same declaration
    receive different answers, as two connections to a broker would. */
module Declarer {
  import opened Amqp

  /** One call on the capability, with every argument it was given. */
  datatype Call =
    | QueueDeclare(name: string, durable: bool, autoDelete: bool, exclusive: bool, noWait: bool, args: Table)
    | ExchangeDeclare(name: string, kind: string, durable: bool, autoDelete: bool, internal: bool, noWait: bool, args: Table)
    | QueueBind(name: string, key: string, exchange: string, noWait: bool, args: Table)
    | Confirm(noWait: bool)
    | NotifyPublish(confirm: ConfirmChan)
    | NotifyReturn(rc: ReturnChan)

  /** The double's answer to one call. `queueName` is the `Name` of the
      `amqp.Queue` that `QueueDeclare` returns; `err` is the error the first
      four operations return. `NotifyPublish` and `NotifyReturn` return a
      channel, which declarations discard, so neither field is read for them. */
  datatype Reply = Reply(queueName: string, err: Option<Error>)

  /** The double's script: the reply to the call made at each trace position. */
  type Oracle = (nat, Call) -> Reply

  /** A double whose reply depends on the call only, not on when it is made:
      a broker that answers a redeclaration exactly as it answered the first. */
  ghost predicate Deterministic(o: Oracle)
  {
    forall i: nat, c: Call :: o(i, c) == o(0, c)
  }
}
