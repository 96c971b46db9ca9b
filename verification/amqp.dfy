/** Values of the AMQP client library that declarations forward without
    looking inside them. Each is an opaque token: the model only ever copies
    them from an entity or a factory argument into a declarer call. */
module Amqp {

  /** An `amqp.Table` of optional arguments; `NilTable` is Go's `nil` table. */
  datatype Table = NilTable | Table(token: nat)

  /** A `chan amqp.Confirmation` handed to `NotifyPublish`. */
  datatype ConfirmChan = ConfirmChan(token: nat)

  /** A `chan amqp.Return` handed to `NotifyReturn`. */
  datatype ReturnChan = ReturnChan(token: nat)

  /** A non-nil Go `error` produced by the declarer. */
  datatype Error = Error(token: nat)

  /** An optional value. `Option<Error>` stands for a Go `error`, with
      `None` for `nil`. */
  datatype Option<+T> = None | Some(value: T)
}
