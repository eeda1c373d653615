/** Messages kept in the log, and the choice of the view component that displays one. */
module Messages {

  /** Absent or present value; stands in for `undefined` / `null` in the service. */
  datatype Option<+T> = None | Some(value: T)

  /** The three fields of a JavaScript `Error` the service copies; `stack` may be undefined. */
  datatype ErrorValue = ErrorValue(name: string, message: string, stack: Option<string>)

  /** The payload of an informational message is opaque to the service. */
  type Payload = string

  /** A log entry: the closed union of the two message kinds. */
  datatype Message =
    | Error(name: string, message: string, stack: Option<string>)
    | Info(payload: Payload)

  /** The `type` discriminator string carried by a message object. */
  function TypeTag(m: Message): string
  {
    match m
    case Error(_, _, _) => "error"
    case Info(_) => "info"
  }

  /** The error entry built from an `Error` value: its name, message and stack, tagged "error". */
  function ErrorEntry(e: ErrorValue): Message
  {
    Error(e.name, e.message, e.stack)
  }

  /** The view components an overlay can host. */
  datatype Component = ErrorView | InfoView

  /**
   * The `switch` on the type string: "error" and "info" select a component,
   * every other string falls to the throwing default, here `None`.
   */
  function ComponentFor(tag: string): Option<Component>
  {
    if tag == "error" then Some(ErrorView)
    else if tag == "info" then Some(InfoView)
    else None
  }

  /**
   * The component attached for a message. Over the closed union the
   * throwing default of the switch is never reached.
   */
  function AttachComponent(m: Message): (c: Component)
    ensures c == ErrorView <==> m.Error?
    ensures c == InfoView <==> m.Info?
  {
    match ComponentFor(TypeTag(m))
    case Some(c) => c
    case None => assert false; ErrorView
  }
}
