/** The signaling envelope (main.ts:3-8): the shape the relay documents for
    the frames it forwards. The relay itself never inspects it. */
module Signal {
  import opened Wrappers

  /** The four values of the envelope's `type` field. */
  datatype MessageType = Offer | Answer | Candidate | Join

  /** `{ type, data?, from?, to? }`: `data` is an opaque payload of type `D`;
      the three optional fields are `None` when absent. */
  datatype SignalMessage<D> = SignalMessage(
    kind: MessageType,
    data: Option<D>,
    from: Option<string>,
    to: Option<string>)

  /** The string literal a message type is written as on the wire. */
  function TypeTag(t: MessageType): string
  {
    match t
    case Offer => "offer"
    case Answer => "answer"
    case Candidate => "candidate"
    case Join => "join"
  }

  /** Reads a `type` field back; any other string is not a message type. */
  function ParseTypeTag(tag: string): (r: Option<MessageType>)
    ensures forall t :: r == Some(t) <==> TypeTag(t) == tag
  {
    if tag == "offer" then Some(Offer)
    else if tag == "answer" then Some(Answer)
    else if tag == "candidate" then Some(Candidate)
    else if tag == "join" then Some(Join)
    else None
  }
}
