/**
 * Iteration control for the handlers the store calls back: `Flow`, the conversions
 * into it, and the closure adaptors behind `ReadHandler` and `WriteHandler`.
 */
module Handler {
  import opened LinkIndex

  /** `Flow`: go on iterating, or stop. */
  datatype Flow = Continue | Break

  /** `Flow::from(bool)`: true continues, false stops. */
  function FromBool(value: bool): (r: Flow)
    ensures r == Continue <==> value
    ensures r == Break <==> !value
  {
    if value then Continue else Break
  }

  /**
   * What a handler closure may return: a `Flow` itself or a `bool` (the two
   * `IntoFlow` implementations).
   */
  datatype Returned = FlowValue(flow: Flow) | BoolValue(b: bool)

  /** `IntoFlow::into_flow`: a flow is kept as it is; a bool goes through `Flow::from`. */
  function IntoFlow(r: Returned): (f: Flow)
    ensures r.FlowValue? ==> f == r.flow
    ensures r.BoolValue? ==> f == FromBool(r.b)
  {
    match r
    case FlowValue(flow) => flow
    case BoolValue(b) => FromBool(b)
  }

  /** Converting a flow into a flow and back through a bool changes nothing. */
  lemma IntoFlowIdempotent(f: Flow)
    ensures IntoFlow(FlowValue(IntoFlow(FlowValue(f)))) == f
    ensures IntoFlow(BoolValue(f == Continue)) == f
  {
  }

  /** `ReadHandler::handle` of a closure: the closure's result turned into a flow. */
  function ReadHandle<T>(handler: Link<T> -> Returned, link: Link<T>): (f: Flow)
    ensures f == Continue <==> handler(link) == FlowValue(Continue) || handler(link) == BoolValue(true)
  {
    IntoFlow(handler(link))
  }

  /** `WriteHandler::handle` of a closure: the closure's result turned into a flow. */
  function WriteHandle<T>(handler: (Link<T>, Link<T>) -> Returned, before: Link<T>, after: Link<T>): (f: Flow)
    ensures f == Continue <==> handler(before, after) == FlowValue(Continue) || handler(before, after) == BoolValue(true)
  {
    IntoFlow(handler(before, after))
  }
}
