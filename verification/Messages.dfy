/** The messages nodes exchange, and which answer each request expects. */
module Messages {
  import opened XorMetric
  import opened Nodes
  import opened Wire

  datatype StoreStatus = Stored | AlreadyStored | Conflict | CapacityExceeded | InvalidRecord

  datatype RpcMessage =
    | Ping(senderId: Id)
    | Pong(senderId: Id)
    | Store(senderId: Id, key: Id, value: Bytes)
    | StoreResult(status: StoreStatus)
    | Update(senderId: Id, key: Id, value: Bytes, signature: Bytes)
    | UpdateResult(ok: bool)
    | UpdateStatusList(senderId: Id, key: Id, value: Bytes)
    | UpdateStatusListResult(ok: bool)
    | FindNode(senderId: Id, key: Id)
    | FindNodeResult(nodes: seq<Node>)
    | FindValue(senderId: Id, key: Id)
    | FindValueNodes(nodes: seq<Node>)
    | FindValueHit(value: Bytes)
    | Leave(senderId: Id)
    | FindHash(senderId: Id, key: Id)
    | FindHashHit(hash: Bytes)
    | Received

  datatype ExpectedResponse =
    | PongExpected
    | StoreResultExpected
    | UpdateResultExpected
    | UpdateStatusListResultExpected
    | FindNodeResultExpected
    | FindValueResultExpected
    | FindHashResultExpected
    | NoResponse

  function ForRequest(m: RpcMessage): (e: ExpectedResponse)
  {
    match m
    case Ping(_) => PongExpected
    case Store(_, _, _) => StoreResultExpected
    case Update(_, _, _, _) => UpdateResultExpected
    case UpdateStatusList(_, _, _) => UpdateStatusListResultExpected
    case FindNode(_, _) => FindNodeResultExpected
    case FindValue(_, _) => FindValueResultExpected
    case FindHash(_, _) => FindHashResultExpected
    case _ => NoResponse
  }

  predicate Accepts(e: ExpectedResponse, m: RpcMessage)
  {
    match e
    case PongExpected => m.Pong?
    case StoreResultExpected => m.StoreResult?
    case UpdateResultExpected => m.UpdateResult?
    case UpdateStatusListResultExpected => m.UpdateStatusListResult?
    case FindNodeResultExpected => m.FindNodeResult?
    case FindValueResultExpected => m.FindValueHit? || m.FindValueNodes?
    case FindHashResultExpected => m.FindHashHit? || m.FindValueNodes?
    case NoResponse => false
  }

  /** Whether the request gets a receipt before its answer. */
  predicate AfterReceipt(e: ExpectedResponse)
  {
    e.StoreResultExpected? || e.UpdateResultExpected? || e.UpdateStatusListResultExpected?
  }

  /** The record a request carries, if any. */
  function CarriedRecord(m: RpcMessage): (record: Option<Bytes>)
  {
    match m
    case Store(_, _, value) => Some(value)
    case Update(_, _, value, _) => Some(value)
    case UpdateStatusList(_, _, value) => Some(value)
    case _ => None
  }

  /** The sender takes a receipt for exactly the requests whose receiver sends
      one, the requests that carry a record; a receipt is never an answer. */
  lemma ReceiptsCoincide(m: RpcMessage)
    ensures AfterReceipt(ForRequest(m)) <==> CarriedRecord(m).Some?
    ensures !Accepts(ForRequest(m), Received)
    ensures forall answer :: Accepts(ForRequest(m), answer) ==> ForRequest(answer).NoResponse?
  {
  }
}
