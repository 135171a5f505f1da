/**
 * The records of the APM model package that the core reads and writes, reduced to
 * the fields the core touches, and the collaborators it calls but whose code is
 * not part of this model (they are passed in as functions).
 */
module ApmModel {
  import opened Wrappers

  /** The path segment that stands for any segment. */
  const Wildcard: string := "*"

  /** An endpoint with the metadata derived from it; equality that matters is on `endpoint`. */
  datatype EndpointInfo = EndpointInfo(
    endpoint: string,
    endpointType: Option<string>,
    regex: Option<string>,
    uriRegex: Option<string>,
    uriTemplate: Option<string>)

  /** `new EndpointInfo()` followed by `setEndpoint` and `setType`. */
  function NewEndpointInfo(endpoint: string, endpointType: Option<string>): (e: EndpointInfo)
  {
    EndpointInfo(endpoint, endpointType, None, None, None)
  }

  /**
   * Node kinds of a trace. Consumer and Producer are interaction nodes (they carry
   * an in and an out message and an endpoint type); all three contain child nodes.
   */
  datatype NodeKind = Consumer | Producer | Component

  /** A named, typed content value of a message. */
  datatype Content = Content(name: Option<string>, contentType: Option<string>, value: string)

  datatype Message = Message(content: seq<Content>)

  /** `new Message()`. */
  function EmptyMessage(): Message
  {
    Message([])
  }

  /** `Message.addContent(name, type, value)`, taken as an append of one content record. */
  function AddContent(m: Message, name: Option<string>, contentType: Option<string>, value: string): Message
  {
    Message(m.content + [Content(name, contentType, value)])
  }

  datatype Node = Node(
    kind: NodeKind,
    uri: Option<string>,
    operation: Option<string>,
    endpointType: Option<string>,
    fault: Option<string>,
    inMessage: Option<Message>,
    outMessage: Option<Message>,
    nodes: seq<Node>)

  /** `node.interactionNode()`. */
  predicate IsInteraction(n: Node)
  {
    n.kind.Consumer? || n.kind.Producer?
  }

  /** `node instanceof ContainerNode`. */
  predicate IsContainer(n: Node)
  {
    n.kind.Consumer? || n.kind.Producer? || n.kind.Component?
  }

  datatype Property = Property(name: string, value: string)

  datatype PropertyInfo = PropertyInfo(name: string)

  /** A trace fragment; `initialFragment` is the value of `Trace.initialFragment()`. */
  datatype Trace = Trace(
    initialFragment: bool,
    businessTransaction: Option<string>,
    nodes: seq<Node>,
    properties: seq<Property>)

  /** A communication summary node and its outbound edges, keyed by destination. */
  datatype CommunicationSummaryStatistics = CommunicationSummaryStatistics(
    id: string,
    count: int,
    outbound: map<string, ConnectionStatistics>)

  datatype ConnectionStatistics = ConnectionStatistics(
    count: int,
    node: Option<CommunicationSummaryStatistics>)

  datatype Filter = Filter(inclusions: Option<seq<Option<string>>>)

  datatype BusinessTxnConfig = BusinessTxnConfig(filter: Option<Filter>)

  /**
   * The endpoint codec and the `metaURI` test: `encode` is
   * `EndpointUtil.encodeEndpoint(uri, operation)`, `decodeUri` is
   * `EndpointUtil.decodeEndpointURI`, `decodeOperation` is
   * `EndpointUtil.decodeEndpointOperation(s, false)` and `metaUri(e)` is
   * `metaURI()` of an endpoint info whose endpoint is `e`.
   */
  datatype EndpointCodec = EndpointCodec(
    encode: (Option<string>, Option<string>) -> string,
    decodeUri: string -> string,
    decodeOperation: string -> Option<string>,
    metaUri: string -> bool)
}
