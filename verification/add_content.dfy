/**
 * The handler of the AddContent processor action: at initialisation it reports a
 * missing name as an issue; when it processes a node it stores the evaluated value
 * as named content of the node's in or out message.
 */
module AddContent {
  import opened Wrappers
  import opened JavaStrings
  import opened ApmModel

  datatype Direction = In | Out

  /** The one severity this handler reports. */
  datatype Severity = Error

  /** A `ProcessorIssue`: which processor and action, which field, how severe and why. */
  datatype Issue = ProcessorIssue(
    processor: Option<string>,
    action: Option<string>,
    field: string,
    severity: Severity,
    description: string)

  /** The `AddContentAction` configuration: its description, the content name and the content type. */
  datatype AddContentAction = AddContentAction(description: Option<string>, name: Option<string>, contentType: Option<string>)

  const NameMustBeSpecified := "Name must be specified"

  /** A name that is null or only white space. */
  predicate NameMissing(name: Option<string>)
  {
    name.None? || IsBlank(name.value)
  }

  /** The issue `init` reports for a missing name. */
  function MissingNameIssue(processor: Option<string>, action: AddContentAction): Issue
  {
    ProcessorIssue(processor, action.description, "name", Error, NameMustBeSpecified)
  }

  /**
   * The issues after `init`, given the issues `super.init` left: a missing name puts
   * its issue first, creating the list if there was none.
   */
  function InitIssues(issues: Option<seq<Issue>>, processor: Option<string>, action: AddContentAction): (r: Option<seq<Issue>>)
    ensures NameMissing(action.name) ==> r.Some? && |r.value| == |issues.GetOr([])| + 1
    ensures !NameMissing(action.name) ==> r == issues
  {
    if NameMissing(action.name) then Some([MissingNameIssue(processor, action)] + issues.GetOr([]))
    else issues
  }

  /** The node after adding content `name` of type `contentType` to the message of `direction`. */
  function WithContent(node: Node, direction: Direction, name: Option<string>, contentType: Option<string>, value: string): Node
  {
    if direction == In then node.(inMessage := Some(AddContent(node.inMessage.GetOr(EmptyMessage()), name, contentType, value)))
    else node.(outMessage := Some(AddContent(node.outMessage.GetOr(EmptyMessage()), name, contentType, value)))
  }

  class AddContentActionHandler {
    const action: AddContentAction
    var issues: Option<seq<Issue>>

    constructor(action: AddContentAction)
      ensures this.action == action && issues == None
    {
      this.action := action;
      issues := None;
    }

    /**
     * `init(processor)`: `superInit` stands for what `super.init` does to the issues;
     * then a missing name is reported first.
     */
    method Init(processor: Option<string>, superInit: Option<seq<Issue>> -> Option<seq<Issue>>)
      modifies this
      ensures issues == InitIssues(superInit(old(issues)), processor, action)
    {
      issues := superInit(issues);
      if action.name.None? || |Trim(action.name.value)| == 0 {
        var pi := ProcessorIssue(processor, action.description, "name", Error, NameMustBeSpecified);
        if issues.None? {
          issues := Some([]);
        }
        issues := Some([pi] + issues.value);
      }
    }

    /**
     * `process(trace, node, direction, headers, values)`: `superProcessed` is what
     * `super.process` answered and `value` what `getValue` evaluated. Returns whether
     * content was added, and the node afterwards.
     */
    method Process(node: Node, direction: Direction, superProcessed: bool, value: Option<string>)
      returns (handled: bool, node': Node)
      ensures handled <==> superProcessed && value.Some? && IsInteraction(node)
      ensures handled ==> node' == WithContent(node, direction, action.name, action.contentType, value.value)
      ensures !handled ==> node' == node
    {
      node' := node;
      if superProcessed {
        if value.Some? {
          if IsInteraction(node) {
            if direction == In {
              if node'.inMessage.None? {
                node' := node'.(inMessage := Some(EmptyMessage()));
              }
              node' := node'.(inMessage := Some(AddContent(node'.inMessage.value, action.name, action.contentType, value.value)));
            } else {
              if node'.outMessage.None? {
                node' := node'.(outMessage := Some(EmptyMessage()));
              }
              node' := node'.(outMessage := Some(AddContent(node'.outMessage.value, action.name, action.contentType, value.value)));
            }
            return true, node';
          }
        }
      }
      return false, node';
    }
  }

  /** A missing name is reported first and the earlier issues follow in order; a present name reports nothing. */
  lemma InitIssuesReports(issues: Option<seq<Issue>>, processor: Option<string>, action: AddContentAction)
    ensures var r := InitIssues(issues, processor, action);
      (NameMissing(action.name) <==>
        (r.Some? && |r.value| > 0 && r.value[0] == MissingNameIssue(processor, action) &&
         |r.value| == |issues.GetOr([])| + 1)) &&
      (r.Some? && |r.value| == |issues.GetOr([])| + 1 ==> r.value[1..] == issues.GetOr([]))
  {
  }

  /**
   * Adding content appends it to the message of the direction, creating that message
   * if needed; the content already there, the other message and the rest of the node
   * stay as they were.
   */
  lemma WithContentAppends(node: Node, direction: Direction, name: Option<string>, contentType: Option<string>, value: string)
    ensures var r := WithContent(node, direction, name, contentType, value);
      var before := if direction == In then node.inMessage else node.outMessage;
      var after := if direction == In then r.inMessage else r.outMessage;
      after.Some? && after.value.content == (if before.Some? then before.value.content else []) + [Content(name, contentType, value)] &&
      (if direction == In then r.outMessage == node.outMessage else r.inMessage == node.inMessage) &&
      r.kind == node.kind && r.uri == node.uri && r.operation == node.operation &&
      r.endpointType == node.endpointType && r.fault == node.fault && r.nodes == node.nodes
  {
  }
}
