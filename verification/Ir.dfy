/** The intermediate representation of a diagram and its referential checks. */
module Ir {
  import opened OrderedMaps

  datatype EdgeMode = Sync | Async | Data | Dependency

  datatype EdgeDirection = Oneway | Bidirectional

  datatype ContainerKind = Vpc | Zone | BoundedContext | Swimlane | TrustBoundary | Group

  datatype IrNode = IrNode(id: string, labelText: string, componentKey: Option<string>,
                           semantics: Option<map<string, string>>)

  datatype IrContainer = IrContainer(id: string, labelText: string, kind: ContainerKind, children: seq<string>)

  datatype IrEdge = IrEdge(from: string, to: string, mode: EdgeMode, protocol: Option<string>,
                           direction: EdgeDirection, labelText: Option<string>)

  datatype IrDocument = IrDocument(nodes: seq<IrNode>, containers: seq<IrContainer>, edges: seq<IrEdge>)

  /** Where a reference dangles. */
  datatype Issue = UnknownFrom(edge: nat) | UnknownTo(edge: nat) | UnknownChild(container: nat, child: nat)

  function NodeIds(doc: IrDocument): set<string> {
    set i | 0 <= i < |doc.nodes| :: doc.nodes[i].id
  }

  function ContainerIds(doc: IrDocument): set<string> {
    set i | 0 <= i < |doc.containers| :: doc.containers[i].id
  }

  /** The references of the document that resolve to nothing. */
  ghost predicate Dangles(doc: IrDocument, issue: Issue) {
    match issue
    case UnknownFrom(i) => i < |doc.edges| && doc.edges[i].from !in NodeIds(doc)
    case UnknownTo(i) => i < |doc.edges| && doc.edges[i].to !in NodeIds(doc)
    case UnknownChild(i, k) =>
      i < |doc.containers| && k < |doc.containers[i].children|
      && doc.containers[i].children[k] !in NodeIds(doc) + ContainerIds(doc)
  }

  predicate InEdges(issue: Issue, count: nat) {
    match issue
    case UnknownFrom(i) => i < count
    case UnknownTo(i) => i < count
    case UnknownChild(_, _) => false
  }

  predicate InChildren(issue: Issue, container: nat, child: nat) {
    issue.UnknownChild? && (issue.container < container || (issue.container == container && issue.child < child))
  }

  /** Edges come before children, both in document order, an edge's source before its target. */
  predicate Before(a: Issue, b: Issue) {
    match (a, b)
    case (UnknownChild(c, k), UnknownChild(d, m)) => c < d || (c == d && k < m)
    case (UnknownChild(_, _), _) => false
    case (_, UnknownChild(_, _)) => true
    case (UnknownFrom(i), UnknownTo(j)) => i <= j
    case _ => a.edge < b.edge
  }

  /** In order, so that nothing is reported twice. */
  predicate Ordered(issues: seq<Issue>) {
    forall p, q :: 0 <= p < q < |issues| ==> Before(issues[p], issues[q])
  }

  lemma OneMore(issues: seq<Issue>, last: Issue)
    requires Ordered(issues) && forall issue :: issue in issues ==> Before(issue, last)
    ensures Ordered(issues + [last])
  {
    forall p | 0 <= p < |issues|
      ensures Before(issues[p], last)
    {
      assert issues[p] in issues;
    }
  }

  /** Reports exactly the dangling references, each once, in document order. */
  method CheckReferentialIntegrity(doc: IrDocument) returns (issues: seq<Issue>)
    ensures forall issue :: issue in issues <==> Dangles(doc, issue)
    ensures Ordered(issues)
  {
    issues := [];
    var nodeIds, containerIds := NodeIds(doc), ContainerIds(doc);
    var knownIds := nodeIds + containerIds;
    for index := 0 to |doc.edges|
      invariant forall issue :: issue in issues <==> Dangles(doc, issue) && InEdges(issue, index)
      invariant Ordered(issues)
    {
      if doc.edges[index].from !in nodeIds {
        OneMore(issues, UnknownFrom(index));
        issues := issues + [UnknownFrom(index)];
      }
      if doc.edges[index].to !in nodeIds {
        OneMore(issues, UnknownTo(index));
        issues := issues + [UnknownTo(index)];
      }
    }
    for containerIndex := 0 to |doc.containers|
      invariant forall issue :: issue in issues <==>
                  Dangles(doc, issue) && (InEdges(issue, |doc.edges|) || InChildren(issue, containerIndex, 0))
      invariant Ordered(issues)
    {
      var children := doc.containers[containerIndex].children;
      for childIndex := 0 to |children|
        invariant forall issue :: issue in issues <==>
                    Dangles(doc, issue) && (InEdges(issue, |doc.edges|)
                      || InChildren(issue, containerIndex, childIndex))
        invariant Ordered(issues)
      {
        if children[childIndex] !in knownIds {
          OneMore(issues, UnknownChild(containerIndex, childIndex));
          issues := issues + [UnknownChild(containerIndex, childIndex)];
        }
      }
    }
  }

  /** Every reference of the document resolves. */
  ghost predicate Sound(doc: IrDocument) {
    forall issue :: !Dangles(doc, issue)
  }

  ghost predicate IsChild(doc: IrDocument, parent: string, child: string) {
    exists k :: 0 <= k < |doc.containers| && doc.containers[k].id == parent && child in doc.containers[k].children
  }
}
