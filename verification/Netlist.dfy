/**
  The netlist graph: nodes with their payload, labelled directed edges, and the
  out-edge and in-edge list of every node (include/netlist/NetlistNode.hpp,
  include/netlist/NetlistEdge.hpp, include/netlist/DirectedGraph.hpp). A node
  is named by its position in the graph's node list; its ID is a separate field.
  */
module Netlist {
  import opened Wrappers
  import opened BitRanges

  type Node = nat

  datatype NodeKind = NoKind | Port | Variable | Assignment | Conditional | Case | Merge | State | Constant

  datatype EdgeKind = NoEdge | PosEdge | NegEdge | BothEdges

  datatype Role = Data | Control | Index | Address | Event | Clock | Reset | PortConnection | UnknownRole

  datatype Precision = Exact | Range | Signal | UnknownPrecision

  datatype Direction = In | Out | InOut | Ref

  /** A source position without the transient slang location, which is never saved. */
  datatype TextLocation = TextLocation(fileIndex: nat, line: nat, column: nat)

  datatype SymbolReference = SymbolReference(name: string, path: string, location: TextLocation)

  /** What a node carries beyond its ID. A constant is kept as its text. */
  datatype Payload =
    | NoPayload
    | PortData(name: string, path: string, location: TextLocation, direction: Direction, bounds: BitRange)
    | VariableData(name: string, path: string, location: TextLocation, bounds: BitRange)
    | StateData(name: string, path: string, location: TextLocation, bounds: BitRange)
    | AssignmentData(location: TextLocation)
    | ConditionalData(location: TextLocation)
    | CaseData(location: TextLocation)
    | MergeData
    | ConstantData(text: string, width: nat, location: TextLocation)
  {
    function Kind(): NodeKind {
      match this
      case NoPayload => NoKind
      case PortData(_, _, _, _, _) => Port
      case VariableData(_, _, _, _) => Variable
      case StateData(_, _, _, _) => State
      case AssignmentData(_) => Assignment
      case ConditionalData(_) => Conditional
      case CaseData(_) => Case
      case MergeData => Merge
      case ConstantData(_, _, _) => Constant
    }

    /** The bit range a node stands for, when it has one. */
    function Bounds(): Option<BitRange> {
      match this
      case PortData(_, _, _, _, r) => Some(r)
      case VariableData(_, _, _, r) => Some(r)
      case StateData(_, _, _, r) => Some(r)
      case _ => None
    }
  }

  datatype NetlistNode = NetlistNode(id: nat, payload: Payload)

  datatype EdgeLabel = EdgeLabel(
    edgeKind: EdgeKind,
    role: Role,
    precision: Precision,
    symbol: Option<SymbolReference>,
    bounds: BitRange,
    disabled: bool)

  datatype Edge = Edge(source: Node, target: Node, note: EdgeLabel)

  datatype Graph = Graph(nodes: seq<NetlistNode>, outEdges: seq<seq<Edge>>, inEdges: seq<seq<Edge>>) {
    predicate HasNode(n: Node) {
      n < |nodes|
    }

    function Kind(n: Node): NodeKind
      requires HasNode(n)
    {
      nodes[n].payload.Kind()
    }

    function AllNodes(): (r: set<Node>)
      ensures forall n: Node :: n in r <==> HasNode(n)
    {
      set n: Node | n < |nodes| && HasNode(n)
    }

    predicate Shaped() {
      |outEdges| == |nodes| == |inEdges|
    }

    /** Each out-edge list belongs to its source, each in-edge list to its target, and they agree. */
    ghost predicate Valid() {
      && Shaped()
      && (forall u: Node, e :: HasNode(u) && e in outEdges[u] ==> e.source == u && HasNode(e.target) && e in inEdges[e.target])
      && (forall v: Node, e :: HasNode(v) && e in inEdges[v] ==> e.target == v && HasNode(e.source) && e in outEdges[e.source])
    }

    /** Node IDs come from one global counter, so they differ. */
    ghost predicate DistinctIds() {
      forall u, v :: 0 <= u < v < |nodes| ==> nodes[u].id != nodes[v].id
    }
  }

  /** An edge that is neither disabled nor an input of a State node (CombEdgePredicate, CombFanPredicate). */
  predicate EntersComb(g: Graph, e: Edge) {
    !e.note.disabled && (g.HasNode(e.target) ==> g.Kind(e.target) != State)
  }

  /** An edge that is neither disabled nor an output of a State node (CombFanBackwardPredicate). */
  predicate LeavesComb(g: Graph, e: Edge) {
    !e.note.disabled && (g.HasNode(e.source) ==> g.Kind(e.source) != State)
  }
}
