/**
 Serialization of a symbolic graph to IR layers, ports, edges and one weights buffer, and the decoding that
 gives the graph back.
 */
module Ir {
  import opened Wrappers
  import opened Bytes
  import opened Graph
  import opened Targets

  /** A tensor is one output of the node that produces it. */
  datatype Ref = Ref(producer: NodeId, output: nat)

  /** `carrier` belongs to custom nodes, `constant` to constants. */
  datatype Operation = Operation(
    op: string, inputs: seq<Ref>, outputs: seq<Spec>, carrier: Option<string>, constant: Option<seq<Byte>>)

  /** The nodes in topological order, the graph outputs, and carriers chosen in place of the nodes' own. */
  datatype Model = Model(
    order: seq<NodeId>, table: map<NodeId, Operation>, outputs: seq<Ref>, overrides: map<NodeId, string>)

  datatype Port = Port(id: nat, spec: Spec)
  datatype Data = NoData | ParameterData(spec: Spec) | ConstData(spec: Spec, offset: nat, size: nat)
  datatype Layer = Layer(
    id: nat, kind: string, version: string, data: Data, exact: bool, inputs: seq<Port>, outputs: seq<Port>)
  datatype Edge = Edge(fromLayer: nat, fromPort: nat, toLayer: nat, toPort: nat)
  datatype Document = Document(layers: seq<Layer>, edges: seq<Edge>, weights: seq<Byte>, customs: seq<NodeId>)

  ghost function ProducersOf(m: Model): Producers {
    map n | n in m.table
      :: seq(|m.table[n].inputs|, i requires 0 <= i < |m.table[n].inputs| => m.table[n].inputs[i].producer)
  }

  predicate ValidRef(m: Model, r: Ref) {
    r.producer in m.table && r.output < |m.table[r.producer].outputs|
  }

  /** The order is topological, and every tensor is an existing output; parameters and constants have one. */
  ghost predicate WellFormed(m: Model) {
    && Ordered(ProducersOf(m), m.order)
    && (forall n, i :: n in m.table && 0 <= i < |m.table[n].inputs| ==> ValidRef(m, m.table[n].inputs[i]))
    && (forall j :: 0 <= j < |m.outputs| ==> ValidRef(m, m.outputs[j]) && m.outputs[j].producer in m.order)
    && (forall n :: n in m.table ==> m.table[n].outputs != [])
  }

  function Carrier(m: Model, n: NodeId): Option<string>
    requires n in m.table
  {
    if n in m.overrides then Some(m.overrides[n]) else m.table[n].carrier
  }

  /** What serialization refuses: overrides of other nodes, missing carriers and missing constant values. */
  ghost predicate Serializable(m: Model) {
    && (forall n :: n in m.overrides ==> ProperOverride(m, n))
    && (forall k :: 0 <= k < |m.order| ==> HasParts(m, m.order[k]))
  }

  /** An override names a custom node of the graph and gives it an operator name. */
  predicate ProperOverride(m: Model, n: NodeId)
    requires n in m.overrides
  {
    n in m.order && n in m.table && m.table[n].op == "Custom" && OperatorName(m.overrides[n])
  }

  predicate OperatorName(name: string) {
    name != "" && forall i :: 0 <= i < |name| ==> !IsSpace(name[i])
  }

  /** The characters Python counts as white space. */
  predicate IsSpace(c: char) {
    || '\U{9}' <= c <= '\U{d}' || '\U{1c}' <= c <= ' ' || c == '\U{85}' || c == '\U{a0}' || c == '\U{1680}'
    || '\U{2000}' <= c <= '\U{200a}' || c == '\U{2028}' || c == '\U{2029}' || c == '\U{202f}' || c == '\U{205f}'
    || c == '\U{3000}'
  }

  predicate HasParts(m: Model, n: NodeId) {
    && n in m.table && (m.table[n].op == "Custom" ==> Carrier(m, n).Some?)
    && (m.table[n].op == "Const" ==> m.table[n].constant.Some?)
  }

  function SpecOf(m: Model, r: Ref): Spec
    requires ValidRef(m, r)
  {
    m.table[r.producer].outputs[r.output]
  }

  function VersionOf(kind: string): string {
    if kind == "Slice" then "opset8" else "opset1"
  }

  function KindOf(m: Model, n: NodeId): string
    requires n in m.table
  {
    if m.table[n].op == "Custom" && Carrier(m, n).Some? then Carrier(m, n).value else m.table[n].op
  }

  /** The bytes a node adds to the weights. */
  function Raw(m: Model, n: NodeId): seq<Byte> {
    if n in m.table && m.table[n].op == "Const" && m.table[n].constant.Some? then m.table[n].constant.value else []
  }

  ghost function Weights(m: Model, k: nat): seq<Byte>
    requires k <= |m.order|
  {
    if k == 0 then [] else Weights(m, k - 1) + Raw(m, m.order[k - 1])
  }

  function InputPorts(m: Model, node: Operation): seq<Port>
    requires forall i :: 0 <= i < |node.inputs| ==> ValidRef(m, node.inputs[i])
  {
    seq(|node.inputs|, i requires 0 <= i < |node.inputs| => Port(i, SpecOf(m, node.inputs[i])))
  }

  function OutputPorts(node: Operation): seq<Port> {
    seq(|node.outputs|, i requires 0 <= i < |node.outputs| => Port(|node.inputs| + i, node.outputs[i]))
  }

  function DataOf(node: Operation, offset: nat, size: nat): Data
    requires node.outputs != []
  {
    if node.op == "Parameter" then ParameterData(node.outputs[0])
    else if node.op == "Const" then ConstData(node.outputs[0], offset, size)
    else NoData
  }

  predicate KeepsF32(node: Operation) {
    node.op == "Custom" && exists i :: 0 <= i < |node.outputs| && node.outputs[i].dtype == F32
  }

  ghost function LayerOf(m: Model, k: nat): Layer
    requires WellFormed(m) && k < |m.order|
  {
    var n := m.order[k];
    Layer(k, KindOf(m, n), VersionOf(KindOf(m, n)), DataOf(m.table[n], |Weights(m, k)|, |Raw(m, n)|),
          KeepsF32(m.table[n]), InputPorts(m, m.table[n]), OutputPorts(m.table[n]))
  }

  ghost function ResultOf(m: Model, j: nat): Layer
    requires WellFormed(m) && j < |m.outputs|
  {
    Layer(|m.order| + j, "Result", "opset1", NoData, false, [Port(0, SpecOf(m, m.outputs[j]))], [])
  }

  /** The edge that carries tensor `r` to a port. */
  ghost function EdgeTo(m: Model, r: Ref, layer: nat, port: nat): Edge
    requires ValidRef(m, r) && r.producer in m.order
  {
    Edge(Rank(m.order, r.producer), |m.table[r.producer].inputs| + r.output, layer, port)
  }

  lemma InputsProduced(m: Model, k: nat, i: nat)
    requires WellFormed(m) && k < |m.order| && i < |m.table[m.order[k]].inputs|
    ensures
      var r := m.table[m.order[k]].inputs[i];
      ValidRef(m, r) && r.producer in m.order && Rank(m.order, r.producer) < k
  {
    var n := m.order[k];
    var r := m.table[n].inputs[i];
    assert ProducersOf(m)[n][i] == r.producer;
    assert r.producer in m.order[..k];
    var j :| 0 <= j < k && m.order[j] == r.producer;
    assert m.order[Rank(m.order, r.producer)] == m.order[j];
  }

  ghost function NodeEdges(m: Model, k: nat, count: nat): seq<Edge>
    requires WellFormed(m) && k < |m.order| && count <= |m.table[m.order[k]].inputs|
  {
    if count == 0 then []
    else
      InputsProduced(m, k, count - 1);
      NodeEdges(m, k, count - 1) + [EdgeTo(m, m.table[m.order[k]].inputs[count - 1], k, count - 1)]
  }

  ghost function InnerEdges(m: Model, k: nat): seq<Edge>
    requires WellFormed(m) && k <= |m.order|
  {
    if k == 0 then [] else InnerEdges(m, k - 1) + NodeEdges(m, k - 1, |m.table[m.order[k - 1]].inputs|)
  }

  ghost function OutputEdges(m: Model, j: nat): seq<Edge>
    requires WellFormed(m) && j <= |m.outputs|
  {
    if j == 0 then [] else OutputEdges(m, j - 1) + [EdgeTo(m, m.outputs[j - 1], |m.order| + j - 1, 0)]
  }

  ghost function CustomsOf(m: Model, k: nat): seq<NodeId>
    requires k <= |m.order|
  {
    if k == 0 then []
    else CustomsOf(m, k - 1) + if m.order[k - 1] in m.table && m.table[m.order[k - 1]].op == "Custom" then
      [m.order[k - 1]]
      else []
  }

  ghost function DocumentOf(m: Model): Document
    requires WellFormed(m)
  {
    Document(
      seq(|m.order|, k requires 0 <= k < |m.order| => LayerOf(m, k))
        + seq(|m.outputs|, j requires 0 <= j < |m.outputs| => ResultOf(m, j)),
      InnerEdges(m, |m.order|) + OutputEdges(m, |m.outputs|),
      Weights(m, |m.order|),
      CustomsOf(m, |m.order|))
  }

  // ---------------------------------------------------------------------------------------------
  // The serializer.

  /** Produces the document, or refuses exactly the models that are not serializable. */
  method SerializeIr(m: Model) returns (result: Option<Document>)
    requires WellFormed(m)
    ensures result == if Serializable(m) then Some(DocumentOf(m)) else None
  {
    hide WellFormed, InnerEdges, OutputEdges, ResultOf, LayerOf, HasParts, ProperOverride;
    var ok := CheckOverrides(m);
    if !ok {
      return None;
    }
    var layers, weights, customs;
    ok, layers, weights, customs := NodeLayers(m);
    if !ok {
      return None;
    }
    var results := ResultLayers(m);
    var edges := AllEdges(m);
    result := Some(Document(layers + results, edges, weights, customs));
  }

  method CheckOverrides(m: Model) returns (ok: bool)
    ensures ok <==> forall n :: n in m.overrides ==> ProperOverride(m, n)
  {
    var pending := m.overrides.Keys;
    while pending != {}
      invariant pending <= m.overrides.Keys
      invariant forall n :: n in m.overrides && n !in pending ==> ProperOverride(m, n)
    {
      var n :| n in pending;
      if !ProperOverride(m, n) {
        return false;
      }
      pending := pending - {n};
    }
    ok := true;
  }

  lemma AllNodes(m: Model)
    requires WellFormed(m)
    ensures forall k :: 0 <= k < |m.order| ==> m.order[k] in m.table
  {
  }

  /** What the later loops need to know about one node. */
  lemma NodeFacts(m: Model, k: nat)
    requires WellFormed(m) && k < |m.order|
    ensures m.order[k] in m.table && m.table[m.order[k]].outputs != []
    ensures forall i :: 0 <= i < |m.table[m.order[k]].inputs| ==> ValidRef(m, m.table[m.order[k]].inputs[i])
  {
  }

  method NodeLayer(m: Model, k: nat, offset: nat) returns (layer: Layer, raw: seq<Byte>)
    requires WellFormed(m) && k < |m.order| && HasParts(m, m.order[k])
    requires offset == |Weights(m, k)|
    ensures layer == LayerOf(m, k) && raw == Raw(m, m.order[k])
  {
    NodeFacts(m, k);
    hide WellFormed, InputPorts, OutputPorts, Weights, ValidRef, KeepsF32;
    var n := m.order[k];
    var node := m.table[n];
    var kind := node.op;
    if node.op == "Custom" {
      kind := Carrier(m, n).value;
    }
    raw := [];
    if node.op == "Const" {
      raw := node.constant.value;
    }
    layer := Layer(k, kind, VersionOf(kind), DataOf(node, offset, |raw|), KeepsF32(node), InputPorts(m, node),
      OutputPorts(node));
  }

  method NodeLayers(m: Model) returns (ok: bool, layers: seq<Layer>, weights: seq<Byte>, customs: seq<NodeId>)
    requires WellFormed(m)
    ensures ok <==> forall k :: 0 <= k < |m.order| ==> HasParts(m, m.order[k])
    ensures ok ==> layers == seq(|m.order|, k requires 0 <= k < |m.order| => LayerOf(m, k))
    ensures ok ==> weights == Weights(m, |m.order|) && customs == CustomsOf(m, |m.order|)
  {
    hide WellFormed, LayerOf, Raw, HasParts;
    forall k | 0 <= k < |m.order| ensures m.order[k] in m.table {
      NodeFacts(m, k);
    }
    layers, weights, customs := [], [], [];
    for k := 0 to |m.order|
      invariant forall i :: 0 <= i < k ==> HasParts(m, m.order[i])
      invariant |layers| == k && forall i :: 0 <= i < k ==> layers[i] == LayerOf(m, i)
      invariant weights == Weights(m, k) && customs == CustomsOf(m, k)
    {
      if !HasParts(m, m.order[k]) {
        ok := false;
        return;
      }
      var layer, raw := NodeLayer(m, k, |weights|);
      if m.table[m.order[k]].op == "Custom" {
        customs := customs + [m.order[k]];
      }
      weights := weights + raw;
      layers := layers + [layer];
    }
    ok := true;
  }

  method ResultLayers(m: Model) returns (layers: seq<Layer>)
    requires WellFormed(m)
    ensures layers == seq(|m.outputs|, j requires 0 <= j < |m.outputs| => ResultOf(m, j))
  {
    layers := [];
    for j := 0 to |m.outputs|
      invariant |layers| == j && forall i :: 0 <= i < j ==> layers[i] == ResultOf(m, i)
    {
      layers := layers
        + [Layer(|m.order| + j, "Result", "opset1", NoData, false, [Port(0, SpecOf(m, m.outputs[j]))], [])];
    }
  }

  method NodeIds(m: Model) returns (ids: map<NodeId, nat>)
    requires WellFormed(m)
    ensures ids.Keys == (set n | n in m.order) && forall n :: n in m.order ==> ids[n] == Rank(m.order, n)
  {
    ids := map[];
    for k := 0 to |m.order|
      invariant forall n :: n in ids <==> n in m.order[..k]
      invariant forall n :: n in ids ==> n in m.order && ids[n] == Rank(m.order, n)
    {
      var n := m.order[k];
      assert m.order[Rank(m.order, n)] == m.order[k];
      assert m.order[..k + 1] == m.order[..k] + [n];
      ids := ids[n := k];
    }
    assert m.order[..|m.order|] == m.order;
  }

  method EdgesInto(m: Model, ids: map<NodeId, nat>, k: nat) returns (edges: seq<Edge>)
    requires WellFormed(m) && k < |m.order|
    requires forall n :: n in m.order ==> n in ids && ids[n] == Rank(m.order, n)
    ensures edges == NodeEdges(m, k, |m.table[m.order[k]].inputs|)
  {
    hide WellFormed, ValidRef;
    NodeFacts(m, k);
    var inputs := m.table[m.order[k]].inputs;
    edges := [];
    for i := 0 to |inputs|
      invariant edges == NodeEdges(m, k, i)
    {
      InputsProduced(m, k, i);
      var r := inputs[i];
      assert r.producer in m.table by { RefIsNode(m, r); }
      edges := edges + [Edge(ids[r.producer], |m.table[r.producer].inputs| + r.output, k, i)];
    }
  }

  lemma RefIsNode(m: Model, r: Ref)
    requires ValidRef(m, r)
    ensures r.producer in m.table
  {
  }

  lemma OutputFacts(m: Model, j: nat)
    requires WellFormed(m) && j < |m.outputs|
    ensures ValidRef(m, m.outputs[j]) && m.outputs[j].producer in m.order
  {
  }

  method EdgesOut(m: Model, ids: map<NodeId, nat>) returns (edges: seq<Edge>)
    requires WellFormed(m)
    requires forall n :: n in m.order ==> n in ids && ids[n] == Rank(m.order, n)
    ensures edges == OutputEdges(m, |m.outputs|)
  {
    hide WellFormed, ValidRef;
    edges := [];
    for j := 0 to |m.outputs|
      invariant edges == OutputEdges(m, j)
    {
      OutputFacts(m, j);
      var r := m.outputs[j];
      assert r.producer in m.table by { RefIsNode(m, r); }
      edges := edges + [Edge(ids[r.producer], |m.table[r.producer].inputs| + r.output, |m.order| + j, 0)];
    }
  }

  method AllEdges(m: Model) returns (edges: seq<Edge>)
    requires WellFormed(m)
    ensures edges == InnerEdges(m, |m.order|) + OutputEdges(m, |m.outputs|)
  {
    hide WellFormed, NodeEdges, OutputEdges;
    var ids := NodeIds(m);
    assert forall n :: n in m.order ==> n in ids.Keys;
    edges := [];
    for k := 0 to |m.order|
      invariant edges == InnerEdges(m, k)
    {
      var into := EdgesInto(m, ids, k);
      edges := edges + into;
    }
    var out := EdgesOut(m, ids);
    edges := edges + out;
  }

  // ---------------------------------------------------------------------------------------------
  // The edges: one into every input port, forward, from an output port of equal shape and dtype.

  predicate Before(e: Edge, f: Edge) {
    e.toLayer < f.toLayer || (e.toLayer == f.toLayer && e.toPort < f.toPort)
  }

  ghost predicate Sorted(edges: seq<Edge>) {
    forall i, j :: 0 <= i < j < |edges| ==> Before(edges[i], edges[j])
  }

  /** The tensor a port of the document receives. */
  ghost predicate Feeds(m: Model, layer: nat, port: nat, r: Ref)
    requires WellFormed(m)
  {
    if layer < |m.order| then port < |m.table[m.order[layer]].inputs| && r == m.table[m.order[layer]].inputs[port]
    else layer - |m.order| < |m.outputs| && port == 0 && r == m.outputs[layer - |m.order|]
  }

  ghost predicate Carries(m: Model, e: Edge)
    requires WellFormed(m)
  {
    exists r :: Feeds(m, e.toLayer, e.toPort, r) && ValidRef(m, r) && r.producer in m.order
             && e == EdgeTo(m, r, e.toLayer, e.toPort) && e.fromLayer < e.toLayer
  }

  lemma {:induction false} NodeEdgesMeaning(m: Model, k: nat, count: nat)
    requires WellFormed(m) && k < |m.order| && count <= |m.table[m.order[k]].inputs|
    ensures Sorted(NodeEdges(m, k, count)) && |NodeEdges(m, k, count)| == count
    ensures forall i :: 0 <= i < count ==>
      NodeEdges(m, k, count)[i].toLayer == k && NodeEdges(m, k, count)[i].toPort == i
        && Carries(m, NodeEdges(m, k, count)[i])
  {
    hide WellFormed, ValidRef;
    AllNodes(m);
    if count > 0 {
      NodeEdgesMeaning(m, k, count - 1);
      InputsProduced(m, k, count - 1);
      var r := m.table[m.order[k]].inputs[count - 1];
      assert Feeds(m, k, count - 1, r);
      assert Carries(m, EdgeTo(m, r, k, count - 1));
    }
  }

  lemma {:induction false} InnerEdgesMeaning(m: Model, k: nat)
    requires WellFormed(m) && k <= |m.order|
    ensures Sorted(InnerEdges(m, k))
    ensures forall e :: e in InnerEdges(m, k) ==> e.toLayer < k && Carries(m, e)
    ensures forall layer: nat, port: nat :: layer < k && port < |m.table[m.order[layer]].inputs| ==>
      HasTarget(InnerEdges(m, k), layer, port)
  {
    hide WellFormed, ValidRef, Carries, NodeEdges;
    AllNodes(m);
    if k > 0 {
      InnerEdgesMeaning(m, k - 1);
      var count := |m.table[m.order[k - 1]].inputs|;
      NodeEdgesMeaning(m, k - 1, count);
      var earlier: seq<Edge>, added: seq<Edge> := InnerEdges(m, k - 1), NodeEdges(m, k - 1, count);
      forall layer: nat, port: nat | layer < k && port < |m.table[m.order[layer]].inputs|
        ensures HasTarget(earlier + added, layer, port)
      {
        if layer == k - 1 {
          assert (earlier + added)[|earlier| + port].toLayer == layer
            && (earlier + added)[|earlier| + port].toPort == port;
        } else {
          assert HasTarget(earlier, layer, port);
          var i :| 0 <= i < |earlier| && earlier[i].toLayer == layer && earlier[i].toPort == port;
          assert (earlier + added)[i] == earlier[i];
        }
      }
      SortedConcat(earlier, added, k - 1);
    }
  }

  ghost predicate HasTarget(edges: seq<Edge>, layer: nat, port: nat) {
    exists i :: 0 <= i < |edges| && edges[i].toLayer == layer && edges[i].toPort == port
  }

  lemma SortedConcat(a: seq<Edge>, b: seq<Edge>, layer: nat)
    requires Sorted(a) && Sorted(b)
    requires forall e :: e in a ==> e.toLayer < layer
    requires forall e :: e in b ==> e.toLayer >= layer
    ensures Sorted(a + b)
  {
  }

  lemma {:induction false} OutputEdgesMeaning(m: Model, j: nat)
    requires WellFormed(m) && j <= |m.outputs|
    ensures Sorted(OutputEdges(m, j)) && |OutputEdges(m, j)| == j
    ensures forall i :: 0 <= i < j ==>
      var e := OutputEdges(m, j)[i]; e.toLayer == |m.order| + i && e.toPort == 0 && Carries(m, e)
  {
    hide WellFormed, ValidRef;
    if j > 0 {
      OutputEdgesMeaning(m, j - 1);
      OutputFacts(m, j - 1);
      var r := m.outputs[j - 1];
      assert Feeds(m, |m.order| + j - 1, 0, r);
      assert Carries(m, EdgeTo(m, r, |m.order| + j - 1, 0));
    }
  }

  ghost function EdgesOf(m: Model): seq<Edge>
    requires WellFormed(m)
  {
    InnerEdges(m, |m.order|) + OutputEdges(m, |m.outputs|)
  }

  ghost predicate IsInput(m: Model, layer: nat, port: nat)
    requires WellFormed(m)
  {
    exists r :: Feeds(m, layer, port, r)
  }

  /** The edges are sorted by target, so every input port has exactly one, and each carries that port's tensor. */
  lemma EdgesMeaning(m: Model)
    requires WellFormed(m)
    ensures Sorted(EdgesOf(m))
    ensures forall e :: e in EdgesOf(m) ==> Carries(m, e)
    ensures forall layer: nat, port: nat :: IsInput(m, layer, port) ==> HasTarget(EdgesOf(m), layer, port)
  {
    hide WellFormed, Carries, InnerEdges, OutputEdges, HasTarget, Feeds;
    InnerEdgesMeaning(m, |m.order|);
    OutputEdgesMeaning(m, |m.outputs|);
    var inner: seq<Edge>, out: seq<Edge> := InnerEdges(m, |m.order|), OutputEdges(m, |m.outputs|);
    SortedConcat(inner, out, |m.order|);
    forall layer: nat, port: nat | IsInput(m, layer, port) ensures HasTarget(inner + out, layer, port) {
      InputHasTarget(m, inner, out, layer, port);
    }
  }

  lemma InputHasTarget(m: Model, inner: seq<Edge>, out: seq<Edge>, layer: nat, port: nat)
    requires WellFormed(m) && IsInput(m, layer, port)
    requires layer < |m.order| && port < |m.table[m.order[layer]].inputs| ==> HasTarget(inner, layer, port)
    requires |out| == |m.outputs| && forall i :: 0 <= i < |out| ==>
      out[i].toLayer == |m.order| + i && out[i].toPort == 0
    ensures HasTarget(inner + out, layer, port)
  {
    if layer < |m.order| {
      var i :| 0 <= i < |inner| && inner[i].toLayer == layer && inner[i].toPort == port;
      assert (inner + out)[i] == inner[i];
    } else {
      assert (inner + out)[|inner| + (layer - |m.order|)] == out[layer - |m.order|];
    }
  }

  /** The first edge into a port. */
  function Lookup(edges: seq<Edge>, layer: nat, port: nat): Option<Edge> {
    if edges == [] then None
    else if edges[0].toLayer == layer && edges[0].toPort == port then Some(edges[0])
    else Lookup(edges[1..], layer, port)
  }

  lemma {:induction false} LookupFinds(edges: seq<Edge>, layer: nat, port: nat)
    requires HasTarget(edges, layer, port)
    ensures Lookup(edges, layer, port).Some? && Lookup(edges, layer, port).value in edges
    ensures var e := Lookup(edges, layer, port).value; e.toLayer == layer && e.toPort == port
  {
    if !(edges[0].toLayer == layer && edges[0].toPort == port) {
      var i :| 0 <= i < |edges| && edges[i].toLayer == layer && edges[i].toPort == port;
      assert edges[1..][i - 1] == edges[i];
      LookupFinds(edges[1..], layer, port);
    }
  }

  // ---------------------------------------------------------------------------------------------
  // Decoding.

  /** A node as the document tells it: layers stand for nodes. */
  datatype Decoded = Decoded(
    kind: string, version: string, parameter: bool, declared: Option<Spec>, exact: bool,
    inputs: seq<Ref>, outputs: seq<Spec>, constant: Option<seq<Byte>>)

  datatype DecodedGraph = DecodedGraph(nodes: seq<Decoded>, outputs: seq<Ref>)

  function SourceOf(d: Document, layer: nat, port: nat): Ref {
    var e := Lookup(d.edges, layer, port);
    if e.Some? && e.value.fromLayer < |d.layers| && |d.layers[e.value.fromLayer].inputs| <= e.value.fromPort
    then Ref(e.value.fromLayer, e.value.fromPort - |d.layers[e.value.fromLayer].inputs|)
    else Ref(0, 0)
  }

  function Specs(ports: seq<Port>): seq<Spec> {
    seq(|ports|, i requires 0 <= i < |ports| => ports[i].spec)
  }

  function Sources(d: Document, layer: Layer): seq<Ref> {
    seq(|layer.inputs|, i requires 0 <= i < |layer.inputs| => SourceOf(d, layer.id, layer.inputs[i].id))
  }

  function DecodeNode(d: Document, layer: Layer): Decoded {
    Decoded(layer.kind, layer.version, layer.data.ParameterData?,
            if layer.data.NoData? then None else Some(layer.data.spec),
            layer.exact, Sources(d, layer), Specs(layer.outputs),
            if layer.data.ConstData? && layer.data.offset + layer.data.size <= |d.weights|
            then Some(d.weights[layer.data.offset..layer.data.offset + layer.data.size]) else None)
  }

  /** Layers with output ports are nodes; layers without are the graph's outputs. */
  function DecodeLayers(d: Document, layers: seq<Layer>): DecodedGraph {
    if layers == [] then DecodedGraph([], [])
    else
      var last := layers[|layers| - 1];
      var rest := DecodeLayers(d, layers[..|layers| - 1]);
      if last.outputs == [] then rest.(outputs := rest.outputs + Sources(d, last))
      else rest.(nodes := rest.nodes + [DecodeNode(d, last)])
  }

  function Decode(d: Document): DecodedGraph {
    DecodeLayers(d, d.layers)
  }

  /** The model with nodes numbered by their position in the order. */
  ghost function Renumber(m: Model, r: Ref): Ref
    requires r.producer in m.order
  {
    Ref(Rank(m.order, r.producer), r.output)
  }

  ghost predicate SomeF32(specs: seq<Spec>) {
    exists i :: 0 <= i < |specs| && specs[i].dtype == F32
  }

  ghost predicate Mirrors(m: Model, k: nat, decoded: Decoded)
    requires WellFormed(m) && k < |m.order|
  {
    MirrorsNode(m, k, decoded) && MirrorsInputs(m, k, decoded.inputs)
  }

  /** Everything the document says of a node beside its inputs. */
  ghost predicate MirrorsNode(m: Model, k: nat, decoded: Decoded)
    requires WellFormed(m) && k < |m.order|
  {
    var n := m.order[k];
    var node := m.table[n];
    && (node.op != "Custom" ==> decoded.kind == node.op)
    && (node.op == "Custom" && n in m.overrides ==> decoded.kind == m.overrides[n])
    && (node.op == "Custom" && n !in m.overrides ==> node.carrier == Some(decoded.kind))
    && decoded.version == (if decoded.kind == "Slice" then "opset8" else "opset1")
    && (decoded.exact <==> node.op == "Custom" && SomeF32(node.outputs))
    && decoded.parameter == (node.op == "Parameter") && decoded.outputs == node.outputs && node.outputs != []
    && decoded.declared == (if node.op == "Parameter" || node.op == "Const" then Some(node.outputs[0]) else None)
    && (node.op == "Const" ==> node.constant.Some? && decoded.constant == node.constant)
    && (node.op != "Const" ==> decoded.constant == None)
  }

  /** The node's inputs are the tensors it is fed. */
  ghost predicate MirrorsInputs(m: Model, k: nat, inputs: seq<Ref>)
    requires WellFormed(m) && k < |m.order|
  {
    var node := m.table[m.order[k]];
    && |inputs| == |node.inputs|
    && forall i :: 0 <= i < |node.inputs| ==>
      node.inputs[i].producer in m.order && inputs[i] == Renumber(m, node.inputs[i])
  }

  lemma {:induction false} WeightsPrefix(m: Model, k: nat, n: nat)
    requires k <= n <= |m.order|
    ensures Weights(m, k) <= Weights(m, n)
  {
    if k < n {
      WeightsPrefix(m, k, n - 1);
    }
  }

  /** The parts of the document, one by one. */
  lemma DocumentFacts(m: Model)
    requires WellFormed(m)
    ensures
      var d := DocumentOf(m);
      && |d.layers| == |m.order| + |m.outputs| && d.edges == EdgesOf(m)
      && d.weights == Weights(m, |m.order|) && d.customs == CustomsOf(m, |m.order|)
      && (forall k :: 0 <= k < |m.order| ==> d.layers[k] == LayerOf(m, k))
      && (forall k :: |m.order| <= k < |d.layers| ==> d.layers[k] == ResultOf(m, k - |m.order|))
  {
    hide WellFormed, LayerOf, ResultOf, Weights, InnerEdges, OutputEdges;
  }

  /** What a port of the document receives is found by following its one edge back. */
  lemma SourceIsTensor(m: Model, layer: nat, port: nat, r: Ref)
    requires WellFormed(m) && Feeds(m, layer, port, r)
    ensures r.producer in m.order && SourceOf(DocumentOf(m), layer, port) == Renumber(m, r)
  {
    hide WellFormed, EdgesOf, DocumentOf, ValidRef, HasTarget, Lookup;
    var d := DocumentOf(m);
    DocumentFacts(m);
    EdgesMeaning(m);
    assert IsInput(m, layer, port);
    LookupFinds(d.edges, layer, port);
    var e := Lookup(d.edges, layer, port).value;
    assert Carries(m, e);
    assert e == EdgeTo(m, r, layer, port);
    NodeFacts(m, e.fromLayer);
    assert d.layers[e.fromLayer] == LayerOf(m, e.fromLayer) && m.order[e.fromLayer] == r.producer;
  }

  lemma InputsDecode(m: Model, k: nat)
    requires WellFormed(m) && k < |m.order|
    ensures
      var node := m.table[m.order[k]];
      var sources := Sources(DocumentOf(m), LayerOf(m, k));
      && |sources| == |node.inputs|
      && forall i :: 0 <= i < |node.inputs| ==>
        node.inputs[i].producer in m.order && sources[i] == Renumber(m, node.inputs[i])
  {
    hide WellFormed, Renumber, SourceOf, DocumentOf;
    NodeFacts(m, k);
    var node := m.table[m.order[k]];
    var layer := LayerOf(m, k);
    forall i | 0 <= i < |node.inputs|
      ensures node.inputs[i].producer in m.order
      ensures SourceOf(DocumentOf(m), layer.id, layer.inputs[i].id) == Renumber(m, node.inputs[i])
    {
      SourceIsTensor(m, k, i, node.inputs[i]);
    }
  }

  /** The window a constant's layer names holds exactly that constant's bytes. */
  lemma ConstantDecodes(m: Model, k: nat)
    requires k < |m.order|
    ensures
      var weights := Weights(m, |m.order|);
      var offset := |Weights(m, k)|;
      var raw := Raw(m, m.order[k]);
      offset + |raw| <= |weights| && weights[offset..offset + |raw|] == raw
  {
    hide *;
    WeightsPrefix(m, k + 1, |m.order|);
    WeightsStep(m, k);
    Window(Weights(m, k), Raw(m, m.order[k]), Weights(m, |m.order|));
  }

  lemma WeightsStep(m: Model, k: nat)
    requires k < |m.order|
    ensures Weights(m, k + 1) == Weights(m, k) + Raw(m, m.order[k])
  {
  }

  lemma Window(prefix: seq<Byte>, raw: seq<Byte>, whole: seq<Byte>)
    requires prefix + raw <= whole
    ensures |prefix| + |raw| <= |whole| && whole[|prefix|..|prefix| + |raw|] == raw
  {
  }

  /** What a layer says of its node, in the node's own terms. */
  lemma LayerSays(m: Model, k: nat)
    requires WellFormed(m) && k < |m.order| && HasParts(m, m.order[k])
    ensures
      var n := m.order[k];
      var node, layer := m.table[n], LayerOf(m, k);
      && (node.op != "Custom" ==> layer.kind == node.op)
      && (node.op == "Custom" && n in m.overrides ==> layer.kind == m.overrides[n])
      && (node.op == "Custom" && n !in m.overrides ==> node.carrier == Some(layer.kind))
      && layer.version == (if layer.kind == "Slice" then "opset8" else "opset1")
      && (layer.exact <==> node.op == "Custom" && SomeF32(node.outputs))
      && node.outputs != [] && Specs(layer.outputs) == node.outputs
      && layer.data == (if node.op == "Parameter" then ParameterData(node.outputs[0])
                        else if node.op == "Const" then ConstData(node.outputs[0], |Weights(m, k)|, |Raw(m, n)|)
                        else NoData)
      && (node.op == "Const" ==> node.constant == Some(Raw(m, n)))
  {
    hide WellFormed, Weights, InputPorts;
    NodeFacts(m, k);
    var node := m.table[m.order[k]];
    assert Specs(OutputPorts(node)) == node.outputs;
  }

  lemma NodeDecodes(m: Model, k: nat)
    requires WellFormed(m) && Serializable(m) && k < |m.order|
    ensures Mirrors(m, k, DecodeNode(DocumentOf(m), LayerOf(m, k)))
  {
    hide WellFormed, Serializable, DocumentOf, MirrorsNode, LayerOf;
    FieldsDecode(m, k);
    InputsDecode(m, k);
  }

  lemma FieldsDecode(m: Model, k: nat)
    requires WellFormed(m) && Serializable(m) && k < |m.order|
    ensures MirrorsNode(m, k, DecodeNode(DocumentOf(m), LayerOf(m, k)))
  {
    assert HasParts(m, m.order[k]);
    hide WellFormed, Serializable, DocumentOf, LayerOf, Weights, Raw, Specs, SomeF32, DecodeNode, HasParts;
    LayerSays(m, k);
    DecodeFields(DocumentOf(m), LayerOf(m, k));
    ConstantField(m, k);
  }

  lemma DecodeFields(d: Document, layer: Layer)
    ensures
      var decoded := DecodeNode(d, layer);
      && decoded.kind == layer.kind && decoded.version == layer.version && decoded.exact == layer.exact
      && decoded.parameter == layer.data.ParameterData? && decoded.outputs == Specs(layer.outputs)
      && decoded.declared == (if layer.data.NoData? then None else Some(layer.data.spec))
      && (!layer.data.ConstData? ==> decoded.constant == None)
  {
  }

  lemma ConstantField(m: Model, k: nat)
    requires WellFormed(m) && k < |m.order| && HasParts(m, m.order[k])
    ensures m.table[m.order[k]].op == "Const" ==>
      DecodeNode(DocumentOf(m), LayerOf(m, k)).constant == Some(Raw(m, m.order[k]))
  {
    hide WellFormed, DocumentOf, LayerOf, Weights, Raw, Specs, Sources, SomeF32;
    LayerSays(m, k);
    DocumentWeights(m);
    ConstantDecodes(m, k);
  }

  lemma DocumentWeights(m: Model)
    requires WellFormed(m)
    ensures DocumentOf(m).weights == Weights(m, |m.order|)
  {
    hide WellFormed, LayerOf, ResultOf, Weights, InnerEdges, OutputEdges;
  }

  lemma ResultDecodes(m: Model, j: nat)
    requires WellFormed(m) && j < |m.outputs|
    ensures m.outputs[j].producer in m.order
    ensures Sources(DocumentOf(m), ResultOf(m, j)) == [Renumber(m, m.outputs[j])]
  {
    hide WellFormed, SourceOf, DocumentOf, Renumber, ValidRef;
    OutputFacts(m, j);
    SourceIsTensor(m, |m.order| + j, 0, m.outputs[j]);
  }

  lemma LastLayer(d: Document, n: nat)
    requires n < |d.layers|
    ensures
      var g, h, layer := DecodeLayers(d, d.layers[..n]), DecodeLayers(d, d.layers[..n + 1]), d.layers[n];
      h == if layer.outputs == [] then
        g.(outputs := g.outputs + Sources(d, layer))
        else g.(nodes := g.nodes + [DecodeNode(d, layer)])
  {
    assert d.layers[..n + 1][..n] == d.layers[..n] && d.layers[..n + 1][n] == d.layers[n];
  }

  lemma NodeHasOutputs(m: Model, k: nat)
    requires WellFormed(m) && k < |m.order|
    ensures k < |DocumentOf(m).layers| && DocumentOf(m).layers[k] == LayerOf(m, k) && LayerOf(m, k).outputs != []
  {
  }

  lemma {:induction false} NodesDecode(m: Model, n: nat)
    requires WellFormed(m) && Serializable(m) && n <= |m.order|
    ensures
      var d := DocumentOf(m);
      |d.layers| == |m.order| + |m.outputs|
      && var g := DecodeLayers(d, d.layers[..n]);
         && |g.nodes| == n && g.outputs == []
         && forall k :: 0 <= k < n ==> Mirrors(m, k, g.nodes[k])
  {
    hide WellFormed, Serializable, DocumentOf, Mirrors, DecodeNode, Sources, LayerOf;
    DocumentSize(m);
    if n > 0 {
      hide DecodeLayers;
      NodesDecode(m, n - 1);
      LastLayer(DocumentOf(m), n - 1);
      NodeHasOutputs(m, n - 1);
      NodeDecodes(m, n - 1);
    }
  }

  lemma DocumentSize(m: Model)
    requires WellFormed(m)
    ensures |DocumentOf(m).layers| == |m.order| + |m.outputs|
  {
  }

  lemma {:induction false} LayersDecode(m: Model, n: nat)
    requires WellFormed(m) && Serializable(m) && n <= |m.outputs|
    ensures
      var d := DocumentOf(m);
      |d.layers| == |m.order| + |m.outputs|
      && var g := DecodeLayers(d, d.layers[..|m.order| + n]);
         && |g.nodes| == |m.order| && |g.outputs| == n
         && (forall k :: 0 <= k < |m.order| ==> Mirrors(m, k, g.nodes[k]))
         && (forall j :: 0 <= j < n ==> m.outputs[j].producer in m.order && g.outputs[j] == Renumber(m, m.outputs[j]))
  {
    hide WellFormed, Serializable, DocumentOf, Mirrors, DecodeNode, Sources, Renumber, DecodeLayers;
    DocumentFacts(m);
    if n == 0 {
      NodesDecode(m, |m.order|);
    } else {
      LayersDecode(m, n - 1);
      LastLayer(DocumentOf(m), |m.order| + n - 1);
      ResultDecodes(m, n - 1);
    }
  }

  lemma {:induction false} CustomsMember(m: Model, k: nat, n: NodeId)
    requires WellFormed(m) && k <= |m.order|
    ensures n in CustomsOf(m, k) <==> n in m.order[..k] && n in m.table && m.table[n].op == "Custom"
  {
    hide *;
    if k == 0 {
      NoCustoms(m);
    } else {
      CustomsNext(m, k);
      CustomsMember(m, k - 1, n);
      assert m.order[..k] == m.order[..k - 1] + [m.order[k - 1]];
    }
  }

  lemma NoCustoms(m: Model)
    requires WellFormed(m)
    ensures CustomsOf(m, 0) == []
  {
  }

  lemma {:induction false} CustomsInOrder(m: Model, k: nat)
    requires WellFormed(m) && k <= |m.order|
    ensures Follows(m.order, CustomsOf(m, k))
  {
    hide *;
    if k == 0 {
      NoCustoms(m);
      NothingFollows(m.order);
    } else {
      CustomsNext(m, k);
      CustomsInOrder(m, k - 1);
      var before := CustomsOf(m, k - 1);
      forall n | n in before ensures Precedes(m.order, n, m.order[k - 1]) {
        CustomsMember(m, k - 1, n);
        PrecedesLater(m.order, k - 1, n);
      }
      FollowsLast(m.order, before, m.order[k - 1]);
    }
  }

  /** The nodes are listed as they come in the order. */
  ghost predicate Follows(order: seq<NodeId>, nodes: seq<NodeId>) {
    forall i, j :: 0 <= i < j < |nodes| ==> Precedes(order, nodes[i], nodes[j])
  }

  lemma NothingFollows(order: seq<NodeId>)
    ensures Follows(order, [])
  {
  }

  lemma FollowsLast(order: seq<NodeId>, nodes: seq<NodeId>, last: NodeId)
    requires Follows(order, nodes) && forall n :: n in nodes ==> Precedes(order, n, last)
    ensures Follows(order, nodes + [last])
  {
    hide Precedes;
    var longer := nodes + [last];
    forall i, j | 0 <= i < j < |longer| ensures Precedes(order, longer[i], longer[j]) {
      assert nodes[i] in nodes;
    }
  }

  lemma CustomsNext(m: Model, k: nat)
    requires WellFormed(m) && 0 < k <= |m.order|
    ensures m.order[k - 1] in m.table
    ensures m.table[m.order[k - 1]].op == "Custom" ==> CustomsOf(m, k) == CustomsOf(m, k - 1) + [m.order[k - 1]]
    ensures m.table[m.order[k - 1]].op != "Custom" ==> CustomsOf(m, k) == CustomsOf(m, k - 1)
  {
    hide WellFormed;
    NodeFacts(m, k - 1);
  }

  lemma PrecedesLater(order: seq<NodeId>, k: nat, n: NodeId)
    requires k < |order| && n in order[..k]
    ensures Precedes(order, n, order[k])
  {
    var i :| 0 <= i < k && order[..k][i] == n;
    assert order[i] == n;
  }

  ghost predicate Precedes(order: seq<NodeId>, a: NodeId, b: NodeId) {
    exists i, j :: 0 <= i < j < |order| && order[i] == a && order[j] == b
  }

  /** A graph output's layer is a result fed by one port of the output's spec. */
  lemma ResultsAreMarked(m: Model, j: nat)
    requires WellFormed(m) && j < |m.outputs|
    ensures
      var r := m.outputs[j];
      && r.producer in m.table && r.output < |m.table[r.producer].outputs|
      && |m.order| + j < |DocumentOf(m).layers|
      && DocumentOf(m).layers[|m.order| + j]
         == Layer(|m.order| + j, "Result", "opset1", NoData, false,
                  [Port(0, m.table[r.producer].outputs[r.output])], [])
  {
    hide WellFormed, DocumentOf;
    DocumentFacts(m);
    OutputFacts(m, j);
  }

  /**
   Decoding a serialized model gives the model back, with nodes numbered by position; the custom nodes are
   listed in order.
   */
  lemma DecodeSerialized(m: Model)
    requires WellFormed(m) && Serializable(m)
    ensures
      var customs := DocumentOf(m).customs;
      && (forall n :: n in customs <==> n in m.order && n in m.table && m.table[n].op == "Custom")
      && Follows(m.order, customs)
    ensures
      var g := Decode(DocumentOf(m));
      && |g.nodes| == |m.order| && |g.outputs| == |m.outputs|
      && (forall k :: 0 <= k < |m.order| ==> Mirrors(m, k, g.nodes[k]))
      && (forall j :: 0 <= j < |m.outputs| ==>
            m.outputs[j].producer in m.order && g.outputs[j] == Renumber(m, m.outputs[j]))
  {
    hide WellFormed, Serializable, DocumentOf, Mirrors, Renumber, DecodeLayers, Follows;
    DocumentFacts(m);
    assert m.order[..|m.order|] == m.order;
    forall n ensures n in DocumentOf(m).customs <==> n in m.order && n in m.table && m.table[n].op == "Custom" {
      CustomsMember(m, |m.order|, n);
    }
    CustomsInOrder(m, |m.order|);
    LayersDecode(m, |m.outputs|);
    var d := DocumentOf(m);
    assert d.layers[..|d.layers|] == d.layers;
  }

  // ---------------------------------------------------------------------------------------------
  // The document by itself: what a reader that never saw the model may rely on.

  ghost predicate Numbered(layer: Layer) {
    && (forall i :: 0 <= i < |layer.inputs| ==> layer.inputs[i].id == i)
    && (forall i :: 0 <= i < |layer.outputs| ==> layer.outputs[i].id == |layer.inputs| + i)
  }

  /** The edge leads forward, from an existing output port to an existing input port of the same shape and dtype. */
  ghost predicate Connects(d: Document, e: Edge) {
    && e.fromLayer < e.toLayer < |d.layers|
    && var from, to := d.layers[e.fromLayer], d.layers[e.toLayer];
       && |from.inputs| <= e.fromPort < |from.inputs| + |from.outputs| && e.toPort < |to.inputs|
       && from.outputs[e.fromPort - |from.inputs|].spec == to.inputs[e.toPort].spec
  }

  ghost predicate OneEdgeInto(edges: seq<Edge>, layer: nat, port: nat) {
    exists i :: 0 <= i < |edges| && edges[i].toLayer == layer && edges[i].toPort == port
      && forall j :: 0 <= j < |edges| && edges[j].toLayer == layer && edges[j].toPort == port ==> j == i
  }

  lemma SortedIsUnique(edges: seq<Edge>, layer: nat, port: nat)
    requires Sorted(edges) && HasTarget(edges, layer, port)
    ensures OneEdgeInto(edges, layer, port)
  {
    var i :| 0 <= i < |edges| && edges[i].toLayer == layer && edges[i].toPort == port;
    forall j | 0 <= j < |edges| && edges[j].toLayer == layer && edges[j].toPort == port ensures j == i {
    }
  }

  /** Layer ids are positions and ports are numbered from zero, inputs first. */
  lemma LayersAreNumbered(m: Model, k: nat)
    requires WellFormed(m) && k < |m.order| + |m.outputs|
    ensures k < |DocumentOf(m).layers| && DocumentOf(m).layers[k].id == k && Numbered(DocumentOf(m).layers[k])
  {
    hide WellFormed, DocumentOf, ValidRef, SpecOf, Weights, KeepsF32;
    DocumentFacts(m);
    if k < |m.order| {
      NodeFacts(m, k);
    } else {
      OutputFacts(m, k - |m.order|);
    }
  }

  lemma TargetPort(m: Model, layer: nat, port: nat, r: Ref)
    requires WellFormed(m) && Feeds(m, layer, port, r) && ValidRef(m, r)
    ensures
      var d := DocumentOf(m);
      layer < |d.layers| && port < |d.layers[layer].inputs| && d.layers[layer].inputs[port].spec == SpecOf(m, r)
  {
    hide WellFormed, DocumentOf, ValidRef, SpecOf, Weights, KeepsF32;
    DocumentFacts(m);
    if layer < |m.order| {
      NodeFacts(m, layer);
    } else {
      OutputFacts(m, layer - |m.order|);
    }
  }

  lemma PortIsInput(m: Model, layer: nat, port: nat)
    requires WellFormed(m)
    requires layer < |DocumentOf(m).layers| && port < |DocumentOf(m).layers[layer].inputs|
    ensures IsInput(m, layer, port)
  {
    hide WellFormed, DocumentOf, ValidRef, SpecOf, Weights, KeepsF32;
    DocumentFacts(m);
    if layer < |m.order| {
      NodeFacts(m, layer);
      assert Feeds(m, layer, port, m.table[m.order[layer]].inputs[port]);
    } else {
      OutputFacts(m, layer - |m.order|);
      assert Feeds(m, layer, port, m.outputs[layer - |m.order|]);
    }
  }

  lemma EdgeConnects(m: Model, e: Edge)
    requires WellFormed(m) && Carries(m, e)
    ensures Connects(DocumentOf(m), e)
  {
    hide WellFormed, DocumentOf, Feeds, Weights, KeepsF32;
    var r :| Feeds(m, e.toLayer, e.toPort, r) && ValidRef(m, r) && r.producer in m.order
          && e == EdgeTo(m, r, e.toLayer, e.toPort) && e.fromLayer < e.toLayer;
    TargetPort(m, e.toLayer, e.toPort, r);
    DocumentFacts(m);
    NodeFacts(m, e.fromLayer);
    assert m.order[e.fromLayer] == r.producer;
  }

  /** Every edge connects, and every input port of every layer has exactly one. */
  lemma EdgesConnect(m: Model)
    requires WellFormed(m)
    ensures
      var d := DocumentOf(m);
      && (forall e :: e in d.edges ==> Connects(d, e))
      && (forall k, i :: 0 <= k < |d.layers| && 0 <= i < |d.layers[k].inputs| ==> OneEdgeInto(d.edges, k, i))
  {
    hide WellFormed, DocumentOf, EdgesOf, Connects, OneEdgeInto, Carries, HasTarget, Sorted, IsInput;
    DocumentFacts(m);
    EdgesMeaning(m);
    var d := DocumentOf(m);
    forall e | e in d.edges ensures Connects(d, e) {
      EdgeConnects(m, e);
    }
    forall k, i | 0 <= k < |d.layers| && 0 <= i < |d.layers[k].inputs| ensures OneEdgeInto(d.edges, k, i) {
      PortIsInput(m, k, i);
      SortedIsUnique(d.edges, k, i);
    }
  }

  // ---------------------------------------------------------------------------------------------
  // The weight windows.

  predicate Covers(layer: Layer, position: nat) {
    layer.data.ConstData? && layer.data.offset <= position < layer.data.offset + layer.data.size
  }

  ghost predicate Covered(d: Document, position: nat) {
    exists k :: 0 <= k < |d.layers| && Covers(d.layers[k], position)
  }

  /** One window ends before the other begins. */
  predicate EndsBefore(a: Data, b: Data) {
    a.ConstData? && b.ConstData? ==> a.offset + a.size <= b.offset
  }

  lemma {:induction false} SomeRawCovers(m: Model, k: nat, position: nat) returns (i: nat)
    requires k <= |m.order| && position < |Weights(m, k)|
    ensures i < k && |Weights(m, i)| <= position < |Weights(m, i)| + |Raw(m, m.order[i])|
  {
    hide Raw;
    if position < |Weights(m, k - 1)| {
      i := SomeRawCovers(m, k - 1, position);
    } else {
      i := k - 1;
    }
  }

  lemma WindowOf(m: Model, k: nat)
    requires WellFormed(m) && k < |m.order|
    ensures k < |DocumentOf(m).layers|
    ensures
      var data := DocumentOf(m).layers[k].data;
      && (data.ConstData? ==> data.offset == |Weights(m, k)| && data.size == |Raw(m, m.order[k])|)
      && (Raw(m, m.order[k]) != [] ==> data.ConstData?)
  {
    hide WellFormed, DocumentOf, InputPorts, OutputPorts, KeepsF32, ValidRef;
    DocumentFacts(m);
    NodeFacts(m, k);
  }

  /**
   Windows lie inside the weights, follow each other in layer order without overlap, and leave no byte out.
   */
  lemma WindowsTile(m: Model)
    requires WellFormed(m)
    ensures
      var d := DocumentOf(m);
      && (forall p :: 0 <= p < |d.weights| ==> Covered(d, p))
      && (forall k :: 0 <= k < |d.layers| && d.layers[k].data.ConstData? ==>
            d.layers[k].data.offset + d.layers[k].data.size <= |d.weights|)
      && (forall j, k :: 0 <= j < k < |d.layers| ==> EndsBefore(d.layers[j].data, d.layers[k].data))
  {
    hide WellFormed, DocumentOf, Weights, Raw, LayerOf;
    var d := DocumentOf(m);
    DocumentFacts(m);
    forall p | 0 <= p < |d.weights| ensures Covered(d, p) {
      var k := SomeRawCovers(m, |m.order|, p);
      WindowOf(m, k);
      assert Covers(d.layers[k], p);
    }
    forall k | 0 <= k < |d.layers| && d.layers[k].data.ConstData?
      ensures d.layers[k].data.offset + d.layers[k].data.size <= |d.weights|
    {
      if k < |m.order| {
        WindowOf(m, k);
        ConstantDecodes(m, k);
      }
    }
    forall j, k | 0 <= j < k < |d.layers| ensures EndsBefore(d.layers[j].data, d.layers[k].data) {
      if k < |m.order| {
        WindowOf(m, j);
        WindowOf(m, k);
        WindowEnds(m, j, k);
      }
    }
  }

  lemma {:induction false} WindowEnds(m: Model, j: nat, k: nat)
    requires j < k <= |m.order|
    ensures |Weights(m, j)| + |Raw(m, m.order[j])| <= |Weights(m, k)|
  {
    hide Raw;
    if j + 1 < k {
      WindowEnds(m, j, k - 1);
    }
  }

  // ---------------------------------------------------------------------------------------------
  // Carrier overrides.

  function Overridden(m: Model, n: NodeId, carrier: string): Model {
    m.(overrides := m.overrides[n := carrier])
  }

  lemma OverriddenIsWellFormed(m: Model, n: NodeId, carrier: string)
    requires WellFormed(m)
    ensures WellFormed(Overridden(m, n, carrier))
  {
  }

  lemma {:induction false} SameNodeEdges(m: Model, n: NodeId, carrier: string, k: nat, count: nat)
    requires WellFormed(m) && WellFormed(Overridden(m, n, carrier))
    requires k < |m.order| && count <= |m.table[m.order[k]].inputs|
    ensures NodeEdges(Overridden(m, n, carrier), k, count) == NodeEdges(m, k, count)
  {
    hide WellFormed;
    if count > 0 {
      SameNodeEdges(m, n, carrier, k, count - 1);
      InputsProduced(m, k, count - 1);
      InputsProduced(Overridden(m, n, carrier), k, count - 1);
    }
  }

  lemma {:induction false} SameInnerEdges(m: Model, n: NodeId, carrier: string, k: nat)
    requires WellFormed(m) && WellFormed(Overridden(m, n, carrier)) && k <= |m.order|
    ensures InnerEdges(Overridden(m, n, carrier), k) == InnerEdges(m, k)
  {
    hide WellFormed, NodeEdges;
    AllNodes(m);
    if k > 0 {
      SameInnerEdges(m, n, carrier, k - 1);
      SameNodeEdges(m, n, carrier, k - 1, |m.table[m.order[k - 1]].inputs|);
    }
  }

  lemma {:induction false} SameOutputEdges(m: Model, n: NodeId, carrier: string, j: nat)
    requires WellFormed(m) && WellFormed(Overridden(m, n, carrier)) && j <= |m.outputs|
    ensures OutputEdges(Overridden(m, n, carrier), j) == OutputEdges(m, j)
  {
    hide WellFormed;
    if j > 0 {
      OutputFacts(m, j - 1);
      OutputFacts(Overridden(m, n, carrier), j - 1);
      SameOutputEdges(m, n, carrier, j - 1);
    }
  }

  lemma {:induction false} SameBytes(m: Model, n: NodeId, carrier: string, k: nat)
    requires k <= |m.order|
    ensures Weights(Overridden(m, n, carrier), k) == Weights(m, k)
    ensures CustomsOf(Overridden(m, n, carrier), k) == CustomsOf(m, k)
  {
    if k > 0 {
      SameBytes(m, n, carrier, k - 1);
    }
  }

  lemma OverriddenLayer(m: Model, n: NodeId, carrier: string, k: nat)
    requires WellFormed(m) && WellFormed(Overridden(m, n, carrier)) && k < |m.order|
    ensures
      var layer := LayerOf(m, k);
      LayerOf(Overridden(m, n, carrier), k)
        == if m.order[k] == n && m.table[n].op == "Custom" then
          layer.(kind := carrier, version := VersionOf(carrier))
          else layer
  {
    hide WellFormed, Weights, KeepsF32, VersionOf;
    NodeFacts(m, k);
    SameBytes(m, n, carrier, k);
    var node, m' := m.table[m.order[k]], Overridden(m, n, carrier);
    NodeFacts(m', k);
    assert InputPorts(m', node) == InputPorts(m, node);
  }

  /** Overriding one custom node's carrier changes the type and version of its layer and nothing else. */
  lemma OverrideChangesOneLayer(m: Model, n: NodeId, carrier: string)
    requires WellFormed(m) && n in m.order && m.table[n].op == "Custom"
    ensures WellFormed(Overridden(m, n, carrier))
    ensures
      var d, id := DocumentOf(m), Rank(m.order, n);
      && id < |d.layers|
      && DocumentOf(Overridden(m, n, carrier))
           == d.(layers := d.layers[id := d.layers[id].(kind := carrier, version := VersionOf(carrier))])
  {
    hide WellFormed, LayerOf, InnerEdges, OutputEdges, Weights, VersionOf, CustomsOf, DocumentOf;
    OverriddenIsWellFormed(m, n, carrier);
    var m' := Overridden(m, n, carrier);
    var d, d', id := DocumentOf(m), DocumentOf(m'), Rank(m.order, n);
    DocumentFacts(m);
    DocumentFacts(m');
    SameInnerEdges(m, n, carrier, |m.order|);
    SameOutputEdges(m, n, carrier, |m.outputs|);
    SameBytes(m, n, carrier, |m.order|);
    var expected := d.layers[id := d.layers[id].(kind := carrier, version := VersionOf(carrier))];
    forall k | 0 <= k < |d'.layers| ensures d'.layers[k] == expected[k] {
      if k < |m.order| {
        OverriddenLayer(m, n, carrier, k);
        RankIsUnique(m, k);
      } else {
        OutputFacts(m, k - |m.order|);
      }
    }
    assert d'.layers == expected;
  }

  lemma RankIsUnique(m: Model, k: nat)
    requires WellFormed(m) && k < |m.order|
    ensures Rank(m.order, m.order[k]) == k
  {
  }
}
