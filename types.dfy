/** The dialogue graph's entities (the `INode` shape the helpers work on).
    A node owns its lines and its options; an option is the source of an
    edge to the node named by `nextNodeId`, or ends the conversation when
    that is absent. */
module Types {
  import opened Wrappers

  /** One piece of dialogue; lines carry no edges. */
  datatype Line = Line(
    id: string,
    condition: Option<string>,
    character: Option<string>,
    dialogue: string,
    mutation: Option<string>)

  /** A player choice. `nextNodeName` is a cached copy of the target's name
      (the text "END" when the option ends the conversation). */
  datatype DOption = DOption(
    id: string,
    condition: Option<string>,
    prompt: Option<string>,
    nextNodeId: Option<string>,
    nextNodeName: Option<string>)

  /** A conversation state. `updatedAt` is carried but never inspected. */
  datatype Node = Node(
    id: string,
    name: string,
    updatedAt: Option<int>,
    lines: seq<Line>,
    options: seq<DOption>)

  /** Every option of every node, node by node and, within a node, in stored
      order. */
  function AllOptions(nodes: seq<Node>): seq<DOption> {
    if nodes == [] then [] else nodes[0].options + AllOptions(nodes[1..])
  }

  /** Number of options held by the nodes before position `i`: where the
      options of `nodes[i]` start in `AllOptions(nodes)`. */
  function Offset(nodes: seq<Node>, i: nat): nat
    requires i <= |nodes|
  {
    |AllOptions(nodes[..i])|
  }

  lemma {:induction false} AllOptionsConcat(a: seq<Node>, b: seq<Node>)
    ensures AllOptions(a + b) == AllOptions(a) + AllOptions(b)
  {
    if a != [] {
      assert (a + b)[1..] == a[1..] + b;
      AllOptionsConcat(a[1..], b);
    } else {
      assert a + b == b;
    }
  }

  /** Option `j` of node `i` sits at `Offset(nodes, i) + j` of the flat list. */
  lemma AllOptionsAt(nodes: seq<Node>, i: nat, j: nat)
    requires i < |nodes| && j < |nodes[i].options|
    ensures Offset(nodes, i) + j < |AllOptions(nodes)|
    ensures AllOptions(nodes)[Offset(nodes, i) + j] == nodes[i].options[j]
  {
    assert nodes == nodes[..i] + nodes[i..];
    AllOptionsConcat(nodes[..i], nodes[i..]);
    assert nodes[i..][1..] == nodes[i + 1..];
  }

  /** The options of an earlier node all come before those of a later one. */
  lemma OffsetOrder(nodes: seq<Node>, i1: nat, i2: nat)
    requires i1 < i2 <= |nodes|
    ensures Offset(nodes, i1) + |nodes[i1].options| <= Offset(nodes, i2)
  {
    assert nodes[..i2] == nodes[..i1] + nodes[i1..i2];
    AllOptionsConcat(nodes[..i1], nodes[i1..i2]);
  }

  /** Every position of the flat list belongs to some option of some node. */
  lemma {:induction false} AllOptionsLocate(nodes: seq<Node>, k: nat) returns (i: nat, j: nat)
    requires k < |AllOptions(nodes)|
    ensures i < |nodes| && j < |nodes[i].options|
    ensures k == Offset(nodes, i) + j
    ensures AllOptions(nodes)[k] == nodes[i].options[j]
  {
    if k < |nodes[0].options| {
      i, j := 0, k;
      assert nodes[..0] == [];
    } else {
      var i', j' := AllOptionsLocate(nodes[1..], k - |nodes[0].options|);
      i, j := i' + 1, j';
      assert nodes[..i] == [nodes[0]] + nodes[1..][..i'];
      AllOptionsConcat([nodes[0]], nodes[1..][..i']);
      assert AllOptions([nodes[0]]) == nodes[0].options;
    }
  }
}
