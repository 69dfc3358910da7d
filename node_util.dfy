/** The graph queries over a snapshot of the node collection:
    `findLinksToNode` (reverse links), `filterNodes` (search) and
    `getNodesByOptionId` (the option-id to owning-node index). */
module NodeUtil {
  import opened Wrappers
  import opened Text
  import opened Types

  // ---------------------------------------------------------------------
  // findLinksToNode
  // ---------------------------------------------------------------------

  /** Whether option `o` leads to the node with id `targetId`. */
  predicate LinksTo(o: DOption, targetId: string) {
    o.nextNodeId == Some(targetId)
  }

  /** Ids of the options in `opts` that lead to `targetId`, in order. */
  function LinksFrom(targetId: string, opts: seq<DOption>): seq<string> {
    if opts == [] then []
    else (if LinksTo(opts[0], targetId) then [opts[0].id] else [])
         + LinksFrom(targetId, opts[1..])
  }

  /** Visits the nodes in order and, within each, its options in order. */
  function LinksIn(targetId: string, nodes: seq<Node>): seq<string> {
    if nodes == [] then []
    else LinksFrom(targetId, nodes[0].options) + LinksIn(targetId, nodes[1..])
  }

  /** `findLinksToNode(target, nodes)`: the ids of all options leading to
      `target`; nothing when the target or the collection is `null`. */
  function FindLinksToNode(target: Option<Node>, nodes: Option<seq<Node>>): (r: seq<string>)
    ensures target.None? || nodes.None? ==> r == []
  {
    if target.None? || nodes.None? then []
    else LinksIn(target.value.id, nodes.value)
  }

  lemma {:induction false} LinksFromConcat(targetId: string, a: seq<DOption>, b: seq<DOption>)
    ensures LinksFrom(targetId, a + b) == LinksFrom(targetId, a) + LinksFrom(targetId, b)
  {
    if a == [] {
      assert a + b == b;
    } else {
      assert (a + b)[1..] == a[1..] + b;
      LinksFromConcat(targetId, a[1..], b);
    }
  }

  /** The nested scan equals one filter over the flat list of all options. */
  lemma {:induction false} LinksInFlat(targetId: string, nodes: seq<Node>)
    ensures LinksIn(targetId, nodes) == LinksFrom(targetId, AllOptions(nodes))
  {
    if nodes != [] {
      LinksInFlat(targetId, nodes[1..]);
      LinksFromConcat(targetId, nodes[0].options, AllOptions(nodes[1..]));
    }
  }

  lemma {:induction false} LinksFromMember(targetId: string, opts: seq<DOption>, x: string)
    ensures x in LinksFrom(targetId, opts)
        <==> exists k :: 0 <= k < |opts| && opts[k].id == x && LinksTo(opts[k], targetId)
  {
    if opts != [] {
      LinksFromMember(targetId, opts[1..], x);
      if exists k :: 0 <= k < |opts| && opts[k].id == x && LinksTo(opts[k], targetId) {
        var k :| 0 <= k < |opts| && opts[k].id == x && LinksTo(opts[k], targetId);
        if k > 0 {
          assert opts[1..][k - 1] == opts[k];
        }
      }
      if x in LinksFrom(targetId, opts[1..]) {
        var k :| 0 <= k < |opts[1..]| && opts[1..][k].id == x && LinksTo(opts[1..][k], targetId);
        assert opts[k + 1] == opts[1..][k];
      }
    }
  }

  /** A linking option at position `k` of `opts` is reported at position
      `|LinksFrom(targetId, opts[..k])|` of the result. */
  lemma LinksFromAt(targetId: string, opts: seq<DOption>, k: nat)
    requires k < |opts| && LinksTo(opts[k], targetId)
    ensures |LinksFrom(targetId, opts[..k])| < |LinksFrom(targetId, opts)|
    ensures LinksFrom(targetId, opts)[|LinksFrom(targetId, opts[..k])|] == opts[k].id
  {
    assert opts == opts[..k] + opts[k..];
    LinksFromConcat(targetId, opts[..k], opts[k..]);
  }

  /** Between two linking options, the earlier is reported earlier. */
  lemma LinksFromOrder(targetId: string, opts: seq<DOption>, k1: nat, k2: nat)
    requires k1 < k2 < |opts| && LinksTo(opts[k1], targetId) && LinksTo(opts[k2], targetId)
    ensures |LinksFrom(targetId, opts[..k1])| < |LinksFrom(targetId, opts[..k2])|
  {
    assert opts[..k2] == opts[..k1] + opts[k1..k2];
    LinksFromConcat(targetId, opts[..k1], opts[k1..k2]);
  }

  /** Completeness and soundness: an id is reported exactly when some option
      of some node carries it and leads to the target; options leading
      elsewhere, dangling ones included, are not reported. */
  lemma FindLinksMember(target: Node, nodes: seq<Node>, x: string)
    ensures x in FindLinksToNode(Some(target), Some(nodes))
        <==> exists i, j :: 0 <= i < |nodes| && 0 <= j < |nodes[i].options|
                            && nodes[i].options[j].id == x && LinksTo(nodes[i].options[j], target.id)
  {
    var flat := AllOptions(nodes);
    LinksInFlat(target.id, nodes);
    LinksFromMember(target.id, flat, x);
    if x in FindLinksToNode(Some(target), Some(nodes)) {
      var k :| 0 <= k < |flat| && flat[k].id == x && LinksTo(flat[k], target.id);
      var i, j := AllOptionsLocate(nodes, k);
    }
    if exists i, j :: 0 <= i < |nodes| && 0 <= j < |nodes[i].options|
                      && nodes[i].options[j].id == x && LinksTo(nodes[i].options[j], target.id) {
      var i, j :| 0 <= i < |nodes| && 0 <= j < |nodes[i].options|
                  && nodes[i].options[j].id == x && LinksTo(nodes[i].options[j], target.id);
      AllOptionsAt(nodes, i, j);
    }
  }

  /** Discovery order: when option `j1` of node `i1` and option `j2` of node
      `i2` both lead to the target, and (i1, j1) comes first (an earlier node,
      or the same node and an earlier option), the first id is reported at a
      strictly earlier position than the second. */
  lemma FindLinksOrder(target: Node, nodes: seq<Node>, i1: nat, j1: nat, i2: nat, j2: nat)
    requires i1 < |nodes| && j1 < |nodes[i1].options| && LinksTo(nodes[i1].options[j1], target.id)
    requires i2 < |nodes| && j2 < |nodes[i2].options| && LinksTo(nodes[i2].options[j2], target.id)
    requires i1 < i2 || (i1 == i2 && j1 < j2)
    ensures exists p1, p2 :: 0 <= p1 < p2 < |FindLinksToNode(Some(target), Some(nodes))|
                             && FindLinksToNode(Some(target), Some(nodes))[p1] == nodes[i1].options[j1].id
                             && FindLinksToNode(Some(target), Some(nodes))[p2] == nodes[i2].options[j2].id
  {
    var flat := AllOptions(nodes);
    LinksInFlat(target.id, nodes);
    AllOptionsAt(nodes, i1, j1);
    AllOptionsAt(nodes, i2, j2);
    var k1, k2 := Offset(nodes, i1) + j1, Offset(nodes, i2) + j2;
    if i1 < i2 {
      OffsetOrder(nodes, i1, i2);
    }
    LinksFromAt(target.id, flat, k1);
    LinksFromAt(target.id, flat, k2);
    LinksFromOrder(target.id, flat, k1, k2);
    var p1, p2 := |LinksFrom(target.id, flat[..k1])|, |LinksFrom(target.id, flat[..k2])|;
    assert FindLinksToNode(Some(target), Some(nodes))[p1] == nodes[i1].options[j1].id;
    assert FindLinksToNode(Some(target), Some(nodes))[p2] == nodes[i2].options[j2].id;
  }

  // ---------------------------------------------------------------------
  // filterNodes
  // ---------------------------------------------------------------------

  /** An optional field matches when it is present and contains the query,
      ignoring case. */
  predicate FieldMatches(field: Option<string>, query: string) {
    field.Some? && ContainsIgnoreCase(field.value, query)
  }

  predicate LineMatches(line: Line, query: string) {
    || FieldMatches(line.condition, query)
    || FieldMatches(line.character, query)
    || ContainsIgnoreCase(line.dialogue, query)
    || FieldMatches(line.mutation, query)
  }

  predicate OptionMatches(option: DOption, query: string) {
    || FieldMatches(option.condition, query)
    || FieldMatches(option.prompt, query)
    || FieldMatches(option.nextNodeName, query)
  }

  /** A node matches on its name, on any of its lines or on any of its
      options; an option's cached `nextNodeName` makes a node that links to a
      matching name match as well. */
  predicate NodeMatches(node: Node, query: string) {
    || ContainsIgnoreCase(node.name, query)
    || (exists line :: line in node.lines && LineMatches(line, query))
    || (exists option :: option in node.options && OptionMatches(option, query))
  }

  /** The elements of `s` that satisfy `p`, in their order. */
  function Select<T>(p: T -> bool, s: seq<T>): seq<T> {
    if s == [] then []
    else (if p(s[0]) then [s[0]] else []) + Select(p, s[1..])
  }

  /** `filterNodes(query, nodes)`: the matching nodes in collection order;
      nothing for a `null` collection. */
  function FilterNodes(query: string, nodes: Option<seq<Node>>): (r: seq<Node>)
    ensures nodes.None? ==> r == []
  {
    match nodes
    case None => []
    case Some(s) => Select(n => NodeMatches(n, query), s)
  }

  lemma {:induction false} SelectMember<T>(p: T -> bool, s: seq<T>, x: T)
    ensures x in Select(p, s) <==> x in s && p(x)
  {
    if s != [] {
      SelectMember(p, s[1..], x);
      assert s == [s[0]] + s[1..];
    }
  }

  /** Every position moved one place on. */
  function Shift(idx: seq<nat>): (r: seq<nat>)
    ensures |r| == |idx|
    ensures forall k :: 0 <= k < |idx| ==> r[k] == idx[k] + 1
  {
    seq(|idx|, k requires 0 <= k < |idx| => idx[k] + 1)
  }

  /** The positions of the elements of `s` that satisfy `p`. */
  function Positions<T>(p: T -> bool, s: seq<T>): seq<nat> {
    if s == [] then []
    else (if p(s[0]) then [0] else []) + Shift(Positions(p, s[1..]))
  }

  /** `sel` lists the elements of `s` at the positions `idx`. */
  ghost predicate ElementsAt<T>(s: seq<T>, idx: seq<nat>, sel: seq<T>) {
    && |idx| == |sel|
    && forall k :: 0 <= k < |idx| ==> idx[k] < |s| && sel[k] == s[idx[k]]
  }

  lemma ElementsAtShift<T>(s: seq<T>, idx: seq<nat>, sel: seq<T>)
    requires s != [] && ElementsAt(s[1..], idx, sel)
    ensures ElementsAt(s, Shift(idx), sel)
  {
    forall k | 0 <= k < |idx| ensures Shift(idx)[k] < |s| && sel[k] == s[Shift(idx)[k]] {
      assert s[1..][idx[k]] == s[idx[k] + 1];
    }
  }

  lemma ElementsAtFirst<T>(s: seq<T>, idx: seq<nat>, sel: seq<T>)
    requires s != [] && ElementsAt(s, idx, sel)
    ensures ElementsAt(s, [0] + idx, [s[0]] + sel)
  {
    var idx', sel' := [0] + idx, [s[0]] + sel;
    forall k | 0 <= k < |idx'| ensures idx'[k] < |s| && sel'[k] == s[idx'[k]] {
      if k > 0 {
        assert idx'[k] == idx[k - 1] && sel'[k] == sel[k - 1];
      }
    }
  }

  lemma {:induction false} PositionsSelect<T>(p: T -> bool, s: seq<T>)
    ensures ElementsAt(s, Positions(p, s), Select(p, s))
  {
    if s != [] {
      PositionsSelect(p, s[1..]);
      var rest, tail := Shift(Positions(p, s[1..])), Select(p, s[1..]);
      ElementsAtShift(s, Positions(p, s[1..]), tail);
      if p(s[0]) {
        ElementsAtFirst(s, rest, tail);
      } else {
        assert Positions(p, s) == rest && Select(p, s) == tail;
      }
    }
  }

  predicate Increasing(idx: seq<nat>) {
    forall k1, k2 :: 0 <= k1 < k2 < |idx| ==> idx[k1] < idx[k2]
  }

  lemma ShiftIncreasing(idx: seq<nat>)
    requires Increasing(idx)
    ensures Increasing(Shift(idx)) && Increasing([0] + Shift(idx))
  {
    var r := [0] + Shift(idx);
    forall k1, k2 | 0 <= k1 < k2 < |r| ensures r[k1] < r[k2] {
      assert r[k2] == idx[k2 - 1] + 1;
    }
  }

  lemma {:induction false} PositionsIncreasing<T>(p: T -> bool, s: seq<T>)
    ensures Increasing(Positions(p, s))
  {
    if s != [] {
      PositionsIncreasing(p, s[1..]);
      ShiftIncreasing(Positions(p, s[1..]));
      if !p(s[0]) {
        assert Positions(p, s) == Shift(Positions(p, s[1..]));
      }
    }
  }

  lemma {:induction false} PositionsComplete<T>(p: T -> bool, s: seq<T>, i: nat)
    requires i < |s|
    ensures i in Positions(p, s) <==> p(s[i])
  {
    var idx, rest := Positions(p, s), Positions(p, s[1..]);
    var shifted := Shift(rest);
    if i == 0 {
      assert 0 !in shifted;
    } else {
      PositionsComplete(p, s[1..], i - 1);
      assert s[1..][i - 1] == s[i];
      assert i in shifted <==> (i - 1) in rest by {
        if i in shifted {
          var k :| 0 <= k < |shifted| && shifted[k] == i;
          assert rest[k] == i - 1;
        }
        if (i - 1) in rest {
          var k :| 0 <= k < |rest| && rest[k] == i - 1;
          assert shifted[k] == i;
        }
      }
      assert i in idx <==> i in shifted;
    }
  }

  /** The positions chosen by `p`, in increasing order, and the selected
      elements are the elements at those positions. */
  lemma SelectPositions<T>(p: T -> bool, s: seq<T>) returns (idx: seq<nat>)
    ensures |idx| == |Select(p, s)|
    ensures forall k :: 0 <= k < |idx| ==> idx[k] < |s| && Select(p, s)[k] == s[idx[k]]
    ensures Increasing(idx)
    ensures forall i :: 0 <= i < |s| ==> (i in idx <==> p(s[i]))
  {
    idx := Positions(p, s);
    PositionsSelect(p, s);
    PositionsIncreasing(p, s);
    forall i | 0 <= i < |s| ensures i in idx <==> p(s[i]) {
      PositionsComplete(p, s, i);
    }
  }

  lemma {:induction false} SelectIdempotent<T>(p: T -> bool, s: seq<T>)
    ensures Select(p, Select(p, s)) == Select(p, s)
  {
    if s != [] {
      SelectIdempotent(p, s[1..]);
      var rest := Select(p, s[1..]);
      if p(s[0]) {
        assert ([s[0]] + rest)[1..] == rest;
      } else {
        assert [] + rest == rest;
      }
    }
  }

  /** A node is in the result exactly when it is in the collection and
      matches. */
  lemma FilterMember(query: string, nodes: seq<Node>, n: Node)
    ensures n in FilterNodes(query, Some(nodes)) <==> n in nodes && NodeMatches(n, query)
  {
    SelectMember(n => NodeMatches(n, query), nodes, n);
  }

  /** Order: the result is the collection with the non-matching nodes taken
      out. `idx` lists, in increasing order, exactly the positions of the
      matching nodes, and the result holds the nodes at those positions. */
  lemma FilterPositions(query: string, nodes: seq<Node>) returns (idx: seq<nat>)
    ensures |idx| == |FilterNodes(query, Some(nodes))|
    ensures forall k :: 0 <= k < |idx| ==>
              idx[k] < |nodes| && FilterNodes(query, Some(nodes))[k] == nodes[idx[k]]
    ensures Increasing(idx)
    ensures forall i :: 0 <= i < |nodes| ==> (i in idx <==> NodeMatches(nodes[i], query))
  {
    idx := SelectPositions(n => NodeMatches(n, query), nodes);
  }

  /** Filtering a filtered collection with the same query changes nothing. */
  lemma FilterIdempotent(query: string, nodes: seq<Node>)
    ensures FilterNodes(query, Some(FilterNodes(query, Some(nodes)))) == FilterNodes(query, Some(nodes))
  {
    SelectIdempotent(n => NodeMatches(n, query), nodes);
  }

  lemma {:induction false} SelectAgree<T>(p: T -> bool, p': T -> bool, s: seq<T>)
    requires forall x :: p(x) == p'(x)
    ensures Select(p, s) == Select(p', s)
  {
    if s != [] {
      SelectAgree(p, p', s[1..]);
    }
  }

  /** The case of the query's letters does not change the result. */
  lemma FilterQueryCase(query: string, query': string, nodes: seq<Node>)
    requires SameUpToCase(query, query')
    ensures FilterNodes(query, Some(nodes)) == FilterNodes(query', Some(nodes))
  {
    LowerSameUpToCase(query, query');
    SelectAgree(n => NodeMatches(n, query), n => NodeMatches(n, query'), nodes);
  }

  // ---------------------------------------------------------------------
  // getNodesByOptionId
  // ---------------------------------------------------------------------

  /** Ids of a list of options. */
  function IdSet(opts: seq<DOption>): set<string> {
    set o | o in opts :: o.id
  }

  /** The entries one node contributes: each of its option ids to the node. */
  function OwnerEntries(node: Node): map<string, Node> {
    map id | id in IdSet(node.options) :: node
  }

  /** Visits the nodes in order; a later node overwrites an earlier entry. */
  function IndexNodes(nodes: seq<Node>): map<string, Node> {
    if nodes == [] then map[]
    else IndexNodes(nodes[..|nodes| - 1]) + OwnerEntries(nodes[|nodes| - 1])
  }

  /** `getNodesByOptionId(nodes)`: option id to the node that owns it; the
      empty map for a `null` collection. */
  function GetNodesByOptionId(nodes: Option<seq<Node>>): (m: map<string, Node>)
    ensures nodes.None? ==> m == map[]
  {
    match nodes
    case None => map[]
    case Some(s) => IndexNodes(s)
  }

  /** The graph invariant: no two options of the collection share an id. */
  ghost predicate UniqueOptionIds(nodes: seq<Node>) {
    forall k1, k2 :: 0 <= k1 < k2 < |AllOptions(nodes)| ==> AllOptions(nodes)[k1].id != AllOptions(nodes)[k2].id
  }

  lemma IdSetConcat(a: seq<DOption>, b: seq<DOption>)
    ensures IdSet(a + b) == IdSet(a) + IdSet(b)
  {
    forall x | x in IdSet(a + b) ensures x in IdSet(a) + IdSet(b) {
      var o :| o in a + b && o.id == x;
    }
    forall x | x in IdSet(a) + IdSet(b) ensures x in IdSet(a + b) {
      if x in IdSet(a) {
        var o :| o in a && o.id == x;
        assert o in a + b;
      } else {
        var o :| o in b && o.id == x;
        assert o in a + b;
      }
    }
  }

  /** The keys are exactly the ids of all options of all nodes. */
  lemma {:induction false} IndexKeys(nodes: seq<Node>)
    ensures GetNodesByOptionId(Some(nodes)).Keys == IdSet(AllOptions(nodes))
  {
    if nodes != [] {
      var init, last := nodes[..|nodes| - 1], nodes[|nodes| - 1];
      IndexKeys(init);
      assert nodes == init + [last];
      AllOptionsConcat(init, [last]);
      assert AllOptions([last]) == last.options;
      IdSetConcat(AllOptions(init), last.options);
    }
  }

  /** Every entry maps an id to a node of the collection that owns an option
      with that id (the owner, not the target). */
  lemma {:induction false} IndexOwner(nodes: seq<Node>, x: string)
    requires x in GetNodesByOptionId(Some(nodes))
    ensures GetNodesByOptionId(Some(nodes))[x] in nodes
    ensures x in IdSet(GetNodesByOptionId(Some(nodes))[x].options)
  {
    var init, last := nodes[..|nodes| - 1], nodes[|nodes| - 1];
    if x !in IdSet(last.options) {
      IndexOwner(init, x);
    }
  }

  /** Last write wins: option `j` of node `i` is indexed under node `i`
      unless a later node also holds an option with the same id. */
  lemma {:induction false} IndexLastOwner(nodes: seq<Node>, i: nat, j: nat)
    requires i < |nodes| && j < |nodes[i].options|
    requires forall k :: i < k < |nodes| ==> nodes[i].options[j].id !in IdSet(nodes[k].options)
    ensures nodes[i].options[j].id in GetNodesByOptionId(Some(nodes))
    ensures GetNodesByOptionId(Some(nodes))[nodes[i].options[j].id] == nodes[i]
  {
    var init := nodes[..|nodes| - 1];
    assert nodes[i].options[j] in nodes[i].options;
    if i < |nodes| - 1 {
      IndexLastOwner(init, i, j);
    }
  }

  /** Under the graph invariant each option id maps to the node owning it. */
  lemma IndexUnique(nodes: seq<Node>, i: nat, j: nat)
    requires UniqueOptionIds(nodes)
    requires i < |nodes| && j < |nodes[i].options|
    ensures nodes[i].options[j].id in GetNodesByOptionId(Some(nodes))
    ensures GetNodesByOptionId(Some(nodes))[nodes[i].options[j].id] == nodes[i]
  {
    forall k | i < k < |nodes| ensures nodes[i].options[j].id !in IdSet(nodes[k].options) {
      if nodes[i].options[j].id in IdSet(nodes[k].options) {
        var o :| o in nodes[k].options && o.id == nodes[i].options[j].id;
        var j' :| 0 <= j' < |nodes[k].options| && nodes[k].options[j'] == o;
        AllOptionsAt(nodes, i, j);
        AllOptionsAt(nodes, k, j');
        OffsetOrder(nodes, i, k);
        assert false;
      }
    }
    IndexLastOwner(nodes, i, j);
  }

  lemma IdSetSnoc(init: seq<DOption>, last: DOption)
    ensures IdSet(init + [last]) == IdSet(init) + {last.id}
  {
    IdSetConcat(init, [last]);
    assert IdSet([last]) == {last.id};
  }

  lemma IdNotIn(opts: seq<DOption>, x: string)
    requires forall k :: 0 <= k < |opts| ==> opts[k].id != x
    ensures x !in IdSet(opts)
  {
  }

  lemma {:induction false} DistinctIdCount(opts: seq<DOption>)
    requires forall k1, k2 :: 0 <= k1 < k2 < |opts| ==> opts[k1].id != opts[k2].id
    ensures |IdSet(opts)| == |opts|
  {
    if opts != [] {
      var init, last := opts[..|opts| - 1], opts[|opts| - 1];
      DistinctIdCount(init);
      forall k | 0 <= k < |init| ensures init[k].id != last.id {
        assert init[k] == opts[k];
      }
      IdNotIn(init, last.id);
      IdSetSnoc(init, last);
      assert opts == init + [last];
    }
  }

  /** Under the graph invariant the index has exactly one entry per option
      of the collection. */
  lemma IndexSize(nodes: seq<Node>)
    requires UniqueOptionIds(nodes)
    ensures |GetNodesByOptionId(Some(nodes))| == |AllOptions(nodes)|
  {
    IndexKeys(nodes);
    DistinctIdCount(AllOptions(nodes));
  }
}
