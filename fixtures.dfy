/** The scenarios of the helpers' test suite, replayed on the model with
    fixed ids in place of generated ones. */
module Fixtures {
  import opened Wrappers
  import opened Text
  import opened Types
  import opened Util
  import opened NodeUtil

  // ---------------------------------------------------------------------
  // keyBy and sortBy
  // ---------------------------------------------------------------------

  datatype Item = Item(slug: string, value: string)

  function Slug(x: Item): string { x.slug }
  function Value(x: Item): string { x.value }

  lemma KeyBySlugs()
    ensures var input := [Item("first", "The first one"), Item("second", "The second thing"), Item("third", "Last one")];
            var bySlug := KeyBy(Slug, Some(input));
            && "first" in bySlug && bySlug["first"].value == input[0].value
            && "second" in bySlug && bySlug["second"].value == input[1].value
            && "third" in bySlug && bySlug["third"].value == input[2].value
  {
    var input := [Item("first", "The first one"), Item("second", "The second thing"), Item("third", "Last one")];
    assert "first"[0] != "second"[0] && "first"[0] != "third"[0] && "second"[0] != "third"[0];
    KeyByDistinct(Slug, input);
    assert Slug(input[0]) == "first" && Slug(input[1]) == "second" && Slug(input[2]) == "third";
  }

  lemma InsertLastTwo(x: Item, y: Item)
    requires x.value == "a" && y.value == "a"
    ensures SortBy(Value, [x, y]) == [x, y]
  {
    assert [x, y][1..] == [y];
    assert StrLe("a", "a");
  }

  lemma InsertPastTwo(x: Item, a: Item, b: Item)
    requires x.value == "c" && a.value == "a" && b.value == "a"
    ensures Insert(Value, x, [a, b]) == [a, b, x]
  {
    assert !StrLe("c", "a");
    assert [a, b][1..] == [b] && [b][1..] == [];
    assert Insert(Value, x, [b]) == [b] + Insert(Value, x, []);
  }

  lemma InsertThird(x: Item, a: Item, b: Item, c: Item)
    requires x.value == "b" && a.value == "a" && b.value == "a" && c.value == "c"
    ensures Insert(Value, x, [a, b, c]) == [a, b, x, c]
  {
    assert !StrLe("b", "a") && StrLe("b", "c");
    assert [a, b, c][1..] == [b, c] && [b, c][1..] == [c];
    assert Insert(Value, x, [b, c]) == [b] + Insert(Value, x, [c]);
  }

  lemma SortByTail(second: Item, third: Item, fourth: Item)
    requires second.value == "c" && third.value == "a" && fourth.value == "a"
    ensures SortBy(Value, [second, third, fourth]) == [third, fourth, second]
  {
    assert [second, third, fourth][1..] == [third, fourth];
    InsertLastTwo(third, fourth);
    InsertPastTwo(second, third, fourth);
  }

  /** Sorting by value puts "third" before "fourth" (both "a"), then "first"
      and "second", whatever else the items hold. */
  lemma SortByValues(first: Item, second: Item, third: Item, fourth: Item)
    requires first.value == "b" && second.value == "c" && third.value == "a" && fourth.value == "a"
    ensures SortBy(Value, [first, second, third, fourth]) == [third, fourth, first, second]
  {
    assert [first, second, third, fourth][1..] == [second, third, fourth];
    SortByTail(second, third, fourth);
    InsertThird(first, third, fourth, second);
  }

  // ---------------------------------------------------------------------
  // findLinksToNode
  // ---------------------------------------------------------------------

  function Opt(id: string, next: Option<string>): DOption {
    DOption(id, None, None, next, None)
  }

  function Target(): Node { Node("target", "Target Node", None, [], []) }

  function LinkNodes(): seq<Node> {
    [ Target(),
      Node("n1", "link1", None, [], [Opt("o1", Some("elsewhere1")), Opt("o2", Some("target"))]),
      Node("n2", "link2", None, [], [Opt("o3", Some("target"))]),
      Node("n3", "no_link", None, [], [Opt("o4", Some("elsewhere2"))]) ]
  }

  lemma FindLinksExample()
    ensures FindLinksToNode(None, Some(LinkNodes())) == []
    ensures FindLinksToNode(Some(Target()), Some(LinkNodes()))
         == [LinkNodes()[1].options[1].id, LinkNodes()[2].options[0].id]
  {
    var nodes := LinkNodes();
    assert "elsewhere1" != "target" && "elsewhere2" != "target";
    assert LinksFrom("target", nodes[0].options) == [];
    assert LinksFrom("target", nodes[1].options) == ["o2"];
    assert LinksFrom("target", nodes[2].options) == ["o3"];
    assert LinksFrom("target", nodes[3].options) == [];
    assert nodes[1..][1..][1..] == [nodes[3]];
    assert LinksIn("target", nodes[1..][1..][1..]) == [];
  }

  // ---------------------------------------------------------------------
  // filterNodes
  // ---------------------------------------------------------------------

  lemma SlugsMatch(a: string, b: string)
    requires a in ["slug1", "slug2", "slug3"] && b in ["slug1", "slug2"]
    ensures ContainsIgnoreCase(a, b) <==> a == b
  {
    assert Lower(a) == a && Lower(b) == b;
    ContainsSameLength(a, b);
    assert "slug1"[4] != "slug2"[4] && "slug3"[4] != "slug1"[4] && "slug3"[4] != "slug2"[4];
  }

  lemma Select1<T>(p: T -> bool, x: T)
    ensures Select(p, [x]) == if p(x) then [x] else []
  {
    assert [x][1..] == [];
  }

  lemma Select3<T>(p: T -> bool, s: seq<T>)
    requires |s| == 3
    ensures Select(p, s) == (if p(s[0]) then [s[0]] else []) + (if p(s[1]) then [s[1]] else [])
                            + (if p(s[2]) then [s[2]] else [])
  {
    var t := s[1..];
    assert t[1..] == [s[2]] && t[1..][1..] == [];
    assert Select(p, t[1..]) == (if p(s[2]) then [s[2]] else []);
    assert Select(p, t) == (if p(s[1]) then [s[1]] else []) + Select(p, t[1..]);
  }

  /** Nodes named "slug1" and "slug2" with no lines and no options. */
  lemma PlainNodeMatch(n: Node)
    requires n.name in ["slug1", "slug2"] && n.lines == [] && n.options == []
    ensures NodeMatches(n, "slug1") <==> n.name == "slug1"
    ensures NodeMatches(n, "slug2") <==> n.name == "slug2"
  {
    SlugsMatch(n.name, "slug1");
    SlugsMatch(n.name, "slug2");
  }

  /** The node "slug3", whose one option names "slug1" as its next node. */
  lemma LinkingNodeMatch(n: Node, link: DOption)
    requires n.name == "slug3" && n.lines == [] && n.options == [link]
    requires link.condition == None && link.prompt == None && link.nextNodeName == Some("slug1")
    ensures NodeMatches(n, "slug1") && !NodeMatches(n, "slug2")
  {
    SlugsMatch("slug1", "slug1");
    SlugsMatch("slug1", "slug2");
    SlugsMatch("slug3", "slug1");
    SlugsMatch("slug3", "slug2");
    assert OptionMatches(link, "slug1") && !OptionMatches(link, "slug2");
    assert link in n.options;
  }

  /** Searching for a name finds that node, and "slug3" as well because its
      option's cached `nextNodeName` is "slug1" (whatever its `nextNodeId`). */
  lemma FilterBySlug(n1: Node, n2: Node, n3: Node, link: DOption)
    requires n1.name == "slug1" && n1.lines == [] && n1.options == []
    requires n2.name == "slug2" && n2.lines == [] && n2.options == []
    requires n3.name == "slug3" && n3.lines == [] && n3.options == [link]
    requires link.condition == None && link.prompt == None && link.nextNodeName == Some("slug1")
    ensures FilterNodes("test", None) == []
    ensures FilterNodes("slug2", Some([n1, n2, n3])) == [n2]
    ensures FilterNodes("slug1", Some([n1, n2, n3])) == [n1, n3]
  {
    PlainNodeMatch(n1);
    PlainNodeMatch(n2);
    LinkingNodeMatch(n3, link);
    Select3(n => NodeMatches(n, "slug2"), [n1, n2, n3]);
    Select3(n => NodeMatches(n, "slug1"), [n1, n2, n3]);
  }

  /** No field without a space matches the query "No matches". */
  lemma NoSpaceNoMatch(s: string)
    requires ' ' !in s
    ensures !ContainsIgnoreCase(s, "No matches")
  {
    if ContainsIgnoreCase(s, "No matches") {
      assert Lower("No matches")[2] == ' ';
      ContainsChars(Lower(s), Lower("No matches"), ' ');
    }
  }

  /** Filtering a single node keeps it exactly when it matches. */
  lemma FilterOne(query: string, n: Node)
    ensures FilterNodes(query, Some([n])) == if NodeMatches(n, query) then [n] else []
  {
    Select1(n => NodeMatches(n, query), n);
  }

  lemma LineFieldsMatch()
    ensures ContainsIgnoreCase("condition=1", "condition")
    ensures ContainsIgnoreCase("Character", "character")
    ensures ContainsIgnoreCase("Dialogue", "dialog")
    ensures ContainsIgnoreCase("mutation", "mutat")
    ensures !ContainsIgnoreCase("slug1", "No matches")
    ensures !ContainsIgnoreCase("condition=1", "No matches")
    ensures !ContainsIgnoreCase("Character", "No matches")
    ensures !ContainsIgnoreCase("Dialogue", "No matches")
    ensures !ContainsIgnoreCase("mutation", "No matches")
  {
    assert Lower("condition") <= Lower("condition=1");
    assert Lower("character") <= Lower("Character");
    assert Lower("dialog") <= Lower("Dialogue");
    assert Lower("mutat") <= Lower("mutation");
    NoSpaceNoMatch("slug1");
    NoSpaceNoMatch("condition=1");
    NoSpaceNoMatch("Character");
    NoSpaceNoMatch("Dialogue");
    NoSpaceNoMatch("mutation");
  }

  /** Every line field is searched, ignoring case. */
  lemma FilterByLines(n: Node, line: Line)
    requires n.name == "slug1" && n.lines == [line] && n.options == []
    requires line.condition == Some("condition=1") && line.character == Some("Character")
    requires line.dialogue == "Dialogue" && line.mutation == Some("mutation")
    ensures FilterNodes("No matches", Some([n])) == []
    ensures |FilterNodes("condition", Some([n]))| == 1
    ensures |FilterNodes("character", Some([n]))| == 1
    ensures |FilterNodes("dialog", Some([n]))| == 1
    ensures |FilterNodes("mutat", Some([n]))| == 1
  {
    LineFieldsMatch();
    assert line in n.lines;
    assert !LineMatches(line, "No matches");
    assert !NodeMatches(n, "No matches");
    FilterOne("No matches", n);
    assert LineMatches(line, "condition");
    FilterOne("condition", n);
    assert LineMatches(line, "character");
    FilterOne("character", n);
    assert LineMatches(line, "dialog");
    FilterOne("dialog", n);
    assert LineMatches(line, "mutat");
    FilterOne("mutat", n);
  }

  lemma OptionFieldsMatch()
    ensures ContainsIgnoreCase("condition=1", "condition")
    ensures ContainsIgnoreCase("Prompt", "prompt")
    ensures ContainsIgnoreCase("next_slug", "next_sl")
    ensures !ContainsIgnoreCase("slug1", "No matches")
    ensures !ContainsIgnoreCase("condition=1", "No matches")
    ensures !ContainsIgnoreCase("Prompt", "No matches")
    ensures !ContainsIgnoreCase("next_slug", "No matches")
  {
    assert Lower("condition") <= Lower("condition=1");
    assert Lower("prompt") <= Lower("Prompt");
    assert Lower("next_sl") <= Lower("next_slug");
    NoSpaceNoMatch("slug1");
    NoSpaceNoMatch("condition=1");
    NoSpaceNoMatch("Prompt");
    NoSpaceNoMatch("next_slug");
  }

  /** Every option field is searched, ignoring case, the cached name of the
      next node included. */
  lemma FilterByOptions(n: Node, option: DOption)
    requires n.name == "slug1" && n.lines == [] && n.options == [option]
    requires option.condition == Some("condition=1") && option.prompt == Some("Prompt")
    requires option.nextNodeName == Some("next_slug")
    ensures FilterNodes("No matches", Some([n])) == []
    ensures |FilterNodes("condition", Some([n]))| == 1
    ensures |FilterNodes("prompt", Some([n]))| == 1
    ensures |FilterNodes("next_sl", Some([n]))| == 1
  {
    OptionFieldsMatch();
    assert option in n.options;
    assert !OptionMatches(option, "No matches");
    assert !NodeMatches(n, "No matches");
    FilterOne("No matches", n);
    assert OptionMatches(option, "condition");
    FilterOne("condition", n);
    assert OptionMatches(option, "prompt");
    FilterOne("prompt", n);
    assert OptionMatches(option, "next_sl");
    FilterOne("next_sl", n);
  }

  // ---------------------------------------------------------------------
  // getNodesByOptionId
  // ---------------------------------------------------------------------

  /** Three options over two nodes give three entries, each mapped to its
      owner rather than to the node it leads to. */
  lemma IndexExample(n1: Node, n2: Node, o1: DOption, o2: DOption, o3: DOption)
    requires n1.id == "node1" && n1.options == [o1, o2]
    requires n2.id == "node2" && n2.options == [o3]
    requires o1.id == "option1" && o2.id == "option2" && o3.id == "option3"
    ensures |GetNodesByOptionId(None)| == 0
    ensures var byOptionId := GetNodesByOptionId(Some([n1, n2]));
            && |byOptionId| == 3
            && "option1" in byOptionId && byOptionId["option1"].id == "node1"
            && "option2" in byOptionId && byOptionId["option2"].id == "node1"
            && "option3" in byOptionId && byOptionId["option3"].id == "node2"
  {
    var nodes := [n1, n2];
    assert nodes[1..] == [n2] && nodes[1..][1..] == [];
    assert AllOptions([n2]) == [o3] + AllOptions([]);
    assert AllOptions(nodes) == [o1, o2] + AllOptions([n2]);
    assert AllOptions(nodes) == [o1, o2, o3];
    assert "option1"[6] != "option2"[6] && "option1"[6] != "option3"[6] && "option2"[6] != "option3"[6];
    IndexSize(nodes);
    IndexUnique(nodes, 0, 0);
    IndexUnique(nodes, 0, 1);
    IndexUnique(nodes, 1, 0);
  }
}
