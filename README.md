# SayWhat node-graph helpers, modelled in Dafny

SayWhat is a dialogue editor. A conversation is a graph of **nodes**. Each
node has a name, a list of **lines** (condition, character, dialogue,
mutation) and a list of **options**. An option is a player choice, with a
condition and a prompt. It leads to another node through `nextNodeId`, and it
keeps a cached copy of that node's name in `nextNodeName`. The editor's
utility module holds the pure helpers modelled here:

- `plural(count, singular, pluralForm?)` formats "<count> <word>".
- `keyBy(field, items)` builds a dictionary from a list.
- `sortBy(field, items)` returns a new list sorted stably by a field.
- `findLinksToNode(target, nodes)` returns the ids of the options that lead
  to `target`.
- `filterNodes(query, nodes)` is the editor's case-insensitive search.
- `getNodesByOptionId(nodes)` indexes every option id to the node that owns
  it.

The behaviour comes from the assertions of the helpers' test suite,
`renderer/lib/util.test.ts`. The module it imports as `./util` is not part
of this model, so every row below cites the test lines whose behaviour it
states. A JavaScript `null` argument becomes `None` of an
`Option`. `keyBy` and `sortBy` take an accessor function (`T -> K`) in place
of a field name.

Files:

- `wrappers.dfy`: `Option`.
- `text.dfy`: ASCII lower-casing, substring search (`includes`), decimal
  rendering of integers and code-point string order.
- `types.dfy`: `Node`, `Line`, `DOption`, and the flat list of all options.
- `util.dfy`: `plural`, `keyBy`, `sortBy`.
- `node_util.dfy`: `findLinksToNode`, `filterNodes`, `getNodesByOptionId`.
- `fixtures.dfy`: the test suite's scenarios replayed on the model.

Fixtures use fixed ids where the tests generate them.

The search's transitive rule comes from the option's cached `nextNodeName`.
A node that links to a node whose name matches the query is found because
its option's `nextNodeName` holds that name. That field is searched as text
like every other field, so "next_sl" finds an option whose `nextNodeName` is
"next_slug" (`renderer/lib/util.test.ts:274-275`). The model does not
resolve `nextNodeId` to look up the target's current name.

## Model

| member | source | states |
|---|---|---|
| Util.Plural | renderer/lib/util.test.ts:6-21 | the text is the count's decimal numeral, one space, then the chosen word; the numeral holds no space, so the first space of the text separates the two |
| Util.PluralRoundTrip | renderer/lib/util.test.ts:6-21 | reading back the formatted text gives the count and the chosen word: the singular exactly when the count is 1, otherwise the explicit plural form, or the singular with "s" appended |
| Util.PluralDefault | renderer/lib/util.test.ts:7-13 | with no plural form given, the default plural is the singular with "s" appended |
| Util.PluralExamples | renderer/lib/util.test.ts:6-21 | the six asserted cases: "0 things", "1 thing", "101 things", "0 octopi", "1 octopus", "101 octopi" |
| Text.IntDecimalRoundTrip | renderer/lib/util.test.ts:10-20 | the count's decimal rendering, with a sign for negative counts, reads back as the same integer |
| Util.KeyBy | renderer/lib/util.test.ts:28 | a `null` list gives the empty map |
| Util.KeyByKeys | renderer/lib/util.test.ts:45-49 | the map's keys are exactly the keys of the items |
| Util.KeyByValues | renderer/lib/util.test.ts:45-49 | every entry is an item of the input, stored under its own key |
| Util.KeyByLastWins | renderer/lib/util.test.ts:45-49 | an item that no later item shares a key with is the entry under its key (last write wins) |
| Util.KeyByDistinct | renderer/lib/util.test.ts:45-49 | with distinct keys, every item is found under its own key, and the map has one entry per item |
| Fixtures.KeyBySlugs | renderer/lib/util.test.ts:30-49 | the asserted example: each of "first", "second", "third" maps to the item with that slug |
| Util.Insert | renderer/lib/util.test.ts:76-88 | inserting one item gives a permutation of the sequence plus that item |
| Util.SortBy | renderer/lib/util.test.ts:76-88 | the result is a permutation of the input |
| Util.SortBySorted | renderer/lib/util.test.ts:84-88 | the result is in ascending key order |
| Util.SortByStable | renderer/lib/util.test.ts:84-88 | for every key, the items carrying it keep their input order |
| Util.SortByUnique | renderer/lib/util.test.ts:76-88 | any sequence sorted by key that keeps, key by key, the input order of equal items equals the result: the stable sort is unique |
| Util.InsertSorted | renderer/lib/util.test.ts:84-88 | inserting into a sorted sequence keeps it sorted |
| Util.InsertWithKey | renderer/lib/util.test.ts:84-88 | inserting puts the new item before every item with an equal key and leaves the order of the other keys' items alone |
| Util.SortedUnique | renderer/lib/util.test.ts:84-88 | two sorted sequences that agree, key by key, on the items carrying each key are equal |
| Text.StrLeTotal | renderer/lib/util.test.ts:76 | any two keys are comparable |
| Text.StrLeTransitive | renderer/lib/util.test.ts:76 | the key order is transitive |
| Text.StrLeAntisymmetric | renderer/lib/util.test.ts:76 | keys that sort no later than each other both ways are equal |
| Fixtures.SortByValues | renderer/lib/util.test.ts:57-88 | the asserted example: values b, c, a, a sort to third, fourth, first, second, so the two "a" items keep their order |
| NodeUtil.FindLinksToNode | renderer/lib/util.test.ts:148 | a `null` target or a `null` collection gives no links |
| NodeUtil.FindLinksMember | renderer/lib/util.test.ts:150-153 | an id is reported exactly when some option of some node carries it and leads to the target; options that lead elsewhere are not reported |
| NodeUtil.FindLinksOrder | renderer/lib/util.test.ts:150-153 | of two linking options, the one in an earlier node, or earlier in the same node, is reported first |
| NodeUtil.LinksInFlat | renderer/lib/util.test.ts:150-153 | the node-by-node scan equals one filter over the flat list of all options |
| Fixtures.FindLinksExample | renderer/lib/util.test.ts:96-153 | the asserted example: no links for a `null` target; otherwise the ids of link1's second option and link2's option, in that order |
| NodeUtil.FilterNodes | renderer/lib/util.test.ts:158-162 | a `null` collection gives no nodes |
| NodeUtil.FilterMember | renderer/lib/util.test.ts:164-276 | a node is in the result exactly when it is in the collection and matches the query on its name, a line field or an option field, ignoring case |
| NodeUtil.FilterPositions | renderer/lib/util.test.ts:197-205 | the result holds the collection's nodes at exactly the matching positions, in increasing order |
| NodeUtil.FilterIdempotent | renderer/lib/util.test.ts:164-276 | filtering the result again with the same query changes nothing |
| Text.ContainsIff | renderer/lib/util.test.ts:229-275 | the substring search succeeds exactly when the query occurs at some position |
| Text.CaseInsensitive | renderer/lib/util.test.ts:235-272 | changing the case of any ASCII letters of the field or of the query keeps the answer |
| Text.LowerSameUpToCase | renderer/lib/util.test.ts:235-272 | strings that differ only in the case of ASCII letters lower-case to the same string |
| NodeUtil.FilterQueryCase | renderer/lib/util.test.ts:229-275 | for every collection, two queries that differ only in letter case give the same result |
| Fixtures.FilterBySlug | renderer/lib/util.test.ts:161-205 | the asserted example: "slug2" finds only slug2, and "slug1" finds slug1 and slug3, which links to it, in that order |
| Fixtures.FilterByLines | renderer/lib/util.test.ts:208-243 | the asserted example: "No matches" finds nothing; "condition", "character", "dialog" and "mutat" each find the node through its line |
| Fixtures.FilterByOptions | renderer/lib/util.test.ts:245-276 | the asserted example: "No matches" finds nothing; "condition", "prompt" and "next_sl" each find the node through its option |
| NodeUtil.GetNodesByOptionId | renderer/lib/util.test.ts:280-284 | a `null` collection gives the empty map |
| NodeUtil.IndexKeys | renderer/lib/util.test.ts:325-327 | the keys are exactly the ids of all options of all nodes |
| NodeUtil.IndexOwner | renderer/lib/util.test.ts:325-330 | every entry maps an id to a node of the collection that owns an option with that id (the owner, not the target) |
| NodeUtil.IndexLastOwner | renderer/lib/util.test.ts:325-330 | an option id maps to its own node unless a later node also holds an option with that id |
| NodeUtil.IndexUnique | renderer/lib/util.test.ts:325-330 | when option ids are unique across the collection, every option's id maps to the node that owns it |
| NodeUtil.IndexSize | renderer/lib/util.test.ts:327 | when option ids are unique, the index has one entry per option of the collection |
| Fixtures.IndexExample | renderer/lib/util.test.ts:283-330 | the asserted example: no keys for `null`; three entries, with option1 and option2 under node1 and option3 under node2 |

## Left out

- `copyToClipboard` (`renderer/lib/util.test.ts:334-354`): it writes to the browser document and the clipboard, which is I/O.
- The `LinkToNode` component test: it renders user-interface markup, not a helper.
- `uuid()`: id generation is random. The fixtures use fixed distinct ids instead.
- `updatedAt`: it is carried on `Node` and never inspected.
- `plural` with a non-integer count: the model's count is an integer. JavaScript's rendering of fractions and of `NaN` is not modelled.
- `plural` with a count of magnitude 10^21 or more, or beyond 2^53: JavaScript writes the first in exponent form and cannot hold the second exactly. The model writes every integer out in full.
- `plural` with an empty explicit plural form: the model uses it as given, like a default parameter. It does not fall back to the singular with "s" appended, as `pluralForm || singular + "s"` would.
- `filterNodes` lower-cases ASCII letters only. Unicode case folding of `toLowerCase` is not modelled.
- `filterNodes` with an empty query: no test asserts it. The model's substring search finds the empty string in every name, so every node matches.
- `filterNodes` on an optional line or option field that is missing: the model says that field never matches. JavaScript behaviour on `undefined` fields is not asserted by the tests.
- `filterNodes` does not resolve `nextNodeId` to the target's current name. It searches the cached `nextNodeName` only, which is what the tests exercise.
- `sortBy` compares keys lexicographically by code point. This agrees with JavaScript `<` on strings for characters in the Basic Multilingual Plane. Locale-aware comparison and numeric keys are not modelled.
- `sortBy`: keys holding characters outside the Basic Multilingual Plane are ordered by code point, not by UTF-16 code unit as in JavaScript.
- `sortBy` not mutating its input: the test checks this at `renderer/lib/util.test.ts:78-82`. Dafny sequences are values, so it holds by construction and has no lemma.
- `keyBy` and `sortBy` take an accessor function, not a field name. Reading a field by its name at run time has no counterpart in Dafny.
- NodeUtil.IndexSize: requires option ids to be unique across the collection. With a repeated id, the later node owns the entry and the index has fewer entries than options, as `NodeUtil.IndexLastOwner` states.
