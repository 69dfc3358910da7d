/** The editor's generic helpers: `plural`, `keyBy` and `sortBy`. `keyBy`
    and `sortBy` take an accessor function in place of a field name. */
module Util {
  import opened Wrappers
  import opened Text

  // ---------------------------------------------------------------------
  // plural
  // ---------------------------------------------------------------------

  /** The word `plural` puts after the count: the singular exactly when the
      count is 1, otherwise the explicit plural form, or the singular with
      "s" appended when there is none. */
  function ChosenWord(count: int, singular: string, pluralForm: Option<string>): string {
    if count == 1 then singular else pluralForm.GetOr(singular + "s")
  }

  /** `plural(count, singular, pluralForm?)`: "<count> <word>". The count's
      numeral holds no space, so the first space of the text ends it and the
      chosen word follows. */
  function Plural(count: int, singular: string, pluralForm: Option<string>): (r: string)
    ensures IndexOf(r, ' ') == |IntToDecimal(count)| < |r|
    ensures r[..|IntToDecimal(count)|] == IntToDecimal(count)
    ensures r[|IntToDecimal(count)| + 1..] == ChosenWord(count, singular, pluralForm)
  {
    var digits := IntToDecimal(count);
    var r := digits + " " + ChosenWord(count, singular, pluralForm);
    assert r[|digits|] == ' ';
    r
  }

  /** Splits "<count> <word>" at its first space and reads the count back. */
  function ParsePlural(s: string): Option<(int, string)> {
    var k := IndexOf(s, ' ');
    if k == |s| then None
    else match ParseInt(s[..k])
      case None => None
      case Some(n) => Some((n, s[k + 1..]))
  }

  /** A formatted count reads back as the count and the chosen word. */
  lemma PluralRoundTrip(count: int, singular: string, pluralForm: Option<string>)
    ensures ParsePlural(Plural(count, singular, pluralForm))
         == Some((count, ChosenWord(count, singular, pluralForm)))
  {
    IntDecimalRoundTrip(count);
  }

  /** Without an explicit plural form, "s" is appended to the singular. */
  lemma PluralDefault(count: int, singular: string)
    ensures Plural(count, singular, None) == Plural(count, singular, Some(singular + "s"))
  {
  }

  /** The cases asserted for `plural`. */
  lemma PluralExamples()
    ensures Plural(0, "thing", None) == "0 things"
    ensures Plural(1, "thing", None) == "1 thing"
    ensures Plural(101, "thing", None) == "101 things"
    ensures Plural(0, "octopus", Some("octopi")) == "0 octopi"
    ensures Plural(1, "octopus", Some("octopi")) == "1 octopus"
    ensures Plural(101, "octopus", Some("octopi")) == "101 octopi"
  {
  }

  // ---------------------------------------------------------------------
  // keyBy
  // ---------------------------------------------------------------------

  /** `keyBy(field, items)`: each item under its key; a later item replaces
      an earlier one with the same key; `null` gives the empty map. */
  function KeyBy<T, K>(key: T -> K, items: Option<seq<T>>): (m: map<K, T>)
    ensures items.None? ==> m == map[]
  {
    match items
    case None => map[]
    case Some(s) => KeyBySeq(key, s)
  }

  function KeyBySeq<T, K>(key: T -> K, s: seq<T>): map<K, T> {
    if s == [] then map[]
    else KeyBySeq(key, s[..|s| - 1])[key(s[|s| - 1]) := s[|s| - 1]]
  }

  /** The keys are exactly the keys of the items. */
  lemma {:induction false} KeyByKeys<T, K>(key: T -> K, s: seq<T>)
    ensures KeyBySeq(key, s).Keys == set x | x in s :: key(x)
  {
    if s != [] {
      var init := s[..|s| - 1];
      KeyByKeys(key, init);
      assert s == init + [s[|s| - 1]];
      assert (set x | x in s :: key(x)) == (set x | x in init :: key(x)) + {key(s[|s| - 1])};
    }
  }

  /** Every entry is an item of the input stored under its own key. */
  lemma {:induction false} KeyByValues<T, K>(key: T -> K, s: seq<T>, k: K)
    requires k in KeyBySeq(key, s)
    ensures KeyBySeq(key, s)[k] in s && key(KeyBySeq(key, s)[k]) == k
  {
    var init := s[..|s| - 1];
    if k != key(s[|s| - 1]) {
      KeyByValues(key, init, k);
    }
  }

  /** Last write wins: an item no later item shares a key with is the entry
      under its key. */
  lemma {:induction false} KeyByLastWins<T, K>(key: T -> K, s: seq<T>, i: nat)
    requires i < |s|
    requires forall j :: i < j < |s| ==> key(s[j]) != key(s[i])
    ensures key(s[i]) in KeyBySeq(key, s) && KeyBySeq(key, s)[key(s[i])] == s[i]
  {
    if i < |s| - 1 {
      KeyByLastWins(key, s[..|s| - 1], i);
    }
  }

  /** With distinct keys every item is retrievable under its own key and the
      map has one entry per item. */
  lemma {:induction false} KeyByDistinct<T, K>(key: T -> K, s: seq<T>)
    requires forall i, j :: 0 <= i < j < |s| ==> key(s[i]) != key(s[j])
    ensures forall i :: 0 <= i < |s| ==> key(s[i]) in KeyBySeq(key, s) && KeyBySeq(key, s)[key(s[i])] == s[i]
    ensures |KeyBySeq(key, s)| == |s|
  {
    forall i | 0 <= i < |s| ensures key(s[i]) in KeyBySeq(key, s) && KeyBySeq(key, s)[key(s[i])] == s[i] {
      KeyByLastWins(key, s, i);
    }
    if s != [] {
      var init := s[..|s| - 1];
      KeyByDistinct(key, init);
      var last := s[|s| - 1];
      if key(last) in KeyBySeq(key, init) {
        KeyByValues(key, init, key(last));
        assert false;
      }
    }
  }

  // ---------------------------------------------------------------------
  // sortBy
  // ---------------------------------------------------------------------

  /** Ascending by key. */
  ghost predicate SortedBy<T>(key: T -> string, s: seq<T>) {
    forall i, j :: 0 <= i < j < |s| ==> StrLe(key(s[i]), key(s[j]))
  }

  /** The items whose key is `k`, in their order. */
  function WithKey<T>(key: T -> string, s: seq<T>, k: string): seq<T> {
    if s == [] then []
    else (if key(s[0]) == k then [s[0]] else []) + WithKey(key, s[1..], k)
  }

  /** Puts `x` before the first item whose key it does not exceed, so that it
      precedes every item with an equal key. */
  function Insert<T>(key: T -> string, x: T, s: seq<T>): (r: seq<T>)
    ensures multiset(r) == multiset(s) + multiset{x}
  {
    if s == [] then [x]
    else if StrLe(key(x), key(s[0])) then [x] + s
    else assert s == [s[0]] + s[1..]; [s[0]] + Insert(key, x, s[1..])
  }

  /** `sortBy(field, items)`: a new sequence, a stable insertion sort of the
      input by key. The input is a value and is left as it was. */
  function SortBy<T>(key: T -> string, items: seq<T>): (r: seq<T>)
    ensures multiset(r) == multiset(items)
  {
    if items == [] then []
    else assert items == [items[0]] + items[1..]; Insert(key, items[0], SortBy(key, items[1..]))
  }

  lemma {:induction false} InsertSorted<T>(key: T -> string, x: T, s: seq<T>)
    requires SortedBy(key, s)
    ensures SortedBy(key, Insert(key, x, s))
  {
    if s == [] {
    } else if StrLe(key(x), key(s[0])) {
      forall j | 0 <= j < |s| ensures StrLe(key(x), key(s[j])) {
        if j > 0 {
          StrLeTransitive(key(x), key(s[0]), key(s[j]));
        }
      }
    } else {
      StrLeTotal(key(x), key(s[0]));
      var rest := Insert(key, x, s[1..]);
      InsertSorted(key, x, s[1..]);
      forall j | 0 <= j < |rest| ensures StrLe(key(s[0]), key(rest[j])) {
        assert rest[j] in multiset(rest);
        if rest[j] != x {
          assert rest[j] in multiset(s[1..]);
          var k :| 0 <= k < |s[1..]| && s[1..][k] == rest[j];
          assert s[k + 1] == rest[j];
        }
      }
      var r := [s[0]] + rest;
      forall a, b | 0 <= a < b < |r| ensures StrLe(key(r[a]), key(r[b])) {
        if a > 0 {
          assert r[a] == rest[a - 1] && r[b] == rest[b - 1];
        }
      }
    }
  }

  /** The result is in ascending key order. */
  lemma {:induction false} SortBySorted<T>(key: T -> string, items: seq<T>)
    ensures SortedBy(key, SortBy(key, items))
  {
    if items != [] {
      SortBySorted(key, items[1..]);
      InsertSorted(key, items[0], SortBy(key, items[1..]));
    }
  }

  lemma {:induction false} InsertWithKey<T>(key: T -> string, x: T, s: seq<T>, k: string)
    ensures WithKey(key, Insert(key, x, s), k)
         == (if key(x) == k then [x] else []) + WithKey(key, s, k)
  {
    if s == [] {
    } else if StrLe(key(x), key(s[0])) {
      assert ([x] + s)[1..] == s;
    } else {
      InsertWithKey(key, x, s[1..], k);
      assert ([s[0]] + Insert(key, x, s[1..]))[1..] == Insert(key, x, s[1..]);
      if key(s[0]) == k && key(x) == k {
        StrLeReflexive(k);
        assert false;
      }
    }
  }

  /** Stability: for every key, the items carrying it come out in the order
      they went in. */
  lemma {:induction false} SortByStable<T>(key: T -> string, items: seq<T>, k: string)
    ensures WithKey(key, SortBy(key, items), k) == WithKey(key, items, k)
  {
    if items != [] {
      SortByStable(key, items[1..], k);
      InsertWithKey(key, items[0], SortBy(key, items[1..]), k);
    }
  }

  lemma {:induction false} WithKeyMember<T>(key: T -> string, s: seq<T>, k: string, y: T)
    ensures y in WithKey(key, s, k) <==> y in s && key(y) == k
  {
    if s != [] {
      WithKeyMember(key, s[1..], k, y);
      assert s == [s[0]] + s[1..];
    }
  }

  /** Two sorted sequences that agree, key by key, on the items carrying each
      key are equal. */
  lemma {:induction false} SortedUnique<T>(key: T -> string, r: seq<T>, t: seq<T>)
    requires SortedBy(key, r) && SortedBy(key, t)
    requires forall k :: WithKey(key, r, k) == WithKey(key, t, k)
    ensures r == t
  {
    if r != [] {
      WithKeyMember(key, r, key(r[0]), r[0]);
      WithKeyMember(key, t, key(r[0]), r[0]);
      assert t != [];
      WithKeyMember(key, t, key(t[0]), t[0]);
      WithKeyMember(key, r, key(t[0]), t[0]);
      var i :| 0 <= i < |r| && r[i] == t[0];
      var j :| 0 <= j < |t| && t[j] == r[0];
      assert StrLe(key(r[0]), key(t[0])) by {
        if i > 0 { } else { StrLeReflexive(key(r[0])); }
      }
      assert StrLe(key(t[0]), key(r[0])) by {
        if j > 0 { } else { StrLeReflexive(key(t[0])); }
      }
      StrLeAntisymmetric(key(r[0]), key(t[0]));
      var k0 := key(r[0]);
      var wr, wt := WithKey(key, r[1..], k0), WithKey(key, t[1..], k0);
      assert WithKey(key, r, k0) == [r[0]] + wr;
      assert WithKey(key, t, k0) == [t[0]] + wt;
      assert WithKey(key, r, k0) == WithKey(key, t, k0);
      assert ([r[0]] + wr)[0] == r[0] && ([t[0]] + wt)[0] == t[0];
      assert r[0] == t[0];
      assert ([r[0]] + wr)[1..] == wr && ([t[0]] + wt)[1..] == wt;
      assert wr == wt;
      forall k ensures WithKey(key, r[1..], k) == WithKey(key, t[1..], k) {
        if k != k0 {
          assert WithKey(key, r, k) == WithKey(key, t, k);
          assert [] + WithKey(key, r[1..], k) == WithKey(key, r[1..], k);
          assert [] + WithKey(key, t[1..], k) == WithKey(key, t[1..], k);
          assert WithKey(key, r[1..], k) == WithKey(key, t[1..], k);
        } else {
          assert WithKey(key, r[1..], k) == wr;
          assert WithKey(key, t[1..], k) == wt;
        }
      }
      SortedUnique(key, r[1..], t[1..]);
      assert r == [r[0]] + r[1..] && t == [t[0]] + t[1..];
    }
  }

  /** `SortBy` is the one stable sort: any sequence sorted by key that keeps,
      for every key, the items carrying it in input order is its result. */
  lemma SortByUnique<T>(key: T -> string, items: seq<T>, r: seq<T>)
    requires SortedBy(key, r)
    requires forall k :: WithKey(key, r, k) == WithKey(key, items, k)
    ensures r == SortBy(key, items)
  {
    SortBySorted(key, items);
    forall k ensures WithKey(key, r, k) == WithKey(key, SortBy(key, items), k) {
      SortByStable(key, items, k);
    }
    SortedUnique(key, r, SortBy(key, items));
  }
}
