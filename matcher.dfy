/** The cart matcher: every stored row whose antecedent items all lie in the
    cart, ranked by confidence, highest first (DB_Class/app.py:47-62). */
module Matcher {
  import opened Text
  import opened RuleStore

  /** The set of items in a row's antecedent text split on the separator.
      Never empty, because a split
      always yields at least one piece. */
  function AntecedentSet(row: Row): (items: set<string>)
    ensures items != {}
  {
    var parts := Split(row.antecedents, Delimiter);
    var items := set x | x in parts;
    assert parts[0] in items;
    items
  }

  /** The row's antecedent set is a subset of the cart. */
  predicate Matches(row: Row, cart: set<string>) {
    AntecedentSet(row) <= cart
  }

  /** The rows the loop of DB_Class/app.py:54-57 keeps, in table order.
      Every kept row matches, and every row that matches is kept as often as
      it occurs. */
  function Filter(rows: seq<Row>, cart: set<string>): (kept: seq<Row>)
    ensures forall x :: multiset(kept)[x] == if Matches(x, cart) then multiset(rows)[x] else 0
  {
    if rows == [] then []
    else
      var init, last := rows[..|rows| - 1], rows[|rows| - 1];
      assert rows == init + [last];
      Filter(init, cart) + if Matches(last, cart) then [last] else []
  }

  /** Confidence never increases along `s`. */
  predicate SortedByConfidence(s: seq<Row>) {
    forall i, j :: 0 <= i < j < |s| ==> s[i].confidence >= s[j].confidence
  }

  /** No row of `s` has confidence above `c`. */
  predicate AtMost(s: seq<Row>, c: real) {
    forall k :: 0 <= k < |s| ==> s[k].confidence <= c
  }

  /** `row` goes into the confidence-ordered `s` ahead of the first row of
      lower confidence. */
  function Insert(row: Row, s: seq<Row>): (r: seq<Row>)
    requires SortedByConfidence(s)
    ensures SortedByConfidence(r)
    ensures multiset(r) == multiset(s) + multiset{row}
    ensures forall c :: AtMost(s, c) && row.confidence <= c ==> AtMost(r, c)
  {
    if s == [] || row.confidence >= s[0].confidence then
      ConsSorted(row, s);
      [row] + s
    else
      var tail := Insert(row, s[1..]);
      ConsSorted(s[0], tail);
      assert s == [s[0]] + s[1..];
      [s[0]] + tail
  }

  /** A row no lower than every row of a sorted list can go in front of it,
      and a bound on both is a bound on the result. */
  lemma ConsSorted(head: Row, s: seq<Row>)
    requires SortedByConfidence(s)
    requires s == [] || head.confidence >= s[0].confidence || AtMost(s, head.confidence)
    ensures SortedByConfidence([head] + s)
    ensures forall c :: AtMost(s, c) && head.confidence <= c ==> AtMost([head] + s, c)
  {
  }

  /** The pandas sort on confidence, descending: the same rows, with
      confidence never increasing. The order among rows of equal confidence
      is the one this insertion sort gives; pandas' sort promises none. */
  function SortByConfidence(s: seq<Row>): (r: seq<Row>)
    ensures SortedByConfidence(r)
    ensures multiset(r) == multiset(s)
  {
    if s == [] then []
    else
      assert s == [s[0]] + s[1..];
      Insert(s[0], SortByConfidence(s[1..]))
  }

  /** `query_rules_from_db`: read every row of the table, keep those whose
      antecedent set is a subset of the cart, and sort them by confidence,
      highest first. The table is only read. */
  method QueryRules(store: Store, cartItems: seq<string>) returns (result: seq<Row>)
    ensures forall k :: 0 <= k < |result| ==> Matches(result[k], set x | x in cartItems)
    ensures forall k :: 0 <= k < |store.rows| && Matches(store.rows[k], set x | x in cartItems)
                        ==> store.rows[k] in result
    ensures multiset(result) == multiset(Filter(store.rows, set x | x in cartItems))
    ensures SortedByConfidence(result)
  {
    var rows := store.rows;
    var cart := set x | x in cartItems;
    var results: seq<Row> := [];
    for i := 0 to |rows|
      invariant results == Filter(rows[..i], cart)
    {
      FilterSnoc(rows, i, cart);
      if AntecedentSet(rows[i]) <= cart {
        results := results + [rows[i]];
      }
    }
    assert rows[..|rows|] == rows;
    if |results| > 0 {
      result := SortByConfidence(results);
    } else {
      result := results;
    }
    SameRowsAsFilter(rows, cart, result);
  }

  /** Filtering one more row of the table extends the filtered rows by that
      row if it matches. */
  lemma FilterSnoc(rows: seq<Row>, i: nat, cart: set<string>)
    requires i < |rows|
    ensures Filter(rows[..i + 1], cart)
            == Filter(rows[..i], cart) + if Matches(rows[i], cart) then [rows[i]] else []
  {
    assert rows[..i + 1][..i] == rows[..i];
  }

  /** A permutation of the filtered table holds only matching rows and holds
      every matching row. */
  lemma SameRowsAsFilter(rows: seq<Row>, cart: set<string>, result: seq<Row>)
    requires multiset(result) == multiset(Filter(rows, cart))
    ensures forall k :: 0 <= k < |result| ==> Matches(result[k], cart)
    ensures forall k :: 0 <= k < |rows| && Matches(rows[k], cart) ==> rows[k] in result
  {
    forall k | 0 <= k < |result| ensures Matches(result[k], cart) {
      assert result[k] in multiset(result);
    }
    forall k | 0 <= k < |rows| && Matches(rows[k], cart) ensures rows[k] in result {
      assert rows[k] in multiset(rows);
    }
  }

  /** An empty cart matches no row at all: every antecedent set has at least
      one item. */
  lemma EmptyCartMatchesNothing(rows: seq<Row>)
    ensures Filter(rows, {}) == []
  {
  }

  /** A rule with a storable antecedent list is matched through its stored
      row exactly when its antecedent items are all in the cart. */
  lemma StoredRuleMatches(rule: Rule, cart: set<string>)
    requires Storable(rule.antecedents)
    ensures Matches(ToRow(rule), cart) <==> (set x | x in rule.antecedents) <= cart
  {
    StoredItemsRoundTrip(rule.antecedents);
  }

  /** The set-level reference: the rules whose antecedent sets are subsets of
      the cart, in their order. */
  function RulesFor(rules: seq<Rule>, cart: set<string>): (kept: seq<Rule>)
    ensures |kept| <= |rules|
  {
    if rules == [] then []
    else
      var init, last := rules[..|rules| - 1], rules[|rules| - 1];
      RulesFor(init, cart) + if (set x | x in last.antecedents) <= cart then [last] else []
  }

  /** On a table that the store wrote, the text-level filter keeps the rows
      of exactly the rules the set-level reference keeps, provided every
      rule's antecedent list is non-empty and no item in it contains the
      separator. */
  lemma {:induction false} FilterSavedRules(rules: seq<Rule>, cart: set<string>)
    requires forall k :: 0 <= k < |rules| ==> Storable(rules[k].antecedents)
    ensures Filter(Serialize(rules), cart) == Serialize(RulesFor(rules, cart))
  {
    if rules != [] {
      var init, last := rules[..|rules| - 1], rules[|rules| - 1];
      assert rules == init + [last];
      FilterSavedRules(init, cart);
      StoredRuleMatches(last, cart);
      SerializeAppend(init, last);
      SerializeAppend(RulesFor(init, cart), last);
      var table := Serialize(rules);
      assert table[..|table| - 1] == Serialize(init);
      assert table[|table| - 1] == ToRow(last);
    }
  }

  lemma SerializeAppend(rules: seq<Rule>, rule: Rule)
    ensures Serialize(rules + [rule]) == Serialize(rules) + [ToRow(rule)]
  {
  }

  /** For example: with the cart {milk, bread}, of the rules
      {milk} -> {bread} and {eggs} -> {milk} only the first is kept. */
  lemma MilkBreadExample(first: Rule, second: Rule)
    requires first.antecedents == ["milk"] && second.antecedents == ["eggs"]
    ensures Filter(Serialize([first, second]), {"milk", "bread"}) == [ToRow(first)]
  {
    NoLeadCharNoContains("milk", Delimiter);
    NoLeadCharNoContains("eggs", Delimiter);
    FilterSavedRules([first, second], {"milk", "bread"});
    MilkBreadReference(first, second);
  }

  lemma MilkBreadReference(first: Rule, second: Rule)
    requires first.antecedents == ["milk"] && second.antecedents == ["eggs"]
    ensures RulesFor([first, second], {"milk", "bread"}) == [first]
  {
    var rules, cart := [first, second], {"milk", "bread"};
    assert (set x | x in first.antecedents) == {"milk"};
    assert (set x | x in second.antecedents) == {"eggs"};
    assert rules[..1] == [first];
    assert [first][..0] == [];
    assert RulesFor([first], cart) == [first];
  }
}
