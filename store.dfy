/** The rule store: the table AssociationRules, with one row per mined rule,
    holding the antecedent and consequent item lists as ", "-joined text and
    the rule's support, confidence and lift (DB_Class/app.py:12-44). */
module RuleStore {
  import opened Text

  /** The separator the store joins item lists with and the matcher splits
      them on. */
  const Delimiter: string := ", "

  /** A rule as the miner hands it over: the items of each side in the order
      the miner lists them, and its three metrics. */
  datatype Rule = Rule(antecedents: seq<string>, consequents: seq<string>,
                       support: real, confidence: real, lift: real)

  /** A row of the table: the two item lists as text, and the metrics as they
      came. */
  datatype Row = Row(antecedents: string, consequents: string,
                     support: real, confidence: real, lift: real)

  /** The row stored for a rule (the tuple of DB_Class/app.py:36-42). */
  function ToRow(rule: Rule): Row
  {
    Row(Join(rule.antecedents, Delimiter), Join(rule.consequents, Delimiter),
        rule.support, rule.confidence, rule.lift)
  }

  /** The table that saving `rules` produces: one row per rule, in order. */
  function Serialize(rules: seq<Rule>): seq<Row>
  {
    seq(|rules|, k requires 0 <= k < |rules| => ToRow(rules[k]))
  }

  /** An item list the store can give back: not empty, and no item containing
      the separator. Nothing in the store checks this. */
  predicate Storable(items: seq<string>) {
    |items| >= 1 && forall k :: 0 <= k < |items| ==> !Contains(items[k], Delimiter)
  }

  lemma DelimiterHasNoBorder()
    ensures |Delimiter| > 0 && NoBorder(Delimiter)
  {
    assert Delimiter[..1] == [','];
    assert Delimiter[1..] == [' '];
  }

  /** Splitting a stored list on the separator gives back the items, in the
      order they were joined in, so in particular as the same set. */
  lemma StoredItemsRoundTrip(items: seq<string>)
    requires Storable(items)
    ensures Split(Join(items, Delimiter), Delimiter) == items
    ensures (set x | x in Split(Join(items, Delimiter), Delimiter)) == set x | x in items
  {
    DelimiterHasNoBorder();
    SplitJoin(items, Delimiter);
  }

  /** The order-independent form of the round trip: two listings of the
      same set of items, for example the two orders in which a two-element
      frozenset can be listed, are parsed back to that same set. */
  lemma StoredSetRoundTrip(items: seq<string>, other: seq<string>)
    requires Storable(items) && Storable(other)
    requires (set x | x in items) == set x | x in other
    ensures (set x | x in Split(Join(items, Delimiter), Delimiter))
         == (set x | x in Split(Join(other, Delimiter), Delimiter))
  {
    StoredItemsRoundTrip(items);
    StoredItemsRoundTrip(other);
  }

  /** An item name that contains the separator is not given back: it comes
      back as two items. */
  lemma DelimiterInItemSplitsIt()
    ensures Split(Join(["a, b"], Delimiter), Delimiter) == ["a", "b"]
  {
    var s := "a, b";
    assert OccursAt(s, Delimiter, 1);
    assert s[0..2][0] == 'a';
    assert !OccursAt(s, Delimiter, 0);
    assert Find(s, Delimiter) == Some(1);
    assert s[..1] == "a";
    assert s[3..] == "b";
    assert !Contains("b", Delimiter);
  }

  /** The empty list is stored as "" and comes back as one empty item. */
  lemma EmptyListComesBackAsEmptyItem()
    ensures Split(Join([], Delimiter), Delimiter) == [""]
  {
    assert !Contains("", Delimiter);
  }

  /** The AssociationRules table. `rows` is what a reader of the table sees:
      the rows as of the last commit. `pending` is the writer's view inside
      its open transaction. */
  class Store {
    var rows: seq<Row>
    var pending: seq<Row>

    /** A table that `init_db` has just created. */
    constructor ()
      ensures rows == [] && pending == []
    {
      rows, pending := [], [];
    }

    /** `save_rules_to_db`: inside one transaction, delete every row, then
        insert one row per rule, then commit. Until the commit a reader still
        sees the old rows (the loop invariant); after it, exactly the new
        ones. */
    method Save(rules: seq<Rule>)
      modifies this
      ensures rows == Serialize(rules) && pending == rows
    {
      pending := [];
      for i := 0 to |rules|
        invariant pending == Serialize(rules[..i])
        invariant rows == old(rows)
      {
        pending := pending + [ToRow(rules[i])];
      }
      assert rules[..|rules|] == rules;
      rows := pending;
    }
  }

  /** Saving twice keeps nothing of the first save. */
  method SaveTwice(store: Store, first: seq<Rule>, second: seq<Rule>)
    modifies store
    ensures store.rows == Serialize(second)
  {
    store.Save(first);
    store.Save(second);
  }
}
