/** One mining run (DB_Class/app.py:65-75): build the basket table from the
    purchase log, hand it to the itemset miner and the rule generator, and
    replace the stored rules with what they return. The miner and the rule
    generator belong to a library and are parameters here. */
module Mining {
  import opened Incidence
  import opened RuleStore

  /** A frequent itemset as the miner reports it. */
  datatype Itemset = Itemset(items: set<string>, support: real)

  method RunApriori(store: Store, records: seq<Record>,
                    apriori: map<Cell, int> -> seq<Itemset>,
                    associationRules: seq<Itemset> -> seq<Rule>)
    returns (frequent: seq<Itemset>, rules: seq<Rule>)
    modifies store
    ensures frequent == apriori(Basket(records))
    ensures rules == associationRules(frequent)
    ensures store.rows == Serialize(rules)
  {
    var basket := Basket(records);
    frequent := apriori(basket);
    rules := associationRules(frequent);
    store.Save(rules);
  }
}
