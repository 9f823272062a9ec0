# Association-rule store and cart matcher

A Dafny model of the rule storage and lookup path of a market-basket
predictor (`DB_Class/app.py`). A purchase log is reshaped into a 0/1 basket
table (one row per member, one column per item). A third-party miner turns
the table into association rules. Each run replaces the stored rules
wholesale: every rule becomes one row holding its antecedent and consequent
item lists, each joined with `", "`, and its support, confidence and lift.
To predict, the cart the user typed is split on commas and trimmed. Every
stored row whose antecedent items all lie in the cart is returned, highest
confidence first.

Modules:

- `Text` (`text.dfy`): Python's `sep.join(items)` and `s.split(sep)`. It proves
  that joining a split gives back the string. It also proves that splitting a
  join gives back the list when the list is non-empty, no item contains the
  separator, and the separator cannot overlap itself.
- `Cart` (`cart.dfy`): Python's `str.strip()`, with Python's own set of
  whitespace code points, and the tokenizer of line 95.
- `RuleStore` (`store.dfy`): the `Rule` and `Row` datatypes, the row
  serialisation, and the table as a class `Store` with a `Save` method.
  `rows` is what readers see (the last commit). `pending` is the writer's
  view inside its transaction.
- `Matcher` (`matcher.dfy`): the subset test, the filter, the confidence
  sort, and `QueryRules`, the query over a `Store`.
- `Incidence` (`incidence.dfy`): the basket table, built in the source's own
  stages (group counts, unstack, `fillna(0)`, 0/1 map).
- `Mining` (`mining.dfy`): one mining run, with the miner and the rule
  generator passed in as functions.

Support, confidence and lift are `real`. Only the `>=` order on confidence
matters to the model.

Points where the code behaves differently from what one might expect of
such a store:

- An empty cart matches no row at all, even a row whose antecedent text is
  empty. The split of `""` is `[""]`, so every antecedent set has at least
  one element.
- The query has no `ORDER BY`, so SQLite promises no row order. The model
  reads the table in insertion order. Nothing depends on that order, because
  the result is sorted by confidence. Result ties are left in whatever order
  the sort produces.
- A mining run does not catch a miner failure. No "empty rule set on
  failure" path exists, so none is modelled.
- `association_rules` is called with `metric="lift"`. Its `min_confidence`
  argument is therefore a lift threshold. Thresholds are part of the miner,
  which is a parameter here.

## Model

| member | source | states |
|---|---|---|
| `Text.Find` | DB_Class/app.py:55 | Returns the leftmost occurrence of the separator: it occurs there and at no earlier index. None exactly when the separator does not occur. |
| `Text.Join` | DB_Class/app.py:37-38 | `", ".join(items)`: the empty list gives `""`, and otherwise the text starts with the first item. Its inverse is `Split`, by `SplitJoin` and `JoinSplit`. |
| `Text.Split` | DB_Class/app.py:55 | `split` always yields at least one piece, and no piece contains the separator. |
| `Text.JoinSplit` | DB_Class/app.py:55 | For every string and separator, joining the pieces of a split gives back the string. |
| `Text.SplitJoin` | DB_Class/app.py:37-38 | Splitting a joined non-empty list gives back the same list. Requires that no item contains the separator and that the separator has no border. |
| `RuleStore.ToRow` | DB_Class/app.py:36-42 | The row stored for one rule: its two item lists joined with `", "`, and its three metrics as they came. It is a reference definition with no contract of its own. `StoredItemsRoundTrip`, `StoredRuleMatches` and `FilterSavedRules` are about it. |
| `RuleStore.Serialize` | DB_Class/app.py:32-42 | The table the insert loop writes: one `ToRow` per rule, in order. It is a reference definition with no contract of its own. `Save`, `SaveTwice`, `RunApriori` and `FilterSavedRules` are stated through it. |
| `RuleStore.StoredItemsRoundTrip` | DB_Class/app.py:37-38 | A stored `", "`-joined list, split on `", "` as at line 55, gives back the rule's items in order, so also as a set. Requires a non-empty list with no item containing `", "`. |
| `RuleStore.StoredSetRoundTrip` | DB_Class/app.py:37 | Two listings of the same item set (two iteration orders of one frozenset) parse back to the same set. |
| `RuleStore.DelimiterInItemSplitsIt` | DB_Class/app.py:37 | The limitation: the single item `"a, b"` is stored as `"a, b"` and parsed back as the two items `a` and `b`. |
| `RuleStore.EmptyListComesBackAsEmptyItem` | DB_Class/app.py:37 | An empty item list is stored as `""` and parses back as one empty item, not as no items. |
| `RuleStore.Store.constructor` | DB_Class/app.py:12-25 | A freshly created table holds no rows. |
| `RuleStore.Store.Save` | DB_Class/app.py:28-44 | After a save, the table holds exactly one row per input rule, in input order, each the rule's joined item lists and metrics. Nothing from before survives. The loop invariant states that readers see the old rows until the single commit. |
| `RuleStore.SaveTwice` | DB_Class/app.py:31 | Saving R1 and then R2 leaves exactly the serialisation of R2. |
| `Matcher.AntecedentSet` | DB_Class/app.py:55 | The antecedent set of a row is never empty. |
| `Matcher.Matches` | DB_Class/app.py:56 | The `issubset` test: the row's antecedent set is a subset of the cart. Its meaning on stored rules is `StoredRuleMatches`. |
| `Matcher.Filter` | DB_Class/app.py:53-57 | Each row occurs among the kept rows exactly as often as in the table if it matches the cart, and not at all otherwise. |
| `Matcher.Insert` | DB_Class/app.py:60-61 | Inserting into a confidence-ordered list keeps it ordered and adds exactly that row. |
| `Matcher.SortByConfidence` | DB_Class/app.py:60-61 | The sorted result is a permutation of its input, and confidence never increases along it. |
| `Matcher.QueryRules` | DB_Class/app.py:47-62 | Every returned row's antecedent set is a subset of the cart. Every matching stored row is returned. The result is a permutation of the filtered table, ordered by non-increasing confidence. The store is only read. |
| `Matcher.EmptyCartMatchesNothing` | DB_Class/app.py:54-57 | An empty cart yields an empty result for every table, without an error. |
| `Matcher.StoredRuleMatches` | DB_Class/app.py:55-56 | For a rule with a storable antecedent list, its stored row matches exactly when its antecedent items are all in the cart. |
| `Matcher.FilterSavedRules` | DB_Class/app.py:54-57 | On a table written by `Save`, the text-level filter keeps the rows of exactly those rules whose antecedent set is a subset of the cart, per the set-level reference `RulesFor`. Requires that every rule's antecedent list is non-empty and that no item in it contains `", "`. Without that it fails: `DelimiterInItemSplitsIt` shows why. |
| `Matcher.MilkBreadExample` | DB_Class/app.py:54-57 | With cart {milk, bread} and rules {milk}->{bread}, {eggs}->{milk}, only the first rule's row is kept. |
| `Cart.Strip` | DB_Class/app.py:95 | The result is the middle of the input, with only whitespace before and after it. It is empty exactly when the input is all whitespace, and otherwise begins and ends with non-whitespace. |
| `Cart.StripAll` | DB_Class/app.py:95 | The strip-and-drop part of the comprehension. It yields at most one token per piece, and every token is non-empty with no whitespace at either end. `StripAllPadded` pins it down: the non-empty names, in order. |
| `Cart.Tokenize` | DB_Class/app.py:95 | Every token is non-empty, has no leading or trailing whitespace, and contains no comma. |
| `Cart.TokenizeJoin` | DB_Class/app.py:95 | Trimmed, comma-free item names typed comma-separated come back as the same list, in the same order. This includes the empty list. |
| `Cart.StripPadded` | DB_Class/app.py:95 | A trimmed name with any whitespace before and after it strips to exactly that name. |
| `Cart.PaddedInputTokenizes` | DB_Class/app.py:95 | Take any input of the form name, comma, name, ..., with any whitespace around each name, where a name may also be empty. Examples are `"whole milk, yogurt"`, `"milk,,bread"`, `"milk, , bread"` and a trailing comma. The tokens are exactly the non-empty names, in input order. Each name is trimmed and comma-free. |
| `Cart.StripAllPadded` | DB_Class/app.py:95 | Stripping each whitespace-padded name gives the non-empty names in order, with the blank pieces dropped. |
| `Cart.BlankInputIsEmptyCart` | DB_Class/app.py:95 | Any input made only of whitespace and commas, the empty input included, gives an empty cart. |
| `Cart.DefaultCart` | DB_Class/app.py:93-95 | The form's default text `"whole milk, yogurt"` gives the cart `["whole milk", "yogurt"]`. |
| `Incidence.Count` | DB_Class/app.py:68 | A group's count is positive exactly when some record pairs that member with that item, on any date. |
| `Incidence.GroupCounts` | DB_Class/app.py:68 | The group-by has an entry exactly for each (member, item) pair that occurs, holding its count. |
| `Incidence.Unstacked` | DB_Class/app.py:69 | After unstacking, the cells are exactly (distinct member) x (distinct item). A cell is a gap (NaN) exactly when no record pairs that member with that item. Otherwise it holds that pair's group count. |
| `Incidence.Filled` | DB_Class/app.py:69 | After `fillna(0)`, the cells are still exactly members x items. Each holds the number of records for its pair: a gap has become 0 and a group count is kept. |
| `Incidence.Basket` | DB_Class/app.py:70 | The 0/1 table has exactly the members as rows and the items as columns. |
| `Incidence.BasketCells` | DB_Class/app.py:68-70 | A cell is 1 exactly when some record pairs that member with that item, and 0 otherwise, never missing. |
| `Incidence.BasketExample` | DB_Class/app.py:68-70 | Buying an item twice gives 1. An item the member never bought gives 0. |
| `Mining.RunApriori` | DB_Class/app.py:65-75 | The miner receives the basket table, the rule generator receives the miner's itemsets, and the store then holds exactly the serialisation of the generated rules. |

## Left out

- SQLite connections, the `DB_FILE` constant and the `CREATE TABLE` text are I/O. The table is an in-memory sequence of rows. `init_db` is modelled only as creating an empty table: `IF NOT EXISTS` keeping an earlier table is not modelled, and a later `Save` replaces every row anyway.
- Two error paths of the code. If the miner or the rule generator raises, the mining run stops before it saves, and the old rows stay. A query before any `init_db` has run fails, because there is no table. The model's miner parameters are total functions, and its `Store` always exists, so neither path arises.
- Storage and dataset failures (an unwritable file, a missing CSV) are I/O and are not modelled. So is a rollback when a `Save` fails halfway: the model's `Save` always reaches its commit.
- The itemset miner and rule generator are a foreign library. They are function parameters of `Mining.RunApriori`, and their thresholds are inside them.
- The Streamlit UI, apart from the tokenizer of line 95. That includes the `.head(10)` truncation of the displayed results and the projection to consequents, confidence and lift.
- Floating-point behaviour of support, confidence and lift. They are exact reals; only their order is used.
- pandas type coercion, and its dropping of null keys in `groupby`: the model's records have no null fields.
- `Matcher.SortByConfidence`: pandas' default sort is not stable, and the source promises nothing about ties. The model sorts by insertion, and `QueryRules` promises only a permutation of the filtered table that is ordered by confidence.
- The batch script `myaprori/project.py` is not part of this model. It is CSV reading, library calls, CSV writing and plotting.
