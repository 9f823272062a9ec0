/** The basket table the miner is given: one row per member, one column per
    item, and a cell that is 1 when the member bought the item at least once
    and 0 otherwise (DB_Class/app.py:68-70). */
module Incidence {
  import opened Text

  /** A line of the purchase log: a member number, a date and an item. */
  datatype Record = Record(member: int, date: string, item: string)

  /** A cell of the table: a member (the row) and an item (the column). */
  type Cell = (int, string)

  /** The member (row) and item (column) labels: every value that occurs. */
  function Members(records: seq<Record>): set<int> {
    set r | r in records :: r.member
  }

  function Items(records: seq<Record>): set<string> {
    set r | r in records :: r.item
  }

  function Cells(records: seq<Record>): set<Cell> {
    set m, i | m in Members(records) && i in Items(records) :: (m, i)
  }

  /** Some record pairs member `m` with item `i`, on any date. */
  predicate Bought(records: seq<Record>, m: int, i: string) {
    exists k :: 0 <= k < |records| && records[k].member == m && records[k].item == i
  }

  /** The number of records for member `m` and item `i`, whatever their date:
      one group's `count()`. */
  function Count(records: seq<Record>, m: int, i: string): (n: nat)
    ensures n <= |records|
    ensures n > 0 <==> Bought(records, m, i)
  {
    if records == [] then 0
    else
      var r := records[0];
      var rest := Count(records[1..], m, i);
      assert Bought(records[1..], m, i) ==> Bought(records, m, i) by {
        if Bought(records[1..], m, i) {
          var k :| 0 <= k < |records[1..]| && records[1..][k].member == m && records[1..][k].item == i;
          assert records[k + 1] == records[1..][k];
        }
      }
      assert Bought(records, m, i) && !(r.member == m && r.item == i) ==> Bought(records[1..], m, i) by {
        if Bought(records, m, i) && !(r.member == m && r.item == i) {
          var k :| 0 <= k < |records| && records[k].member == m && records[k].item == i;
          assert records[1..][k - 1] == records[k];
        }
      }
      (if r.member == m && r.item == i then 1 else 0) + rest
  }

  /** Grouping the log by member and item and counting each group: a count for
      each (member, item) pair that occurs, and for no other pair. */
  function GroupCounts(records: seq<Record>): (groups: map<Cell, nat>)
    ensures forall m, i :: (m, i) in groups <==> Bought(records, m, i)
    ensures forall m, i :: (m, i) in groups ==> groups[(m, i)] == Count(records, m, i)
  {
    assert forall m, i :: Bought(records, m, i) ==> exists r :: r in records && (r.member, r.item) == (m, i);
    map r | r in records :: (r.member, r.item) := Count(records, r.member, r.item)
  }

  /** Unstacking the items into columns: the counts spread over every (member, item) cell, with a
      gap (NaN) where the pair never occurs. */
  function Unstacked(records: seq<Record>): (table: map<Cell, Option<nat>>)
    ensures table.Keys == Cells(records)
    ensures forall m, i :: (m, i) in table ==> (table[(m, i)].Some? <==> Bought(records, m, i))
    ensures forall m, i :: (m, i) in table && table[(m, i)].Some? ==>
              table[(m, i)].value == Count(records, m, i)
  {
    var groups := GroupCounts(records);
    map c | c in Cells(records) :: if c in groups then Some(groups[c]) else None
  }

  /** Filling the gaps: every gap becomes a count of 0, and every group count
      is kept, so each cell holds the number of records for its pair. */
  function Filled(records: seq<Record>): (table: map<Cell, nat>)
    ensures table.Keys == Cells(records)
    ensures forall m, i :: (m, i) in table ==> table[(m, i)] == Count(records, m, i)
  {
    var unstacked := Unstacked(records);
    var table := map c | c in unstacked :: match unstacked[c] case Some(n) => n case None => 0;
    assert forall m, i :: (m, i) in table ==> table[(m, i)] == Count(records, m, i) by {
      forall m, i | (m, i) in table ensures table[(m, i)] == Count(records, m, i) {
        if unstacked[(m, i)].None? {
          assert !Bought(records, m, i);
        }
      }
    }
    table
  }

  /** Mapping every filled cell to 1 when its count is positive and to 0
      otherwise. */
  function Basket(records: seq<Record>): (table: map<Cell, int>)
    ensures table.Keys == Cells(records)
  {
    var filled := Filled(records);
    map c | c in filled :: if filled[c] > 0 then 1 else 0
  }

  /** The rows of the basket are exactly the members in the log and its
      columns exactly the items; a cell is 1 exactly when some record pairs
      that member with that item, and 0 otherwise, never missing. */
  lemma BasketCells(records: seq<Record>)
    ensures forall m, i :: (m, i) in Basket(records) <==> m in Members(records) && i in Items(records)
    ensures forall m, i :: (m, i) in Basket(records) ==>
              Basket(records)[(m, i)] == if Bought(records, m, i) then 1 else 0
  {
    var groups := GroupCounts(records);
    forall m, i | (m, i) in Basket(records)
      ensures Basket(records)[(m, i)] == if Bought(records, m, i) then 1 else 0
    {
      if Bought(records, m, i) {
        assert groups[(m, i)] == Count(records, m, i);
      }
    }
  }

  /** Two purchases of the same item by the same member still give a 1, and
      an item the member never bought gives a 0. */
  lemma BasketExample()
    ensures var table := Basket([Record(1, "d1", "milk"), Record(1, "d2", "milk"), Record(2, "d1", "bread")]);
            && table.Keys == {(1, "milk"), (1, "bread"), (2, "milk"), (2, "bread")}
            && table[(1, "milk")] == 1 && table[(1, "bread")] == 0
            && table[(2, "milk")] == 0 && table[(2, "bread")] == 1
  {
    var records := [Record(1, "d1", "milk"), Record(1, "d2", "milk"), Record(2, "d1", "bread")];
    ExampleLabels(records);
    ExampleBought(records);
    BasketCells(records);
  }

  lemma ExampleBought(records: seq<Record>)
    requires records == [Record(1, "d1", "milk"), Record(1, "d2", "milk"), Record(2, "d1", "bread")]
    ensures Bought(records, 1, "milk") && Bought(records, 2, "bread")
    ensures !Bought(records, 1, "bread") && !Bought(records, 2, "milk")
  {
    assert records[0].member == 1 && records[0].item == "milk";
    assert records[2].member == 2 && records[2].item == "bread";
  }

  lemma ExampleLabels(records: seq<Record>)
    requires records == [Record(1, "d1", "milk"), Record(1, "d2", "milk"), Record(2, "d1", "bread")]
    ensures Cells(records) == {(1, "milk"), (1, "bread"), (2, "milk"), (2, "bread")}
  {
    assert records[0] in records && records[2] in records;
    assert Members(records) == {1, 2};
    assert Items(records) == {"milk", "bread"};
  }
}
