/** The block ledger: a map from file name to the number of blocks charged
    to that file, and the sum of its values. */
module Ledger {

  /** The sum of the block counts recorded in the ledger. */
  ghost function Total(ledger: map<string, int>): int
    decreases |ledger|
  {
    if ledger == map[] then 0
    else
      var name :| name in ledger;
      assert |ledger - {name}| < |ledger| by {
        assert (ledger - {name}).Keys == ledger.Keys - {name};
      }
      ledger[name] + Total(ledger - {name})
  }

  /** The sum can be split at any key, not only at the one `Total` picks. */
  lemma {:induction false} TotalRemove(ledger: map<string, int>, name: string)
    requires name in ledger
    ensures Total(ledger) == ledger[name] + Total(ledger - {name})
    decreases |ledger|
  {
    var picked :| picked in ledger && Total(ledger) == ledger[picked] + Total(ledger - {picked});
    if picked != name {
      assert (ledger - {picked}).Keys == ledger.Keys - {picked};
      assert (ledger - {name}).Keys == ledger.Keys - {name};
      TotalRemove(ledger - {picked}, name);
      TotalRemove(ledger - {name}, picked);
      assert ledger - {picked} - {name} == ledger - {name} - {picked};
    }
  }

  /** When every entry holds at least one block, the sum is at least the
      number of entries; so it is zero only for the empty ledger. */
  lemma {:induction false} TotalAtLeastSize(ledger: map<string, int>)
    requires forall name :: name in ledger ==> ledger[name] >= 1
    ensures Total(ledger) >= |ledger|
    decreases |ledger|
  {
    if ledger != map[] {
      var name :| name in ledger;
      TotalRemove(ledger, name);
      assert (ledger - {name}).Keys == ledger.Keys - {name};
      assert |ledger - {name}| == |ledger| - 1;
      TotalAtLeastSize(ledger - {name});
    }
  }

  /** Charging a name the ledger does not hold adds its count to the sum. */
  lemma TotalInsert(ledger: map<string, int>, name: string, blocks: int)
    requires name !in ledger
    ensures Total(ledger[name := blocks]) == Total(ledger) + blocks
  {
    TotalRemove(ledger[name := blocks], name);
    assert ledger[name := blocks] - {name} == ledger;
  }

  /** Overwriting a name's count replaces its share of the sum. */
  lemma TotalOverwrite(ledger: map<string, int>, name: string, blocks: int)
    requires name in ledger
    ensures Total(ledger[name := blocks]) == Total(ledger) - ledger[name] + blocks
  {
    TotalRemove(ledger, name);
    TotalRemove(ledger[name := blocks], name);
    assert ledger[name := blocks] - {name} == ledger - {name};
  }
}
