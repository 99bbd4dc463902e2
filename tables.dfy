/** A database table keyed by an auto-increment primary key, and the
    `objects.filter(...)` query over it: the keys below the next free key
    whose row satisfies a condition, in ascending key order. */
module Tables {

  function Filter<T>(table: map<nat, T>, bound: nat, keep: T -> bool): (r: seq<nat>)
    ensures forall k :: k in r <==> k < bound && k in table && keep(table[k])
    ensures forall i, j :: 0 <= i < j < |r| ==> r[i] < r[j]
  {
    if bound == 0 then []
    else
      var earlier := Filter(table, bound - 1, keep);
      if bound - 1 in table && keep(table[bound - 1]) then
        assert forall i :: 0 <= i < |earlier| ==> earlier[i] in earlier;
        earlier + [bound - 1]
      else earlier
  }

  /** One more key below the bound: the filter gains that key at its end if
      its row is kept. */
  lemma FilterExtend<T>(table: map<nat, T>, bound: nat, keep: T -> bool)
    requires bound > 0
    ensures bound - 1 in table && keep(table[bound - 1]) ==>
      Filter(table, bound, keep) == Filter(table, bound - 1, keep) + [bound - 1]
    ensures !(bound - 1 in table && keep(table[bound - 1])) ==>
      Filter(table, bound, keep) == Filter(table, bound - 1, keep)
  {
  }

  /** The keys of the rows a filter selects, as a set. */
  ghost function Selected<T>(table: map<nat, T>, bound: nat, keep: T -> bool): set<nat> {
    set k | k in table && k < bound && keep(table[k])
  }

  /** A filter yields each selected row exactly once. */
  lemma {:induction false} FilterCount<T>(table: map<nat, T>, bound: nat, keep: T -> bool)
    ensures |Filter(table, bound, keep)| == |Selected(table, bound, keep)|
  {
    if bound == 0 {
      assert Selected(table, bound, keep) == {};
    } else {
      FilterCount(table, bound - 1, keep);
      FilterExtend(table, bound, keep);
      SelectedStep(table, bound, keep);
      var shorter := Filter(table, bound - 1, keep);
      if bound - 1 in table && keep(table[bound - 1]) {
        assert |Filter(table, bound, keep)| == |shorter| + 1;
      } else {
        assert Filter(table, bound, keep) == shorter;
      }
    }
  }

  /** Raising the bound by one adds at most the key just below it. */
  lemma SelectedStep<T>(table: map<nat, T>, bound: nat, keep: T -> bool)
    requires bound > 0
    ensures bound - 1 in table && keep(table[bound - 1]) ==>
      |Selected(table, bound, keep)| == |Selected(table, bound - 1, keep)| + 1
    ensures !(bound - 1 in table && keep(table[bound - 1])) ==>
      Selected(table, bound, keep) == Selected(table, bound - 1, keep)
  {
    var before := Selected(table, bound - 1, keep);
    if bound - 1 in table && keep(table[bound - 1]) {
      assert Selected(table, bound, keep) == before + {bound - 1};
      assert bound - 1 !in before;
    } else {
      assert Selected(table, bound, keep) == before;
    }
  }
}
