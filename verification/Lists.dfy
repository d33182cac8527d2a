/** Removing duplicates in first-seen order, as both SQL planners do with their messages. */
module Lists {

  function Distinct<T(==)>(values: seq<T>, seen: set<T>): seq<T>
  {
    if values == [] then []
    else if values[0] in seen then Distinct(values[1..], seen)
    else [values[0]] + Distinct(values[1..], seen + {values[0]})
  }

  method Deduplicate<T(==)>(values: seq<T>) returns (distinct: seq<T>)
    ensures distinct == Distinct(values, {})
  {
    distinct := [];
    var seen: set<T> := {};
    for i := 0 to |values|
      invariant distinct + Distinct(values[i..], seen) == Distinct(values, {})
    {
      assert values[i..][0] == values[i] && values[i..][1..] == values[i + 1..];
      if values[i] !in seen {
        assert distinct + ([values[i]] + Distinct(values[i + 1..], seen + {values[i]}))
            == distinct + [values[i]] + Distinct(values[i + 1..], seen + {values[i]});
        distinct, seen := distinct + [values[i]], seen + {values[i]};
      }
    }
  }

  /** One more value is kept exactly when it has not been seen before. */
  lemma {:induction false} DistinctOfOneMore<T>(values: seq<T>, seen: set<T>, last: T)
    ensures Distinct(values + [last], seen) ==
            Distinct(values, seen) + (if last in values || last in seen then [] else [last])
  {
    if values == [] {
      assert values + [last] == [last];
    } else {
      assert (values + [last])[1..] == values[1..] + [last];
      DistinctOfOneMore(values[1..], if values[0] in seen then seen else seen + {values[0]}, last);
    }
  }

  /** Every value is kept once, and nothing else. */
  lemma {:induction false} DistinctKeepsEachOnce<T>(values: seq<T>, seen: set<T>)
    ensures forall i, j :: 0 <= i < j < |Distinct(values, seen)| ==> Distinct(values, seen)[i] != Distinct(values, seen)[j]
    ensures forall v :: v in Distinct(values, seen) <==> v in values && v !in seen
  {
    if values != [] {
      DistinctKeepsEachOnce(values[1..], if values[0] in seen then seen else seen + {values[0]});
    }
  }
}
