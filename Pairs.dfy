/**
 * findPairs($criteria, $value = NULL, $orderBy = [], $key = NULL): how the optional arguments
 * are shifted before the query is built. The criteria may be left out, in which case
 * every argument moves one place to the left; an order that is not an array is taken as the
 * key; an empty key becomes 'id'.
 */
module Pairs {
  import opened Php

  /** The arguments the query is built from: `where`, `select e.$value`, `orderBy`, `INDEX BY e.$key`. */
  datatype PairsQuery = PairsQuery(criteria: Value, value: Value, orderBy: Value, key: Value)

  /** The argument resolution of findPairs. */
  function ResolvePairs(criteria: Value, value: Value := VNull, orderBy: Value := VArray([]), key: Value := VNull): (q: PairsQuery)
    ensures q.criteria.VArray? && q.orderBy.VArray? && !IsEmpty(q.key)
    ensures q.criteria == if criteria.VArray? then criteria else VArray([])
    ensures q.value == if criteria.VArray? then value else criteria
  {
    // Without criteria, every argument moves one place to the left.
    var (c1, v1, o1, k1) := if criteria.VArray? then (criteria, value, orderBy, key) else (VArray([]), criteria, value, orderBy);
    // An order that is not an array is the key.
    var (o2, k2) := if o1.VArray? then (o1, k1) else (VArray([]), o1);
    var k3 := if IsEmpty(k2) then VStr("id") else k2;
    PairsQuery(c1, v1, o2, k3)
  }

  /** `findPairs('name')`: all records, name indexed by id, unordered. */
  lemma ValueOnly(value: string)
    ensures ResolvePairs(VStr(value)) == PairsQuery(VArray([]), VStr(value), VArray([]), VStr("id"))
  {
  }

  /** `findPairs('name', 'title')`: the second argument is the key. */
  lemma ValueAndKey(value: string, key: string)
    requires key != "" && key != "0"
    ensures ResolvePairs(VStr(value), VStr(key)) == PairsQuery(VArray([]), VStr(value), VArray([]), VStr(key))
  {
  }

  /** `findPairs('name', $orderBy, 'title')`: an array order keeps its place, the third argument is the key. */
  lemma ValueOrderAndKey(value: string, orderBy: seq<(Key, Value)>, key: string)
    requires key != "" && key != "0"
    ensures ResolvePairs(VStr(value), VArray(orderBy), VStr(key)) == PairsQuery(VArray([]), VStr(value), VArray(orderBy), VStr(key))
  {
  }

  /**
   * Without criteria, every argument moves one place to the left: the first is the value, the
   * second is resolved as the order and the third as the key, as if `[]` had been passed first.
   */
  lemma Shift(criteria: Value, value: Value, orderBy: Value, key: Value)
    requires !criteria.VArray?
    ensures ResolvePairs(criteria, value, orderBy, key) == ResolvePairs(VArray([]), criteria, value, orderBy)
  {
  }

  /** Without criteria, a fourth argument is never read. */
  lemma ShiftDropsFourth(criteria: Value, value: Value, orderBy: Value, key: Value)
    requires !criteria.VArray?
    ensures ResolvePairs(criteria, value, orderBy, key) == ResolvePairs(criteria, value, orderBy, VNull)
  {
  }

  /** With criteria, an order that is not an array overrides the fourth argument as the key. */
  lemma OrderIsKey(criteria: seq<(Key, Value)>, value: Value, orderBy: Value, key: Value)
    requires !orderBy.VArray?
    ensures ResolvePairs(VArray(criteria), value, orderBy, key)
         == PairsQuery(VArray(criteria), value, VArray([]), if IsEmpty(orderBy) then VStr("id") else orderBy)
  {
  }

  /** With criteria and an array order, the fourth argument is the key unless PHP's empty() holds for it. */
  lemma ExplicitKey(criteria: seq<(Key, Value)>, value: Value, orderBy: seq<(Key, Value)>, key: Value)
    ensures ResolvePairs(VArray(criteria), value, VArray(orderBy), key)
         == PairsQuery(VArray(criteria), value, VArray(orderBy), if IsEmpty(key) then VStr("id") else key)
  {
  }
}
