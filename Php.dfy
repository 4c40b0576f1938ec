/**
 * The few PHP values the entity layer inspects, and PHP's ordered arrays.
 *
 * A PHP array is an ordered list of key/value entries; `$a[$k] = $v` overwrites the entry
 * with key `$k` where it stands, or appends a new entry at the end (`Put`).
 */
module Php {
  import opened Wrappers

  /** An array key: PHP keeps integers and (non-numeric) strings apart. */
  datatype Key = IntKey(i: int) | StrKey(s: string)

  /** The PHP values that the finders inspect with `gettype`, `is_array` and `empty`. */
  datatype Value =
    | VNull
    | VBool(b: bool)
    | VInt(i: int)
    | VStr(s: string)
    | VArray(entries: seq<(Key, Value)>)

  /** PHP's `empty($v)`: null, false, 0, "", "0" and the empty array. */
  predicate IsEmpty(v: Value): (r: bool)
    ensures r <==> v in {VNull, VBool(false), VInt(0), VStr(""), VStr("0"), VArray([])}
  {
    match v
    case VNull => true
    case VBool(b) => !b
    case VInt(i) => i == 0
    case VStr(s) => s == "" || s == "0"
    case VArray(entries) => entries == []
  }

  /** No key occurs twice, as in every array PHP builds. */
  predicate DistinctKeys<V>(a: seq<(Key, V)>) {
    forall i, j :: 0 <= i < j < |a| ==> a[i].0 != a[j].0
  }

  /** `$a[$k]`: the value of the first entry with key `k`, or None. */
  function Get<V>(a: seq<(Key, V)>, k: Key): (r: Option<V>)
    ensures r.Some? <==> exists i :: 0 <= i < |a| && a[i].0 == k
  {
    if a == [] then None
    else if a[0].0 == k then Some(a[0].1)
    else
      var r := Get(a[1..], k);
      assert forall i :: 1 <= i < |a| ==> a[i] == a[1..][i - 1];
      r
  }

  /** `$a[$k] = $v`. */
  function Put<V>(a: seq<(Key, V)>, k: Key, v: V): (r: seq<(Key, V)>)
    ensures Get(r, k) == Some(v)
    ensures forall k' :: k' != k ==> Get(r, k') == Get(a, k')
    ensures |r| == if Get(a, k).Some? then |a| else |a| + 1
    ensures forall i :: 0 <= i < |a| ==> r[i].0 == a[i].0
    ensures forall i :: 0 <= i < |a| && a[i].0 != k ==> r[i] == a[i]
  {
    if a == [] then [(k, v)]
    else if a[0].0 == k then
      var r := [(k, v)] + a[1..];
      assert r[1..] == a[1..];
      r
    else
      var rest := Put(a[1..], k, v);
      var r := [a[0]] + rest;
      assert r[1..] == rest;
      assert forall i :: 1 <= i < |a| ==> a[i] == a[1..][i - 1];
      assert forall i :: 1 <= i < |r| ==> r[i] == rest[i - 1];
      r
  }

  /** Assigning to a key the array does not have appends the entry at the end. */
  lemma {:induction false} PutAppends<V>(a: seq<(Key, V)>, k: Key, v: V)
    requires Get(a, k).None?
    ensures Put(a, k, v) == a + [(k, v)]
  {
    if a != [] {
      PutAppends(a[1..], k, v);
      assert [a[0]] + (a[1..] + [(k, v)]) == a + [(k, v)];
    }
  }

  /** Assignment never creates a second entry for a key. */
  lemma PutDistinct<V>(a: seq<(Key, V)>, k: Key, v: V)
    requires DistinctKeys(a)
    ensures DistinctKeys(Put(a, k, v))
  {
    if Get(a, k).None? {
      PutAppends(a, k, v);
    }
  }

  /** In an array without repeated keys, `$a[$k]` is the entry that carries `k`. */
  lemma {:induction false} GetAt<V>(a: seq<(Key, V)>, i: nat)
    requires DistinctKeys(a) && i < |a|
    ensures Get(a, a[i].0) == Some(a[i].1)
  {
    if i > 0 {
      assert a[1..][i - 1] == a[i];
      assert DistinctKeys(a[1..]) by {
        forall p, q | 0 <= p < q < |a| - 1 ensures a[1..][p].0 != a[1..][q].0 {
          assert a[1..][p] == a[p + 1] && a[1..][q] == a[q + 1];
        }
      }
      GetAt(a[1..], i - 1);
    }
  }
}
