/**
 * A plain JavaScript object used as a dictionary keyed by strings, with its
 * keys kept in insertion order (the order `Object.entries` and `for ... in`
 * enumerate them for keys that are not array indices). The one operation the
 * application performs on such objects is "create the entry if it is missing,
 * then update it in place".
 */
module Entries {
  import opened Common

  datatype Entry<V> = Entry(key: string, value: V)

  /**
   * The properties every plain object inherits from `Object.prototype`. For
   * these names `obj[k]` is a function (or, for `__proto__`, the prototype
   * itself), so `!obj[k]` is false even when `k` is not an own key.
   */
  const InheritedNames: set<string> := {
    "constructor", "hasOwnProperty", "isPrototypeOf", "propertyIsEnumerable",
    "toString", "toLocaleString", "valueOf", "__proto__",
    "__defineGetter__", "__defineSetter__", "__lookupGetter__", "__lookupSetter__"
  }

  /** No inherited name starts with a capital letter. */
  lemma InheritedUncapitalised(k: string)
    requires k in InheritedNames
    ensures |k| > 0 && !('A' <= k[0] <= 'Z')
  { }

  function Keys<V>(es: seq<Entry<V>>): (r: seq<string>)
    ensures |r| == |es|
    ensures forall i :: 0 <= i < |es| ==> r[i] == es[i].key
  {
    seq(|es|, i requires 0 <= i < |es| => es[i].key)
  }

  predicate DistinctKeys<V>(es: seq<Entry<V>>)
  {
    forall i, j :: 0 <= i < j < |es| ==> es[i].key != es[j].key
  }

  /** Position of key `k`, if present. */
  function Find<V>(es: seq<Entry<V>>, k: string): (r: Option<nat>)
    ensures r.None? <==> k !in Keys(es)
    ensures r.Some? ==> r.value < |es| && es[r.value].key == k
  {
    if es == [] then None
    else if es[0].key == k then Some(0)
    else match Find(es[1..], k)
      case None => None
      case Some(i) => Some(i + 1)
  }

  /**
   * `if (!obj[k]) obj[k] = start; obj[k] = f(obj[k]);` -- the value of a new key
   * starts from `start`, and a new key goes to the end.
   */
  function Upsert<V>(es: seq<Entry<V>>, k: string, start: V, f: V -> V): seq<Entry<V>>
  {
    match Find(es, k)
    case Some(i) => es[i := Entry(k, f(es[i].value))]
    case None => es + [Entry(k, f(start))]
  }

  /** Upsert keeps the keys distinct, adds `k` at the end if it was missing, and touches no other entry. */
  lemma UpsertEffect<V>(es: seq<Entry<V>>, k: string, start: V, f: V -> V)
    requires DistinctKeys(es)
    ensures var r := Upsert(es, k, start, f);
      && DistinctKeys(r)
      && Keys(r) == (if k in Keys(es) then Keys(es) else Keys(es) + [k])
      && (forall i :: 0 <= i < |es| && es[i].key != k ==> r[i] == es[i])
      && (forall i :: 0 <= i < |es| && es[i].key == k ==> r[i] == Entry(k, f(es[i].value)))
      && (k !in Keys(es) ==> r[|es|] == Entry(k, f(start)))
  {
    var r := Upsert(es, k, start, f);
    match Find(es, k)
    case Some(i) =>
      assert Keys(r) == Keys(es);
    case None =>
      assert Keys(r) == Keys(es) + [k];
  }

  /**
   * Keys that cover every element of `pre` (except those whose key is in
   * `skip`) and grow to take in `last` cover every element of `pre + [last]`.
   */
  lemma KeysCover<T>(pre: seq<T>, last: T, key: T -> string, skip: set<string>, before: seq<string>, after: seq<string>)
    requires forall j :: 0 <= j < |pre| ==> key(pre[j]) in before || key(pre[j]) in skip
    requires forall k :: k in before ==> k in after
    requires key(last) in after || key(last) in skip
    ensures forall j :: 0 <= j < |pre + [last]| ==> key((pre + [last])[j]) in after || key((pre + [last])[j]) in skip
  {
  }
}
