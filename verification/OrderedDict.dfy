/** A Python dict with its insertion order, as a sequence of key-value pairs. */
module OrderedDict {
  import opened Text

  type Dict<V> = seq<(string, V)>

  function IndexOf<V>(d: Dict<V>, key: string): (r: Option<nat>)
    ensures r.Some? ==> r.value < |d| && d[r.value].0 == key
    ensures r.None? <==> key !in Keys(d)
  {
    if d == [] then None
    else if d[0].0 == key then Some(0)
    else
      match IndexOf(d[1..], key)
      case None => None
      case Some(i) => Some(i + 1)
  }

  function Keys<V>(d: Dict<V>): seq<string> {
    if d == [] then [] else [d[0].0] + Keys(d[1..])
  }

  /** d[key] = value: in place when the key is there, otherwise at the end. */
  function Put<V>(d: Dict<V>, key: string, value: V): Dict<V> {
    match IndexOf(d, key)
    case None => d + [(key, value)]
    case Some(i) => d[i := (key, value)]
  }

  /** d.pop(key, None) */
  function Remove<V>(d: Dict<V>, key: string): Dict<V> {
    match IndexOf(d, key)
    case None => d
    case Some(i) => d[..i] + d[i + 1..]
  }

  ghost predicate Unique<V>(d: Dict<V>) {
    forall i, j :: 0 <= i < j < |d| ==> d[i].0 != d[j].0
  }

  lemma {:induction false} KeysAt<V>(d: Dict<V>)
    ensures |Keys(d)| == |d| && forall i :: 0 <= i < |d| ==> Keys(d)[i] == d[i].0
  {
    if d != [] { KeysAt(d[1..]); }
  }

  lemma {:induction false} IndexOfPrefix<V>(a: Dict<V>, key: string, value: V, b: Dict<V>)
    requires forall i :: 0 <= i < |a| ==> a[i].0 != key
    ensures IndexOf(a + [(key, value)] + b, key) == Some(|a|)
    decreases |a|
  {
    var d := a + [(key, value)] + b;
    if a != [] {
      assert d[1..] == a[1..] + [(key, value)] + b;
      IndexOfPrefix(a[1..], key, value, b);
    }
  }

  /** Replacing keeps every key in its place; a new key goes to the end. */
  lemma PutKeys<V>(d: Dict<V>, key: string, value: V)
    ensures Keys(Put(d, key, value)) == if key in Keys(d) then Keys(d) else Keys(d) + [key]
    ensures Unique(d) ==> Unique(Put(d, key, value))
  {
    var d' := Put(d, key, value);
    KeysAt(d);
    KeysAt(d');
    if IndexOf(d, key).None? {
      assert forall i :: 0 <= i < |d| ==> d[i].0 == Keys(d)[i];
    }
  }

  lemma RemoveUnique<V>(d: Dict<V>, key: string)
    requires Unique(d)
    ensures Unique(Remove(d, key)) && forall e :: e in Remove(d, key) ==> e in d
  {}
}
