/**
 The two ways the planner's endpoints touch a list of records keyed by id:
 a `for ... if r['id'] == id: ...; break` loop acts on the first match only,
 and a comprehension `[r for r in rs if r['id'] != id]` drops every match.
 */
module Records {
  import opened Optional

  /** Index of the first record whose key is `id`, if any. */
  function FirstMatch<T>(s: seq<T>, key: T -> string, id: string): (r: Option<nat>)
    ensures r.Some? ==> r.value < |s| && key(s[r.value]) == id
    ensures r.Some? ==> forall j :: 0 <= j < r.value ==> key(s[j]) != id
    ensures r.None? <==> forall j :: 0 <= j < |s| ==> key(s[j]) != id
    decreases |s|
  {
    if |s| == 0 then None
    else if key(s[0]) == id then Some(0)
    else match FirstMatch(s[1..], key, id)
      case None => None
      case Some(k) => Some(k + 1)
  }

  /** Replaces the first record keyed `id` by its image under `f`; a list without one is returned as is. */
  function UpdateFirst<T>(s: seq<T>, key: T -> string, id: string, f: T -> T): (r: seq<T>)
    ensures |r| == |s|
    ensures FirstMatch(s, key, id).None? ==> r == s
    ensures FirstMatch(s, key, id).Some? ==>
      var k := FirstMatch(s, key, id).value;
      r[k] == f(s[k]) && forall j :: 0 <= j < |s| && j != k ==> r[j] == s[j]
  {
    match FirstMatch(s, key, id)
    case None => s
    case Some(k) => s[k := f(s[k])]
  }

  /** `a` is `b` with some elements dropped, the survivors kept in their original order. */
  predicate IsSubsequence<T(==)>(a: seq<T>, b: seq<T>)
    decreases |b|
  {
    if |a| == 0 then true
    else if |b| == 0 then false
    else (a[0] == b[0] && IsSubsequence(a[1..], b[1..])) || IsSubsequence(a, b[1..])
  }

  /** Every record keyed `id` removed; all others kept, in order and with their multiplicity. */
  function RemoveAll<T(==,!new)>(s: seq<T>, key: T -> string, id: string): (r: seq<T>)
    ensures forall x :: x in r <==> x in s && key(x) != id
    ensures forall x :: multiset(r)[x] == if key(x) == id then 0 else multiset(s)[x]
    ensures IsSubsequence(r, s)
    ensures (forall j :: 0 <= j < |s| ==> key(s[j]) != id) ==> r == s
    decreases |s|
  {
    if |s| == 0 then []
    else
      var rest := RemoveAll(s[1..], key, id);
      assert s == [s[0]] + s[1..];
      if key(s[0]) == id then rest else [s[0]] + rest
  }

  /** Removing the matches of a concatenation removes them piecewise. */
  lemma {:induction false} RemoveAllConcat<T(!new)>(s: seq<T>, t: seq<T>, key: T -> string, id: string)
    ensures RemoveAll(s + t, key, id) == RemoveAll(s, key, id) + RemoveAll(t, key, id)
    decreases |s|
  {
    if |s| > 0 {
      assert (s + t)[1..] == s[1..] + t;
      RemoveAllConcat(s[1..], t, key, id);
    } else {
      assert s + t == t;
    }
  }

  /** Removing the key of a record just appended under a fresh key gives back the list before the append. */
  lemma RemoveAppendedFresh<T(!new)>(s: seq<T>, key: T -> string, x: T)
    requires forall j :: 0 <= j < |s| ==> key(s[j]) != key(x)
    ensures RemoveAll(s + [x], key, key(x)) == s
  {
    RemoveAllConcat(s, [x], key, key(x));
    assert RemoveAll([x], key, key(x)) == [];
  }

  /** No two records share a key. */
  predicate UniqueKeys<T>(s: seq<T>, key: T -> string)
  {
    forall i, j :: 0 <= i < j < |s| ==> key(s[i]) != key(s[j])
  }

  /** Dropping records cannot create a duplicate key. */
  lemma {:induction false} RemoveAllKeepsUnique<T(!new)>(s: seq<T>, key: T -> string, id: string)
    requires UniqueKeys(s, key)
    ensures UniqueKeys(RemoveAll(s, key, id), key)
    decreases |s|
  {
    if |s| > 0 {
      RemoveAllKeepsUnique(s[1..], key, id);
      var rest := RemoveAll(s[1..], key, id);
      if key(s[0]) != id {
        var r := [s[0]] + rest;
        forall i, j | 0 <= i < j < |r|
          ensures key(r[i]) != key(r[j])
        {
          if i == 0 {
            assert r[j] in s[1..];
          }
        }
      }
    }
  }

  /** A record replaced by one with the same key leaves the first match where it was. */
  lemma FirstMatchAfterUpdate<T>(s: seq<T>, key: T -> string, id: string, k: nat, x: T)
    requires FirstMatch(s, key, id) == Some(k)
    requires key(x) == id
    ensures FirstMatch(s[k := x], key, id) == Some(k)
  {
    var t := s[k := x];
    assert key(t[k]) == id;
    assert forall j :: 0 <= j < k ==> t[j] == s[j];
    var m := FirstMatch(t, key, id);
    assert m.Some?;
  }
}
