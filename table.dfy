/** The Some/None wrapper used for JavaScript values that may be `undefined`. */
module Wrappers {
  datatype Option<+T> = None | Some(value: T)
}

/**
 * The MongoDB collection primitives the handlers use, over a collection held
 * as a sequence of documents in natural (insertion) order. A filter is a
 * predicate on documents; `findOne`, `updateOne` and `deleteOne` all act on
 * the first document in natural order that the filter accepts, and `find`
 * keeps every accepted document.
 */
module Table {
  import opened Wrappers

  /** The position of the first document accepted by `p`, if any. */
  function FirstMatch<T>(s: seq<T>, p: T -> bool): (r: Option<nat>)
    ensures r.Some? ==> r.value < |s| && p(s[r.value])
    ensures r.Some? ==> forall j :: 0 <= j < r.value ==> !p(s[j])
    ensures r.None? <==> forall j :: 0 <= j < |s| ==> !p(s[j])
  {
    if |s| == 0 then None
    else if p(s[0]) then Some(0)
    else match FirstMatch(s[1..], p)
      case None => None
      case Some(i) => Some(i + 1)
  }

  /** The collection after removing the document at position `i` (`deleteOne`). */
  function RemoveAt<T>(s: seq<T>, i: nat): (r: seq<T>)
    requires i < |s|
    ensures |r| == |s| - 1
    ensures forall j :: 0 <= j < i ==> r[j] == s[j]
    ensures forall j :: i <= j < |r| ==> r[j] == s[j + 1]
    ensures multiset(r) == multiset(s) - multiset{s[i]}
  {
    assert s == s[..i] + [s[i]] + s[i + 1..];
    s[..i] + s[i + 1..]
  }

  /** The documents accepted by `p`, in natural order (`find(filter).toArray()`). */
  function Filter<T(!new)>(s: seq<T>, p: T -> bool): (r: seq<T>)
    ensures forall x :: multiset(r)[x] == if p(x) then multiset(s)[x] else 0
  {
    if |s| == 0 then []
    else
      assert s == [s[0]] + s[1..];
      (if p(s[0]) then [s[0]] else []) + Filter(s[1..], p)
  }

  /** Changing one document in a way the filter cannot see leaves the first match where it was. */
  lemma {:induction false} FirstMatchUnaffected<T>(s: seq<T>, i: nat, x: T, p: T -> bool)
    requires i < |s| && p(x) == p(s[i])
    ensures FirstMatch(s[i := x], p) == FirstMatch(s, p)
  {
    if i > 0 {
      assert s[i := x][1..] == s[1..][i - 1 := x];
      FirstMatchUnaffected(s[1..], i - 1, x, p);
    }
  }
}
