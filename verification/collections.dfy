/** Sequence helpers standing in for the ORM's list queries. */
module Collections {

  /** The elements of `s` that satisfy `keep`, in their original order:
      the model of `DataList::filter(...)` over an in-memory list. */
  function Filter<T(==, !new)>(s: seq<T>, keep: T -> bool): (kept: seq<T>)
    ensures |kept| <= |s|
    ensures forall x :: x in kept <==> x in s && keep(x)
  {
    if |s| == 0 then []
    else
      var rest := Filter(s[1..], keep);
      assert forall x :: x in s <==> x == s[0] || x in s[1..];
      if keep(s[0]) then [s[0]] + rest else rest
  }

  /** A filtered list is non-empty exactly when some element passes the
      filter: `filter(...)->exists()` is an existential over the list. */
  lemma {:induction false} FilterExists<T(!new)>(s: seq<T>, keep: T -> bool)
    ensures |Filter(s, keep)| > 0 <==> exists i :: 0 <= i < |s| && keep(s[i])
  {
    var kept := Filter(s, keep);
    if |kept| > 0 {
      assert kept[0] in s;
      var i :| 0 <= i < |s| && s[i] == kept[0];
    }
    if i :| 0 <= i < |s| && keep(s[i]) {
      assert s[i] in kept;
    }
  }
}
