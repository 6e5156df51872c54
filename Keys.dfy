/** Ordering the primary keys of a table. */
module Keys {

  /** An element of a set of non-zero size. */
  lemma ElementOf<T>(ks: set<T>) returns (x: T)
    requires |ks| > 0
    ensures x in ks
  {
    x :| x in ks;
  }

  /** A non-empty finite set of integers has a least element. */
  lemma {:induction false} LeastExists(ks: set<int>)
    requires |ks| > 0
    ensures exists m :: m in ks && forall j :: j in ks ==> m <= j
    decreases |ks|
  {
    var x := ElementOf(ks);
    var rest := ks - {x};
    assert forall j :: j in ks ==> j == x || j in rest;
    if |rest| == 0 {
      assert forall j :: j in ks ==> x <= j;
    } else {
      LeastExists(rest);
      var m :| m in rest && forall j :: j in rest ==> m <= j;
      var least := if x < m then x else m;
      assert forall j :: j in ks ==> least <= j;
    }
  }

  /** The keys in ascending order: the order a table scan returns rows in. */
  function SortedIds(ks: set<int>): (ids: seq<int>)
    ensures |ids| == |ks|
    ensures forall i :: 0 <= i < |ids| ==> ids[i] in ks
    ensures forall i, j :: 0 <= i < j < |ids| ==> ids[i] < ids[j]
    decreases ks
  {
    if |ks| == 0 then []
    else
      LeastExists(ks);
      var m :| m in ks && forall j :: j in ks ==> m <= j;
      var rest := SortedIds(ks - {m});
      assert forall i :: 0 <= i < |rest| ==> m < rest[i];
      var ids := [m] + rest;
      assert forall i :: 0 < i < |ids| ==> ids[i] == rest[i - 1];
      ids
  }
}
