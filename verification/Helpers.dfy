/** What several modules share. */
module Wrappers {
  datatype Option<+T> = None | Some(value: T)
}

module Sequences {
  ghost predicate Distinct<T>(s: seq<T>) { forall i, j :: 0 <= i < j < |s| ==> s[i] != s[j] }

  /** The sequence with `x` put in before its element `k`. */
  function Put<T>(s: seq<T>, k: nat, x: T): seq<T>
    requires k <= |s|
  {
    s[..k] + [x] + s[k..]
  }

  /** The sequence without its element `k`. */
  function Without<T>(s: seq<T>, k: nat): seq<T>
    requires k < |s|
  {
    s[..k] + s[k + 1..]
  }

  lemma PutAt<T>(s: seq<T>, k: nat, x: T)
    requires k <= |s|
    ensures var t := Put(s, k, x);
            && |t| == |s| + 1
            && forall j :: 0 <= j < |t| ==> t[j] == if j < k then s[j] else if j == k then x else s[j - 1]
  {
  }

  lemma WithoutAt<T>(s: seq<T>, k: nat)
    requires k < |s|
    ensures var t := Without(s, k);
            |t| == |s| - 1 && forall j :: 0 <= j < |t| ==> t[j] == if j < k then s[j] else s[j + 1]
  {
  }

  lemma PutDistinct<T>(s: seq<T>, k: nat, x: T)
    requires k <= |s| && Distinct(s) && x !in s
    ensures Distinct(Put(s, k, x))
  {
    PutAt(s, k, x);
  }

  lemma WithoutDistinct<T>(s: seq<T>, k: nat)
    requires k < |s| && Distinct(s)
    ensures Distinct(Without(s, k)) && s[k] !in Without(s, k)
  {
    WithoutAt(s, k);
  }
}
