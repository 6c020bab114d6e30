/**
 Packed structures: fields one after the other, and where each of them starts.
 */
module Packed {
  import opened Bytes

  /** The fields of a packed structure one after the other. */
  function Join(fields: seq<seq<byte>>): seq<byte> {
    if fields == [] then [] else Join(fields[..|fields| - 1]) + fields[|fields| - 1]
  }

  /** Where field k starts. */
  function Start(fields: seq<seq<byte>>, k: nat): nat
    requires k <= |fields|
  {
    if k == 0 then 0 else Start(fields, k - 1) + |fields[k - 1]|
  }

  lemma {:induction false} SameStart(fields: seq<seq<byte>>, n: nat, k: nat)
    requires k <= n <= |fields|
    ensures Start(fields[..n], k) == Start(fields, k)
  {
    if k > 0 { SameStart(fields, n, k - 1); }
  }

  lemma {:induction false} FieldAt(fields: seq<seq<byte>>, k: nat)
    requires k < |fields|
    ensures Start(fields, k) + |fields[k]| <= |Join(fields)|
    ensures Join(fields)[Start(fields, k)..Start(fields, k) + |fields[k]|] == fields[k]
    decreases |fields|
  {
    var n := |fields| - 1;
    SameStart(fields, n, k);
    JoinLength(fields[..n]);
    SameStart(fields, n, n);
    if k < n { FieldAt(fields[..n], k); }
  }

  lemma {:induction false} JoinLength(fields: seq<seq<byte>>)
    ensures |Join(fields)| == Start(fields, |fields|)
    decreases |fields|
  {
    if fields != [] {
      var n := |fields| - 1;
      JoinLength(fields[..n]);
      SameStart(fields, n, n);
    }
  }

  lemma Sub(s: seq<byte>, at: nat, n: nat, i: nat, j: nat)
    requires at + n <= |s| && i <= j <= n
    ensures s[at..at + n][i..j] == s[at + i..at + j]
  {
    var a, b := s[at..at + n][i..j], s[at + i..at + j];
    forall k | 0 <= k < j - i ensures a[k] == b[k] {}
  }

  lemma NextStart(fields: seq<seq<byte>>, k: nat)
    requires k < |fields|
    ensures Start(fields, 0) == 0 && Start(fields, k + 1) == Start(fields, k) + |fields[k]|
  {
  }
}
