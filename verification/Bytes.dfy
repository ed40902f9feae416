/** Bytes, and byte strings held as a list of pieces. */
module Bytes {

  type byte = x: int | 0 <= x < 256

  /** The byte string that the first k pieces of a list spell. */
  ghost function FlatTo(ps: seq<seq<byte>>, k: nat): seq<byte>
    requires k <= |ps|
  {
    if k == 0 then [] else FlatTo(ps, k - 1) + ps[k - 1]
  }

  /** The byte string that a list of pieces spells. */
  ghost function Flat(ps: seq<seq<byte>>): seq<byte> {
    FlatTo(ps, |ps|)
  }

  lemma {:induction false} FlatToPrefix(ps: seq<seq<byte>>, qs: seq<seq<byte>>, k: nat)
    requires k <= |ps| && k <= |qs| && ps[..k] == qs[..k]
    ensures FlatTo(ps, k) == FlatTo(qs, k)
  {
    if k > 0 {
      assert ps[..k - 1] == ps[..k][..k - 1];
      assert qs[..k - 1] == qs[..k][..k - 1];
      assert ps[k - 1] == ps[..k][k - 1] == qs[..k][k - 1];
      FlatToPrefix(ps, qs, k - 1);
    }
  }

  lemma {:induction false} FlatConcat(ps: seq<seq<byte>>, qs: seq<seq<byte>>)
    ensures Flat(ps + qs) == Flat(ps) + Flat(qs)
  {
    if qs == [] {
      assert ps + qs == ps;
    } else {
      var n := |qs| - 1;
      FlatConcat(ps, qs[..n]);
      assert (ps + qs)[..|ps| + n] == ps + qs[..n];
      FlatToPrefix(ps + qs, ps + qs[..n], |ps| + n);
      FlatToPrefix(qs, qs[..n], n);
    }
  }

  lemma FlatZero(ps: seq<seq<byte>>)
    ensures FlatTo(ps, 0) == []
  {
  }

  lemma FlatToNext(ps: seq<seq<byte>>, k: nat)
    requires k < |ps|
    ensures FlatTo(ps, k + 1) == FlatTo(ps, k) + ps[k]
  {
  }

  lemma FlatOne(p: seq<byte>)
    ensures Flat([p]) == p
  {
    assert FlatTo([p], 1) == FlatTo([p], 0) + p;
  }

  lemma FlatAppend(ps: seq<seq<byte>>, p: seq<byte>)
    ensures Flat(ps + [p]) == Flat(ps) + p
  {
    FlatConcat(ps, [p]);
    FlatOne(p);
  }

  lemma FlatPrepend(p: seq<byte>, ps: seq<seq<byte>>)
    ensures Flat([p] + ps) == p + Flat(ps)
  {
    FlatConcat([p], ps);
    FlatOne(p);
  }

  lemma FlatSplit(ps: seq<seq<byte>>, k: nat)
    requires k <= |ps|
    ensures Flat(ps) == Flat(ps[..k]) + Flat(ps[k..])
  {
    assert ps == ps[..k] + ps[k..];
    FlatConcat(ps[..k], ps[k..]);
  }

  lemma FlatGrowLast(ps: seq<seq<byte>>, more: seq<byte>)
    requires ps != []
    ensures Flat(ps[|ps| - 1 := ps[|ps| - 1] + more]) == Flat(ps) + more
  {
    var n := |ps| - 1;
    var qs := ps[n := ps[n] + more];
    FlatToPrefix(ps, qs, n);
  }

  lemma FlatGrowFirst(ps: seq<seq<byte>>, more: seq<byte>)
    requires ps != []
    ensures Flat(ps[0 := more + ps[0]]) == more + Flat(ps)
  {
    assert ps == [ps[0]] + ps[1..] && ps[0 := more + ps[0]] == [more + ps[0]] + ps[1..];
    FlatPrepend(ps[0], ps[1..]);
    FlatPrepend(more + ps[0], ps[1..]);
  }

  lemma {:induction false} FlatToEmpty(ps: seq<seq<byte>>, k: nat)
    requires k <= |ps|
    ensures FlatTo(ps, k) == [] <==> forall i :: 0 <= i < k ==> ps[i] == []
  {
    if k > 0 {
      FlatToEmpty(ps, k - 1);
    }
  }

  lemma FlatEmpty(ps: seq<seq<byte>>)
    ensures Flat(ps) == [] <==> forall i :: 0 <= i < |ps| ==> ps[i] == []
  {
    FlatToEmpty(ps, |ps|);
  }

  lemma FlatCut(ps: seq<seq<byte>>, k: nat)
    requires k <= |ps|
    ensures Flat(ps) == FlatTo(ps, k) + Flat(ps[k..])
  {
    FlatSplit(ps, k);
    FlatToPrefix(ps, ps[..k], k);
  }

  /** Dropping the first k pieces and r bytes of the next drops that many bytes of the string. */
  lemma FlatDrain(ps: seq<seq<byte>>, k: nat, r: nat)
    requires k < |ps| && r <= |ps[k]|
    ensures |FlatTo(ps, k)| + r <= |Flat(ps)|
    ensures Flat(ps[k..][0 := ps[k][r..]]) == Flat(ps)[|FlatTo(ps, k)| + r..]
  {
    FlatCut(ps, k);
    var rest := ps[k + 1..];
    assert ps[k..] == [ps[k]] + rest && ps[k..][0 := ps[k][r..]] == [ps[k][r..]] + rest;
    FlatPrepend(ps[k], rest);
    FlatPrepend(ps[k][r..], rest);
  }

  /** Where piece k sits in the string. */
  lemma FlatPiece(ps: seq<seq<byte>>, k: nat)
    requires k < |ps|
    ensures |FlatTo(ps, k + 1)| == |FlatTo(ps, k)| + |ps[k]| <= |Flat(ps)|
    ensures forall i {:trigger Flat(ps)[i]} :: |FlatTo(ps, k)| <= i < |FlatTo(ps, k + 1)| ==>
      Flat(ps)[i] == ps[k][i - |FlatTo(ps, k)|]
    ensures k + 1 == |ps| ==> |FlatTo(ps, k + 1)| == |Flat(ps)|
  {
    FlatCut(ps, k + 1);
    assert FlatTo(ps, k + 1) == FlatTo(ps, k) + ps[k];
  }

  /** Moving r bytes of piece k into a piece in front of it keeps the string. */
  lemma FlatPull(ps: seq<seq<byte>>, k: nat, r: nat, d: seq<byte>)
    requires k < |ps| && r <= |ps[k]|
    ensures |FlatTo(ps, k)| <= |Flat(ps)|
    ensures Flat([d + ps[k][..r]] + ps[k..][0 := ps[k][r..]]) == d + Flat(ps)[|FlatTo(ps, k)|..]
  {
    hide FlatTo;
    FlatPrepend(d + ps[k][..r], ps[k..][0 := ps[k][r..]]);
    FlatDrain(ps, k, r);
    FlatPiece(ps, k);
    var a, f := |FlatTo(ps, k)|, Flat(ps);
    assert f[a..a + r] == ps[k][..r];
    assert f[a..] == f[a..a + r] + f[a + r..];
  }
}
