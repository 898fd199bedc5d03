/**
 The eight-bit values every component of the system reads and writes, and texts put
 together from pieces.
 */
module Octets {

  type byte = x: int | 0 <= x < 0x100

  function Concat(pieces: seq<seq<byte>>): seq<byte> {
    if pieces == [] then [] else Concat(pieces[..|pieces| - 1]) + pieces[|pieces| - 1]
  }

  /** Where a piece begins. */
  function Offset(pieces: seq<seq<byte>>, k: nat): nat
    requires k <= |pieces|
  {
    |Concat(pieces[..k])|
  }

  /** Text read at the end of a piece, the pieces after it being empty. */
  lemma {:induction false} AppendTo(pieces: seq<seq<byte>>, k: nat, ch: byte)
    requires k < |pieces|
    requires forall i | k < i < |pieces| :: pieces[i] == []
    ensures Concat(pieces[k := pieces[k] + [ch]]) == Concat(pieces) + [ch]
    decreases |pieces|
  {
    var n := |pieces| - 1;
    var longer := pieces[k := pieces[k] + [ch]];
    if k == n {
      assert longer[..n] == pieces[..n];
      assert Concat(pieces[..n]) + (pieces[n] + [ch]) == Concat(pieces[..n]) + pieces[n] + [ch];
    } else {
      AppendTo(pieces[..n], k, ch);
      assert longer[..n] == pieces[..n][k := pieces[k] + [ch]];
      assert forall u: seq<byte> :: u + [] == u;
    }
  }

  /** A piece is found at its offset, and the next one begins where it ends. */
  lemma {:induction false} PieceAt(pieces: seq<seq<byte>>, k: nat)
    requires k < |pieces|
    ensures Offset(pieces, k) + |pieces[k]| == Offset(pieces, k + 1) <= |Concat(pieces)|
    ensures Concat(pieces)[Offset(pieces, k)..Offset(pieces, k + 1)] == pieces[k]
    decreases |pieces|
  {
    var n := |pieces| - 1;
    assert pieces[..k + 1][..k] == pieces[..k];
    if k == n {
      assert pieces[..n + 1] == pieces;
    } else {
      PieceAt(pieces[..n], k);
      assert pieces[..n][..k] == pieces[..k];
      assert pieces[..n][..k + 1] == pieces[..k + 1];
      var off, end := Offset(pieces, k), Offset(pieces, k + 1);
      assert Concat(pieces)[off..end] == Concat(pieces[..n])[off..end];
    }
  }

  lemma {:induction false} AllEmpty(pieces: seq<seq<byte>>)
    requires forall i | 0 <= i < |pieces| :: pieces[i] == []
    ensures Concat(pieces) == []
    decreases |pieces|
  {
    if pieces != [] {
      AllEmpty(pieces[..|pieces| - 1]);
    }
  }
}
