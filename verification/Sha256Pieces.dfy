/** The streaming interface used from the outside: any way of cutting a message gives its digest. */
module Sha256Pieces {
  import opened Bits
  import opened Sha256Spec
  import opened Sha256

  /** The pieces of a message in one row. */
  function Joined(pieces: seq<seq<byte>>): seq<byte> {
    if pieces == [] then [] else Joined(pieces[..|pieces| - 1]) + pieces[|pieces| - 1]
  }

  lemma JoinedNone(pieces: seq<seq<byte>>)
    ensures Joined(pieces[..0]) == []
  {
  }

  lemma JoinedOneMore(pieces: seq<seq<byte>>, i: nat)
    requires i < |pieces|
    ensures Joined(pieces[..i + 1]) == Joined(pieces[..i]) + pieces[i]
  {
    assert pieces[..i + 1][..i] == pieces[..i];
  }

  /** However a message is cut into calls of Update, the digest is that of the whole message. */
  method HashInPieces(ctx: Context, pieces: seq<seq<byte>>) returns (digest: seq<byte>)
    requires ctx.Allocated()
    modifies ctx.Repr
    ensures digest == Hash(Joined(pieces))
  {
    hide *;
    ctx.Init();
    JoinedNone(pieces);
    var i := 0;
    while i < |pieces|
      invariant 0 <= i <= |pieces|
      invariant ctx.Valid() && ctx.Absorbed == Joined(pieces[..i])
    {
      JoinedOneMore(pieces, i);
      ctx.Update(pieces[i]);
      i := i + 1;
    }
    assert pieces[..i] == pieces;
    digest := ctx.Final();
  }
}
