/** A connection as the probes see it: the peer's bytes arrive in pieces nobody chose. */
module Network {
  import opened Text

  class Socket {
    /** The pieces `recv` will return, in order; behind the last one the peer has closed. */
    var incoming: seq<string>

    predicate Valid()
      reads this
    {
      forall i :: 0 <= i < |incoming| ==> incoming[i] != ""
    }

    /** What has not been received yet. */
    function Unread(): string
      reads this
    {
      Concat(incoming)
    }

    constructor (pieces: seq<string>)
      requires forall i :: 0 <= i < |pieces| ==> pieces[i] != ""
      ensures Valid() && Unread() == Concat(pieces)
    {
      incoming := pieces;
    }

    /** The next piece, or nothing at the end of the stream. */
    method Recv() returns (piece: string)
      requires Valid()
      modifies this
      ensures Valid()
      ensures piece + Unread() == old(Unread())
      ensures piece == "" <==> old(incoming) == []
      ensures |incoming| == if piece == "" then |old(incoming)| else |old(incoming)| - 1
    {
      if incoming == [] {
        return "";
      }
      piece := incoming[0];
      incoming := incoming[1..];
    }
  }
}
