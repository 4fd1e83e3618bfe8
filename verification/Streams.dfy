/** Byte sources with the contract of io.Reader, as values. */
module Streams {
  import opened Bytes

  /** Delivers `data` in pieces: at position pos, offered room for max bytes, it would like to deliver take(pos, max).
      The end is told together with the last byte, or by the read after it. */
  datatype Source = Source(data: seq<Byte>, take: (nat, nat) -> nat, eofWithLast: bool) {

    /** How many bytes the read at pos delivers: at least one unless the data is exhausted. */
    function Count(pos: nat, max: nat): (n: nat)
      requires pos <= |data| && max > 0
      ensures n <= max && pos + n <= |data| && (pos < |data| ==> n > 0)
    {
      var wish := if take(pos, max) == 0 then 1 else take(pos, max);
      var room := if wish < max then wish else max;
      if pos + room <= |data| then room else |data| - pos
    }

    /** Whether the read that moves from pos to next tells the end. */
    predicate AtEof(pos: nat, next: nat) {
      pos == |data| || (eofWithLast && next == |data|)
    }

    /** Whether the end is told by a read that delivers nothing. */
    predicate EofApart() {
      !eofWithLast || data == []
    }
  }
}
