/** One UDP crypt packet: its layout, what the sender puts in it and what the receiver makes of it. */
module Packets {
  import opened Bytes
  import opened Nonce
  import opened Ocb2
  import opened Receiver

  // The packet of counter s: the low byte of the nonce, three bytes of the tag and the encrypted message.
  function Packet(enc: Cipher, s: int, m: seq<byte>): seq<byte> {
    var sealed := Seal(enc, NonceBlock(s), Flip(m));
    [(s % 256) as byte] + sealed.tag[..3] + sealed.text
  }

  // The message in a packet taken to be that of counter s; an empty one counts as failure.
  function Unseal(enc: Cipher, dec: Cipher, s: int, packet: seq<byte>): Option<seq<byte>>
    requires |packet| >= 4
  {
    match Decrypt(enc, dec, NonceBlock(s), packet[4..], packet[1..4])
    case None => None
    case Some(m) => if m == [] then None else Some(m)
  }

  // The counter a receiver with this log takes a packet to carry, unless it turns it away before decrypting.
  function Admitted(start: int, log: seq<int>, packet: seq<byte>): Option<int> {
    if |packet| < 4 then None
    else
      var n := Peak(start, log);
      match Candidate(n, packet[0] as int)
      case None => None
      case Some(s) => if Refused(n, log, s) then None else Some(s)
  }

  datatype Delivery = Delivery(counter: int, message: seq<byte>)

  // What the receiver makes of a packet: nothing, or the message and its counter.
  function Receive(enc: Cipher, dec: Cipher, start: int, log: seq<int>, packet: seq<byte>): Option<Delivery> {
    match Admitted(start, log, packet)
    case None => None
    case Some(s) =>
      match Unseal(enc, dec, s, packet)
      case None => None
      case Some(m) => Some(Delivery(s, m))
  }
}
