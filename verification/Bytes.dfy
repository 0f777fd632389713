/** Bytes, and 32-bit numbers in network byte order. */
module Bytes {
  type Byte = b: int | 0 <= b < 256
  type Word = w: int | 0 <= w < 0x1_0000_0000

  // htonl, as the bytes it leaves in memory.
  function Htonl(w: Word): (b: seq<Byte>)
    ensures |b| == 4
  {
    [w / 0x100_0000, w / 0x1_0000 % 256, w / 256 % 256, w % 256]
  }

  function Ntohl(b: seq<Byte>): (w: Word)
    requires |b| == 4
  {
    ((b[0] as int * 256 + b[1]) * 256 + b[2]) * 256 + b[3]
  }

  lemma WordRoundTrip(w: Word)
    ensures Ntohl(Htonl(w)) == w
  {
    var a := w / 0x1_0000;
    assert w / 0x100_0000 == a / 256 && w / 0x1_0000 == a;
    assert w == a * 0x1_0000 + w / 256 % 256 * 256 + w % 256;
  }

  lemma BytesRoundTrip(b: seq<Byte>)
    requires |b| == 4
    ensures Htonl(Ntohl(b)) == b
  {
    var w := Ntohl(b);
    var t := b[0] as int * 256 + b[1];
    var u := t * 256 + b[2];
    assert w == u * 256 + b[3] && w / 256 == u && w % 256 == b[3];
    assert u / 256 == t && u % 256 == b[2];
    assert w / 0x1_0000 == w / 256 / 256 && w / 0x100_0000 == w / 0x1_0000 / 256;
    assert t / 256 == b[0] && t % 256 == b[1];
  }
}
