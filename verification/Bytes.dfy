// Bytes and the machine words made of them.
module Bytes {
  type Byte = b: int | 0 <= b < 0x100
  type Word = n: int | 0 <= n < 0x1_0000_0000
  type Long = n: int | 0 <= n < 0x1_0000_0000_0000_0000

  type Four = b: seq<Byte> | |b| == 4 witness [0, 0, 0, 0]

  // The bytes of a word, the lowest first.
  function WordBytes(n: Word): Four {
    [n % 256, n / 0x100 % 256, n / 0x1_0000 % 256, n / 0x100_0000]
  }

  function BytesWord(b: Four): Word {
    var b0: int, b1: int, b2: int, b3: int := b[0], b[1], b[2], b[3];
    b0 + 0x100 * b1 + 0x1_0000 * b2 + 0x100_0000 * b3
  }

  function Reversed(b: Four): Four {
    [b[3], b[2], b[1], b[0]]
  }

  lemma BytesRoundTrip(b: Four)
    ensures WordBytes(BytesWord(b)) == b
  {
    var b0: int, b1: int, b2: int, b3: int := b[0], b[1], b[2], b[3];
    var n: int := BytesWord(b);
    assert n / 0x100 == b1 + 0x100 * b2 + 0x1_0000 * b3;
    assert n / 0x1_0000 == b2 + 0x100 * b3;
    assert n / 0x100_0000 == b3;
  }

  // Little-endian: byte k counts 256^k.
  lemma LittleEndian(n: Word)
    ensures var b := WordBytes(n);
            && n == b[0] as int + b[1] as int * 256 + b[2] as int * 65536 + b[3] as int * 16777216
            && forall k :: 0 <= k < 4 ==> Reversed(b)[k] == b[3 - k]
  {
    WordRoundTrip(n);
  }

  lemma WordRoundTrip(n: Word)
    ensures BytesWord(WordBytes(n)) == n
  {
    var q1: int, q2: int, q3: int := n / 0x100, n / 0x1_0000, n / 0x100_0000;
    assert n == 0x100 * q1 + n % 0x100;
    assert q1 == 0x100 * q2 + q1 % 0x100;
    assert q2 == 0x100 * q3 + q2 % 0x100;
  }
}
