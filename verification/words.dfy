/** Machine words of the C sources, and the optional value used throughout. */
module Words {

  type byte = b: int | 0 <= b < 0x100
  type uint16 = w: int | 0 <= w < 0x1_0000
  type uint32 = w: int | 0 <= w < 0x1_0000_0000

  /** Truncation to an unsigned word, as a C assignment does it. */
  function Wrap16(x: int): uint16 { x % 0x1_0000 }

  function Wrap32(x: int): uint32 { x % 0x1_0000_0000 }

  /** Network byte order. */
  function BigEndian16(w: uint16): (bs: seq<byte>)
    ensures |bs| == 2
  {
    [w / 0x100, w % 0x100]
  }

  function BigEndian32(w: uint32): (bs: seq<byte>)
    ensures |bs| == 4
  {
    [w / 0x100_0000, w / 0x1_0000 % 0x100, w / 0x100 % 0x100, w % 0x100]
  }

  function FromBigEndian16(bs: seq<byte>): uint16
    requires |bs| == 2
  {
    bs[0] as int * 0x100 + bs[1] as int
  }

  function FromBigEndian32(bs: seq<byte>): uint32
    requires |bs| == 4
  {
    bs[0] as int * 0x100_0000 + bs[1] as int * 0x1_0000 + bs[2] as int * 0x100 + bs[3] as int
  }

  lemma BigEndianRoundTrip(w: uint16, d: uint32)
    ensures FromBigEndian16(BigEndian16(w)) == w
    ensures FromBigEndian32(BigEndian32(d)) == d
  {
    Digits256(w, w / 0x100, w % 0x100);
    var a, b, c := d / 0x100_0000, d / 0x1_0000, d / 0x100;
    assert c == 0x100 * b + c % 0x100 && b == 0x100 * a + b % 0x100;
  }

  lemma Digits256(w: int, high: int, low: int)
    requires high == w / 0x100 && low == w % 0x100
    ensures high * 0x100 + low == w
  {
  }

  lemma WrapAdd16(x: int, y: int)
    ensures Wrap16(Wrap16(x) + y) == Wrap16(x + y)
  {
    assert x == 0x1_0000 * (x / 0x1_0000) + x % 0x1_0000;
  }

  lemma WrapAdd32(x: int, y: int)
    ensures Wrap32(Wrap32(x) + y) == Wrap32(x + y)
  {
    assert x == 0x1_0000_0000 * (x / 0x1_0000_0000) + x % 0x1_0000_0000;
  }

  lemma WrapLess32(x: int, lost: int)
    ensures Wrap32(x - lost) == Wrap32(x) <==> Wrap32(lost) == 0
  {
  }

  /** A remainder that takes one subtraction at most. */
  lemma ModOnce(x: nat, n: nat)
    requires 0 < n && x < 2 * n
    ensures x % n == if x < n then x else x - n
  {
    if x >= n {
      assert x == n * (x / n) + x % n;
      assert x / n == 1;
    }
  }

  datatype Option<+T> = None | Some(value: T)
}
