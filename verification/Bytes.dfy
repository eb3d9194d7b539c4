/** Bytes in host memory, and the alignment arithmetic shared by the builder and the parser.

    The library reads and writes multi-byte integers through pointer casts, so
    their layout is that of the host.  The host's byte order is a parameter `h`
    of everything that touches such an integer. */
module Bytes {

  newtype byte = x: int | 0 <= x < 256
  type uint16 = n: nat | n < 0x1_0000
  type uint32 = n: nat | n < 0x1_0000_0000

  datatype ByteOrder = Little | Big

  datatype Option<+T> = None | Some(value: T)

  /** What a Go call can do: return a value, return an error, or panic. */
  datatype Outcome<+T> = Ok(value: T) | Error | Panic

  function Zeros(n: nat): (s: seq<byte>)
    ensures |s| == n && forall i :: 0 <= i < n ==> s[i] == 0
  {
    seq(n, i => 0)
  }

  function Ones(n: nat): (s: seq<byte>)
    ensures |s| == n && forall i :: 0 <= i < n ==> s[i] == 0xff
  {
    seq(n, i => 0xff)
  }

  predicate AllBytes(data: seq<byte>, x: byte) {
    forall i :: 0 <= i < |data| ==> data[i] == x
  }

  /** `align(n, 4)`: both NLA_ALIGNTO and NLMSG_ALIGNTO are 4. */
  function Align(n: nat): (r: nat)
    ensures n <= r < n + 4 && r % 4 == 0
  {
    (n + 3) / 4 * 4
  }

  /** The zero bytes that separate position `n` from the next aligned one. */
  function Pad(n: nat): (s: seq<byte>)
    ensures |s| == Align(n) - n
  {
    Zeros(Align(n) - n)
  }

  /** `data` holds the bytes `e` from position `pos` on. */
  predicate At(data: seq<byte>, pos: nat, e: seq<byte>) {
    pos + |e| <= |data| && data[pos..pos + |e|] == e
  }

  lemma {:induction false} AtSplit(data: seq<byte>, pos: nat, e: seq<byte>, e': seq<byte>)
    ensures At(data, pos, e + e') <==> At(data, pos, e) && At(data, pos + |e|, e')
  {
    if At(data, pos, e + e') {
      var s := data[pos..pos + |e + e'|];
      assert data[pos..pos + |e|] == s[..|e|] == e;
      assert data[pos + |e|..pos + |e| + |e'|] == s[|e|..] == e';
    }
    if At(data, pos, e) && At(data, pos + |e|, e') {
      assert data[pos..pos + |e + e'|] == data[pos..pos + |e|] + data[pos + |e|..pos + |e| + |e'|];
    }
  }

  /** A 16-bit integer as the host lays it out in memory. */
  function U16(h: ByteOrder, n: uint16): (s: seq<byte>)
    ensures |s| == 2
  {
    var lo, hi := (n % 256) as byte, (n / 256) as byte;
    if h == Little then [lo, hi] else [hi, lo]
  }

  function U16At(h: ByteOrder, data: seq<byte>, pos: nat): (n: uint16)
    requires pos + 2 <= |data|
  {
    var a, b := data[pos] as nat, data[pos + 1] as nat;
    if h == Little then a + 256 * b else 256 * a + b
  }

  /** A 32-bit integer as the host lays it out in memory. */
  function U32(h: ByteOrder, n: uint32): (s: seq<byte>)
    ensures |s| == 4
  {
    if h == Little then U16(h, n % 0x1_0000) + U16(h, n / 0x1_0000)
    else U16(h, n / 0x1_0000) + U16(h, n % 0x1_0000)
  }

  function U32At(h: ByteOrder, data: seq<byte>, pos: nat): (n: uint32)
    requires pos + 4 <= |data|
  {
    var a, b := U16At(h, data, pos), U16At(h, data, pos + 2);
    if h == Little then a + 0x1_0000 * b else 0x1_0000 * a + b
  }

  /** `uint16FromBE`, which is also `uint16ToBE`: reads the memory of `n` as big-endian. */
  function Uint16FromBE(h: ByteOrder, n: uint16): (r: uint16) {
    var a := U16(h, n);
    256 * (a[0] as nat) + a[1] as nat
  }

  /** Reading back a 16-bit store yields the number stored, at any position of any buffer. */
  lemma {:induction false} U16RoundTrip(h: ByteOrder, n: uint16, data: seq<byte>, pos: nat)
    requires At(data, pos, U16(h, n))
    ensures pos + 2 <= |data| && U16At(h, data, pos) == n
  {
    var s := U16(h, n);
    assert data[pos] == data[pos..pos + 2][0] == s[0];
    assert data[pos + 1] == data[pos..pos + 2][1] == s[1];
  }

  lemma {:induction false} U32RoundTrip(h: ByteOrder, n: uint32, data: seq<byte>, pos: nat)
    requires At(data, pos, U32(h, n))
    ensures pos + 4 <= |data| && U32At(h, data, pos) == n
  {
    var lo, hi := n % 0x1_0000, n / 0x1_0000;
    var (a, b) := if h == Little then (lo, hi) else (hi, lo);
    AtSplit(data, pos, U16(h, a), U16(h, b));
    U16RoundTrip(h, a, data, pos);
    U16RoundTrip(h, b, data, pos + 2);
  }

  /** On either host, a port that went through `uint16ToBE` is stored most significant
      byte first, and `uint16FromBE` of what is read back is the port again. */
  lemma {:induction false} PortRoundTrip(h: ByteOrder, port: uint16)
    ensures U16(h, Uint16FromBE(h, port)) == [(port / 256) as byte, (port % 256) as byte]
    ensures Uint16FromBE(h, Uint16FromBE(h, port)) == port
  {
    var lo: nat, hi: nat := port % 256, port / 256;
    PortOfBytes(h, lo, hi);
  }

  lemma {:induction false} PortOfBytes(h: ByteOrder, lo: nat, hi: nat)
    requires lo < 256 && hi < 256
    ensures U16(h, Uint16FromBE(h, 256 * hi + lo)) == [hi as byte, lo as byte]
    ensures Uint16FromBE(h, Uint16FromBE(h, 256 * hi + lo)) == 256 * hi + lo
  {
    BytesOf(h, lo, hi);
    BytesOf(h, hi, lo);
  }

  lemma {:induction false} BytesOf(h: ByteOrder, lo: nat, hi: nat)
    requires lo < 256 && hi < 256
    ensures U16(h, 256 * hi + lo) == if h == Little then [lo as byte, hi as byte] else [hi as byte, lo as byte]
    ensures Uint16FromBE(h, 256 * hi + lo) == if h == Little then 256 * lo + hi else 256 * hi + lo
  {
    assert (256 * hi + lo) / 256 == hi && (256 * hi + lo) % 256 == lo;
  }

  /** The base-256 digits of a 32-bit number in the order in which the host stores them. */
  function Digits(h: ByteOrder, n: uint32): (s: seq<byte>)
    ensures |s| == 4
  {
    var a, b := (n % 256) as byte, (n / 256 % 256) as byte;
    var c, d := (n / 0x1_0000 % 256) as byte, (n / 0x100_0000) as byte;
    if h == Little then [a, b, c, d] else [d, c, b, a]
  }

  lemma {:induction false} DigitsOfHalves(n: uint32)
    ensures n % 0x1_0000 % 256 == n % 256 && n % 0x1_0000 / 256 == n / 256 % 256
    ensures n / 0x1_0000 / 256 == n / 0x100_0000
  {
  }

  /** A 32-bit store puts exactly these four bytes. */
  lemma {:induction false} U32Layout(h: ByteOrder, n: uint32)
    ensures U32(h, n) == Digits(h, n)
  {
    DigitsOfHalves(n);
  }

  /** And a 32-bit load is worth what the four bytes are worth. */
  lemma {:induction false} U32Worth(h: ByteOrder, data: seq<byte>, pos: nat)
    requires pos + 4 <= |data|
    ensures var a, b, c, d := data[pos] as nat, data[pos + 1] as nat, data[pos + 2] as nat, data[pos + 3] as nat;
      U32At(h, data, pos) == if h == Little then a + 256 * b + 0x1_0000 * c + 0x100_0000 * d
                             else 0x100_0000 * a + 0x1_0000 * b + 256 * c + d
  {
  }
}
