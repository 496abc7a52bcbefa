/** Byte and integer helpers shared by every copy of the SIF reader: the
    Arduino bit macros on a byte, the 8-bit XOR used as the frame checksum,
    C's integer division (which truncates toward zero), the Arduino
    `constrain` macro, 32-bit `unsigned long` subtraction and the prefix
    test both command parsers use. */
module Bits {

  /** An Arduino `unsigned long` (32 bits on every board in this system). */
  type ULong = x: int | 0 <= x < 0x1_0000_0000

  const ULONG_MODULUS: int := 0x1_0000_0000

  /** The byte with only bit k set, `1 << k`, as a table so that no shift
      by a variable amount reaches the solver. */
  function Mask(k: nat): (m: bv8)
    requires k < 8
  {
    match k
    case 0 => 0x01
    case 1 => 0x02
    case 2 => 0x04
    case 3 => 0x08
    case 4 => 0x10
    case 5 => 0x20
    case 6 => 0x40
    case _ => 0x80
  }

  /** `bitRead(b, k)`: bit k (0 = least significant) of a byte. */
  predicate BitRead(b: bv8, k: nat)
    requires k < 8
  {
    b & Mask(k) != 0
  }

  /** `BitRead` is the Arduino macro's own shift-and-mask form. */
  lemma BitReadIsShiftAndMask(b: bv8, k: nat)
    requires k < 8
    ensures BitRead(b, k) <==> (b >> k) & 1 == 1
  {
  }

  /** `bitSet(b, k)`: bit k becomes 1, the seven others keep their value. */
  function BitSet(b: bv8, k: nat): (r: bv8)
    requires k < 8
    ensures BitRead(r, k)
    ensures forall j :: 0 <= j < 8 && j != k ==> BitRead(r, j) == BitRead(b, j)
  {
    b | Mask(k)
  }

  /** `bitClear(b, k)`: bit k becomes 0, the seven others keep their value. */
  function BitClear(b: bv8, k: nat): (r: bv8)
    requires k < 8
    ensures !BitRead(r, k)
    ensures forall j :: 0 <= j < 8 && j != k ==> BitRead(r, j) == BitRead(b, j)
  {
    b & !Mask(k)
  }

  /** Two bytes that agree on all eight bits are the same byte. */
  lemma BitsDetermineByte(a: bv8, b: bv8)
    requires forall k :: 0 <= k < 8 ==> BitRead(a, k) == BitRead(b, k)
    ensures a == b
  {
    assert BitRead(a, 0) == BitRead(b, 0) && BitRead(a, 1) == BitRead(b, 1);
    assert BitRead(a, 2) == BitRead(b, 2) && BitRead(a, 3) == BitRead(b, 3);
    assert BitRead(a, 4) == BitRead(b, 4) && BitRead(a, 5) == BitRead(b, 5);
    assert BitRead(a, 6) == BitRead(b, 6) && BitRead(a, 7) == BitRead(b, 7);
  }

  /** The running exclusive-or of a sequence of bytes, accumulated from the
      front as `crc ^= data[i]` does. */
  function Xor(s: seq<bv8>): bv8
  {
    if s == [] then 0 else Xor(s[..|s| - 1]) ^ s[|s| - 1]
  }

  /** XOR distributes over concatenation, so the checksum does not depend on
      how the bytes are grouped. */
  lemma {:induction false} XorAppend(a: seq<bv8>, b: seq<bv8>)
    ensures Xor(a + b) == Xor(a) ^ Xor(b)
    decreases |b|
  {
    if b == [] {
      assert a + b == a;
    } else {
      var b' := b[..|b| - 1];
      assert (a + b)[..|a + b| - 1] == a + b';
      XorAppend(a, b');
    }
  }

  /** Changing exactly one byte of a sequence changes its XOR. */
  lemma XorDetectsOneByte(s: seq<bv8>, i: nat, v: bv8)
    requires i < |s| && v != s[i]
    ensures Xor(s[i := v]) != Xor(s)
  {
    var t := s[i := v];
    assert s == s[..i] + [s[i]] + s[i + 1..];
    assert t == s[..i] + [v] + s[i + 1..];
    XorAppend(s[..i] + [s[i]], s[i + 1..]);
    XorAppend(s[..i], [s[i]]);
    XorAppend(s[..i] + [v], s[i + 1..]);
    XorAppend(s[..i], [v]);
    assert Xor([s[i]]) == s[i] by { assert [s[i]][..0] == []; }
    assert Xor([v]) == v by { assert [v][..0] == []; }
  }

  /** C's `/` on `int`: the quotient truncated toward zero (Dafny's own `/`
      is Euclidean and differs for a negative dividend). */
  function TruncDiv(a: int, b: int): (q: int)
    requires b > 0
    ensures a >= 0 ==> 0 <= q * b <= a < q * b + b
    ensures a < 0 ==> q * b - b < a <= q * b <= 0
  {
    if a >= 0 then
      QuotientBounds(a, b);
      a / b
    else
      QuotientBounds(-a, b);
      assert -((-a) / b) * b == -(((-a) / b) * b);
      -((-a) / b)
  }

  lemma QuotientBounds(n: nat, b: int)
    requires b > 0
    ensures 0 <= (n / b) * b <= n < (n / b) * b + b
  {
    var q, r := n / b, n % b;
    assert n == q * b + r && 0 <= r < b;
    assert q >= 0;
    assert q * b >= 0;
  }

  function Abs(x: int): (r: int)
    ensures r >= 0 && (r == x || r == -x)
  {
    if x < 0 then -x else x
  }

  /** Arduino `constrain(x, lo, hi)` on integers. */
  function Constrain(x: int, lo: int, hi: int): (r: int)
    requires lo <= hi
    ensures lo <= r <= hi
    ensures lo <= x <= hi ==> r == x
    ensures x < lo ==> r == lo
    ensures x > hi ==> r == hi
  {
    if x < lo then lo else if x > hi then hi else x
  }

  /** Arduino `constrain(x, lo, hi)` on a float, idealised as a real. */
  function ConstrainReal(x: real, lo: real, hi: real): (r: real)
    requires lo <= hi
    ensures lo <= r <= hi
    ensures lo <= x <= hi ==> r == x
    ensures x < lo ==> r == lo
    ensures x > hi ==> r == hi
  {
    if x < lo then lo else if x > hi then hi else x
  }

  /** `now - since` on two `unsigned long` values: the subtraction wraps
      modulo 2^32 when the clock has rolled over. */
  function ElapsedSince(now: ULong, since: ULong): (r: ULong)
    ensures since <= now ==> r == now - since
    ensures since > now ==> r == now + ULONG_MODULUS - since
  {
    (now - since) % ULONG_MODULUS
  }

  /** Whether string `s` begins with `prefix`. */
  predicate StartsWith(s: string, prefix: string)
    ensures StartsWith(s, prefix) <==> exists rest :: s == prefix + rest
  {
    if |prefix| <= |s| && s[..|prefix|] == prefix then
      assert s == prefix + s[|prefix|..];
      true
    else
      false
  }
}
