// The two 32-bit hash functions of the filter (RSHash and JSHash) and the
// `hash(key, i, s)` selector built on them. Keys are 64-bit unsigned
// integers whose eight bytes are read in memory order (little-endian) as
// signed `char`s. A 32-bit `int` is modelled by its two's-complement bit
// pattern, an integer in [0, 2^32): addition and multiplication wrap modulo
// 2^32, `<< 5` is a multiplication by 32 and `>> 2` on a signed `int` is an
// arithmetic shift.

module Hashing {
  import opened Bits

  type uint64 = k: int | 0 <= k < 0x1_0000_0000_0000_0000

  const TwoTo32: int := 0x1_0000_0000

  /** The conversion of a C++ `int` to `uint64_t`: the value modulo 2^64. */
  function ToUint64(x: int): (r: uint64)
    ensures 0 <= x < 0x1_0000_0000_0000_0000 ==> r == x
  {
    x % 0x1_0000_0000_0000_0000
  }

  /** The first n bytes of `key` in little-endian order, as `memcpy` lays them out on the host. */
  function KeyBytes(key: nat, n: nat): (r: seq<int>)
    ensures |r| == n
    ensures forall i :: 0 <= i < n ==> 0 <= r[i] < 256
  {
    if n == 0 then [] else [key % 256] + KeyBytes(key / 256, n - 1)
  }

  /** The number whose little-endian bytes are `bytes`. */
  function Assemble(bytes: seq<int>): int
  {
    if bytes == [] then 0 else bytes[0] + 256 * Assemble(bytes[1..])
  }

  function Pow256(n: nat): nat
  {
    if n == 0 then 1 else 256 * Pow256(n - 1)
  }

  /** Taking a key apart into bytes loses nothing: the bytes reassemble into the key. */
  lemma {:induction false} KeyBytesRoundTrip(key: nat, n: nat)
    requires key < Pow256(n)
    ensures Assemble(KeyBytes(key, n)) == key
  {
    if n > 0 {
      KeyBytesRoundTrip(key / 256, n - 1);
      assert KeyBytes(key, n)[1..] == KeyBytes(key / 256, n - 1);
    }
  }

  /** A 32-bit `int` or `unsigned int` as its bit pattern. */
  type Word = x: int | 0 <= x < 0x1_0000_0000

  lemma Pow2Of32()
    ensures Pow2(32) == TwoTo32
  {
    assert Pow2(4) == 16;
    Pow2Add(4, 4);
    Pow2Add(8, 8);
    Pow2Add(16, 16);
  }

  /**
   * A byte read as a (signed) `char` and widened to a 32-bit `int`: the low
   * byte is kept and the upper 24 bits are copies of the byte's top bit.
   */
  function SignExtend(b: nat): (r: Word)
    requires b < 256
    ensures r % 256 == b
    ensures r / 256 == if b < 0x80 then 0 else 0xFF_FFFF
  {
    if b < 0x80 then b else b + 0xFFFF_FF00
  }

  /** The value of the 32-bit `int` whose bit pattern is w. */
  function Signed(w: Word): int
  {
    if w < 0x8000_0000 then w else w - TwoTo32
  }

  /** Widening a `char` keeps its value: bytes from 0x80 on are the negative chars -128 .. -1. */
  lemma SignExtendKeepsValue(b: nat)
    requires b < 256
    ensures Signed(SignExtend(b)) == if b < 0x80 then b else b - 256
  {
  }

  /** `h >> 2` on a signed 32-bit `int`: the sign bit is copied into the two vacated bits. */
  function ShiftRight2(h: Word): (r: Word)
    ensures r % 0x4000_0000 == h / 4
    ensures r / 0x4000_0000 == if h < 0x8000_0000 then 0 else 3
  {
    h / 4 + (if h < 0x8000_0000 then 0 else 0xC000_0000)
  }

  /** The arithmetic shift divides the signed value by 4, rounding down (toward minus infinity). */
  lemma ShiftRight2Divides(h: Word)
    ensures Signed(ShiftRight2(h)) == Signed(h) / 4
  {
    if h >= 0x8000_0000 {
      ModAddMultiple(-0x4000_0000, 4, h);
      ModUnique(h - TwoTo32, 4, h / 4 - 0x4000_0000, h % 4);
    }
  }

  /** The eight key bytes as the signed chars the hash loops add in. */
  function KeyChars(key: uint64): (r: seq<Word>)
    ensures |r| == 8
    ensures forall i :: 0 <= i < 8 ==> r[i] % 256 == KeyBytes(key, 8)[i] && -128 <= Signed(r[i]) < 128
  {
    var bytes := KeyBytes(key, 8);
    seq(8, i requires 0 <= i < 8 => SignExtend(bytes[i]))
  }

  /** The loop of RSHash from the given accumulator and multiplier on: `hash = hash * a + k[i]; a = a * b`. */
  function RSLoop(chars: seq<Word>, hash: Word, a: Word): Word
    decreases |chars|
  {
    if chars == [] then hash
    else RSLoop(chars[1..], (hash * a + chars[0]) % TwoTo32, (a * 378551) % TwoTo32)
  }

  /** RSHash(key): the loop from hash 0 and multiplier 63689, equal to the exact polynomial wrapped to 32 bits. */
  function RSHash(key: uint64): (r: Word)
    ensures r == RSExact(KeyChars(key), 0, 63689) % TwoTo32
  {
    RSLoopWraps(KeyChars(key), 0, 63689);
    RSLoop(KeyChars(key), 0, 63689)
  }

  /** The same loop on unbounded integers: no step wraps around. */
  function RSExact(chars: seq<int>, hash: int, a: int): int
    decreases |chars|
  {
    if chars == [] then hash
    else RSExact(chars[1..], hash * a + chars[0], a * 378551)
  }

  /**
   * Wrapping every product and sum to 32 bits, as RSLoop does, gives the
   * exact unbounded result wrapped once at the end: two's-complement `int`
   * arithmetic agrees with integer arithmetic modulo 2^32.
   */
  lemma {:induction false} RSLoopWraps(chars: seq<Word>, hash: int, a: int)
    ensures RSLoop(chars, hash % TwoTo32, a % TwoTo32) == RSExact(chars, hash, a) % TwoTo32
    decreases |chars|
  {
    if chars != [] {
      MulAddMod(hash, a, chars[0], TwoTo32);
      MulAddMod(a, 378551, 0, TwoTo32);
      assert 378551 % TwoTo32 == 378551;
      RSLoopWraps(chars[1..], hash * a + chars[0], a * 378551);
    }
  }

  /**
   * One step of JSHash: `hash ^= (hash << 5) + k[i] + (hash >> 2)`. On bit
   * patterns it is the same as the sum taken over the signed values of C++
   * (the shift dividing by 4 rounded down) wrapped to 32 bits.
   */
  function JSStep(hash: Word, ch: Word): (r: Word)
    ensures r == Xor(hash, (Signed(hash) * 32 + Signed(ch) + Signed(hash) / 4) % TwoTo32)
  {
    var mixed := (hash * 32 + ch + ShiftRight2(hash)) % TwoTo32;
    Pow2Of32();
    XorBelowPow2(hash, mixed, 32);
    MixSigned(hash, ch);
    Xor(hash, mixed)
  }

  /** The sum JSStep mixes in agrees, modulo 2^32, with the sum of the signed values. */
  lemma MixSigned(hash: Word, ch: Word)
    ensures (hash * 32 + ch + ShiftRight2(hash)) % TwoTo32
            == (Signed(hash) * 32 + Signed(ch) + Signed(hash) / 4) % TwoTo32
  {
    ShiftRight2Divides(hash);
    var eh := if hash < 0x8000_0000 then 0 else 1;
    var ec := if ch < 0x8000_0000 then 0 else 1;
    var es := if ShiftRight2(hash) < 0x8000_0000 then 0 else 1;
    var exact := Signed(hash) * 32 + Signed(ch) + Signed(hash) / 4;
    assert hash * 32 + ch + ShiftRight2(hash) == (32 * eh + ec + es) * TwoTo32 + exact;
    ModAddMultiple(32 * eh + ec + es, TwoTo32, exact);
  }

  /** The loop of JSHash from the given accumulator on. */
  function JSLoop(chars: seq<Word>, hash: Word): Word
    decreases |chars|
  {
    if chars == [] then hash else JSLoop(chars[1..], JSStep(hash, chars[0]))
  }

  function JSHash(key: uint64): Word
  {
    JSLoop(KeyChars(key), 1315423911)
  }

  /**
   * `hash(key, i, s)`: the unsigned 32-bit value `RSHash(key) + i * JSHash(key)`,
   * replaced by RSHash alone for i == 2 and by JSHash alone for i == 1, reduced modulo s.
   */
  function Hash(key: uint64, i: int, s: int): (r: nat)
    requires s > 0
    ensures r < s
    ensures i == 1 ==> r == JSHash(key) % s
    ensures i == 2 ==> r == RSHash(key) % s
  {
    var rs := RSHash(key);
    var js := JSHash(key);
    var val := (rs + i * js) % TwoTo32;
    var val := if i == 2 then rs else val;
    var val := if i == 1 then js else val;
    val % s
  }
}
