/** The portable word helpers of cc/corecrypto/cc_priv.h on which the ciphers rest: byte
    extraction, big-endian loads and stores, and the 32-bit rotate. */
module Words {

  // 32-bit addition and subtraction wrap around.

  function Add(a: bv32, b: bv32): bv32 { a + b }

  function Sub(a: bv32, b: bv32): bv32 { a - b }

  function Xor(a: bv32, b: bv32): bv32 { a ^ b }

  lemma XorChain(w: bv32, a: bv32, b: bv32, c: bv32, d: bv32, e: bv32)
    ensures Xor(Xor(Xor(Xor(Xor(w, a), b), c), d), e) == Xor(w, Xor(Xor(Xor(Xor(a, b), c), d), e))
  {
  }

  /** The byte of `w` that starts at bit `shift`. */
  function ByteAt(w: bv32, shift: bv32): bv8
    requires shift <= 24
  {
    ((w >> shift) & 0xff) as bv8
  }

  function StoreBe32(w: bv32): (b: seq<bv8>)
    ensures |b| == 4
  {
    [ByteAt(w, 24), ByteAt(w, 16), ByteAt(w, 8), ByteAt(w, 0)]
  }

  function LoadBe32(b: seq<bv8>): bv32
    requires |b| == 4
  {
    ((b[0] as bv32) << 24) | ((b[1] as bv32) << 16) | ((b[2] as bv32) << 8) | (b[3] as bv32)
  }

  lemma LoadStoreBe32(w: bv32)
    ensures LoadBe32(StoreBe32(w)) == w
  {
  }

  lemma StoreLoadBe32(b: seq<bv8>)
    requires |b| == 4
    ensures StoreBe32(LoadBe32(b)) == b
  {
  }

  /** CC_ROL: rotation left by the low five bits of `n`; amount 0 leaves the word alone. */
  function Rol(w: bv32, n: bv32): bv32 {
    (w << (n & 31)) | (w >> (32 - (n & 31)))
  }

  /** The most significant byte comes first. */
  lemma FirstByteIsHighest(a: bv8, b: bv8, c: bv8, d: bv8)
    ensures var w := LoadBe32([a, b, c, d]);
            && (w >> 24) & 0xff == a as bv32
            && (w >> 16) & 0xff == b as bv32
            && (w >> 8) & 0xff == c as bv32
            && w & 0xff == d as bv32
  {
  }

  /** `cc_store32_be` through a pointer: four bytes change, the rest of the buffer does not. */
  method PutBe32(w: bv32, buf: array<bv8>, at: nat)
    requires at + 4 <= buf.Length
    modifies buf
    ensures buf[..] == old(buf[..at]) + StoreBe32(w) + old(buf[at + 4..])
  {
    buf[at] := ByteAt(w, 24);
    buf[at + 1] := ByteAt(w, 16);
    buf[at + 2] := ByteAt(w, 8);
    buf[at + 3] := ByteAt(w, 0);
  }

  /** `cc_load32_be` through a pointer. */
  function GetBe32(buf: array<bv8>, at: nat): bv32
    requires at + 4 <= buf.Length
    reads buf
  {
    LoadBe32(buf[at..at + 4])
  }
}
