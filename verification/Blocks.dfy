/** Block-by-block maps over byte strings: what an ECB loop over 8-byte blocks means,
    whatever the cipher. A block is a pair of big-endian 32-bit halves. */
module Blocks {
  import opened Words

  type Block = (bv32, bv32)

  function LoadBlock(b: seq<bv8>): Block
    requires |b| == 8
  {
    (LoadBe32(b[..4]), LoadBe32(b[4..]))
  }

  function StoreBlock(p: Block): (b: seq<bv8>)
    ensures |b| == 8
  {
    StoreBe32(p.0) + StoreBe32(p.1)
  }

  lemma LoadStoreBlock(p: Block)
    ensures LoadBlock(StoreBlock(p)) == p
  {
    var b := StoreBlock(p);
    assert b[..4] == StoreBe32(p.0) && b[4..] == StoreBe32(p.1);
    LoadStoreBe32(p.0);
    LoadStoreBe32(p.1);
  }

  lemma StoreLoadBlock(b: seq<bv8>)
    requires |b| == 8
    ensures StoreBlock(LoadBlock(b)) == b
  {
    StoreLoadBe32(b[..4]);
    StoreLoadBe32(b[4..]);
    assert b == b[..4] + b[4..];
  }

  /** A map on blocks, seen on their bytes. */
  function OnBytes(f: Block -> Block): seq<bv8> -> seq<bv8> {
    (b: seq<bv8>) => if |b| == 8 then StoreBlock(f(LoadBlock(b))) else b
  }

  lemma OnBytesIs(f: Block -> Block, b: seq<bv8>)
    requires |b| == 8
    ensures OnBytes(f)(b) == StoreBlock(f(LoadBlock(b))) && |OnBytes(f)(b)| == 8
  {
    var image := StoreBlock(f(LoadBlock(b)));
    assert OnBytes(f)(b) == image;
  }

  lemma OnBytesInverts(f: Block -> Block, g: Block -> Block, b: seq<bv8>)
    requires forall p :: g(f(p)) == p
    ensures OnBytes(g)(OnBytes(f)(b)) == b && |OnBytes(f)(b)| == |b|
  {
    if |b| == 8 {
      LoadStoreBlock(f(LoadBlock(b)));
      StoreLoadBlock(b);
    }
  }

  /** `s` cut into blocks, each replaced by its image under `h`. */
  function MapBlocks(h: seq<bv8> -> seq<bv8>, s: seq<bv8>): seq<bv8>
    requires |s| % 8 == 0
  {
    if s == [] then [] else h(s[..8]) + MapBlocks(h, s[8..])
  }

  /** A loop's view of it: one more block on the right. */
  lemma {:induction false} MapBlocksSnoc(h: seq<bv8> -> seq<bv8>, s: seq<bv8>, b: seq<bv8>)
    requires |s| % 8 == 0 && |b| == 8
    ensures MapBlocks(h, s + b) == MapBlocks(h, s) + h(b)
  {
    if s == [] {
      assert s + b == b && b[..8] == b && b[8..] == [];
    } else {
      assert (s + b)[..8] == s[..8] && (s + b)[8..] == s[8..] + b;
      MapBlocksSnoc(h, s[8..], b);
    }
  }

  /** A block map, as ECB applies it to a whole buffer. */
  function Ecb(f: Block -> Block, s: seq<bv8>): seq<bv8>
    requires |s| % 8 == 0
  {
    MapBlocks(OnBytes(f), s)
  }

  /** The halves of a block are big-endian words, the left one first. */
  lemma BlockBytes(a: bv32, b: bv32, s: seq<bv8>)
    requires |s| == 8 && LoadBlock(s) == (a, b)
    ensures (a >> 24) & 0xff == s[0] as bv32 && (a >> 16) & 0xff == s[1] as bv32
    ensures (a >> 8) & 0xff == s[2] as bv32 && a & 0xff == s[3] as bv32
    ensures (b >> 24) & 0xff == s[4] as bv32 && (b >> 16) & 0xff == s[5] as bv32
    ensures (b >> 8) & 0xff == s[6] as bv32 && b & 0xff == s[7] as bv32
  {
    assert s[..4] == [s[0], s[1], s[2], s[3]] && s[4..] == [s[4], s[5], s[6], s[7]];
    FirstByteIsHighest(s[0], s[1], s[2], s[3]);
    FirstByteIsHighest(s[4], s[5], s[6], s[7]);
    hide LoadBe32;
  }

  /** Block j of the output is the image of block j of the input, and of nothing else. */
  lemma {:induction false} EcbAt(f: Block -> Block, s: seq<bv8>, j: nat)
    requires |s| % 8 == 0 && 8 * j + 8 <= |s|
    ensures |Ecb(f, s)| == |s|
    ensures LoadBlock(Ecb(f, s)[8 * j..8 * j + 8]) == f(LoadBlock(s[8 * j..8 * j + 8]))
  {
    EcbLength(f, s);
    var first, rest := OnBytes(f)(s[..8]), Ecb(f, s[8..]);
    OnBytesIs(f, s[..8]);
    assert Ecb(f, s) == first + rest;
    if j == 0 {
      LoadStoreBlock(f(LoadBlock(s[..8])));
      assert (first + rest)[..8] == first;
    } else {
      EcbAt(f, s[8..], j - 1);
      assert (first + rest)[8 * j..8 * j + 8] == rest[8 * (j - 1)..8 * (j - 1) + 8];
      assert s[8..][8 * (j - 1)..8 * (j - 1) + 8] == s[8 * j..8 * j + 8];
    }
  }

  /** ECB with a block map that `g` inverts is inverted by ECB with `g`, on any number of
      blocks; the length stays. */
  lemma {:induction false} EcbInverts(f: Block -> Block, g: Block -> Block, s: seq<bv8>)
    requires |s| % 8 == 0
    requires forall p :: g(f(p)) == p
    ensures |Ecb(f, s)| == |s|
    ensures Ecb(g, Ecb(f, s)) == s
  {
    if s != [] {
      var b, rest := OnBytes(f)(s[..8]), Ecb(f, s[8..]);
      OnBytesInverts(f, g, s[..8]);
      EcbInverts(f, g, s[8..]);
      assert (b + rest)[..8] == b && (b + rest)[8..] == rest;
      assert s == s[..8] + s[8..];
    }
  }

  /** ECB depends on its block map only through the images of blocks. */
  lemma {:induction false} EcbPointwise(f: Block -> Block, g: Block -> Block, s: seq<bv8>)
    requires |s| % 8 == 0
    requires forall p :: f(p) == g(p)
    ensures Ecb(f, s) == Ecb(g, s)
  {
    if s != [] {
      OnBytesIs(f, s[..8]);
      OnBytesIs(g, s[..8]);
      EcbPointwise(f, g, s[8..]);
      hide OnBytes;
    }
  }

  /** Where an in-order block loop may write: into another buffer, at or below the bytes it
      still has to read, or beyond all of them. Identical and disjoint regions are special
      cases. */
  predicate WriteBehindRead(sameBuffer: bool, inAt: nat, outAt: nat, n: nat) {
    sameBuffer ==> outAt <= inAt || inAt + 8 * n <= outAt
  }

  lemma {:induction false} EcbLength(f: Block -> Block, s: seq<bv8>)
    requires |s| % 8 == 0
    ensures |Ecb(f, s)| == |s|
  {
    if s != [] {
      OnBytesIs(f, s[..8]);
      EcbLength(f, s[8..]);
    }
  }

  /** An ECB loop after `i` blocks: `src` is what the input region held at the start, `start`
      what the output buffer held, `inNow` and `outNow` what the two buffers hold. */
  ghost predicate EcbDone(f: Block -> Block, src: seq<bv8>, start: seq<bv8>,
                          inNow: seq<bv8>, inAt: nat, outNow: seq<bv8>, outAt: nat, i: nat) {
    && |src| % 8 == 0 && 8 * i <= |src|
    && inAt + |src| <= |inNow| && outAt + |src| <= |start|
    && inNow[inAt + 8 * i..inAt + |src|] == src[8 * i..]
    && outNow == start[..outAt] + Ecb(f, src[..8 * i]) + start[outAt + 8 * i..]
  }

  lemma EcbStart(f: Block -> Block, input: seq<bv8>, inAt: nat, start: seq<bv8>, outAt: nat, n: nat)
    requires inAt + 8 * n <= |input| && outAt + 8 * n <= |start|
    ensures EcbDone(f, input[inAt..inAt + 8 * n], start, input, inAt, start, outAt, 0)
  {
    assert start == start[..outAt] + [] + start[outAt..];
  }

  lemma EcbEnd(f: Block -> Block, src: seq<bv8>, start: seq<bv8>, inNow: seq<bv8>, inAt: nat,
               outNow: seq<bv8>, outAt: nat, n: nat)
    requires EcbDone(f, src, start, inNow, inAt, outNow, outAt, n) && |src| == 8 * n
    ensures outNow == start[..outAt] + Ecb(f, src) + start[outAt + 8 * n..]
  {
    assert src[..8 * n] == src;
  }

  lemma Apart<T>(now: seq<T>, at: nat, b: seq<T>, lo: nat, hi: nat)
    requires at + |b| <= |now| && lo <= hi <= |now|
    requires hi <= at || at + |b| <= lo
    ensures (now[..at] + b + now[at + |b|..])[lo..hi] == now[lo..hi]
  {
    var next := now[..at] + b + now[at + |b|..];
    if hi <= at {
      assert forall k | lo <= k < hi :: next[k] == now[k];
    } else {
      assert forall k | lo <= k < hi :: next[k] == now[at + |b|..][k - (at + |b|)] == now[k];
    }
  }

  /** The bytes still to be read survive a store of one block behind or clear of them. */
  lemma InputSurvives(src: seq<bv8>, now: seq<bv8>, inAt: nat, outAt: nat, i: nat, b: seq<bv8>)
    requires |src| % 8 == 0 && 8 * (i + 1) <= |src| && |b| == 8
    requires inAt + |src| <= |now| && outAt + |src| <= |now|
    requires WriteBehindRead(true, inAt, outAt, |src| / 8)
    requires now[inAt + 8 * i..inAt + |src|] == src[8 * i..]
    ensures (now[..outAt + 8 * i] + b + now[outAt + 8 * i + 8..])[inAt + 8 * (i + 1)..inAt + |src|]
         == src[8 * (i + 1)..]
  {
    Apart(now, outAt + 8 * i, b, inAt + 8 * (i + 1), inAt + |src|);
    assert now[inAt + 8 * (i + 1)..inAt + |src|] == now[inAt + 8 * i..inAt + |src|][8..];
  }

  lemma OutputGrows(start: seq<bv8>, outNow: seq<bv8>, outAt: nat, i: nat, done: seq<bv8>, b: seq<bv8>)
    requires outAt + 8 * i + 8 <= |start| && |done| == 8 * i && |b| == 8
    requires outNow == start[..outAt] + done + start[outAt + 8 * i..]
    ensures outNow[..outAt + 8 * i] + b + outNow[outAt + 8 * i + 8..]
         == start[..outAt] + (done + b) + start[outAt + 8 * (i + 1)..]
  {
    assert outNow[..outAt + 8 * i] == start[..outAt] + done;
    assert outNow[outAt + 8 * i + 8..] == start[outAt + 8 * (i + 1)..];
  }

  lemma EcbGrows(f: Block -> Block, src: seq<bv8>, i: nat)
    requires |src| % 8 == 0 && 8 * (i + 1) <= |src|
    ensures |Ecb(f, src[..8 * i])| == 8 * i
    ensures |OnBytes(f)(src[8 * i..8 * (i + 1)])| == 8
    ensures Ecb(f, src[..8 * (i + 1)]) == Ecb(f, src[..8 * i]) + OnBytes(f)(src[8 * i..8 * (i + 1)])
  {
    var b := src[8 * i..8 * (i + 1)];
    OnBytesIs(f, b);
    EcbLength(f, src[..8 * i]);
    assert src[..8 * (i + 1)] == src[..8 * i] + b;
    MapBlocksSnoc(OnBytes(f), src[..8 * i], b);
  }

  /** Writing the image of the next block advances the loop, because the block is written
      behind or clear of everything still to be read. */
  lemma EcbStep(f: Block -> Block, src: seq<bv8>, start: seq<bv8>, inNow: seq<bv8>, inAt: nat,
                outNow: seq<bv8>, outAt: nat, i: nat, inNext: seq<bv8>, outNext: seq<bv8>, same: bool)
    requires EcbDone(f, src, start, inNow, inAt, outNow, outAt, i) && 8 * (i + 1) <= |src|
    requires WriteBehindRead(same, inAt, outAt, |src| / 8)
    requires |outNow| == |start|
    requires outNext == outNow[..outAt + 8 * i]
                        + OnBytes(f)(inNow[inAt + 8 * i..inAt + 8 * i + 8])
                        + outNow[outAt + 8 * i + 8..]
    requires if same then inNow == outNow && inNext == outNext else inNext == inNow
    ensures EcbDone(f, src, start, inNext, inAt, outNext, outAt, i + 1)
  {
    var b := inNow[inAt + 8 * i..inAt + 8 * i + 8];
    var image := OnBytes(f)(b);
    assert b == inNow[inAt + 8 * i..inAt + |src|][..8] == src[8 * i..8 * (i + 1)];
    EcbGrows(f, src, i);
    hide Ecb;
    OutputGrows(start, outNow, outAt, i, Ecb(f, src[..8 * i]), image);
    if same {
      InputSurvives(src, inNow, inAt, outAt, i, image);
    } else {
      assert inNow[inAt + 8 * (i + 1)..inAt + |src|] == inNow[inAt + 8 * i..inAt + |src|][8..];
    }
  }

  /** The two loads that begin an ECB loop body. */
  method Load(buf: array<bv8>, at: nat) returns (a: bv32, b: bv32)
    requires at + 8 <= buf.Length
    ensures (a, b) == LoadBlock(buf[at..at + 8])
  {
    a := GetBe32(buf, at);
    b := GetBe32(buf, at + 4);
    assert buf[at..at + 8][..4] == buf[at..at + 4] && buf[at..at + 8][4..] == buf[at + 4..at + 8];
  }

  /** The two stores that end an ECB loop body. */
  method Store(a: bv32, b: bv32, buf: array<bv8>, at: nat)
    requires at + 8 <= buf.Length
    modifies buf
    ensures buf[..] == old(buf[..at]) + StoreBlock((a, b)) + old(buf[at + 8..])
  {
    PutBe32(a, buf, at);
    PutBe32(b, buf, at + 4);
  }
}
