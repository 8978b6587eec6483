/** The FIPS POST trace stream: what the writer is meant to produce, and the parser of the test
    suite that reads it back (cc_fips/corecrypto/fipspost_trace_priv.h,
    cc_fips/crypto_test/crypto_test_cc_fips.c). */
module TraceFormat {
  import opened Bytes

  type uint64 = x: int | 0 <= x < 0x1_0000_0000_0000_0000

  const MAGIC: uint32 := 0x66707472
  const PROTOCOL_VERSION: uint32 := 1
  const HMAC_SIZE := 32
  const HEADER_SIZE := 52
  const MAX_EVENT_LEN := 0xFF
  const MAX_HOOKS := 0xF0
  const TABLE_ID: byte := 0xF1
  const MAX_EVENTS := 65535
  const MAX_BUFFER := HEADER_SIZE + MAX_EVENTS + MAX_HOOKS * (MAX_EVENT_LEN + 1)

  /** Capacity of the sample array in the parser's context. */
  const MAX_SAMPLES := 16 * 1024

  // The packed header, in the little-endian layout of every platform the stream is written on.

  datatype Header = Header(magic: uint32, version: uint32, fipsMode: uint32, hmac: seq<byte>, flags: uint64)

  predicate ValidHeader(h: Header) { |h.hmac| == 32 }

  function Le32(x: uint32): (b: seq<byte>)
    ensures |b| == 4
  {
    var y := x / 256;
    var z := y / 256;
    [x % 256, y % 256, z % 256, z / 256]
  }

  function FromLe32(b: seq<byte>): uint32
    requires |b| == 4
  {
    var b0: int, b1: int, b2: int, b3: int := b[0], b[1], b[2], b[3];
    b0 + 256 * (b1 + 256 * (b2 + 256 * b3))
  }

  function HeaderBytes(h: Header): (b: seq<byte>)
    requires ValidHeader(h)
    ensures |b| == 52
  {
    Le32(h.magic) + Le32(h.version) + Le32(h.fipsMode) + h.hmac
    + Le32(h.flags % 0x1_0000_0000) + Le32(h.flags / 0x1_0000_0000)
  }

  function ReadHeader(b: seq<byte>): (h: Header)
    requires |b| == 52
    ensures ValidHeader(h)
  {
    Header(FromLe32(b[..4]), FromLe32(b[4..8]), FromLe32(b[8..12]), b[12..44],
           FromLe32(b[44..48]) + 0x1_0000_0000 * FromLe32(b[48..]))
  }

  lemma Le32RoundTrip(x: uint32)
    ensures FromLe32(Le32(x)) == x
  {
  }

  lemma Le32Back(b: seq<byte>)
    requires |b| == 4
    ensures Le32(FromLe32(b)) == b
  {
    var z: int := b[2] + 256 * (b[3] as int);
    var y: int := b[1] + 256 * z;
    var x: int := b[0] + 256 * y;
    assert x / 256 == y && x % 256 == b[0];
    assert y / 256 == z && y % 256 == b[1];
    assert z / 256 == b[3] && z % 256 == b[2];
  }

  lemma HeaderRoundTrip(h: Header)
    requires ValidHeader(h)
    ensures ReadHeader(HeaderBytes(h)) == h
  {
    var b, lo, hi := HeaderBytes(h), h.flags % 0x1_0000_0000, h.flags / 0x1_0000_0000;
    Le32RoundTrip(h.magic);
    Le32RoundTrip(h.version);
    Le32RoundTrip(h.fipsMode);
    Le32RoundTrip(lo);
    Le32RoundTrip(hi);
    assert b[..4] == Le32(h.magic) && b[4..8] == Le32(h.version) && b[8..12] == Le32(h.fipsMode);
    assert b[12..44] == h.hmac && b[44..48] == Le32(lo) && b[48..] == Le32(hi);
  }

  lemma HeaderBack(b: seq<byte>)
    requires |b| == 52
    ensures HeaderBytes(ReadHeader(b)) == b
  {
    Le32Back(b[..4]);
    Le32Back(b[4..8]);
    Le32Back(b[8..12]);
    Le32Back(b[44..48]);
    Le32Back(b[48..]);
    hide Le32, FromLe32;
    var h := ReadHeader(b);
    assert h.flags % 0x1_0000_0000 == FromLe32(b[44..48]) && h.flags / 0x1_0000_0000 == FromLe32(b[48..]);
    assert b == b[..4] + b[4..8] + b[8..12] + b[12..44] + b[44..48] + b[48..];
  }

  /** A whole stream: header, event ids, and the string table with terminated strings. */
  datatype Trace = Trace(hdr: Header, ids: seq<byte>, table: seq<seq<byte>>)

  predicate ValidTrace(t: Trace) {
    && ValidHeader(t.hdr)
    && TABLE_ID !in t.ids
    && |t.table| < 256
    && forall i | 0 <= i < |t.table| :: |t.table[i]| < 256
  }

  function PascalTable(table: seq<seq<byte>>): seq<byte>
    requires forall i | 0 <= i < |table| :: |table[i]| < 256
  {
    if table == [] then [] else [|table[0]|] + table[0] + PascalTable(table[1..])
  }

  function Serialize(t: Trace): seq<byte>
    requires ValidTrace(t)
  {
    HeaderBytes(t.hdr) + t.ids + [TABLE_ID, |t.table|] + PascalTable(t.table)
  }

  // The parser.

  datatype Option<+T> = None | Some(value: T)

  /** What becomes of a parse: a trace; a check of the parser fails (it runs off the end, or
      bytes linger); or the fixed arrays of its context are too small. */
  datatype Parsed = Parsed(trace: Trace) | BadLayout | ContextFull

  /** The first marker at or after `i`. */
  function FindMarker(b: seq<byte>, i: nat): (m: nat)
    requires i <= |b|
    ensures i <= m <= |b|
    ensures m < |b| ==> b[m] == TABLE_ID
    ensures TABLE_ID !in b[i..m]
    decreases |b| - i
  {
    if i == |b| || b[i] == TABLE_ID then i
    else
      var m := FindMarker(b, i + 1);
      assert b[i..m] == [b[i]] + b[i + 1..m];
      m
  }

  /** `n` Pascal strings from `at` on, which must end exactly where `b` ends. */
  function ReadTable(b: seq<byte>, at: nat, n: nat): Option<seq<seq<byte>>>
    requires at <= |b|
    decreases n
  {
    if n == 0 then if at == |b| then Some([]) else None
    else if at == |b| || at + 1 + b[at] > |b| then None
    else match ReadTable(b, at + 1 + b[at], n - 1)
      case None => None
      case Some(rest) => Some([b[at + 1..at + 1 + b[at]]] + rest)
  }

  /** The meaning of a buffer. */
  function Parse(b: seq<byte>): Parsed {
    if |b| < 52 then BadLayout
    else
      var m := FindMarker(b, 52);
      if m == |b| then BadLayout
      else if m - 52 > MAX_SAMPLES then ContextFull
      else if m + 1 == |b| then BadLayout
      else if b[m + 1] > MAX_HOOKS then ContextFull
      else match ReadTable(b, m + 2, b[m + 1])
        case None => BadLayout
        case Some(table) => Parsed(Trace(ReadHeader(b[..52]), b[52..m], table))
  }

  /** Capacity of the parser's context. */
  predicate Fits(t: Trace) { |t.ids| <= MAX_SAMPLES && |t.table| <= MAX_HOOKS }

  lemma {:induction false} MarkerFound(b: seq<byte>, i: nat, m: nat)
    requires i <= m < |b| && b[m] == TABLE_ID && TABLE_ID !in b[i..m]
    ensures FindMarker(b, i) == m
    decreases m - i
  {
    if i < m {
      assert b[i] == b[i..m][0];
      assert b[i + 1..m] == b[i..m][1..];
      MarkerFound(b, i + 1, m);
    }
  }

  /** Reading back a table that ends where the buffer ends. */
  lemma {:induction false} TableReadBack(b: seq<byte>, at: nat, table: seq<seq<byte>>)
    requires forall i | 0 <= i < |table| :: |table[i]| < 256
    requires at <= |b| && b[at..] == PascalTable(table)
    ensures ReadTable(b, at, |table|) == Some(table)
    decreases table
  {
    if table != [] {
      var s, rest := table[0], PascalTable(table[1..]);
      var tail := b[at..];
      assert tail == [|s|] + s + rest;
      assert b[at] == tail[0] == |s|;
      var next := at + 1 + |s|;
      assert b[at + 1..next] == tail[1..1 + |s|] == s;
      assert b[next..] == tail[1 + |s|..] == rest;
      TableReadBack(b, next, table[1..]);
      assert table == [s] + table[1..];
    }
  }

  /** The parser undoes the serializer on every stream that fits its context. */
  lemma ParseSerialize(t: Trace)
    requires ValidTrace(t)
    ensures Parse(Serialize(t)) == if Fits(t) then Parsed(t) else ContextFull
  {
    var b := Serialize(t);
    var m := 52 + |t.ids|;
    assert b == HeaderBytes(t.hdr) + t.ids + [TABLE_ID, |t.table|] + PascalTable(t.table);
    assert b[..52] == HeaderBytes(t.hdr) && b[52..m] == t.ids;
    assert b[m] == TABLE_ID && b[m + 1] == |t.table| && b[m + 2..] == PascalTable(t.table);
    MarkerFound(b, 52, m);
    HeaderRoundTrip(t.hdr);
    TableReadBack(b, m + 2, t.table);
  }

  lemma {:induction false} TableWritesBack(b: seq<byte>, at: nat, n: nat)
    requires at <= |b| && ReadTable(b, at, n).Some?
    ensures var table := ReadTable(b, at, n).value;
            && |table| == n
            && (forall i | 0 <= i < |table| :: |table[i]| < 256)
            && PascalTable(table) == b[at..]
    decreases n
  {
    if n != 0 {
      var next := at + 1 + b[at];
      TableWritesBack(b, next, n - 1);
      var s, rest := b[at + 1..next], ReadTable(b, next, n - 1).value;
      var table := [s] + rest;
      assert table[1..] == rest;
      assert b[at..] == [b[at]] + s + b[next..];
    }
  }

  /** Whatever the parser accepts is exactly the serialization of what it returns: it consumes
      every byte, and no two streams parse alike. */
  lemma SerializeParse(b: seq<byte>)
    requires Parse(b).Parsed?
    ensures var t := Parse(b).trace; ValidTrace(t) && Fits(t) && Serialize(t) == b
  {
    var m := FindMarker(b, 52);
    var t := Parse(b).trace;
    TableWritesBack(b, m + 2, b[m + 1]);
    HeaderBack(b[..52]);
    Pieces(b, 52, m);
    hide ReadTable, PascalTable, ReadHeader, HeaderBytes, FindMarker;
  }

  lemma Pieces<T>(b: seq<T>, h: nat, m: nat)
    requires h <= m && m + 2 <= |b|
    ensures b == b[..h] + b[h..m] + [b[m], b[m + 1]] + b[m + 2..]
  {
  }

  /** ccfips_trace_test_parse: a cursor walks over the buffer and fills the context. */
  method ParseBuffer(buf: seq<byte>) returns (r: Parsed)
    ensures r == Parse(buf)
  {
    if |buf| < 52 {
      return BadLayout;
    }
    var hdr := ReadHeader(buf[..52]);
    var wlk: nat := 52;
    while wlk < |buf| && buf[wlk] != TABLE_ID
      invariant 52 <= wlk <= |buf|
      invariant FindMarker(buf, wlk) == FindMarker(buf, 52)
    {
      wlk := wlk + 1;
    }
    if wlk == |buf| {
      return BadLayout;
    }
    if wlk - 52 > MAX_SAMPLES {
      return ContextFull;
    }
    var trace := buf[52..wlk];
    wlk := wlk + 1;
    if wlk == |buf| {
      return BadLayout;
    }
    var nstr := buf[wlk];
    wlk := wlk + 1;
    if nstr > MAX_HOOKS {
      return ContextFull;
    }
    var hooks := ReadHooks(buf, wlk, nstr);
    match hooks
    case None => return BadLayout;
    case Some(table) => return Parsed(Trace(hdr, trace, table));
  }

  function Prepend(first: seq<seq<byte>>, o: Option<seq<seq<byte>>>): Option<seq<seq<byte>>> {
    match o
    case None => None
    case Some(rest) => Some(first + rest)
  }

  lemma PrependOne(first: seq<seq<byte>>, s: seq<byte>, o: Option<seq<seq<byte>>>)
    ensures Prepend(first, Prepend([s], o)) == Prepend(first + [s], o)
  {
    if o.Some? {
      assert first + ([s] + o.value) == first + [s] + o.value;
    }
  }

  /** The loop over the string table. */
  method ReadHooks(buf: seq<byte>, at: nat, nstr: byte) returns (r: Option<seq<seq<byte>>>)
    requires at <= |buf|
    ensures r == ReadTable(buf, at, nstr)
  {
    ghost var whole := ReadTable(buf, at, nstr);
    assert whole.Some? ==> [] + whole.value == whole.value;
    var wlk: nat := at;
    var hooks: seq<seq<byte>> := [];
    var i: nat := 0;
    while i < nstr
      invariant i <= nstr && wlk <= |buf|
      invariant whole == Prepend(hooks, ReadTable(buf, wlk, nstr - i))
    {
      if wlk == |buf| || wlk + 1 + buf[wlk] > |buf| {
        return None;
      }
      var slen := buf[wlk];
      wlk := wlk + 1;
      var s := buf[wlk..wlk + slen];
      PrependOne(hooks, s, ReadTable(buf, wlk + slen, nstr - i - 1));
      hooks := hooks + [s];
      wlk := wlk + slen;
      i := i + 1;
    }
    if wlk != |buf| {
      return None;
    }
    assert hooks + [] == hooks;
    return Some(hooks);
  }
}
