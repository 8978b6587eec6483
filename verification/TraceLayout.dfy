/** The bytes of a trace, offset by offset: the header, the events, the string table, and what the
    last event says about the result of the POST. */
module TraceLayout {
  import opened Bytes
  import opened TraceFormat
  import opened TraceSession
  import opened TraceTheorems
  import opened TraceRuns
  import opened Tracer

  /** Numbers are little-endian. */
  lemma Le32InFull(x: uint32)
    ensures var b := Le32(x); Base256(b[3], b[2], b[1], b[0]) == x
  {
  }

  /** The offsets of the packed header: magic 0, version 4, mode 8, HMAC 12, flags 44. */
  lemma HeaderInFull(h: Header)
    requires ValidHeader(h)
    ensures var b := HeaderBytes(h);
            && Base256(b[3], b[2], b[1], b[0]) == h.magic
            && Base256(b[7], b[6], b[5], b[4]) == h.version
            && Base256(b[11], b[10], b[9], b[8]) == h.fipsMode
            && b[12..44] == h.hmac
            && Base256(b[47], b[46], b[45], b[44])
               + 0x1_0000_0000 * Base256(b[51], b[50], b[49], b[48]) == h.flags
  {
    var b, lo, hi := HeaderBytes(h), h.flags % 0x1_0000_0000, h.flags / 0x1_0000_0000;
    Le32InFull(h.magic);
    Le32InFull(h.version);
    Le32InFull(h.fipsMode);
    Le32InFull(lo);
    Le32InFull(hi);
    hide Le32, Base256;
    assert b[..4] == Le32(h.magic) && b[4..8] == Le32(h.version) && b[8..12] == Le32(h.fipsMode);
    assert b[12..44] == h.hmac && b[44..48] == Le32(lo) && b[48..] == Le32(hi);
  }

  lemma FirstFields()
    ensures Le32(0x66707472) == [0x72, 0x74, 0x70, 0x66] && Le32(1) == [1, 0, 0, 0]
  {
  }

  /** The header of a run starts with 72 74 70 66, 01 00 00 00; then come the mode, the HMAC and
      the flags. */
  lemma HeaderOfRun(b: Build, mode: uint32)
    requires |b.hmac| == 32
    ensures var h := HeaderBytes(HeaderOf(b, mode));
            && h[..8] == [0x72, 0x74, 0x70, 0x66, 1, 0, 0, 0]
            && Base256(h[11], h[10], h[9], h[8]) == mode
            && h[12..44] == b.hmac
            && Base256(h[47], h[46], h[45], h[44])
               + 0x1_0000_0000 * Base256(h[51], h[50], h[49], h[48]) == b.flags
  {
    var h := HeaderBytes(HeaderOf(b, mode));
    HeaderInFull(HeaderOf(b, mode));
    FirstFields();
    hide Le32, Base256;
    assert h[..4] == Le32(0x66707472) && h[4..8] == Le32(1);
    hide HeaderBytes;
    assert h[..8] == h[..4] + h[4..8];
  }

  lemma {:induction false} TableConcat(x: seq<seq<byte>>, y: seq<seq<byte>>)
    requires forall i | 0 <= i < |x| :: |x[i]| < 256
    requires forall i | 0 <= i < |y| :: |y[i]| < 256
    ensures PascalTable(x + y) == PascalTable(x) + PascalTable(y)
  {
    if x == [] {
      assert x + y == y;
    } else {
      assert (x + y)[1..] == x[1..] + y;
      TableConcat(x[1..], y);
    }
  }

  /** Between the entries before it and those after it, entry j is its length and its bytes. */
  lemma TableEntry(table: seq<seq<byte>>, j: nat)
    requires j < |table| && forall i | 0 <= i < |table| :: |table[i]| < 256
    ensures PascalTable(table) ==
            PascalTable(table[..j]) + ([|table[j]|] + table[j]) + PascalTable(table[j + 1..])
  {
    var one := [table[j]];
    assert table == table[..j] + one + table[j + 1..];
    TableConcat(table[..j] + one, table[j + 1..]);
    TableConcat(table[..j], one);
    assert one[1..] == [];
    assert PascalTable(one) == [|table[j]|] + table[j];
  }

  /** The stream: 52 bytes of header, one byte for each event, F1, the number of entries, and the
      table. */
  lemma StreamInFull(t: Trace)
    requires ValidTrace(t)
    ensures var b, n := Serialize(t), |t.ids|;
            && |b| >= 54 + n
            && b[..52] == HeaderBytes(t.hdr) && b[52..52 + n] == t.ids
            && b[52 + n] == 0xF1 && b[53 + n] == |t.table|
            && b[54 + n..] == PascalTable(t.table)
  {
    var b, h, p := Serialize(t), HeaderBytes(t.hdr), PascalTable(t.table);
    assert b == h + t.ids + [TABLE_ID, |t.table|] + p;
    hide HeaderBytes, PascalTable, Serialize;
    FourPieces(h, t.ids, [TABLE_ID, |t.table|], p);
  }

  lemma FourPieces<T>(h: seq<T>, ids: seq<T>, two: seq<T>, p: seq<T>)
    requires |h| == 52 && |two| == 2
    ensures var b, n := h + ids + two + p, |ids|;
            && b[..52] == h && b[52..52 + n] == ids
            && b[52 + n] == two[0] && b[53 + n] == two[1]
            && b[54 + n..] == p
  {
  }

  /** The capacity of the parser. */
  lemma ParserCapacity(t: Trace)
    requires ValidTrace(t)
    ensures Parse(Serialize(t)) == if |t.ids| <= 16384 && |t.table| <= 240 then Parsed(t) else ContextFull
  {
    ParseSerialize(t);
    hide Parse, Serialize;
  }

  // What the last event says.

  /** The upper-case hex digit of a number below 16. */
  function Digit(x: nat): char { "0123456789ABCDEF"[x % 16] }

  /** A number below 2^32 in eight digits, as "%08X" prints it. */
  function Hex8(x: uint32): string {
    [Digit(x / 0x1000_0000), Digit(x / 0x100_0000), Digit(x / 0x10_0000), Digit(x / 0x1_0000),
     Digit(x / 0x1000), Digit(x / 0x100), Digit(x / 0x10), Digit(x)]
  }

  /** A C string: the characters and the terminator. */
  ghost predicate Reads(entry: seq<byte>, text: string) {
    && |entry| == |text| + 1
    && entry[|text|] == 0
    && forall i | 0 <= i < |text| :: entry[i] == text[i] as int
  }

  lemma DigitIs(x: nat)
    ensures HexDigit(x % 16) == Digit(x) as int
  {
  }

  lemma Sixteenth(x: nat, d: nat)
    requires d in {0x1, 0x10, 0x100, 0x1000, 0x1_0000, 0x10_0000, 0x100_0000}
    ensures x / d / 16 == x / (d * 16)
  {
  }

  lemma DigitAdded(x: nat, y: nat, n: nat)
    requires y == x / 16
    ensures HexDigits(x, n + 1) == HexDigits(y, n) + [Digit(x) as int]
  {
    DigitIs(x);
    hide HexDigit, Digit;
  }

  lemma EightDigits(x: uint32)
    ensures var d := HexDigits(x, 8); forall i | 0 <= i < 8 :: d[i] == Hex8(x)[i] as int
  {
    var x1, x2, x3, x4 := x / 0x10, x / 0x100, x / 0x1000, x / 0x1_0000;
    var x5, x6, x7 := x / 0x10_0000, x / 0x100_0000, x / 0x1000_0000;
    Sixteenth(x, 0x10);
    Sixteenth(x, 0x100);
    Sixteenth(x, 0x1000);
    Sixteenth(x, 0x1_0000);
    Sixteenth(x, 0x10_0000);
    Sixteenth(x, 0x100_0000);
    DigitAdded(x, x1, 7);
    DigitAdded(x1, x2, 6);
    DigitAdded(x2, x3, 5);
    DigitAdded(x3, x4, 4);
    DigitAdded(x4, x5, 3);
    DigitAdded(x5, x6, 2);
    DigitAdded(x6, x7, 1);
    DigitAdded(x7, x7 / 16, 0);
    assert HexDigits(x7 / 16, 0) == [];
    hide HexDigits, HexDigit, Digit;
  }

  lemma LiteralReads(s: string)
    requires forall i | 0 <= i < |s| :: s[i] as int < 256
    ensures Reads(Ascii(s) + [0], s)
  {
  }

  lemma SuccessEntry(n: Names)
    requires ValidNames(n)
    ensures Reads(Entry(n, n.success), "-POST_SUCCESS")
  {
    LiteralReads("-POST_SUCCESS");
  }

  lemma FailureEntry(n: Names, a: Addr, result: uint32)
    requires n.text(a) == FailureText(result)
    ensures Reads(Entry(n, a), "-POST_FAILURE: 0x" + Hex8(result))
  {
    var e, text, x := Entry(n, a), "-POST_FAILURE: 0x", HexDigits(result, 8);
    assert |FAILURE_STR| == 17 && forall i | 0 <= i < 17 :: FAILURE_STR[i] == text[i] as int;
    assert e == FAILURE_STR + x + [0];
    EightDigits(result);
    hide HexDigits, Hex8, Entry;
    forall i | 0 <= i < 25 ensures e[i] == (text + Hex8(result))[i] as int {
      if i >= 17 {
        assert e[i] == x[i - 17];
      }
    }
  }

  lemma StatusEntry(n: Names, result: uint32, statusAt: Addr)
    requires ValidNames(n) && (result != 0 ==> n.text(statusAt) == FailureText(result))
    ensures var e := Entry(n, if result == 0 then n.success else statusAt);
            && (result == 0 <==> Reads(e, "-POST_SUCCESS"))
            && (result != 0 <==> Reads(e, "-POST_FAILURE: 0x" + Hex8(result)))
  {
    if result == 0 {
      SuccessEntry(n);
    } else {
      FailureEntry(n, statusAt, result);
    }
    hide Entry;
  }

  lemma ReservedEntries(n: Names)
    requires ValidNames(n)
    ensures Reserved(n) == [n.dash, n.test]
    ensures Reads(Entry(n, n.dash), "-") && Reads(Entry(n, n.test), "?")
  {
  }

  /** The bytes of a successful run read as a trace whose table begins with "-" and "?" and whose
      last event names the result: "-POST_SUCCESS" if and only if it is 0, and otherwise
      "-POST_FAILURE: 0x" and the result in hexadecimal. */
  lemma ResultIsRead(ok: Oracle, n: Names, b: Build, mode: uint32, ps: seq<Ptr>, result: uint32, statusAt: Addr,
                     log: History)
    requires |b.hmac| == HMAC_SIZE && ValidNames(n)
    requires result != 0 ==> n.text(statusAt) == FailureText(result)
    requires Run(ok, n, b, mode, ps, if result == 0 then n.success else statusAt, log).1 == 0
    ensures var status := if result == 0 then n.success else statusAt;
            && Admissible(n, mode, ps, status)
            && log <= Run(ok, n, b, mode, ps, status, log).0.log
            && var t := TraceOf(n, b, mode, ps, status);
            && ValidTrace(t)
            && WrittenSince(log, Run(ok, n, b, mode, ps, status, log).0) == Serialize(t)
            && |t.ids| == |ps| + 1 && t.ids[|ps|] < |t.table| && 2 <= |t.table|
            && Reads(t.table[0], "-") && Reads(t.table[1], "?")
            && (result == 0 <==> Reads(t.table[t.ids[|ps|]], "-POST_SUCCESS"))
            && (result != 0 <==> Reads(t.table[t.ids[|ps|]], "-POST_FAILURE: 0x" + Hex8(result)))
  {
    var status := if result == 0 then n.success else statusAt;
    RunIsSerialized(ok, n, b, mode, ps, status, log);
    StatusEntry(n, result, statusAt);
    FirstEntries(n, b, mode, ps, status);
    LastEvent(n, b, mode, ps, status);
    hide *;
  }

  lemma RunIsSerialized(ok: Oracle, n: Names, b: Build, mode: uint32, ps: seq<Ptr>, status: Addr, log: History)
    requires |b.hmac| == HMAC_SIZE && Run(ok, n, b, mode, ps, status, log).1 == 0
    ensures var r := Run(ok, n, b, mode, ps, status, log).0;
            && Admissible(n, mode, ps, status) && log <= r.log
            && ValidTrace(TraceOf(n, b, mode, ps, status))
            && WrittenSince(log, r) == Serialize(TraceOf(n, b, mode, ps, status))
  {
    RunOutcome(ok, n, b, mode, ps, status, log);
    var want := Wanted(n, b, mode, ps, status);
    assert (log + want)[|log|..] == want;
    WantedIsSerialized(n, b, mode, ps, status);
    hide Wanted, Run, Serialize, TraceOf, Admissible, ValidTrace;
  }

  lemma FirstEntries(n: Names, b: Build, mode: uint32, ps: seq<Ptr>, status: Addr)
    requires |b.hmac| == HMAC_SIZE && ValidNames(n) && Admissible(n, mode, ps, status)
    ensures var t := TraceOf(n, b, mode, ps, status);
            |t.table| >= 2 && Reads(t.table[0], "-") && Reads(t.table[1], "?")
  {
    ReservedEntries(n);
    InternAllPrefix(Reserved(n), AllNames(ps, status));
    hide Entry, EventIds;
  }

  lemma LastEvent(n: Names, b: Build, mode: uint32, ps: seq<Ptr>, status: Addr)
    requires |b.hmac| == HMAC_SIZE && Admissible(n, mode, ps, status)
    ensures var t := TraceOf(n, b, mode, ps, status);
            && |t.ids| == |ps| + 1 && t.ids[|ps|] < |t.table|
            && t.table[t.ids[|ps|]] == Entry(n, status)
  {
    TraceOfIsValid(n, b, mode, ps, status);
    assert AllNames(ps, status)[|ps|] == status;
    hide Entry, EventIds, FinalTable, TraceOf;
  }

  /** Which runs are admissible, on the mode's bit 7 and the caller's pointers: none is NULL, with
      the reserved names and the status there are at most 240 of them, and no text that they point
      to is longer than 254 bytes. */
  lemma AdmissibleInFull(n: Names, mode: uint32, ps: seq<Ptr>, status: Addr)
    ensures Admissible(n, mode, ps, status) <==>
            && mode % 256 >= 128
            && (forall i | 0 <= i < |ps| :: ps[i] != Null)
            && var used := (set i | 0 <= i < |ps| && ps[i].At? :: ps[i].addr) + {n.dash, n.test, status};
            |used| <= 240 && forall a | a in used :: |n.text(a)| <= 254
  {
    assert HasTrace(mode) <==> mode % 256 >= 128;
    if NoNulls(ps) {
      var used := (set i | 0 <= i < |ps| && ps[i].At? :: ps[i].addr) + {n.dash, n.test, status};
      UsedNames(n, ps, status, used);
      hide FinalTable, HasTrace;
    }
  }

  lemma UsedNames(n: Names, ps: seq<Ptr>, status: Addr, used: set<Addr>)
    requires NoNulls(ps)
    requires used == (set i | 0 <= i < |ps| && ps[i].At? :: ps[i].addr) + {n.dash, n.test, status}
    ensures |FinalTable(n, ps, status)| == |used|
    ensures NamesFit(n, FinalTable(n, ps, status)) <==> forall a | a in used :: |n.text(a)| <= 254
  {
    var t := FinalTable(n, ps, status);
    TableElements(n, ps, status, used);
    hide FinalTable;
    DistinctLength(t);
    assert Elements(t) == used;
    FittingTexts(n, t, used);
  }

  lemma FittingTexts(n: Names, t: seq<Addr>, used: set<Addr>)
    requires forall a :: a in t <==> a in used
    ensures NamesFit(n, t) <==> forall a | a in used :: |n.text(a)| <= 254
  {
    if NamesFit(n, t) {
      forall a | a in used ensures |n.text(a)| <= 254 {
        var i :| 0 <= i < |t| && t[i] == a;
        assert |Entry(n, t[i])| <= MAX_EVENT_LEN;
      }
    }
  }

  lemma TableElements(n: Names, ps: seq<Ptr>, status: Addr, used: set<Addr>)
    requires NoNulls(ps)
    requires used == (set i | 0 <= i < |ps| && ps[i].At? :: ps[i].addr) + {n.dash, n.test, status}
    ensures Distinct(FinalTable(n, ps, status))
    ensures forall a :: a in FinalTable(n, ps, status) <==> a in used
  {
    InternAllGrows(Reserved(n), AllNames(ps, status));
    forall a ensures a in FinalTable(n, ps, status) <==> a in used {
      assert a in Reserved(n) <==> a == n.dash || a == n.test;
      assert a in AllNames(ps, status) <==> a in Addrs(ps) || a == status;
    }
  }
}
