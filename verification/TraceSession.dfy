/** The trace recorder as a state machine: what each call does to the recorder and to the
    history of the writer (cc_fips/src/fipspost_trace.c). Names are addresses with a text, and
    are compared by address. */
module TraceSession {
  import opened Bytes
  import opened TraceFormat

  type Addr = nat

  datatype Ptr = Null | At(addr: Addr)

  /** Memory that names point into, and the addresses of the three literals of the recorder. */
  datatype Names = Names(text: Addr -> seq<byte>, dash: Addr, test: Addr, success: Addr)

  const DASH_STR: seq<byte> := ['-' as int]
  const TEST_STR: seq<byte> := ['?' as int]
  const SUCCESS_STR: seq<byte> := Ascii("-POST_SUCCESS")
  const FAILURE_STR: seq<byte> := Ascii("-POST_FAILURE: 0x")

  function Ascii(s: string): (b: seq<byte>)
    ensures |b| == |s|
  {
    seq(|s|, i requires 0 <= i < |s| => s[i] as int % 256)
  }

  ghost predicate ValidNames(n: Names) {
    && n.text(n.dash) == DASH_STR
    && n.text(n.test) == TEST_STR
    && n.text(n.success) == SUCCESS_STR
    && forall a: Addr :: 0 !in n.text(a)
  }

  /** The string table entry of a name: its text and the terminator. */
  function Entry(n: Names, a: Addr): seq<byte> { n.text(a) + [0] }

  /** Everything ever handed to a writer, and which of these calls it accepts. A writer may
      base its answer on all it has seen. */
  type History = seq<seq<byte>>
  type Oracle = History -> bool

  /** The recorder: whether it is active, the interned names, and the history of its writer. An
      inactive recorder holds no names. */
  datatype Session = Session(on: bool, table: seq<Addr>, log: History)

  predicate ValidSession(s: Session) {
    && |s.table| <= MAX_HOOKS
    && (!s.on ==> s.table == [])
  }

  function Off(log: History): Session { Session(false, [], log) }

  /** Hand a buffer to the writer; a refusal clears the recorder. */
  function Send(ok: Oracle, s: Session, buf: seq<byte>): (r: Session)
    requires s.on && ValidSession(s)
    ensures ValidSession(r) && (r.on ==> r.table == s.table)
  {
    var log := s.log + [buf];
    if ok(log) then s.(log := log) else Off(log)
  }

  function Intern(table: seq<Addr>, a: Addr): seq<Addr> {
    if a in table then table else table + [a]
  }

  /** The first position of `a`. */
  function IndexIn(table: seq<Addr>, a: Addr): (i: nat)
    requires a in table
    ensures i < |table| && table[i] == a
    ensures a !in table[..i]
  {
    if table[0] == a then 0
    else
      var i := 1 + IndexIn(table[1..], a);
      assert table[..i] == [table[0]] + table[1..][..i - 1];
      i
  }

  /** FIPS_MODE_IS_TRACE: bit 7. */
  predicate HasTrace(mode: uint32) { mode / 128 % 2 == 1 }

  /** What every header of a build has in common. */
  datatype Build = Build(hmac: seq<byte>, flags: uint64)

  function HeaderOf(b: Build, mode: uint32): Header {
    Header(MAGIC, PROTOCOL_VERSION, mode, b.hmac, b.flags)
  }

  function Start(ok: Oracle, n: Names, b: Build, mode: uint32, log: History): (s: Session)
    requires |b.hmac| == HMAC_SIZE
    ensures ValidSession(s)
  {
    if !HasTrace(mode) then Off(log)
    else
      var s := Send(ok, Session(true, [], log), HeaderBytes(HeaderOf(b, mode)));
      if s.on then s.(table := Intern(Intern([], n.dash), n.test)) else s
  }

  function Call(ok: Oracle, s: Session, p: Ptr): (r: Session)
    requires ValidSession(s)
    ensures ValidSession(r)
  {
    if !s.on then s
    else match p
      case Null => Off(s.log)
      case At(a) =>
        if a !in s.table && |s.table| == MAX_HOOKS then Off(s.log)
        else
          var t := Intern(s.table, a);
          Send(ok, s.(table := t), [IndexIn(t, a)])
  }

  function Calls(ok: Oracle, s: Session, ps: seq<Ptr>): (r: Session)
    requires ValidSession(s)
    ensures ValidSession(r)
    decreases ps
  {
    if ps == [] then s else Calls(ok, Call(ok, s, ps[0]), ps[1..])
  }

  /** The loop over the string table, from entry `i` on. */
  function Dump(ok: Oracle, n: Names, s: Session, i: nat): (r: Session)
    requires ValidSession(s) && (s.on ==> i <= |s.table|)
    ensures ValidSession(r) && (r.on ==> r.table == s.table)
    decreases |s.table| - i
  {
    if !s.on || i == |s.table| then s
    else
      var e := Entry(n, s.table[i]);
      if |e| > MAX_EVENT_LEN then Off(s.log)
      else
        var s1 := Send(ok, s, [|e|]);
        if !s1.on then s1
        else
          var s2 := Send(ok, s1, e);
          if !s2.on then s2 else Dump(ok, n, s2, i + 1)
  }

  function End(ok: Oracle, n: Names, s: Session, status: Addr): (r: (Session, int))
    requires ValidSession(s)
    ensures ValidSession(r.0) && !r.0.on
  {
    if !s.on then (s, -1)
    else
      var s1 := Call(ok, s, At(status));
      if !s1.on then (s1, -1)
      else
        var s2 := Send(ok, s1, [TABLE_ID]);
        if !s2.on then (s2, -1)
        else
          var s3 := Send(ok, s2, [|s2.table|]);
          if !s3.on then (s3, -1)
          else
            var s4 := Dump(ok, n, s3, 0);
            if s4.on then (Off(s4.log), 0) else (s4, -1)
  }

  /** A whole run: start, any number of calls, end. */
  function Run(ok: Oracle, n: Names, b: Build, mode: uint32, ps: seq<Ptr>, status: Addr, log: History): (Session, int)
    requires |b.hmac| == HMAC_SIZE
  {
    End(ok, n, Calls(ok, Start(ok, n, b, mode, log), ps), status)
  }
}
