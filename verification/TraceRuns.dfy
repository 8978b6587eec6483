/** Whole trace runs: exactly which of them succeed, and what a successful one has written. */
module TraceRuns {
  import opened Bytes
  import opened TraceFormat
  import opened TraceSession
  import opened TraceTheorems

  /** The two names that every session interns first. */
  function Reserved(n: Names): seq<Addr> { Intern(Intern([], n.dash), n.test) }

  /** All names of a run in order, the final status last. */
  function AllNames(ps: seq<Ptr>, status: Addr): seq<Addr>
    requires NoNulls(ps)
  {
    Addrs(ps) + [status]
  }

  function FinalTable(n: Names, ps: seq<Ptr>, status: Addr): seq<Addr>
    requires NoNulls(ps)
  {
    InternAll(Reserved(n), AllNames(ps, status))
  }

  function EventIds(n: Names, ps: seq<Ptr>, status: Addr): seq<nat>
    requires NoNulls(ps)
  {
    Ids(Reserved(n), AllNames(ps, status))
  }

  /** What the caller controls: tracing is asked for, no name is NULL, at most MAX_HOOKS
      distinct addresses, and every name fits MAX_EVENT_LEN with its terminator. */
  predicate Admissible(n: Names, mode: uint32, ps: seq<Ptr>, status: Addr) {
    && HasTrace(mode)
    && NoNulls(ps)
    && |FinalTable(n, ps, status)| <= MAX_HOOKS
    && NamesFit(n, FinalTable(n, ps, status))
  }

  /** Every buffer of an admissible run. */
  function Wanted(n: Names, b: Build, mode: uint32, ps: seq<Ptr>, status: Addr): History
    requires |b.hmac| == HMAC_SIZE && Admissible(n, mode, ps, status)
  {
    var t := FinalTable(n, ps, status);
    [HeaderBytes(HeaderOf(b, mode))] + Singles(EventIds(n, ps, status)) + [[TABLE_ID], [|t|]] + TableBufs(n, t)
  }

  // The end of a run.

  function EndBufs(n: Names, t: seq<Addr>): History
    requires |t| <= MAX_HOOKS && NamesFit(n, t)
  {
    [[TABLE_ID]] + ([[|t|]] + TableBufs(n, t))
  }

  /** fipspost_trace_end after its status event. */
  function Close(ok: Oracle, n: Names, s: Session): (Session, int)
    requires ValidSession(s) && s.on
  {
    var s2 := Send(ok, s, [TABLE_ID]);
    if !s2.on then (s2, -1)
    else
      var s3 := Send(ok, s2, [|s2.table|]);
      if !s3.on then (s3, -1)
      else
        var s4 := Dump(ok, n, s3, 0);
        if s4.on then (Off(s4.log), 0) else (s4, -1)
  }

  lemma CloseOutcome(ok: Oracle, n: Names, s: Session)
    requires ValidSession(s) && s.on
    ensures !NamesFit(n, s.table) ==> Close(ok, n, s).1 == -1
    ensures NamesFit(n, s.table) ==>
              && (Close(ok, n, s).1 == 0 <==> Accepted(ok, s.log, EndBufs(n, s.table)))
              && (Close(ok, n, s).1 == 0 ==> Close(ok, n, s).0 == Off(s.log + EndBufs(n, s.table)))
    ensures Close(ok, n, s).1 in {0, -1}
  {
    var t := s.table;
    assert t[0..] == t;
    var log3 := s.log + [[TABLE_ID]] + [[|t|]];
    var s3 := Session(true, t, log3);
    if NamesFit(n, t) {
      DumpThatFits(ok, n, s3, 0);
      AcceptedPair(ok, s.log, [TABLE_ID], [|t|], TableBufs(n, t));
      Regroup(s.log, [TABLE_ID], [|t|], TableBufs(n, t));
    } else {
      DumpThatDoesNotFit(ok, n, s3, 0);
    }
  }

  lemma Regroup<T>(log: seq<T>, x: T, y: T, later: seq<T>)
    ensures log + ([x] + ([y] + later)) == log + [x] + [y] + later
  {
  }

  lemma AddrsSnoc(ps: seq<Ptr>, a: Addr)
    requires NoNulls(ps)
    ensures NoNulls(ps + [At(a)]) && Addrs(ps + [At(a)]) == Addrs(ps) + [a]
  {
    var all := ps + [At(a)];
    assert NoNulls(all);
    assert forall i | 0 <= i < |all| :: Addrs(all)[i] == (Addrs(ps) + [a])[i];
  }

  /** The whole run is the calls of all names, status included, and then the closing part. */
  lemma RunUnfolds(ok: Oracle, n: Names, b: Build, mode: uint32, ps: seq<Ptr>, status: Addr, log: History)
    requires |b.hmac| == HMAC_SIZE
    ensures var s0 := Start(ok, n, b, mode, log);
            var c := Calls(ok, s0, ps + [At(status)]);
            var r := Run(ok, n, b, mode, ps, status, log);
            r == if c.on then Close(ok, n, c) else (c, -1)
  {
    var s0 := Start(ok, n, b, mode, log);
    CallsSnoc(ok, s0, ps, At(status));
    var s1 := Calls(ok, s0, ps);
    if s1.on {
      var c := Call(ok, s1, At(status));
    }
  }

  lemma WantedSplits(n: Names, b: Build, mode: uint32, ps: seq<Ptr>, status: Addr, log: History)
    requires |b.hmac| == HMAC_SIZE && Admissible(n, mode, ps, status)
    ensures var head, ids := [HeaderBytes(HeaderOf(b, mode))], Singles(EventIds(n, ps, status));
            var t := FinalTable(n, ps, status);
            && Wanted(n, b, mode, ps, status) == head + (ids + EndBufs(n, t))
            && log + Wanted(n, b, mode, ps, status) == log + head + ids + EndBufs(n, t)
  {
    hide HeaderBytes, Singles, EventIds, FinalTable, TableBufs;
    var head, ids := [HeaderBytes(HeaderOf(b, mode))], Singles(EventIds(n, ps, status));
    var t := FinalTable(n, ps, status);
    Reassociate(log, head, ids, [TABLE_ID], [|t|], TableBufs(n, t));
  }

  lemma Reassociate<T>(log: seq<T>, head: seq<T>, ids: seq<T>, x: T, y: T, later: seq<T>)
    ensures head + ids + [x, y] + later == head + (ids + ([x] + ([y] + later)))
    ensures log + (head + ids + [x, y] + later) == log + head + ids + ([x] + ([y] + later))
  {
  }

  lemma AcceptedWanted(ok: Oracle, n: Names, b: Build, mode: uint32, ps: seq<Ptr>, status: Addr, log: History)
    requires |b.hmac| == HMAC_SIZE && Admissible(n, mode, ps, status)
    ensures var head := HeaderBytes(HeaderOf(b, mode));
            var ids := Singles(EventIds(n, ps, status));
            Accepted(ok, log, Wanted(n, b, mode, ps, status)) <==>
              && ok(log + [head])
              && Accepted(ok, log + [head], ids)
              && Accepted(ok, log + [head] + ids, EndBufs(n, FinalTable(n, ps, status)))
  {
    var head := [HeaderBytes(HeaderOf(b, mode))];
    var ids, end := Singles(EventIds(n, ps, status)), EndBufs(n, FinalTable(n, ps, status));
    WantedSplits(n, b, mode, ps, status, log);
    hide HeaderBytes, Singles, EventIds, FinalTable, EndBufs, Wanted, Admissible;
    AcceptedSplit(ok, log, head, ids + end);
    AcceptedSplit(ok, log + head, ids, end);
    assert head[1..] == [];
  }

  lemma NullsStay(ps: seq<Ptr>, p: Ptr)
    requires NoNulls(ps + [p])
    ensures NoNulls(ps)
  {
    assert forall i | 0 <= i < |ps| :: ps[i] == (ps + [p])[i];
  }

  /** A session that has started: its calls and its end. */
  lemma StartedOutcome(ok: Oracle, n: Names, ps: seq<Ptr>, status: Addr, s0: Session)
    requires ValidSession(s0) && s0.on && s0.table == Reserved(n)
    ensures var c := Calls(ok, s0, ps + [At(status)]);
            if !(NoNulls(ps) && |FinalTable(n, ps, status)| <= MAX_HOOKS) then !c.on
            else if !NamesFit(n, FinalTable(n, ps, status)) then c.on ==> Close(ok, n, c).1 == -1
            else
              var ids, t := Singles(EventIds(n, ps, status)), FinalTable(n, ps, status);
              && (c.on && Close(ok, n, c).1 == 0 <==>
                    Accepted(ok, s0.log, ids) && Accepted(ok, s0.log + ids, EndBufs(n, t)))
              && (c.on && Close(ok, n, c).1 == 0 ==> Close(ok, n, c).0 == Off(s0.log + ids + EndBufs(n, t)))
  {
    var all := ps + [At(status)];
    var c := Calls(ok, s0, all);
    assert Distinct(s0.table);
    if NoNulls(ps) {
      AddrsSnoc(ps, status);
      if |FinalTable(n, ps, status)| <= MAX_HOOKS {
        CallsThatFit(ok, s0, all);
        if c.on {
          CloseOutcome(ok, n, c);
        }
      } else {
        CallsThatDoNotFit(ok, s0, all);
      }
    } else {
      if NoNulls(all) {
        NullsStay(ps, At(status));
      }
      CallsThatDoNotFit(ok, s0, all);
    }
  }

  lemma CloseResult(ok: Oracle, n: Names, s: Session)
    requires ValidSession(s) && s.on
    ensures Close(ok, n, s).1 in {0, -1}
  {
  }

  /** A run succeeds exactly if it is admissible and the writer takes every buffer; and then it
      has written exactly the buffers it wants to write. */
  lemma RunOutcome(ok: Oracle, n: Names, b: Build, mode: uint32, ps: seq<Ptr>, status: Addr, log: History)
    requires |b.hmac| == HMAC_SIZE
    ensures var r := Run(ok, n, b, mode, ps, status, log);
            && (r.1 == 0 <==> Admissible(n, mode, ps, status) && Accepted(ok, log, Wanted(n, b, mode, ps, status)))
            && (r.1 == 0 ==> r.0 == Off(log + Wanted(n, b, mode, ps, status)))
            && r.1 in {0, -1}
  {
    var s0 := Start(ok, n, b, mode, log);
    var c := Calls(ok, s0, ps + [At(status)]);
    RunUnfolds(ok, n, b, mode, ps, status, log);
    if Admissible(n, mode, ps, status) {
      AcceptedWanted(ok, n, b, mode, ps, status, log);
      WantedSplits(n, b, mode, ps, status, log);
    }
    hide Wanted, EndBufs, Close, Calls, EventIds, FinalTable, Singles;
    if s0.on {
      StartedOutcome(ok, n, ps, status, s0);
      if c.on {
        CloseResult(ok, n, c);
      }
    } else {
      CallsWhenOff(ok, s0, ps + [At(status)]);
    }
  }

  // What the accepted bytes are.

  /** The bytes of a sequence of buffers. */
  function Flatten(h: History): seq<byte> {
    if h == [] then [] else h[0] + Flatten(h[1..])
  }

  lemma {:induction false} FlattenConcat(x: History, y: History)
    ensures Flatten(x + y) == Flatten(x) + Flatten(y)
  {
    if x == [] {
      assert x + y == y;
    } else {
      assert (x + y)[1..] == x[1..] + y;
      FlattenConcat(x[1..], y);
    }
  }

  function IdBytes(ids: seq<nat>): (r: seq<byte>)
    ensures |r| == |ids| && forall i | 0 <= i < |ids| :: r[i] == ids[i] % 256
  {
    if ids == [] then [] else [ids[0] % 256] + IdBytes(ids[1..])
  }

  lemma {:induction false} FlattenSingles(ids: seq<nat>)
    ensures Flatten(Singles(ids)) == IdBytes(ids)
  {
    if ids != [] {
      FlattenSingles(ids[1..]);
      SinglesTail(ids);
    }
  }

  function Entries(n: Names, t: seq<Addr>): (r: seq<seq<byte>>)
    ensures |r| == |t| && forall i | 0 <= i < |t| :: r[i] == Entry(n, t[i])
  {
    if t == [] then [] else [Entry(n, t[0])] + Entries(n, t[1..])
  }

  lemma {:induction false} FlattenTable(n: Names, t: seq<Addr>)
    requires NamesFit(n, t)
    ensures Flatten(TableBufs(n, t)) == PascalTable(Entries(n, t))
  {
    if t != [] {
      var e, rest := Entry(n, t[0]), TableBufs(n, t[1..]);
      FlattenTable(n, t[1..]);
      assert ([[|e|], e] + rest)[1..] == [e] + rest && ([e] + rest)[1..] == rest;
      assert Entries(n, t)[1..] == Entries(n, t[1..]);
      calc {
        Flatten([[|e|], e] + rest);
        [|e|] + Flatten([e] + rest);
        [|e|] + (e + Flatten(rest));
        [|e|] + e + PascalTable(Entries(n, t[1..]));
      }
    }
  }

  /** The stream of an admissible run. */
  function TraceOf(n: Names, b: Build, mode: uint32, ps: seq<Ptr>, status: Addr): (t: Trace)
    requires |b.hmac| == HMAC_SIZE && Admissible(n, mode, ps, status)
  {
    Trace(HeaderOf(b, mode), IdBytes(EventIds(n, ps, status)), Entries(n, FinalTable(n, ps, status)))
  }

  lemma LookUp(n: Names, ids: seq<nat>, table: seq<Addr>, i: nat)
    requires i < |ids| && ids[i] < |table| <= MAX_HOOKS
    ensures IdBytes(ids)[i] == ids[i]
    ensures Entries(n, table)[IdBytes(ids)[i]] == Entry(n, table[ids[i]])
  {
  }

  lemma EventResolves(n: Names, ps: seq<Ptr>, status: Addr, i: nat)
    requires NoNulls(ps) && |FinalTable(n, ps, status)| <= MAX_HOOKS && i <= |ps|
    ensures |EventIds(n, ps, status)| == |ps| + 1
    ensures var ids, table := IdBytes(EventIds(n, ps, status)), Entries(n, FinalTable(n, ps, status));
            ids[i] < |table| <= MAX_HOOKS && table[ids[i]] == Entry(n, AllNames(ps, status)[i])
  {
    var names, ids, table := AllNames(ps, status), EventIds(n, ps, status), FinalTable(n, ps, status);
    assert |names| == |ids| == |ps| + 1;
    IdsResolve(Reserved(n), names, i);
    LookUp(n, ids, table, i);
    hide EventIds, FinalTable, AllNames, Entry, Entries;
  }

  /** No event id is the table marker, and every id names its event in the table. */
  lemma TraceOfIsValid(n: Names, b: Build, mode: uint32, ps: seq<Ptr>, status: Addr)
    requires |b.hmac| == HMAC_SIZE && Admissible(n, mode, ps, status)
    ensures var t, names := TraceOf(n, b, mode, ps, status), AllNames(ps, status);
            && ValidTrace(t)
            && |t.ids| == |ps| + 1
            && forall i | 0 <= i < |names| ::
                 t.ids[i] < |t.table| <= MAX_HOOKS && t.table[t.ids[i]] == Entry(n, names[i])
  {
    var names, t := AllNames(ps, status), TraceOf(n, b, mode, ps, status);
    assert forall i | 0 <= i < |t.table| :: |t.table[i]| < 256;
    assert |t.ids| == |names| == |ps| + 1;
    hide EventIds, FinalTable, Entry, Entries, IdBytes, AllNames;
    forall i | 0 <= i < |names|
      ensures t.ids[i] < |t.table| <= MAX_HOOKS && t.table[t.ids[i]] == Entry(n, names[i])
    {
      EventResolves(n, ps, status, i);
    }
    assert |t.table| <= MAX_HOOKS by {
      EventResolves(n, ps, status, 0);
    }
    assert t.hdr == HeaderOf(b, mode);
  }

  lemma WantedIsSerialized(n: Names, b: Build, mode: uint32, ps: seq<Ptr>, status: Addr)
    requires |b.hmac| == HMAC_SIZE && Admissible(n, mode, ps, status)
    ensures ValidTrace(TraceOf(n, b, mode, ps, status))
    ensures Flatten(Wanted(n, b, mode, ps, status)) == Serialize(TraceOf(n, b, mode, ps, status))
  {
    TraceOfIsValid(n, b, mode, ps, status);
    var t := FinalTable(n, ps, status);
    var head, ids := [HeaderBytes(HeaderOf(b, mode))], Singles(EventIds(n, ps, status));
    var mark: History, end := [[TABLE_ID], [|t|]], TableBufs(n, t);
    FlattenConcat(head + ids + mark, end);
    FlattenConcat(head + ids, mark);
    FlattenConcat(head, ids);
    FlattenSingles(EventIds(n, ps, status));
    FlattenTable(n, t);
    hide EventIds, FinalTable, Singles, TableBufs, HeaderBytes, Admissible, ValidTrace;
    assert head[1..] == [] && mark[1..] == [[|t|]] && mark[1..][1..] == [];
    assert Flatten(head) == head[0];
    assert Flatten(mark[1..]) == [|t|];
    assert Flatten(mark) == [TABLE_ID, |t|];
  }

  // The main results, in terms of the bytes the writer has accepted during the run.

  function WrittenSince(log: History, s: Session): seq<byte>
    requires |log| <= |s.log|
  {
    Flatten(s.log[|log|..])
  }

  /** Round trip: after a successful run the parser reads back, from the bytes written, the
      header, one id per name and the table that resolves them; it consumes every byte. Only a
      run of more events than the parser's array holds is beyond it. */
  lemma TraceRoundTrip(ok: Oracle, n: Names, b: Build, mode: uint32, ps: seq<Ptr>, status: Addr, log: History)
    requires |b.hmac| == HMAC_SIZE
    requires Run(ok, n, b, mode, ps, status, log).1 == 0
    ensures Admissible(n, mode, ps, status) && log <= Run(ok, n, b, mode, ps, status, log).0.log
    ensures Parse(WrittenSince(log, Run(ok, n, b, mode, ps, status, log).0))
         == if |ps| + 1 <= MAX_SAMPLES then Parsed(TraceOf(n, b, mode, ps, status)) else ContextFull
  {
    RunOutcome(ok, n, b, mode, ps, status, log);
    var want := Wanted(n, b, mode, ps, status);
    assert (log + want)[|log|..] == want;
    TraceOfIsValid(n, b, mode, ps, status);
    WantedIsSerialized(n, b, mode, ps, status);
    hide Wanted, Run, Serialize, EventIds, FinalTable;
    var t := TraceOf(n, b, mode, ps, status);
    ParseSerialize(t);
    assert |t.table| <= MAX_HOOKS by {
      assert t.table == Entries(n, FinalTable(n, ps, status));
    }
  }

  /** The number of table entries is the number of distinct addresses among the two reserved
      names, the traced names and the final status. */
  lemma TableCountsAddresses(n: Names, ps: seq<Ptr>, status: Addr)
    requires NoNulls(ps)
    ensures |FinalTable(n, ps, status)| == |Elements([n.dash, n.test] + AllNames(ps, status))|
  {
    var names, t := AllNames(ps, status), FinalTable(n, ps, status);
    InternAllGrows(Reserved(n), names);
    DistinctLength(t);
    assert forall a :: a in Reserved(n) <==> a == n.dash || a == n.test;
    assert Elements(t) == Elements([n.dash, n.test] + names);
  }

  lemma {:induction false} TableSize(table: seq<seq<byte>>)
    requires forall i | 0 <= i < |table| :: |table[i]| <= MAX_EVENT_LEN
    ensures |PascalTable(table)| <= (MAX_EVENT_LEN + 1) * |table|
  {
    if table != [] {
      TableSize(table[1..]);
    }
  }

  /** Size: a successful run of at most MAX_EVENTS events, the status included, writes no more
      than MAX_BUFFER bytes. The marker and the count, which MAX_BUFFER does not mention, fit
      because the two reserved names are short. */
  lemma TraceSizeBound(ok: Oracle, n: Names, b: Build, mode: uint32, ps: seq<Ptr>, status: Addr, log: History)
    requires |b.hmac| == HMAC_SIZE && ValidNames(n)
    requires Run(ok, n, b, mode, ps, status, log).1 == 0
    requires |ps| + 1 <= MAX_EVENTS
    ensures log <= Run(ok, n, b, mode, ps, status, log).0.log
    ensures |WrittenSince(log, Run(ok, n, b, mode, ps, status, log).0)| <= MAX_BUFFER == 127027
  {
    RunOutcome(ok, n, b, mode, ps, status, log);
    var want := Wanted(n, b, mode, ps, status);
    assert (log + want)[|log|..] == want;
    WantedIsSerialized(n, b, mode, ps, status);
    var t, table := TraceOf(n, b, mode, ps, status), FinalTable(n, ps, status);
    InternAllPrefix(Reserved(n), AllNames(ps, status));
    assert table[0] == n.dash && table[1] == n.test;
    assert |t.table[0]| == 2 && |t.table[1]| == 2;
    hide Wanted, Run, FinalTable, EventIds, HeaderBytes;
    ReservedSize(t.table);
  }

  lemma ReservedSize(table: seq<seq<byte>>)
    requires forall i | 0 <= i < |table| :: |table[i]| <= MAX_EVENT_LEN
    requires 2 <= |table| <= MAX_HOOKS && |table[0]| == 2 && |table[1]| == 2
    ensures |PascalTable(table)| + 2 <= (MAX_EVENT_LEN + 1) * MAX_HOOKS
  {
    assert table[1..][1..] == table[2..];
    TableSize(table[2..]);
    assert |PascalTable(table)| == 6 + |PascalTable(table[2..])|;
  }
}
