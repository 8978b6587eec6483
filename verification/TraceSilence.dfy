/** The trace recorder after a refusal: whatever a caller does, only the last buffer handed to the
    writer can have been refused, a recorder that has stopped stays silent, and a run that could
    have succeeded has written exactly what it wanted to up to the first refusal. */
module TraceSilence {
  import opened Bytes
  import opened TraceFormat
  import opened TraceSession
  import opened TraceTheorems
  import opened TraceRuns

  /** Anything a caller can do to a recorder short of starting it again. */
  datatype Op = DoCall(p: Ptr) | DoEnd(status: Addr) | DoClear

  function Act(ok: Oracle, n: Names, s: Session, op: Op): (r: Session)
    requires ValidSession(s)
    ensures ValidSession(r)
  {
    match op
    case DoCall(p) => Call(ok, s, p)
    case DoEnd(status) => End(ok, n, s, status).0
    case DoClear => Off(s.log)
  }

  function ActAll(ok: Oracle, n: Names, s: Session, ops: seq<Op>): (r: Session)
    requires ValidSession(s)
    ensures ValidSession(r)
    decreases ops
  {
    if ops == [] then s else ActAll(ok, n, Act(ok, n, s, ops[0]), ops[1..])
  }

  /** Silence: once a session is off, for whatever reason, the writer is not called again and no
      end succeeds, whatever the caller does until the next start. */
  lemma {:induction false} StoppedStaysSilent(ok: Oracle, n: Names, s: Session, ops: seq<Op>, status: Addr)
    requires ValidSession(s) && !s.on
    ensures ActAll(ok, n, s, ops) == s
    ensures End(ok, n, ActAll(ok, n, s, ops), status) == (s, -1)
    decreases ops
  {
    if ops != [] {
      assert Act(ok, n, s, ops[0]) == s;
      StoppedStaysSilent(ok, n, s, ops[1..], status);
    }
  }

  /** Of the buffers since `log`, the writer has accepted all but possibly the last,
      and the last one too if the session is on. */
  ghost predicate OnlyLastRefused(ok: Oracle, log: History, s: Session) {
    && log <= s.log
    && (forall k | |log| < k < |s.log| :: ok(s.log[..k]))
    && (s.on && |log| < |s.log| ==> ok(s.log))
  }

  lemma SendKeeps(ok: Oracle, log: History, s: Session, buf: seq<byte>)
    requires s.on && ValidSession(s) && OnlyLastRefused(ok, log, s)
    ensures OnlyLastRefused(ok, log, Send(ok, s, buf))
  {
    var next := s.log + [buf];
    assert next[..|s.log|] == s.log;
    assert forall k | |log| < k < |s.log| :: next[..k] == s.log[..k];
  }

  lemma CallKeeps(ok: Oracle, log: History, s: Session, p: Ptr)
    requires ValidSession(s) && OnlyLastRefused(ok, log, s)
    ensures OnlyLastRefused(ok, log, Call(ok, s, p))
  {
    if s.on && p.At? && (p.addr in s.table || |s.table| < MAX_HOOKS) {
      var t := Intern(s.table, p.addr);
      SendKeeps(ok, log, s.(table := t), [IndexIn(t, p.addr)]);
    }
  }

  lemma {:induction false} DumpKeeps(ok: Oracle, n: Names, log: History, s: Session, i: nat)
    requires ValidSession(s) && (s.on ==> i <= |s.table|) && OnlyLastRefused(ok, log, s)
    ensures OnlyLastRefused(ok, log, Dump(ok, n, s, i))
    decreases |s.table| - i
  {
    if s.on && i < |s.table| {
      var e := Entry(n, s.table[i]);
      if |e| <= MAX_EVENT_LEN {
        SendKeeps(ok, log, s, [|e|]);
        var s1 := Send(ok, s, [|e|]);
        if s1.on {
          SendKeeps(ok, log, s1, e);
          var s2 := Send(ok, s1, e);
          if s2.on {
            DumpKeeps(ok, n, log, s2, i + 1);
          }
        }
      }
    }
  }

  lemma EndKeeps(ok: Oracle, n: Names, log: History, s: Session, status: Addr)
    requires ValidSession(s) && OnlyLastRefused(ok, log, s)
    ensures OnlyLastRefused(ok, log, End(ok, n, s, status).0)
  {
    hide OnlyLastRefused;
    if s.on {
      CallKeeps(ok, log, s, At(status));
      var s1 := Call(ok, s, At(status));
      if s1.on {
        SendKeeps(ok, log, s1, [TABLE_ID]);
        var s2 := Send(ok, s1, [TABLE_ID]);
        if s2.on {
          SendKeeps(ok, log, s2, [|s2.table|]);
          var s3 := Send(ok, s2, [|s2.table|]);
          if s3.on {
            DumpKeeps(ok, n, log, s3, 0);
            OffKeeps(ok, log, Dump(ok, n, s3, 0));
          }
        }
      }
    }
  }

  lemma OffKeeps(ok: Oracle, log: History, s: Session)
    requires OnlyLastRefused(ok, log, s)
    ensures OnlyLastRefused(ok, log, Off(s.log))
  {
  }

  lemma {:induction false} ActAllKeeps(ok: Oracle, n: Names, log: History, s: Session, ops: seq<Op>)
    requires ValidSession(s) && OnlyLastRefused(ok, log, s)
    ensures OnlyLastRefused(ok, log, ActAll(ok, n, s, ops))
    decreases ops
  {
    if ops != [] {
      match ops[0] {
        case DoCall(p) => CallKeeps(ok, log, s, p);
        case DoEnd(status) => EndKeeps(ok, n, log, s, status);
        case DoClear => OffKeeps(ok, log, s);
      }
      ActAllKeeps(ok, n, log, Act(ok, n, s, ops[0]), ops[1..]);
    }
  }

  /** Safety over all runs: after a start and whatever calls, ends and clears, finished or not, no
      buffer follows a refused one. */
  lemma NothingFollowsARefusal(ok: Oracle, n: Names, b: Build, mode: uint32, log: History, ops: seq<Op>)
    requires |b.hmac| == HMAC_SIZE
    ensures var s := ActAll(ok, n, Start(ok, n, b, mode, log), ops);
            && log <= s.log
            && (forall k | |log| < k < |s.log| :: ok(s.log[..k]))
            && (s.on ==> log < s.log && ok(s.log))
  {
    var s0 := Start(ok, n, b, mode, log);
    assert OnlyLastRefused(ok, log, s0);
    ActAllKeeps(ok, n, log, s0, ops);
    LiveHasWritten(ok, n, s0, ops, |log|);
  }

  lemma {:induction false} LiveHasWritten(ok: Oracle, n: Names, s: Session, ops: seq<Op>, from: nat)
    requires ValidSession(s) && (s.on ==> from < |s.log|)
    ensures ActAll(ok, n, s, ops).on ==> from < |ActAll(ok, n, s, ops).log|
    decreases ops
  {
    if ops != [] {
      LiveHasWritten(ok, n, Act(ok, n, s, ops[0]), ops[1..], from);
    }
  }

  // What a run has written when it stops.

  /** The history after handing over one wanted buffer after the other until one is refused. */
  function Deliver(ok: Oracle, log: History, want: History): History
    decreases want
  {
    if want == [] then log
    else if ok(log + [want[0]]) then Deliver(ok, log + [want[0]], want[1..])
    else log + [want[0]]
  }

  /** It is a prefix of everything wanted, and all of it exactly if all is accepted. */
  lemma {:induction false} DeliverIsPrefix(ok: Oracle, log: History, want: History)
    ensures log <= Deliver(ok, log, want) <= log + want
    ensures Accepted(ok, log, want) ==> Deliver(ok, log, want) == log + want
    decreases want
  {
    if want == [] {
      assert log + want == log;
    } else {
      FirstAndRest(log, want);
      DeliverIsPrefix(ok, log + [want[0]], want[1..]);
    }
  }

  lemma {:induction false} DeliverSplit(ok: Oracle, log: History, x: History, y: History)
    ensures Deliver(ok, log, x + y) == if Accepted(ok, log, x) then Deliver(ok, log + x, y) else Deliver(ok, log, x)
    decreases x
  {
    if x == [] {
      assert x + y == y && log + x == log;
    } else {
      assert (x + y)[0] == x[0] && (x + y)[1..] == x[1..] + y;
      FirstAndRest(log, x);
      DeliverSplit(ok, log + [x[0]], x[1..], y);
    }
  }

  lemma {:induction false} CallsDeliver(ok: Oracle, s: Session, ps: seq<Ptr>)
    requires ValidSession(s) && s.on && Distinct(s.table)
    requires NoNulls(ps) && |InternAll(s.table, Addrs(ps))| <= MAX_HOOKS
    ensures Calls(ok, s, ps).log == Deliver(ok, s.log, Singles(Ids(s.table, Addrs(ps))))
    decreases ps
  {
    if ps != [] {
      var a, rest := ps[0].addr, ps[1..];
      var t := Intern(s.table, a);
      assert Addrs(ps)[1..] == Addrs(rest);
      InternAllGrows(t, Addrs(rest));
      WantedCalls(s.table, Addrs(ps), s.log);
      var s1 := Call(ok, s, ps[0]);
      hide Ids, Singles;
      if s1.on {
        CallsDeliver(ok, s1, rest);
      } else {
        CallsWhenOff(ok, s1, rest);
      }
    }
  }

  lemma {:induction false} DumpDelivers(ok: Oracle, n: Names, s: Session, i: nat)
    requires ValidSession(s) && s.on && i <= |s.table|
    requires NamesFit(n, s.table[i..])
    ensures Dump(ok, n, s, i).log == Deliver(ok, s.log, TableBufs(n, s.table[i..]))
    decreases |s.table| - i
  {
    if i < |s.table| {
      var e, later := Entry(n, s.table[i]), TableBufs(n, s.table[i + 1..]);
      TableBufsFrom(n, s.table, i, s.log);
      DeliverPair(ok, s.log, [|e|], e, later);
      var s2 := Session(true, s.table, s.log + [[|e|]] + [e]);
      assert s.table[i..][0] == s.table[i];
      DumpDelivers(ok, n, s2, i + 1);
      hide TableBufs, Entry, Deliver;
    }
  }

  lemma DeliverPair(ok: Oracle, log: History, x: seq<byte>, y: seq<byte>, later: History)
    ensures Deliver(ok, log, [x] + ([y] + later))
         == if !ok(log + [x]) then log + [x]
            else if !ok(log + [x] + [y]) then log + [x] + [y]
            else Deliver(ok, log + [x] + [y], later)
  {
    assert ([x] + ([y] + later))[1..] == [y] + later;
    assert ([y] + later)[1..] == later;
  }

  lemma CloseDelivers(ok: Oracle, n: Names, s: Session)
    requires ValidSession(s) && s.on && NamesFit(n, s.table)
    ensures Close(ok, n, s).0.log == Deliver(ok, s.log, EndBufs(n, s.table))
  {
    var t := s.table;
    assert t[0..] == t;
    DeliverPair(ok, s.log, [TABLE_ID], [|t|], TableBufs(n, t));
    DumpDelivers(ok, n, Session(true, t, s.log + [[TABLE_ID]] + [[|t|]]), 0);
    hide Deliver;
  }

  /** The calls and the end of a session that has started. */
  lemma StartedDelivers(ok: Oracle, n: Names, ps: seq<Ptr>, status: Addr, s0: Session)
    requires ValidSession(s0) && s0.on && s0.table == Reserved(n)
    requires NoNulls(ps) && |FinalTable(n, ps, status)| <= MAX_HOOKS && NamesFit(n, FinalTable(n, ps, status))
    ensures var c := Calls(ok, s0, ps + [At(status)]);
            var end := EndBufs(n, FinalTable(n, ps, status));
            var r := if c.on then Close(ok, n, c).0 else c;
            r == Off(Deliver(ok, s0.log, Singles(EventIds(n, ps, status)) + end))
  {
    var all, ids, t := ps + [At(status)], Singles(EventIds(n, ps, status)), FinalTable(n, ps, status);
    var c := Calls(ok, s0, all);
    AddrsSnoc(ps, status);
    CallsThatFit(ok, s0, all);
    CallsDeliver(ok, s0, all);
    DeliverSplit(ok, s0.log, ids, EndBufs(n, t));
    if c.on {
      CloseDelivers(ok, n, c);
    }
    hide Deliver, EndBufs, Singles;
  }

  lemma HeaderDelivers(ok: Oracle, log: History, head: seq<byte>, rest: History)
    ensures Deliver(ok, log, [head] + rest)
         == if ok(log + [head]) then Deliver(ok, log + [head], rest) else log + [head]
  {
    assert ([head] + rest)[1..] == rest;
  }

  /** An admissible run hands its writer exactly the buffers it wants to write, up to and
      including the first one that is refused; so what a failed run has written is a prefix of
      what it would have written. */
  lemma RunDelivers(ok: Oracle, n: Names, b: Build, mode: uint32, ps: seq<Ptr>, status: Addr, log: History)
    requires |b.hmac| == HMAC_SIZE && Admissible(n, mode, ps, status)
    ensures var r := Run(ok, n, b, mode, ps, status, log);
            && r.0 == Off(Deliver(ok, log, Wanted(n, b, mode, ps, status)))
            && log <= r.0.log <= log + Wanted(n, b, mode, ps, status)
  {
    var head, ids := HeaderBytes(HeaderOf(b, mode)), Singles(EventIds(n, ps, status));
    var end := EndBufs(n, FinalTable(n, ps, status));
    var s0 := Start(ok, n, b, mode, log);
    RunUnfolds(ok, n, b, mode, ps, status, log);
    WantedSplits(n, b, mode, ps, status, log);
    HeaderDelivers(ok, log, head, ids + end);
    DeliverIsPrefix(ok, log, Wanted(n, b, mode, ps, status));
    hide Wanted, EndBufs, Close, Calls, EventIds, FinalTable, Singles, Deliver, Run;
    if s0.on {
      StartedDelivers(ok, n, ps, status, s0);
    } else {
      CallsWhenOff(ok, s0, ps + [At(status)]);
    }
  }
}
