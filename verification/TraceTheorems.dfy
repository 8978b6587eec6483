/** What the trace recorder guarantees over whole runs, for every writer. */
module TraceTheorems {
  import opened Bytes
  import opened TraceFormat
  import opened TraceSession

  // What a run wants to write, if nothing goes wrong.

  function InternAll(table: seq<Addr>, names: seq<Addr>): seq<Addr>
    decreases names
  {
    if names == [] then table else InternAll(Intern(table, names[0]), names[1..])
  }

  /** The event id of each name in turn. */
  function Ids(table: seq<Addr>, names: seq<Addr>): (ids: seq<nat>)
    ensures |ids| == |names|
    decreases names
  {
    if names == [] then []
    else
      var t := Intern(table, names[0]);
      [IndexIn(t, names[0])] + Ids(t, names[1..])
  }

  /** Each id as the one-byte buffer it is written in. */
  function Singles(ids: seq<nat>): (h: History) {
    if ids == [] then [] else [[ids[0] % 256]] + Singles(ids[1..])
  }

  predicate NamesFit(n: Names, table: seq<Addr>) {
    forall i | 0 <= i < |table| :: |Entry(n, table[i])| <= MAX_EVENT_LEN
  }

  function TableBufs(n: Names, table: seq<Addr>): History
    requires NamesFit(n, table)
  {
    if table == [] then []
    else [[|Entry(n, table[0])|], Entry(n, table[0])] + TableBufs(n, table[1..])
  }

  /** The writer accepts each of these buffers in turn. */
  predicate Accepted(ok: Oracle, log: History, want: History)
    decreases want
  {
    want == [] || (ok(log + [want[0]]) && Accepted(ok, log + [want[0]], want[1..]))
  }

  predicate NoNulls(ps: seq<Ptr>) { forall i | 0 <= i < |ps| :: ps[i].At? }

  function Addrs(ps: seq<Ptr>): (a: seq<Addr>)
    requires NoNulls(ps)
    ensures |a| == |ps| && forall i | 0 <= i < |ps| :: a[i] == ps[i].addr
  {
    if ps == [] then [] else [ps[0].addr] + Addrs(ps[1..])
  }

  // Interning.

  predicate Distinct(t: seq<Addr>) { forall i, j | 0 <= i < j < |t| :: t[i] != t[j] }

  /** Interning only appends, keeps the table free of repetitions, and ends with exactly the
      names that were there or came in. */
  lemma {:induction false} InternAllGrows(table: seq<Addr>, names: seq<Addr>)
    requires Distinct(table)
    ensures var t := InternAll(table, names);
            && table <= t && Distinct(t)
            && forall a :: a in t <==> a in table || a in names
    decreases names
  {
    if names != [] {
      InternAllGrows(Intern(table, names[0]), names[1..]);
      assert forall a :: a in names <==> a == names[0] || a in names[1..];
    }
  }

  lemma {:induction false} InternAllPrefix(table: seq<Addr>, names: seq<Addr>)
    ensures table <= InternAll(table, names)
    decreases names
  {
    if names != [] {
      InternAllPrefix(Intern(table, names[0]), names[1..]);
    }
  }

  function Elements(t: seq<Addr>): set<Addr> { set a | a in t }

  /** So its length is the number of distinct addresses. */
  lemma {:induction false} DistinctLength(t: seq<Addr>)
    requires Distinct(t)
    ensures |Elements(t)| == |t|
  {
    if t != [] {
      var k := |t| - 1;
      DistinctLength(t[..k]);
      assert t[k] !in t[..k];
      assert Elements(t) == Elements(t[..k]) + {t[k]} by {
        assert t == t[..k] + [t[k]];
      }
    }
  }

  /** Event i is the id under which the final table lists the i-th name. */
  lemma {:induction false} IdsResolve(table: seq<Addr>, names: seq<Addr>, i: nat)
    requires Distinct(table) && i < |names|
    ensures var t := InternAll(table, names);
            Ids(table, names)[i] < |t| && t[Ids(table, names)[i]] == names[i]
    decreases names
  {
    var t := Intern(table, names[0]);
    InternAllGrows(t, names[1..]);
    if i > 0 {
      IdsResolve(t, names[1..], i - 1);
    }
  }

  // Runs, phase by phase.

  lemma {:induction false} AcceptedSplit(ok: Oracle, log: History, x: History, y: History)
    ensures Accepted(ok, log, x + y) <==> Accepted(ok, log, x) && Accepted(ok, log + x, y)
    decreases x
  {
    if x == [] {
      assert x + y == y && log + x == log;
    } else {
      assert (x + y)[0] == x[0] && (x + y)[1..] == x[1..] + y;
      assert log + [x[0]] + x[1..] == log + x;
      AcceptedSplit(ok, log + [x[0]], x[1..], y);
    }
  }

  lemma {:induction false} CallsWhenOff(ok: Oracle, s: Session, ps: seq<Ptr>)
    requires ValidSession(s) && !s.on
    ensures Calls(ok, s, ps) == s
    decreases ps
  {
    if ps != [] {
      CallsWhenOff(ok, s, ps[1..]);
    }
  }

  /** Names that are not NULL and fit the table: the calls succeed exactly if the writer takes
      every id. */
  lemma {:induction false} CallsThatFit(ok: Oracle, s: Session, ps: seq<Ptr>)
    requires ValidSession(s) && s.on && Distinct(s.table)
    requires NoNulls(ps) && |InternAll(s.table, Addrs(ps))| <= MAX_HOOKS
    ensures var want := Singles(Ids(s.table, Addrs(ps)));
            && (Calls(ok, s, ps).on <==> Accepted(ok, s.log, want))
            && (Calls(ok, s, ps).on ==> Calls(ok, s, ps) == Session(true, InternAll(s.table, Addrs(ps)), s.log + want))
    decreases ps
  {
    if ps == [] {
      assert s.log + [] == s.log;
    } else {
      var a, rest := ps[0].addr, ps[1..];
      var t := Intern(s.table, a);
      assert Addrs(ps)[1..] == Addrs(rest);
      InternAllGrows(t, Addrs(rest));
      WantedCalls(s.table, Addrs(ps), s.log);
      var s1 := Call(ok, s, ps[0]);
      hide Ids, Singles;
      if s1.on {
        CallsThatFit(ok, s1, rest);
      } else {
        CallsWhenOff(ok, s1, rest);
      }
    }
  }

  lemma WantedCalls(table: seq<Addr>, names: seq<Addr>, log: History)
    requires names != []
    requires |InternAll(table, names)| <= MAX_HOOKS
    ensures var t := Intern(table, names[0]);
            var id, later := IndexIn(t, names[0]), Singles(Ids(t, names[1..]));
            var want := Singles(Ids(table, names));
            && id < 256
            && want != [] && want[0] == [id] && want[1..] == later
            && log + want == log + [[id]] + later
  {
    WantedIds(table, names);
    hide *;
    FirstAndRest(log, Singles(Ids(table, names)));
  }

  lemma WantedIds(table: seq<Addr>, names: seq<Addr>)
    requires names != []
    requires |InternAll(table, names)| <= MAX_HOOKS
    ensures names[0] in Intern(table, names[0])
    ensures IndexIn(Intern(table, names[0]), names[0]) < 256
    ensures Singles(Ids(table, names)) != []
    ensures Singles(Ids(table, names))[0] == [IndexIn(Intern(table, names[0]), names[0])]
    ensures Singles(Ids(table, names))[1..] == Singles(Ids(Intern(table, names[0]), names[1..]))
  {
    hide Ids, Intern, InternAll, Singles;
    FirstInterned(table, names);
    IdsTail(table, names);
    SinglesTail(Ids(table, names));
  }

  lemma FirstInterned(table: seq<Addr>, names: seq<Addr>)
    requires names != []
    ensures names[0] in Intern(table, names[0])
    ensures IndexIn(Intern(table, names[0]), names[0]) < |InternAll(table, names)|
  {
    InternAllPrefix(Intern(table, names[0]), names[1..]);
  }

  lemma IdsTail(table: seq<Addr>, names: seq<Addr>)
    requires names != []
    ensures names[0] in Intern(table, names[0])
    ensures Ids(table, names)[0] == IndexIn(Intern(table, names[0]), names[0])
    ensures Ids(table, names)[1..] == Ids(Intern(table, names[0]), names[1..])
  {
    var t := Intern(table, names[0]);
    var id, rest := IndexIn(t, names[0]), Ids(t, names[1..]);
    assert Ids(table, names) == [id] + rest;
    assert ([id] + rest)[1..] == rest;
  }

  lemma SinglesTail(ids: seq<nat>)
    requires ids != []
    ensures Singles(ids) != [] && Singles(ids)[0] == [ids[0] % 256] && Singles(ids)[1..] == Singles(ids[1..])
  {
    var rest := Singles(ids[1..]);
    assert ([[ids[0] % 256]] + rest)[1..] == rest;
  }

  lemma FirstAndRest<T>(log: seq<T>, want: seq<T>)
    requires want != []
    ensures log + want == log + [want[0]] + want[1..]
  {
  }

  /** A NULL name or one distinct name too many ends the session. */
  lemma {:induction false} CallsThatDoNotFit(ok: Oracle, s: Session, ps: seq<Ptr>)
    requires ValidSession(s) && s.on && Distinct(s.table)
    requires NoNulls(ps) ==> |InternAll(s.table, Addrs(ps))| > MAX_HOOKS
    ensures !Calls(ok, s, ps).on
    decreases ps
  {
    if ps != [] {
      var s1, rest := Call(ok, s, ps[0]), ps[1..];
      if s1.on {
        assert NoNulls(ps) <==> NoNulls(rest);
        if NoNulls(ps) {
          assert Addrs(ps)[1..] == Addrs(rest);
        }
        CallsThatDoNotFit(ok, s1, rest);
      } else {
        CallsWhenOff(ok, s1, rest);
      }
    }
  }

  lemma {:induction false} CallsSnoc(ok: Oracle, s: Session, ps: seq<Ptr>, p: Ptr)
    requires ValidSession(s)
    ensures Calls(ok, s, ps + [p]) == Call(ok, Calls(ok, s, ps), p)
    decreases ps
  {
    if ps == [] {
      assert ps + [p] == [p] && [p][1..] == [];
    } else {
      assert (ps + [p])[1..] == ps[1..] + [p];
      CallsSnoc(ok, Call(ok, s, ps[0]), ps[1..], p);
    }
  }

  lemma TableBufsFrom(n: Names, table: seq<Addr>, i: nat, log: History)
    requires i < |table| && NamesFit(n, table[i..])
    ensures NamesFit(n, table[i + 1..])
    ensures var e := Entry(n, table[i]);
            var want, later := TableBufs(n, table[i..]), TableBufs(n, table[i + 1..]);
            && want == [[|e|]] + ([e] + later)
            && log + want == log + [[|e|]] + [e] + later
  {
    assert table[i..][1..] == table[i + 1..];
    var e, later := Entry(n, table[i]), TableBufs(n, table[i + 1..]);
    assert [[|e|], e] + later == [[|e|]] + ([e] + later);
    assert log + ([[|e|]] + ([e] + later)) == log + [[|e|]] + [e] + later;
  }

  lemma AcceptedPair(ok: Oracle, log: History, x: seq<byte>, y: seq<byte>, later: History)
    ensures Accepted(ok, log, [x] + ([y] + later)) <==>
            ok(log + [x]) && ok(log + [x] + [y]) && Accepted(ok, log + [x] + [y], later)
  {
    assert ([x] + ([y] + later))[1..] == [y] + later;
    assert ([y] + later)[1..] == later;
  }

  /** A table of short names is written out exactly if the writer takes every piece of it. */
  lemma {:induction false} DumpThatFits(ok: Oracle, n: Names, s: Session, i: nat)
    requires ValidSession(s) && s.on && i <= |s.table|
    requires NamesFit(n, s.table[i..])
    ensures var want := TableBufs(n, s.table[i..]);
            && (Dump(ok, n, s, i).on <==> Accepted(ok, s.log, want))
            && (Dump(ok, n, s, i).on ==> Dump(ok, n, s, i) == Session(true, s.table, s.log + want))
    decreases |s.table| - i
  {
    if i == |s.table| {
      assert s.log + [] == s.log;
    } else {
      var e, later := Entry(n, s.table[i]), TableBufs(n, s.table[i + 1..]);
      TableBufsFrom(n, s.table, i, s.log);
      AcceptedPair(ok, s.log, [|e|], e, later);
      var s2 := Session(true, s.table, s.log + [[|e|]] + [e]);
      assert s.table[i..][0] == s.table[i];
      DumpThatFits(ok, n, s2, i + 1);
      hide TableBufs, Entry, Accepted;
    }
  }

  lemma {:induction false} DumpThatDoesNotFit(ok: Oracle, n: Names, s: Session, i: nat)
    requires ValidSession(s) && s.on && i <= |s.table|
    requires !NamesFit(n, s.table[i..])
    ensures !Dump(ok, n, s, i).on
    decreases |s.table| - i
  {
    var rest := s.table[i..];
    var k :| 0 <= k < |rest| && |Entry(n, rest[k])| > MAX_EVENT_LEN;
    if |Entry(n, s.table[i])| <= MAX_EVENT_LEN {
      assert k > 0 && s.table[i + 1..][k - 1] == rest[k];
      var s1 := Send(ok, s, [|Entry(n, s.table[i])|]);
      if s1.on {
        var s2 := Send(ok, s1, Entry(n, s.table[i]));
        if s2.on {
          DumpThatDoesNotFit(ok, n, s2, i + 1);
        }
      }
    }
  }
}
