/** The trace recorder as it runs: module state that every call updates in place, and a writer
    that may refuse (cc_fips/src/fipspost_trace.c). Each method is the step of the same name in
    TraceSession. */
module Tracer {
  import opened Bytes
  import opened TraceFormat
  import opened TraceSession
  import S = TraceSession

  /** A caller-supplied writer and its context. `log` is everything it was ever handed. */
  class Writer {
    const accepts: Oracle
    var log: History

    constructor (accepts: Oracle)
      ensures this.accepts == accepts && log == []
    {
      this.accepts := accepts;
      log := [];
    }

    /** Returns 0 if the buffer is accepted. */
    method Write(buf: seq<byte>) returns (rc: int)
      modifies this
      ensures log == old(log) + [buf]
      ensures rc == 0 <==> accepts(log)
    {
      log := log + [buf];
      rc := if accepts(log) then 0 else -1;
    }
  }

  /** The text of a failed POST's status: the fixed part and eight upper-case hex digits. */
  function HexDigit(d: nat): byte
    requires d < 16
  {
    if d < 10 then 48 + d else 55 + d
  }

  function HexDigits(x: nat, n: nat): (r: seq<byte>)
    ensures |r| == n
  {
    if n == 0 then [] else HexDigits(x / 16, n - 1) + [HexDigit(x % 16)]
  }

  function FailureText(result: uint32): seq<byte> { FAILURE_STR + HexDigits(result, 8) }

  /** A status text always fits the string table. */
  lemma FailureTextFits(result: uint32)
    ensures |FailureText(result)| + 1 == 26 <= MAX_EVENT_LEN
  {
  }

  class Recorder {
    const names: Names
    const build: Build
    const hooks: array<Ptr>
    var mode: uint32
    var writer: Writer?
    var count: nat

    constructor (names: Names, build: Build)
      requires ValidNames(names) && |build.hmac| == HMAC_SIZE
      ensures Valid() && !IsActive() && fresh(hooks)
      ensures this.names == names && this.build == build
    {
      this.names, this.build := names, build;
      hooks := new Ptr[240](_ => Null);
      mode, writer, count := 0, null, 0;
    }

    /** The parts that never change. */
    ghost predicate Shaped() {
      ValidNames(names) && |build.hmac| == HMAC_SIZE && hooks.Length == MAX_HOOKS
    }

    /** Either active, or reset to a state without names. */
    ghost predicate Valid()
      reads this, hooks
    {
      && Shaped() && count <= MAX_HOOKS
      && (forall i | 0 <= i < count :: hooks[i].At?)
      && (!IsActive() ==> mode == 0 && writer == null && count == 0)
    }

    /** fipspost_trace_is_active. */
    predicate IsActive()
      reads this
    {
      HasTrace(mode) && writer != null
    }

    /** The interned addresses. */
    ghost function Table(): (t: seq<Addr>)
      requires Valid()
      reads this, hooks
      ensures |t| == count && forall i | 0 <= i < count :: t[i] == hooks[i].addr
    {
      Addresses(hooks[..count])
    }

    /** The abstract session, seen from a writer. */
    ghost function Now(w: Writer): Session
      requires Valid()
      reads this, hooks, w
    {
      if writer == w then Session(true, Table(), w.log) else Off(w.log)
    }

    ghost function WriterSet(): set<object>
      reads this
    {
      if writer == null then {} else {writer}
    }

    /** fipspost_trace_clear. */
    method Clear()
      requires Shaped()
      modifies this
      ensures Valid() && writer == null
    {
      mode := 0;
      writer := null;
      count := 0;
    }

    /** fipspost_trace_hook_idx: find or add a name; MAX_HOOKS if there is none or no room. */
    method HookIdx(fname: Ptr) returns (id: byte)
      requires Valid() && IsActive()
      modifies this`count, hooks
      ensures Valid() && IsActive()
      ensures if fname.Null? || (fname.addr !in old(Table()) && old(count) == MAX_HOOKS)
              then id == MAX_HOOKS && Table() == old(Table())
              else && Table() == Intern(old(Table()), fname.addr)
                   && id == IndexIn(Table(), fname.addr) < MAX_HOOKS
    {
      if fname == Null {
        return MAX_HOOKS;
      }
      for i := 0 to count
        invariant fname.addr !in Table()[..i]
      {
        if hooks[i] == Null {
          // The source gives up here; no entry below the count is ever NULL.
          assert false;
        }
        if fname == hooks[i] {
          FirstIndex(Table(), fname.addr, i);
          return i;
        }
      }
      assert fname.addr !in Table();
      if count == MAX_HOOKS {
        return MAX_HOOKS;
      }
      ghost var before := Table();
      hooks[count] := fname;
      id := count;
      count := count + 1;
      assert Table() == before + [fname.addr];
      FirstIndex(Table(), fname.addr, id);
    }

    /** TRACE_POD and TRACE_BUF: hand a buffer to the writer; clear everything if it refuses. */
    method Emit(buf: seq<byte>) returns (sent: bool)
      requires Valid() && IsActive()
      modifies this, writer
      ensures Valid()
      ensures Now(old(writer)) == Send(old(writer).accepts, old(Now(writer)), buf)
      ensures writer == if sent then old(writer) else null
    {
      var rc := writer.Write(buf);
      if rc != 0 {
        Clear();
      }
      return rc == 0;
    }

    /** fipspost_trace_start. */
    method Start(fipsMode: uint32, traceWriter: Writer?) returns (rc: int)
      requires Valid()
      modifies this, hooks, if traceWriter == null then {} else {traceWriter}
      ensures Valid()
      ensures traceWriter == null ==> rc == -1 && writer == null
      ensures traceWriter != null ==>
                && Now(traceWriter) == S.Start(traceWriter.accepts, names, build, fipsMode, old(traceWriter.log))
                && (rc == 0 <==> writer == traceWriter)
                && (rc != 0 ==> rc == -1 && writer == null)
    {
      Clear();
      mode := fipsMode;
      writer := traceWriter;
      if !IsActive() {
        Clear();
        return -1;
      }
      var sent := Emit(HeaderBytes(HeaderOf(build, mode)));
      if !sent {
        return -1;
      }
      assert Table() == [];
      var id := HookIdx(At(names.dash));
      id := HookIdx(At(names.test));
      return 0;
    }

    /** fipspost_trace_call. */
    method Call(testName: Ptr)
      requires Valid()
      modifies this, hooks, WriterSet()
      ensures Valid()
      ensures old(writer) == null ==> writer == null
      ensures old(writer) != null ==>
                && Now(old(writer)) == S.Call(old(writer).accepts, old(Now(writer)), testName)
                && (writer == old(writer) || writer == null)
    {
      if !IsActive() {
        Clear();
        return;
      }
      var id := HookIdx(testName);
      if id < MAX_HOOKS {
        var sent := Emit([id]);
        return;
      }
      Clear();
    }

    /** The loop over the string table at the end of a session. */
    method DumpTable() returns (done: bool)
      requires Valid() && IsActive()
      modifies this, writer
      ensures Valid()
      ensures Now(old(writer)) == Dump(old(writer).accepts, names, old(Now(writer)), 0)
      ensures writer == if done then old(writer) else null
    {
      ghost var w, s0 := writer, Now(writer);
      var i: nat := 0;
      while i < count
        invariant i <= count && count == old(count) && Valid() && writer == w && IsActive()
        invariant Table() == s0.table
        invariant Dump(w.accepts, names, Now(w), i) == Dump(w.accepts, names, s0, 0)
      {
        var e := Entry(names, hooks[i].addr);
        if |e| > MAX_EVENT_LEN {
          Clear();
          return false;
        }
        var sent := Emit([|e|]);
        if !sent {
          return false;
        }
        sent := Emit(e);
        if !sent {
          return false;
        }
        i := i + 1;
      }
      return true;
    }

    /** fipspost_trace_end. `statusAt` is the buffer into which a failure status is formatted. */
    method End(result: uint32, statusAt: Addr) returns (rc: int)
      requires Valid()
      requires result != 0 ==> names.text(statusAt) == FailureText(result)
      modifies this, hooks, WriterSet()
      ensures Valid() && writer == null
      ensures old(writer) == null ==> rc == -1
      ensures old(writer) != null ==>
                (Now(old(writer)), rc) ==
                  S.End(old(writer).accepts, names, old(Now(writer)), if result == 0 then names.success else statusAt)
    {
      if !IsActive() {
        Clear();
        return -1;
      }
      if result == 0 {
        Call(At(names.success));
      } else {
        Call(At(statusAt));
      }
      if !IsActive() {
        Clear();
        return -1;
      }
      var sent := Emit([TABLE_ID]);
      if !sent {
        return -1;
      }
      sent := Emit([count]);
      if !sent {
        return -1;
      }
      var done := DumpTable();
      if !done {
        return -1;
      }
      Clear();
      return 0;
    }
  }

  /** A whole session through the API. */
  method RunTrace(t: Recorder, w: Writer, fipsMode: uint32, ps: seq<Ptr>, result: uint32, statusAt: Addr)
      returns (rc: int)
    requires t.Valid()
    requires result != 0 ==> t.names.text(statusAt) == FailureText(result)
    modifies t, t.hooks, w
    ensures t.Valid() && t.writer == null
    ensures (Off(w.log), rc) ==
              Run(w.accepts, t.names, t.build, fipsMode, ps, if result == 0 then t.names.success else statusAt,
                  old(w.log))
  {
    rc := t.Start(fipsMode, w);
    ghost var s0 := t.Now(w);
    var i := 0;
    while i < |ps|
      invariant 0 <= i <= |ps| && t.Valid() && (t.writer == w || t.writer == null)
      invariant Calls(w.accepts, t.Now(w), ps[i..]) == Calls(w.accepts, s0, ps)
    {
      t.Call(ps[i]);
      i := i + 1;
    }
    rc := t.End(result, statusAt);
  }

  function Addresses(ps: seq<Ptr>): (t: seq<Addr>)
    requires forall i | 0 <= i < |ps| :: ps[i].At?
    ensures |t| == |ps| && forall i | 0 <= i < |ps| :: t[i] == ps[i].addr
  {
    seq(|ps|, i requires 0 <= i < |ps| => ps[i].addr)
  }

  lemma {:induction false} FirstIndex(t: seq<Addr>, a: Addr, i: nat)
    requires i < |t| && t[i] == a && a !in t[..i]
    ensures IndexIn(t, a) == i
  {
    if i > 0 {
      assert t[0] == t[..i][0];
      assert t[1..][..i - 1] == t[..i][1..];
      FirstIndex(t[1..], a, i - 1);
    }
  }
}
