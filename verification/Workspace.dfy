/** The workspace allocator and its save/restore frames (cc/src/cc_memory.c,
    cc/corecrypto/cc_memory.h), and when a tree of nested calls fits. */
module Workspace {

  /** What the body of a function does with the workspace in one run: allocate, call a function
      that brackets its own body with CC_DECL_BP_WS and CC_FREE_BP_WS, or be done. */
  datatype Code<A> =
    | Done
    | Alloc(n: nat, next: Code<A>)
    | Call(callee: A, body: Code<A>, next: Code<A>)

  function Max(a: nat, b: nat): nat { if a > b then a else b }

  /** Own allocations of a body. */
  function Own<A>(c: Code<A>): nat {
    match c
    case Done => 0
    case Alloc(n, next) => n + Own(next)
    case Call(_, _, next) => Own(next)
  }

  /** The rule of the generated sizes: own allocations plus the maximum over callees. */
  function Size<A>(c: Code<A>): nat
    decreases c, 1
  {
    Own(c) + MaxCallee(c)
  }

  function MaxCallee<A>(c: Code<A>): nat
    decreases c, 0
  {
    match c
    case Done => 0
    case Alloc(_, next) => MaxCallee(next)
    case Call(_, body, next) => Max(Size(body), MaxCallee(next))
  }

  /** How far above its starting offset a run really gets. */
  function Peak<A>(c: Code<A>): nat {
    match c
    case Done => 0
    case Alloc(n, next) => n + Peak(next)
    case Call(_, body, next) => Max(Peak(body), Peak(next))
  }

  /** The rule is safe. */
  lemma {:induction false} PeakWithinSize<A>(c: Code<A>)
    ensures Peak(c) <= Size(c)
  {
    match c
    case Done =>
    case Alloc(_, next) =>
      PeakWithinSize(next);
    case Call(_, body, next) =>
      PeakWithinSize(body);
      PeakWithinSize(next);
  }

  predicate CallsOnly<A>(c: Code<A>)
    decreases c, 0
  {
    match c
    case Done => true
    case Alloc(_, _) => false
    case Call(_, body, next) => AllocatesFirst(body) && CallsOnly(next)
  }

  /** Every function of the tree makes all its allocations before its first call. */
  predicate AllocatesFirst<A>(c: Code<A>)
    decreases c, 1
  {
    match c
    case Done => true
    case Alloc(_, next) => AllocatesFirst(next)
    case Call(_, _, _) => CallsOnly(c)
  }

  /** The rule is exact where allocations come first. */
  lemma {:induction false} SizeIsPeak<A>(c: Code<A>)
    requires AllocatesFirst(c)
    ensures Peak(c) == Size(c)
    ensures CallsOnly(c) ==> Own(c) == 0
  {
    match c
    case Done =>
    case Alloc(_, next) =>
      SizeIsPeak(next);
    case Call(_, body, next) =>
      CallsOnlyAllocatesFirst(next);
      SizeIsPeak(body);
      SizeIsPeak(next);
  }

  lemma CallsOnlyAllocatesFirst<A>(c: Code<A>)
    requires CallsOnly(c)
    ensures AllocatesFirst(c)
  {
  }

  // Blocks of units, as half-open ranges of the buffer.

  datatype Block = Block(start: nat, end: nat)

  ghost predicate Disjoint(blocks: seq<Block>) {
    forall i, j | 0 <= i < j < |blocks| :: blocks[i].end <= blocks[j].start || blocks[j].end <= blocks[i].start
  }

  ghost predicate InBounds(blocks: seq<Block>, limit: nat) {
    forall i | 0 <= i < |blocks| :: blocks[i].start <= blocks[i].end <= limit
  }

  const SIZE_MAX := 0x1_0000_0000_0000_0000

  /** struct cc_ws. `live` holds the blocks whose frames are still open, in allocation order;
      `trail` holds what was live after each allocation so far. */
  class Ws {
    var ctx: array?<bv64>
    var nunits: nat
    var offset: nat
    ghost var live: seq<Block>
    ghost var trail: seq<seq<Block>>

    /** CC_DECL_WORKSPACE_RV on a buffer of `n` units. */
    constructor (buf: array<bv64>)
      requires buf.Length < SIZE_MAX
      ensures Valid() && ctx == buf && nunits == buf.Length && offset == 0
      ensures live == [] && trail == []
    {
      ctx, nunits, offset := buf, buf.Length, 0;
      live, trail := [], [];
    }

    /** Live blocks lie one above the other, below the offset. */
    ghost predicate Valid()
      reads this
    {
      && ctx != null && nunits == ctx.Length < SIZE_MAX && offset <= nunits
      && Stacked(live, offset)
    }

    /** cc_ws_alloc: the new block, or nothing if the abort check trips. The offset wraps around
        as a size_t does. */
    method Alloc(n: nat) returns (ok: bool, start: nat)
      requires Valid() && n < SIZE_MAX
      modifies this
      ensures ok <==> old(offset) + n <= nunits || old(offset) + n >= SIZE_MAX
      ensures offset == (old(offset) + n) % SIZE_MAX
      ensures ctx == old(ctx) && nunits == old(nunits) && start == old(offset)
      ensures ok && old(offset) + n <= nunits ==>
                && Valid() && offset == start + n
                && live == old(live) + [Block(start, start + n)]
                && trail == old(trail) + [live]
    {
      start := offset;
      offset := (offset + n) % SIZE_MAX;
      ok := !(offset > nunits);
      live := live + [Block(start, start + n)];
      trail := trail + [live];
    }

    /** CC_FREE_BP_WS: put a saved offset back; the blocks of the frame are no longer live. */
    method Restore(saved: nat, ghost depth: nat)
      requires Valid() && depth <= |live| && Stacked(live[..depth], saved) && saved <= nunits
      modifies this`offset, this`live
      ensures Valid() && offset == saved && live == old(live)[..depth]
    {
      offset := saved;
      live := live[..depth];
    }

    /** cc_ws_clear. */
    method Clear() returns (ok: bool)
      requires Valid()
      modifies ctx
      ensures ok && forall i | 0 <= i < nunits :: ctx[i] == 0
    {
      if offset > nunits {
        return false;
      }
      for i := 0 to nunits
        invariant forall j | 0 <= j < i :: ctx[j] == 0
      {
        ctx[i] := 0;
      }
      return true;
    }

    /** cc_ws_free and cc_ws_free_stack. */
    method Free() returns (ok: bool)
      requires Valid()
      modifies this
      ensures ok && nunits == 0 && offset == 0 && ctx == null
      ensures trail == old(trail)
    {
      if offset > nunits {
        return false;
      }
      nunits, offset := 0, 0;
      ctx := null;
      live := [];
      return true;
    }
  }

  ghost predicate Stacked(live: seq<Block>, limit: nat) {
    && InBounds(live, limit)
    && forall i, j | 0 <= i < j < |live| :: live[i].end <= live[j].start
  }

  /** No allocation of the tree is so large that the offset could wrap around. */
  predicate NoWrap<A>(c: Code<A>, nunits: nat) {
    match c
    case Done => true
    case Alloc(n, next) => nunits + n < SIZE_MAX && NoWrap(next, nunits)
    case Call(_, body, next) => NoWrap(body, nunits) && NoWrap(next, nunits)
  }

  /** Whatever was live after each allocation since `from` lies in bounds and is disjoint. */
  ghost predicate GoodTrail(trail: seq<seq<Block>>, from: nat, nunits: nat) {
    forall k | from <= k < |trail| :: InBounds(trail[k], nunits) && Disjoint(trail[k])
  }

  /** Run the body of a function; the result says whether no abort check tripped. It does so
      exactly if the peak fits above the offset. A run that fits keeps every block that was live
      and all blocks disjoint and in bounds at every moment. */
  method RunBody<A>(ws: Ws, c: Code<A>) returns (ok: bool)
    requires ws.Valid()
    requires ws.offset + Peak(c) <= ws.nunits || NoWrap(c, ws.nunits)
    modifies ws
    ensures ok <==> old(ws.offset) + Peak(c) <= ws.nunits
    ensures ws.ctx == old(ws.ctx) && ws.nunits == old(ws.nunits)
    ensures ok ==> ws.Valid() && ws.offset == old(ws.offset) + Own(c)
    ensures ok ==> old(ws.live) <= ws.live && old(ws.trail) <= ws.trail
    ensures ok ==> GoodTrail(ws.trail, |old(ws.trail)|, ws.nunits)
    decreases c, 0
  {
    match c {
      case Done =>
        ok := true;
      case Alloc(n, next) =>
        var start;
        ok, start := ws.Alloc(n);
        if ok {
          ok := RunBody(ws, next);
        }
      case Call(_, body, next) =>
        ok := RunCall(ws, body);
        if ok {
          ok := RunBody(ws, next);
        }
    }
  }

  /** A call: the body between CC_DECL_BP_WS and CC_FREE_BP_WS. The offset and the live blocks
      are afterwards what they were before. */
  method RunCall<A>(ws: Ws, body: Code<A>) returns (ok: bool)
    requires ws.Valid()
    requires ws.offset + Peak(body) <= ws.nunits || NoWrap(body, ws.nunits)
    modifies ws
    ensures ok <==> old(ws.offset) + Peak(body) <= ws.nunits
    ensures ws.ctx == old(ws.ctx) && ws.nunits == old(ws.nunits)
    ensures ok ==> ws.Valid() && ws.offset == old(ws.offset) && ws.live == old(ws.live)
    ensures ok ==> old(ws.trail) <= ws.trail && GoodTrail(ws.trail, |old(ws.trail)|, ws.nunits)
    decreases body, 1
  {
    var saved := ws.offset;
    ghost var depth := |ws.live|;
    ok := RunBody(ws, body);
    if ok {
      ws.Restore(saved, depth);
    }
  }

  /** A public entry point: declare a workspace of the computed size, run, clear, free. If the
      size is at least the size of the tree, no abort check trips anywhere, all live blocks are
      disjoint and in bounds throughout, and the buffer is zero when it is given back. */
  method RunWithWorkspace<A>(body: Code<A>, buf: array<bv64>) returns (ok: bool, ghost trail: seq<seq<Block>>)
    requires Size(body) <= buf.Length < SIZE_MAX
    modifies buf
    ensures ok
    ensures GoodTrail(trail, 0, buf.Length)
    ensures forall i | 0 <= i < buf.Length :: buf[i] == 0
  {
    PeakWithinSize(body);
    var ws := new Ws(buf);
    var ran := RunCall(ws, body);
    var cleared := ws.Clear();
    var freed := ws.Free();
    ok := ran && cleared && freed;
    trail := ws.trail;
  }
}
