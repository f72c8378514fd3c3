/**
 * The three routines of sys.rs that drive the Lua stack:
 * load_module (inject a buffer as a preloaded module), override_print
 * (the replacement `print`) and lua_identity_closure (the C function that
 * returns its first upvalue).
 *
 * Each routine is a method over a `Lua.State`, proved against a function of
 * the state it starts from; the lemmas below state what the routines promise.
 */
module Sys {
  import opened Wrappers
  import opened Lua

  const NUL: Byte := 0
  const TAB: Byte := 9
  /** '@', the prefix Lua uses for chunk names that are file names. */
  const AT: Byte := 64
  /** "[G] ", the prefix of every line override_print emits. */
  const PRINT_PREFIX: Bytes := [91, 71, 93, 32]
  /** "package", "preload" and "tostring". */
  const PACKAGE: Bytes := [112, 97, 99, 107, 97, 103, 101]
  const PRELOAD: Bytes := [112, 114, 101, 108, 111, 97, 100]
  const TOSTRING: Bytes := [116, 111, 115, 116, 114, 105, 110, 103]

  /** The address of lua_identity_closure, as lua_pushcclosure receives it. */
  const IdentityClosureFn: CFunction := CFunction(1)

  /** How a routine leaves: normally, by a Lua error raised into its caller, or by a Rust panic. */
  datatype Outcome = Normal | Raised(error: Value) | Panicked

  // ---------------------------------------------------------------------------
  // lua_identity_closure
  // ---------------------------------------------------------------------------

  /** The values lua_identity_closure returns: its first upvalue. */
  function IdentityResults(ups: seq<Value>): seq<Value>
  {
    [UpvalueValue(ups, 1)]
  }

  /**
   * lua_identity_closure: pushes upvalue 1 (the pseudo-index LUA_GLOBALSINDEX - 1
   * is lua_upvalueindex(1)) and returns 1, so its one result is that upvalue.
   */
  method IdentityClosure(L: State) returns (nres: int)
    modifies L
    ensures nres == 1
    ensures L.stack == old(L.stack) + IdentityResults(L.upvalues)
    ensures L.stack[|L.stack| - nres..] == IdentityResults(L.upvalues)
    ensures L.heap == old(L.heap)
  {
    UpvalueIndexDenotesUpvalue(1, |L.stack|);
    L.PushValue(LUA_GLOBALSINDEX - 1);
    nres := 1;
  }

  /**
   * The interpreter runs a closure of lua_identity_closure as IdentityClosure
   * does: whatever the arguments and heap, it returns its first upvalue and
   * changes no table.
   */
  ghost predicate RunsIdentityClosure(run: Interp)
  {
    forall ups, args, h :: run(CClosure(IdentityClosureFn, ups), args, h) == Returned(IdentityResults(ups), h)
  }

  /** Calling an identity closure returns the same captured value every time, on any heap. */
  lemma IdentityClosureIsIdempotent(run: Interp, v: Value, args1: seq<Value>, h1: Heap, args2: seq<Value>, h2: Heap)
    requires RunsIdentityClosure(run)
    ensures Invoke(CClosure(IdentityClosureFn, [v]), args1, h1, run) == Returned([v], h1)
    ensures Invoke(CClosure(IdentityClosureFn, [v]), args1, h1, run).results
         == Invoke(CClosure(IdentityClosureFn, [v]), args2, h2, run).results
  {
  }

  // ---------------------------------------------------------------------------
  // load_module
  // ---------------------------------------------------------------------------

  /** CString::new(..).unwrap() panics exactly when the bytes contain a NUL. */
  predicate HasNul(s: Bytes)
  {
    NUL in s
  }

  /** The chunk name handed to the loader: "@" followed by the module name. */
  function ChunkName(name: Bytes): (r: Bytes)
    ensures |r| == |name| + 1 && r[0] == AT && r[1..] == name
  {
    [AT] + name
  }

  /** The chunk name holds a NUL exactly when the module name does. */
  lemma ChunkNameNul(name: Bytes)
    ensures HasNul(ChunkName(name)) <==> HasNul(name)
  {
    assert ChunkName(name)[1..] == name;
  }

  /** What load_module passes to the loader: the buffer, its length without the NUL terminator, the chunk name and a null mode. */
  function LoadRequestFor(name: Bytes, buffer: Bytes): LoadRequest
  {
    LoadRequest(buffer, |buffer|, ChunkName(name), None)
  }

  /** How load_module exits and the heap it leaves. */
  datatype Injection = Injection(outcome: Outcome, heap: Heap)

  /**
   * The effect of load_module on a heap with globals table `globals`: panic on a
   * NUL; otherwise fetch package.preload, run the loaded chunk under a protected
   * call, and on success store an identity closure over its result at
   * preload[name] in the table fetched before the chunk ran.
   */
  function Inject(h: Heap, globals: TableRef, run: Interp, name: Bytes, buffer: Bytes, loader: Loader): (r: Injection)
    ensures r.outcome.Panicked? ==> r.heap == h
    ensures r.outcome.Raised? ==> exists v: Value :: !v.Table? && r.outcome.error == TypeError(Index, v)
  {
    if HasNul(buffer) || HasNul(ChunkName(name)) then Injection(Panicked, h)
    else
      var package := RawGet(h, globals, PACKAGE);
      if !package.Table? then Injection(Raised(TypeError(Index, package)), h)
      else
        var preload := RawGet(h, package.ref, PRELOAD);
        var chunk := loader(LoadRequestFor(name, buffer)).pushed;
        match Invoke(chunk, [], h, run)
        case Failed(_, h1) => Injection(Normal, h1)
        case Returned(rs, h1) =>
          if preload.Table? then
            Injection(Normal, RawSet(h1, preload.ref, name, CClosure(IdentityClosureFn, [FirstResult(rs)])))
          else
            Injection(Raised(TypeError(Index, preload)), h1)
  }

  /**
   * load_module: on every exit that returns to the caller the stack is exactly
   * the one it was entered with; the heap is as Inject describes.
   */
  method LoadModule(L: State, name: Bytes, buffer: Bytes, loader: Loader) returns (outcome: Outcome)
    modifies L
    ensures Injection(outcome, L.heap) == Inject(old(L.heap), L.globals, L.run, name, buffer, loader)
    ensures !outcome.Raised? ==> L.stack == old(L.stack)
  {
    if HasNul(buffer) {
      return Panicked;
    }
    var chunkName := ChunkName(name);
    if HasNul(chunkName) {
      return Panicked;
    }
    // CString::new(name) after the call cannot fail: the chunk name already had no NUL.
    ChunkNameNul(name);
    var stackTop := L.GetTop();
    var raised := PushPreload(L);
    if raised.Some? {
      return Raised(raised.value);
    }
    raised := RunAndRegister(L, name, buffer, chunkName, loader);
    if raised.Some? {
      return Raised(raised.value);
    }
    L.SetTop(stackTop);
    outcome := Normal;
  }

  /**
   * The first part of load_module: push `package.preload` above the current
   * stack. Indexing `package` raises when it is not a table.
   */
  method PushPreload(L: State) returns (raised: Option<Value>)
    modifies L
    ensures L.heap == old(L.heap)
    ensures var package := RawGet(old(L.heap), L.globals, PACKAGE);
      if package.Table? then
        raised == None && L.stack == old(L.stack) + [package, RawGet(old(L.heap), package.ref, PRELOAD)]
      else
        raised == Some(TypeError(Index, package))
  {
    ghost var s0 := L.stack;
    ghost var package := RawGet(L.heap, L.globals, PACKAGE);
    var noError := L.GetField(LUA_GLOBALSINDEX, PACKAGE);
    assert L.stack == s0 + [package];
    raised := L.GetField(-1, PRELOAD);
  }

  /**
   * The second part of load_module, with package.preload at the top of the
   * stack: load the buffer, run it under a protected call for one result and,
   * when that succeeds, store an identity closure over the result at
   * preload[name]. Values may be left above the entry stack.
   */
  method RunAndRegister(L: State, name: Bytes, buffer: Bytes, chunkName: Bytes, loader: Loader)
      returns (raised: Option<Value>)
    requires chunkName == ChunkName(name) && |L.stack| >= 1
    modifies L
    ensures var preload := old(L.stack[|L.stack| - 1]);
      match Invoke(loader(LoadRequestFor(name, buffer)).pushed, [], old(L.heap), L.run)
      case Failed(_, h1) =>
        raised == None && L.heap == h1
        && |old(L.stack)| <= |L.stack| && L.stack[..|old(L.stack)|] == old(L.stack)
      case Returned(rs, h1) =>
        if preload.Table? then
          raised == None && L.heap == RawSet(h1, preload.ref, name, CClosure(IdentityClosureFn, [FirstResult(rs)]))
          && |old(L.stack)| <= |L.stack| && L.stack[..|old(L.stack)|] == old(L.stack)
        else
          raised == Some(TypeError(Index, preload)) && L.heap == h1
  {
    ghost var s0, h0 := L.stack, L.heap;
    ghost var preload := s0[|s0| - 1];
    // The absolute index of package.preload; values are pushed above it below.
    var fieldIndex := L.GetTop();
    // The loader's status is ignored: on failure it pushed an error message,
    // which the protected call below then fails to call.
    var status := L.LoadBuffer(loader, LoadRequest(buffer, |buffer|, chunkName, None));
    ghost var chunk := loader(LoadRequestFor(name, buffer)).pushed;
    ghost var r := Invoke(chunk, [], h0, L.run);
    assert L.stack[|L.stack| - 1] == chunk && L.stack[|L.stack|..] == [] && L.stack[..|L.stack| - 1] == s0 by {
      assert L.stack == s0 + [chunk];
    }
    var code := L.PCall(0, 1, 0);
    if code != 0 {
      assert L.stack[..|s0|] == s0;
      return None;
    }
    assert r.Returned? && L.heap == r.heap;
    ghost var closure := CClosure(IdentityClosureFn, [FirstResult(r.results)]);
    assert L.stack[|L.stack| - 1..] == [FirstResult(r.results)] && L.stack[..|L.stack| - 1] == s0 by {
      assert L.stack == s0 + [FirstResult(r.results)];
    }
    L.PushCClosure(IdentityClosureFn, 1);
    assert L.stack == s0 + [closure];
    assert L.At(fieldIndex) == preload;
    raised := L.SetField(fieldIndex, name);
    if raised.None? {
      assert L.stack == s0;
    }
  }

  /** load_module panics exactly when the buffer or the name holds a NUL, and then touches nothing. */
  lemma InjectPanicsExactlyOnNul(h: Heap, g: TableRef, run: Interp, name: Bytes, buffer: Bytes, loader: Loader)
    ensures Inject(h, g, run, name, buffer, loader).outcome == Panicked <==> HasNul(buffer) || HasNul(name)
    ensures Inject(h, g, run, name, buffer, loader).outcome == Panicked ==> Inject(h, g, run, name, buffer, loader).heap == h
  {
    ChunkNameNul(name);
  }

  /**
   * A Lua error escapes load_module exactly when `package` is not a table, or when
   * the chunk ran and `package.preload` is not a table.
   */
  lemma InjectRaisesExactlyOnNonTable(h: Heap, g: TableRef, run: Interp, name: Bytes, buffer: Bytes, loader: Loader)
    requires !HasNul(buffer) && !HasNul(name)
    ensures var package := RawGet(h, g, PACKAGE);
      Inject(h, g, run, name, buffer, loader).outcome.Raised? <==>
        !package.Table? ||
        (Invoke(loader(LoadRequestFor(name, buffer)).pushed, [], h, run).Returned? &&
         !RawGet(h, package.ref, PRELOAD).Table?)
  {
    ChunkNameNul(name);
  }

  /**
   * On a successful protected call, preload[name] of the table that was
   * package.preload on entry becomes a C closure with exactly one upvalue, the
   * chunk's first result; every other field of every table is as the chunk left it.
   */
  lemma InjectRegistersOnSuccess(h: Heap, g: TableRef, run: Interp, name: Bytes, buffer: Bytes, loader: Loader,
                                 package: TableRef, preload: TableRef, rs: seq<Value>, h1: Heap)
    requires !HasNul(buffer) && !HasNul(name)
    requires RawGet(h, g, PACKAGE) == Table(package) && RawGet(h, package, PRELOAD) == Table(preload)
    requires Invoke(loader(LoadRequestFor(name, buffer)).pushed, [], h, run) == Returned(rs, h1)
    ensures Inject(h, g, run, name, buffer, loader).outcome == Normal
    ensures RawGet(Inject(h, g, run, name, buffer, loader).heap, preload, name)
         == CClosure(IdentityClosureFn, [FirstResult(rs)])
    ensures forall t: TableRef, k: Bytes :: t != preload || k != name ==>
              RawGet(Inject(h, g, run, name, buffer, loader).heap, t, k) == RawGet(h1, t, k)
  {
    ChunkNameNul(name);
    var h2 := RawSet(h1, preload, name, CClosure(IdentityClosureFn, [FirstResult(rs)]));
    assert Inject(h, g, run, name, buffer, loader).heap == h2;
    forall t: TableRef, k: Bytes
      ensures RawGet(h2, t, k) == if t == preload && k == name then CClosure(IdentityClosureFn, [FirstResult(rs)]) else RawGet(h1, t, k)
    {
      RawGetAfterSet(h1, preload, name, CClosure(IdentityClosureFn, [FirstResult(rs)]), t, k);
    }
  }

  /** When the protected call fails, load_module writes nothing: the heap is what the failed chunk left. */
  lemma InjectFailureWritesNothing(h: Heap, g: TableRef, run: Interp, name: Bytes, buffer: Bytes, loader: Loader,
                                   e: Value, h1: Heap)
    requires !HasNul(buffer) && !HasNul(name) && RawGet(h, g, PACKAGE).Table?
    requires Invoke(loader(LoadRequestFor(name, buffer)).pushed, [], h, run) == Failed(e, h1)
    ensures Inject(h, g, run, name, buffer, loader) == Injection(Normal, h1)
  {
    ChunkNameNul(name);
  }

  /**
   * When the loader pushes an error message instead of a function, the protected
   * call fails on it and every table, package.preload included, is unchanged.
   */
  lemma InjectLoadErrorChangesNothing(h: Heap, g: TableRef, run: Interp, name: Bytes, buffer: Bytes, loader: Loader, msg: Bytes)
    requires !HasNul(buffer) && !HasNul(name) && RawGet(h, g, PACKAGE).Table?
    requires loader(LoadRequestFor(name, buffer)).pushed == Str(msg)
    ensures Inject(h, g, run, name, buffer, loader) == Injection(Normal, h)
  {
    ChunkNameNul(name);
    InvokeNonCallable(Str(msg), [], h, run);
  }

  /** The loader's return code plays no part: only the value it pushed matters. */
  lemma InjectIgnoresLoaderStatus(h: Heap, g: TableRef, run: Interp, name: Bytes, buffer: Bytes, l1: Loader, l2: Loader)
    requires l1(LoadRequestFor(name, buffer)).pushed == l2(LoadRequestFor(name, buffer)).pushed
    ensures Inject(h, g, run, name, buffer, l1) == Inject(h, g, run, name, buffer, l2)
  {
  }

  /**
   * The registered preload entry, when the host later calls it, returns the
   * chunk's result, on every call and with any arguments.
   */
  lemma RegisteredEntryReturnsChunkResult(h: Heap, g: TableRef, run: Interp, name: Bytes, buffer: Bytes, loader: Loader,
                                          package: TableRef, preload: TableRef, rs: seq<Value>, h1: Heap,
                                          args: seq<Value>, h2: Heap)
    requires RunsIdentityClosure(run)
    requires !HasNul(buffer) && !HasNul(name)
    requires RawGet(h, g, PACKAGE) == Table(package) && RawGet(h, package, PRELOAD) == Table(preload)
    requires Invoke(loader(LoadRequestFor(name, buffer)).pushed, [], h, run) == Returned(rs, h1)
    ensures Invoke(RawGet(Inject(h, g, run, name, buffer, loader).heap, preload, name), args, h2, run)
         == Returned([FirstResult(rs)], h2)
  {
    InjectRegistersOnSuccess(h, g, run, name, buffer, loader, package, preload, rs, h1);
    IdentityClosureIsIdempotent(run, FirstResult(rs), args, h2, [], map[]);
  }

  // ---------------------------------------------------------------------------
  // override_print
  // ---------------------------------------------------------------------------

  /** The strings collected for the arguments, the heap after the calls, and the error that stopped them, if any. */
  datatype Conversions = Conversions(pieces: seq<Bytes>, heap: Heap, error: Option<Value>)

  /**
   * The bytes read from a `tostring` result. For a value that is not a string,
   * lua_tolstring gives a null pointer and a zero length, read here as empty.
   */
  function Piece(v: Value): Bytes
  {
    if v.Str? then v.bytes else []
  }

  function Prepend(out: seq<Bytes>, c: Conversions): Conversions
  {
    Conversions(out + c.pieces, c.heap, c.error)
  }

  /**
   * Converting the arguments left to right: each step looks up the global
   * `tostring` afresh and calls it unprotected on one argument; an error stops
   * the conversion.
   */
  function Stringify(args: seq<Value>, h: Heap, g: TableRef, run: Interp): (c: Conversions)
    ensures c.error.Some? ==> |c.pieces| < |args|
    decreases |args|
  {
    if args == [] then Conversions([], h, None)
    else
      match Invoke(RawGet(h, g, TOSTRING), [args[0]], h, run)
      case Failed(e, h1) => Conversions([], h1, Some(e))
      case Returned(rs, h1) => Prepend([Piece(FirstResult(rs))], Stringify(args[1..], h1, g, run))
  }

  /** The pieces joined with single tab characters. */
  function JoinTabs(ps: seq<Bytes>): (r: Bytes)
    ensures |ps| >= 1 ==> ps[0] <= r
    decreases |ps|
  {
    if |ps| == 0 then []
    else if |ps| == 1 then ps[0]
    else ps[0] + [TAB] + JoinTabs(ps[1..])
  }

  /** Joining tab-free pieces puts exactly one tab between each two neighbours. */
  lemma {:induction false} JoinTabsCountsTabs(ps: seq<Bytes>)
    requires forall i :: 0 <= i < |ps| ==> TAB !in ps[i]
    ensures multiset(JoinTabs(ps))[TAB] == if ps == [] then 0 else |ps| - 1
    decreases |ps|
  {
    if |ps| >= 2 {
      JoinTabsCountsTabs(ps[1..]);
      assert TAB !in ps[0];
    } else if |ps| == 1 {
      assert TAB !in ps[0];
    }
  }

  /** The line override_print logs. */
  function LogLine(ps: seq<Bytes>): (line: Bytes)
    ensures PRINT_PREFIX <= line && line[|PRINT_PREFIX|..] == JoinTabs(ps)
  {
    PRINT_PREFIX + JoinTabs(ps)
  }

  /**
   * override_print: converts each argument with the global `tostring`, keeping
   * the arguments on the stack, logs "[G] " and the strings joined by tabs,
   * and returns no results. An error from `tostring` escapes and nothing is logged.
   */
  method OverridePrint(L: State) returns (outcome: Outcome, nres: int, line: Option<Bytes>)
    modifies L
    ensures var c := Stringify(old(L.stack), old(L.heap), L.globals, L.run);
      L.heap == c.heap &&
      if c.error.Some? then outcome == Raised(c.error.value) && line == None
      else outcome == Normal && nres == 0 && line == Some(LogLine(c.pieces)) && L.stack == old(L.stack)
  {
    var argc := L.GetTop();
    ghost var args := L.stack;
    ghost var total := Stringify(args, L.heap, L.globals, L.run);
    var out: seq<Bytes> := [];
    var i := 1;
    while i <= argc
      invariant 1 <= i <= argc + 1
      invariant L.stack == args
      invariant total == Prepend(out, Stringify(args[i - 1..], L.heap, L.globals, L.run))
      decreases argc + 1 - i
    {
      ghost var hb := L.heap;
      var raised, piece := ConvertArgument(L, i);
      if raised.Some? {
        StringifyStops(args, i - 1, out, total, hb, L.globals, L.run);
        return Raised(raised.value), 0, None;
      }
      StringifyAdvances(args, i - 1, out, total, hb, L.globals, L.run);
      out := out + [piece];
      i := i + 1;
    }
    assert args[i - 1..] == [];
    assert out + [] == out;
    return Normal, 0, Some(PRINT_PREFIX + JoinTabs(out));
  }

  /**
   * One iteration of override_print's loop: push `tostring` and a copy of
   * argument i, call it for one result, read that result as bytes and pop it.
   */
  method ConvertArgument(L: State, i: int) returns (raised: Option<Value>, piece: Bytes)
    requires 1 <= i <= |L.stack|
    modifies L
    ensures var r := Invoke(RawGet(old(L.heap), L.globals, TOSTRING), [old(L.stack)[i - 1]], old(L.heap), L.run);
      L.heap == r.heap &&
      if r.Failed? then raised == Some(r.error)
      else raised == None && piece == Piece(FirstResult(r.results)) && L.stack == old(L.stack)
  {
    ghost var args, hb := L.stack, L.heap;
    ghost var tostring := RawGet(hb, L.globals, TOSTRING);
    var noError := L.GetField(LUA_GLOBALSINDEX, TOSTRING);
    L.PushValue(i);
    assert L.stack[|L.stack| - 2] == tostring && L.stack[|L.stack| - 1..] == [args[i - 1]]
        && L.stack[..|L.stack| - 2] == args by {
      assert L.stack == args + [tostring, args[i - 1]];
    }
    raised := L.Call(1, 1);
    if raised.Some? {
      // The error escapes: the rest of the frame is abandoned.
      return raised, [];
    }
    ghost var rs := Invoke(tostring, [args[i - 1]], hb, L.run).results;
    assert L.stack == args + [FirstResult(rs)];
    var s := L.ToLString(-1);
    piece := if s.Some? then s.value else [];
    // Remove the tostring result, keeping the original arguments.
    L.SetTop(-2);
  }

  /** A conversion of argument k that returns extends the collected pieces by one. */
  lemma StringifyAdvances(args: seq<Value>, k: nat, out: seq<Bytes>, total: Conversions, h: Heap, g: TableRef, run: Interp)
    requires k < |args|
    requires total == Prepend(out, Stringify(args[k..], h, g, run))
    requires Invoke(RawGet(h, g, TOSTRING), [args[k]], h, run).Returned?
    ensures var r := Invoke(RawGet(h, g, TOSTRING), [args[k]], h, run);
      total == Prepend(out + [Piece(FirstResult(r.results))], Stringify(args[k + 1..], r.heap, g, run))
  {
    assert args[k..][0] == args[k] && args[k..][1..] == args[k + 1..];
  }

  /** A conversion of argument k that raises ends the conversion with that error. */
  lemma StringifyStops(args: seq<Value>, k: nat, out: seq<Bytes>, total: Conversions, h: Heap, g: TableRef, run: Interp)
    requires k < |args|
    requires total == Prepend(out, Stringify(args[k..], h, g, run))
    requires Invoke(RawGet(h, g, TOSTRING), [args[k]], h, run).Failed?
    ensures var r := Invoke(RawGet(h, g, TOSTRING), [args[k]], h, run);
      total.error == Some(r.error) && total.heap == r.heap
  {
    assert args[k..][0] == args[k];
  }

  /** Without an error, there is exactly one piece per argument. */
  lemma {:induction false} StringifyOnePiecePerArgument(args: seq<Value>, h: Heap, g: TableRef, run: Interp)
    ensures |Stringify(args, h, g, run).pieces| <= |args|
    ensures Stringify(args, h, g, run).error.None? ==> |Stringify(args, h, g, run).pieces| == |args|
    decreases |args|
  {
    if args != [] {
      match Invoke(RawGet(h, g, TOSTRING), [args[0]], h, run)
      case Failed(_, _) =>
      case Returned(rs, h1) =>
        StringifyOnePiecePerArgument(args[1..], h1, g, run);
    }
  }

  /** The global `tostring` converts every value by `display` without error and without touching any table. */
  ghost predicate PureToString(h: Heap, g: TableRef, run: Interp, display: Value -> Bytes)
  {
    forall v :: Invoke(RawGet(h, g, TOSTRING), [v], h, run) == Returned([Str(display(v))], h)
  }

  /** With a pure `tostring`, piece i is the display string of argument i, in order, and no table changes. */
  lemma {:induction false} StringifyWithPureToString(args: seq<Value>, h: Heap, g: TableRef, run: Interp, display: Value -> Bytes)
    requires PureToString(h, g, run, display)
    ensures Stringify(args, h, g, run).error == None
    ensures Stringify(args, h, g, run).heap == h
    ensures |Stringify(args, h, g, run).pieces| == |args|
    ensures forall i :: 0 <= i < |args| ==> Stringify(args, h, g, run).pieces[i] == display(args[i])
    decreases |args|
  {
    if args != [] {
      assert Invoke(RawGet(h, g, TOSTRING), [args[0]], h, run) == Returned([Str(display(args[0]))], h);
      StringifyWithPureToString(args[1..], h, g, run, display);
      var rest := Stringify(args[1..], h, g, run);
      assert Stringify(args, h, g, run) == Prepend([display(args[0])], rest);
      forall i | 0 <= i < |args|
        ensures Stringify(args, h, g, run).pieces[i] == display(args[i])
      {
        if i > 0 {
          assert args[1..][i - 1] == args[i];
        }
      }
    }
  }

  /** With no arguments the logged line is the bare prefix "[G] ". */
  lemma PrintWithoutArguments(h: Heap, g: TableRef, run: Interp)
    ensures Stringify([], h, g, run) == Conversions([], h, None)
    ensures LogLine(Stringify([], h, g, run).pieces) == PRINT_PREFIX
  {
  }

  /** Splits a byte string at every tab character. */
  function SplitTabs(s: Bytes): (r: seq<Bytes>)
    ensures |r| >= 1
    decreases |s|
  {
    if s == [] then [[]]
    else
      var rest := SplitTabs(s[1..]);
      if s[0] == TAB then [[]] + rest else [[s[0]] + rest[0]] + rest[1..]
  }

  /** Prepending bytes to the first piece prepends them to the joined string. */
  lemma JoinTabsExtendFirst(x: Bytes, p: Bytes, rest: seq<Bytes>)
    ensures JoinTabs([x + p] + rest) == x + JoinTabs([p] + rest)
  {
    var qs, ps := [x + p] + rest, [p] + rest;
    assert qs[0] == x + p && qs[1..] == rest;
    assert ps[0] == p && ps[1..] == rest;
    if rest != [] {
      var tail := JoinTabs(rest);
      assert JoinTabs(qs) == (x + p) + [TAB] + tail;
      assert JoinTabs(ps) == p + [TAB] + tail;
      assert (x + p) + [TAB] + tail == x + (p + [TAB] + tail);
    }
  }

  /** Joining the pieces of a split gives back the string. */
  lemma {:induction false} JoinSplitTabs(s: Bytes)
    ensures JoinTabs(SplitTabs(s)) == s
    decreases |s|
  {
    if s != [] {
      var rest := SplitTabs(s[1..]);
      JoinSplitTabs(s[1..]);
      if s[0] == TAB {
        var r := [[]] + rest;
        assert SplitTabs(s) == r;
        assert |r| >= 2 && r[0] == [] && r[1..] == rest;
        assert JoinTabs(r) == [] + [TAB] + s[1..];
        assert s == [TAB] + s[1..];
      } else {
        assert SplitTabs(s) == [[s[0]] + rest[0]] + rest[1..];
        JoinTabsExtendFirst([s[0]], rest[0], rest[1..]);
        assert [rest[0]] + rest[1..] == rest;
        assert s == [s[0]] + s[1..];
      }
    }
  }

  /** A tab-free prefix of a string extends the first piece of its split. */
  lemma {:induction false} SplitTabFreePrefix(p: Bytes, s: Bytes)
    requires TAB !in p
    ensures SplitTabs(p + s) == [p + SplitTabs(s)[0]] + SplitTabs(s)[1..]
    decreases |p|
  {
    if p != [] {
      assert (p + s)[1..] == p[1..] + s;
      assert (p + s)[0] == p[0];
      SplitTabFreePrefix(p[1..], s);
      assert [p[0]] + (p[1..] + SplitTabs(s)[0]) == p + SplitTabs(s)[0];
    } else {
      assert p + s == s;
      assert [] + SplitTabs(s)[0] == SplitTabs(s)[0];
      assert SplitTabs(s) == [SplitTabs(s)[0]] + SplitTabs(s)[1..];
    }
  }

  /** Splitting the joined string gives back tab-free pieces. */
  lemma {:induction false} SplitJoinTabs(ps: seq<Bytes>)
    requires |ps| >= 1
    requires forall i :: 0 <= i < |ps| ==> TAB !in ps[i]
    ensures SplitTabs(JoinTabs(ps)) == ps
    decreases |ps|
  {
    if |ps| == 1 {
      SplitTabFreePrefix(ps[0], []);
      assert ps[0] + [] == ps[0];
      assert ps == [ps[0]];
    } else {
      var tail := JoinTabs(ps[1..]);
      SplitJoinTabs(ps[1..]);
      assert [TAB] + tail != [] && ([TAB] + tail)[0] == TAB && ([TAB] + tail)[1..] == tail;
      assert SplitTabs([TAB] + tail) == [[]] + ps[1..];
      SplitTabFreePrefix(ps[0], [TAB] + tail);
      assert ps[0] + [TAB] + tail == ps[0] + ([TAB] + tail);
      assert ps[0] + [] == ps[0];
      assert ps == [ps[0]] + ps[1..];
    }
  }

  /** The logged line starts with "[G] " and the rest splits back into the (tab-free) pieces. */
  lemma LogLineReadsBack(ps: seq<Bytes>)
    requires |ps| >= 1
    requires forall i :: 0 <= i < |ps| ==> TAB !in ps[i]
    ensures LogLine(ps)[..|PRINT_PREFIX|] == PRINT_PREFIX
    ensures SplitTabs(LogLine(ps)[|PRINT_PREFIX|..]) == ps
  {
    assert LogLine(ps)[|PRINT_PREFIX|..] == JoinTabs(ps);
    SplitJoinTabs(ps);
  }
}
