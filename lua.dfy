/**
 * An abstract Lua 5.1 state, as seen through the C API that sys.rs drives.
 *
 * Semantics follow the Lua 5.1 Reference Manual: stack indices and
 * pseudo-indices (sections 3.1 to 3.3), C closures and upvalues (section 3.4),
 * the API functions lua_gettop, lua_settop, lua_pushvalue, lua_getfield,
 * lua_setfield, lua_pushcclosure, lua_call, lua_pcall and lua_tolstring
 * (section 3.7), and luaL_loadbuffer (section 4.1).
 *
 * The interpreter itself stays abstract: calling a callable value is a
 * function `run` of the callee, its arguments and the table heap.
 */
module Lua {
  import opened Wrappers

  /** Lua strings are byte strings. */
  newtype Byte = x: int | 0 <= x < 256
  type Bytes = seq<Byte>

  // Pseudo-indices and codes of lua.h, Lua 5.1.
  const LUA_REGISTRYINDEX: int := -10000
  const LUA_GLOBALSINDEX: int := -10002
  const LUA_MULTRET: int := -1
  const LUA_ERRRUN: int := 2

  /** lua_upvalueindex(n) of lua.h. */
  function UpvalueIndex(n: int): int
  {
    LUA_GLOBALSINDEX - n
  }

  type TableRef = nat

  /** The address of a C function (a `lua_CFunction`). */
  datatype CFunction = CFunction(address: nat)

  /** Lua values; numbers, userdata and threads are not part of this model. */
  datatype Value =
    | Nil
    | Boolean(b: bool)
    | Str(bytes: Bytes)
    | Table(ref: TableRef)
    | LuaFunction(proto: nat)
    | CClosure(fn: CFunction, upvalues: seq<Value>)

  /** Tables are shared by reference: the heap maps each reference to its string-keyed fields. */
  type Fields = map<Bytes, Value>
  type Heap = map<TableRef, Fields>

  function FieldsOf(h: Heap, r: TableRef): Fields
  {
    if r in h then h[r] else map[]
  }

  /** t[k] without metamethods; an absent key reads as nil. */
  function RawGet(h: Heap, r: TableRef, k: Bytes): Value
  {
    if k in FieldsOf(h, r) then FieldsOf(h, r)[k] else Nil
  }

  /** t[k] = v without metamethods; assigning nil removes the key. */
  function RawSet(h: Heap, r: TableRef, k: Bytes, v: Value): Heap
  {
    h[r := if v == Nil then FieldsOf(h, r) - {k} else FieldsOf(h, r)[k := v]]
  }

  /** A raw assignment changes exactly one field of one table. */
  lemma RawGetAfterSet(h: Heap, r: TableRef, k: Bytes, v: Value, r': TableRef, k': Bytes)
    ensures RawGet(RawSet(h, r, k, v), r', k') == if r' == r && k' == k then v else RawGet(h, r', k')
  {
  }

  /** lua_typename of each modelled type: "nil", "boolean", "string", "table", "function". */
  function TypeName(v: Value): Bytes
  {
    match v
    case Nil => [110, 105, 108]
    case Boolean(_) => [98, 111, 111, 108, 101, 97, 110]
    case Str(_) => [115, 116, 114, 105, 110, 103]
    case Table(_) => [116, 97, 98, 108, 101]
    case LuaFunction(_) => [102, 117, 110, 99, 116, 105, 111, 110]
    case CClosure(_, _) => [102, 117, 110, 99, 116, 105, 111, 110]
  }

  /** The operations whose type errors the model raises. */
  datatype Operation = Index | CallOp

  /** "index" and "call". */
  function OperationName(op: Operation): Bytes
  {
    match op
    case Index => [105, 110, 100, 101, 120]
    case CallOp => [99, 97, 108, 108]
  }

  /** The message Lua raises when an operation meets a value of the wrong type: "attempt to <op> a <type> value". */
  function TypeError(op: Operation, v: Value): Value
  {
    Str([97, 116, 116, 101, 109, 112, 116, 32, 116, 111, 32] + OperationName(op) + [32, 97, 32] + TypeName(v)
        + [32, 118, 97, 108, 117, 101])
  }

  /** What a call does: it returns results or raises an error, and leaves a new heap. */
  datatype CallResult = Returned(results: seq<Value>, heap: Heap) | Failed(error: Value, heap: Heap)

  /** The interpreter, left abstract: callee, arguments and heap determine the call. */
  type Interp = (Value, seq<Value>, Heap) -> CallResult

  predicate Callable(v: Value)
  {
    v.LuaFunction? || v.CClosure?
  }

  /** Calling a value: callables run, anything else raises "attempt to call". */
  function Invoke(f: Value, args: seq<Value>, h: Heap, run: Interp): CallResult
  {
    if Callable(f) then run(f, args, h) else Failed(TypeError(CallOp, f), h)
  }

  /** Calling a value that is not a function changes no table. */
  lemma InvokeNonCallable(f: Value, args: seq<Value>, h: Heap, run: Interp)
    requires !Callable(f)
    ensures Invoke(f, args, h, run) == Failed(TypeError(CallOp, f), h)
  {
  }

  /** Truncates or pads with nil to exactly n values (how results and lua_settop adjust). */
  function Adjust(vs: seq<Value>, n: nat): (r: seq<Value>)
    ensures |r| == n
    ensures n <= |vs| ==> r == vs[..n]
  {
    if n <= |vs| then vs[..n] else vs + seq(n - |vs|, _ => Nil)
  }

  /** Value i of the adjusted sequence is value i of the original, or nil past its end. */
  lemma AdjustAt(vs: seq<Value>, n: nat, i: nat)
    requires i < n
    ensures Adjust(vs, n)[i] == if i < |vs| then vs[i] else Nil
  {
  }

  /** The results a call leaves for `nresults` (LUA_MULTRET keeps them all). */
  function AdjustResults(rs: seq<Value>, nresults: int): seq<Value>
    requires nresults >= 0 || nresults == LUA_MULTRET
  {
    if nresults == LUA_MULTRET then rs else Adjust(rs, nresults)
  }

  /** The first result adjusted to one, as with nresults == 1. */
  function FirstResult(rs: seq<Value>): (v: Value)
    ensures v == if rs == [] then Nil else rs[0]
  {
    AdjustAt(rs, 1, 0);
    Adjust(rs, 1)[0]
  }

  /** A place an index denotes. */
  datatype Slot = InStack(pos: nat) | Globals | Upvalue(n: nat)

  /**
   * Resolves a valid index: 1..top from the bottom, -1..-top from the top,
   * LUA_GLOBALSINDEX for the globals table, and lua_upvalueindex(n) below it.
   * The registry and environment pseudo-indices are not part of this model.
   */
  function Locate(idx: int, top: nat): (r: Option<Slot>)
    ensures r.Some? && r.value.InStack? ==> r.value.pos < top
    ensures r.Some? && r.value.Upvalue? ==> r.value.n >= 1
  {
    if 0 < idx <= top then Some(InStack(idx - 1))
    else if LUA_REGISTRYINDEX < idx < 0 && -idx <= top then Some(InStack(top + idx))
    else if idx == LUA_GLOBALSINDEX then Some(Globals)
    else if idx < LUA_GLOBALSINDEX then Some(Upvalue(LUA_GLOBALSINDEX - idx))
    else None
  }

  /**
   * A negative index -k names the same stack slot as the positive index top + 1 - k,
   * as long as it lies above the pseudo-indices.
   */
  lemma NegativeIndexMirrorsPositive(top: nat, k: int)
    requires 1 <= k <= top && -k > LUA_REGISTRYINDEX
    ensures Locate(-k, top) == Locate(top + 1 - k, top)
    ensures Locate(-k, top).Some? && Locate(-k, top).value.InStack?
  {
  }

  /** lua_upvalueindex(n) denotes upvalue n, whatever the stack depth. */
  lemma UpvalueIndexDenotesUpvalue(n: int, top: nat)
    requires n >= 1
    ensures Locate(UpvalueIndex(n), top) == Some(Upvalue(n))
  {
  }

  /** Upvalue n of a closure; beyond its count the index is acceptable but reads nil. */
  function UpvalueValue(ups: seq<Value>, n: nat): Value
  {
    if 1 <= n <= |ups| then ups[n - 1] else Nil
  }

  /** What luaL_loadbuffer is given: the bytes, their length, the chunk name and the mode. */
  datatype LoadRequest = LoadRequest(buffer: Bytes, size: nat, chunkName: Bytes, mode: Option<Bytes>)

  /** luaL_loadbuffer pushes one value: the compiled chunk, or an error message. */
  datatype Loaded = Loaded(status: int, pushed: Value)
  type Loader = LoadRequest -> Loaded

  /**
   * The stack frame of the running C function together with the table heap.
   * `upvalues` belong to the running C closure; `run` is the interpreter.
   */
  class State {
    var stack: seq<Value>
    var heap: Heap
    const globals: TableRef
    const upvalues: seq<Value>
    const run: Interp

    constructor (globals: TableRef, upvalues: seq<Value>, run: Interp, args: seq<Value>, heap: Heap)
      ensures this.globals == globals && this.upvalues == upvalues && this.run == run
      ensures stack == args && this.heap == heap
    {
      this.globals := globals;
      this.upvalues := upvalues;
      this.run := run;
      stack := args;
      this.heap := heap;
    }

    predicate IsValidIndex(idx: int)
      reads this
    {
      Locate(idx, |stack|).Some?
    }

    /** The value at a valid index. */
    function At(idx: int): Value
      reads this
      requires IsValidIndex(idx)
    {
      match Locate(idx, |stack|).value
      case InStack(p) => stack[p]
      case Globals => Table(globals)
      case Upvalue(n) => UpvalueValue(upvalues, n)
    }

    /** lua_gettop: the index of the top element, which is the number of elements. */
    method GetTop() returns (n: int)
      ensures n == |stack|
    {
      n := |stack|;
    }

    /** lua_settop: an index >= 0 pads with nil or truncates; a negative one counts from the top. */
    method SetTop(idx: int)
      requires idx >= 0 || -idx <= |stack|
      modifies this
      ensures stack == if idx >= 0 then Adjust(old(stack), idx) else old(stack)[..|old(stack)| + idx + 1]
      ensures heap == old(heap)
    {
      if idx >= 0 {
        stack := Adjust(stack, idx);
      } else {
        stack := stack[..|stack| + idx + 1];
      }
    }

    /** lua_pushvalue: pushes a copy of the value at a valid index. */
    method PushValue(idx: int)
      requires IsValidIndex(idx)
      modifies this
      ensures stack == old(stack) + [old(At(idx))]
      ensures heap == old(heap)
    {
      stack := stack + [At(idx)];
    }

    /** lua_getfield: pushes t[k]; indexing a value that is not a table raises an error. */
    method GetField(idx: int, k: Bytes) returns (raised: Option<Value>)
      requires IsValidIndex(idx)
      modifies this
      ensures heap == old(heap)
      ensures var t := old(At(idx));
        if t.Table? then raised == None && stack == old(stack) + [RawGet(heap, t.ref, k)]
        else raised == Some(TypeError(Index, t)) && stack == old(stack)
    {
      var t := At(idx);
      if t.Table? {
        raised := None;
        stack := stack + [RawGet(heap, t.ref, k)];
      } else {
        raised := Some(TypeError(Index, t));
      }
    }

    /** lua_setfield: t[k] = v with v the top value, which is popped; a non-table raises. */
    method SetField(idx: int, k: Bytes) returns (raised: Option<Value>)
      requires IsValidIndex(idx) && |stack| >= 1
      modifies this
      ensures var t := old(At(idx)); var v := old(stack[|stack| - 1]);
        if t.Table? then
          raised == None && stack == old(stack[..|stack| - 1]) && heap == RawSet(old(heap), t.ref, k, v)
        else
          raised == Some(TypeError(Index, t)) && stack == old(stack) && heap == old(heap)
    {
      var t := At(idx);
      if t.Table? {
        raised := None;
        heap := RawSet(heap, t.ref, k, stack[|stack| - 1]);
        stack := stack[..|stack| - 1];
      } else {
        raised := Some(TypeError(Index, t));
      }
    }

    /** lua_pushcclosure: pops n values and pushes a C closure holding them as upvalues 1..n. */
    method PushCClosure(fn: CFunction, n: int)
      requires 0 <= n <= |stack|
      modifies this
      ensures stack == old(stack[..|stack| - n]) + [CClosure(fn, old(stack[|stack| - n..]))]
      ensures heap == old(heap)
    {
      stack := stack[..|stack| - n] + [CClosure(fn, stack[|stack| - n..])];
    }

    /**
     * lua_call: pops the function and its nargs arguments and pushes the results,
     * adjusted to nresults. An error is raised into the caller (the C frame is abandoned).
     */
    method Call(nargs: int, nresults: int) returns (raised: Option<Value>)
      requires 0 <= nargs < |stack|
      requires nresults >= 0 || nresults == LUA_MULTRET
      modifies this
      ensures var s := old(stack); var base := |s| - nargs - 1;
        match Invoke(s[base], s[base + 1..], old(heap), run)
        case Returned(rs, h) =>
          raised == None && stack == s[..base] + AdjustResults(rs, nresults) && heap == h
        case Failed(e, h) =>
          raised == Some(e) && stack == s && heap == h
    {
      var base := |stack| - nargs - 1;
      match Invoke(stack[base], stack[base + 1..], heap, run)
      case Returned(rs, h) =>
        raised := None;
        stack := stack[..base] + AdjustResults(rs, nresults);
        heap := h;
      case Failed(e, h) =>
        raised := Some(e);
        heap := h;
    }

    /**
     * lua_pcall without a message handler: like lua_call, but an error is caught,
     * the function and arguments are still removed, the error value is pushed
     * and LUA_ERRRUN is returned; 0 means success.
     */
    method PCall(nargs: int, nresults: int, errfunc: int) returns (code: int)
      requires 0 <= nargs < |stack|
      requires nresults >= 0 || nresults == LUA_MULTRET
      requires errfunc == 0
      modifies this
      ensures var s := old(stack); var base := |s| - nargs - 1;
        match Invoke(s[base], s[base + 1..], old(heap), run)
        case Returned(rs, h) =>
          code == 0 && stack == s[..base] + AdjustResults(rs, nresults) && heap == h
        case Failed(e, h) =>
          code == LUA_ERRRUN && stack == s[..base] + [e] && heap == h
    {
      var base := |stack| - nargs - 1;
      match Invoke(stack[base], stack[base + 1..], heap, run)
      case Returned(rs, h) =>
        code := 0;
        stack := stack[..base] + AdjustResults(rs, nresults);
        heap := h;
      case Failed(e, h) =>
        code := LUA_ERRRUN;
        stack := stack[..base] + [e];
        heap := h;
    }

    /** lua_tolstring: the bytes of a string value, or nothing (a NULL pointer) otherwise. */
    method ToLString(idx: int) returns (s: Option<Bytes>)
      requires IsValidIndex(idx)
      ensures At(idx).Str? ==> s == Some(At(idx).bytes)
      ensures !At(idx).Str? ==> s == None
    {
      var v := At(idx);
      s := if v.Str? then Some(v.bytes) else None;
    }

    /** luaL_loadbuffer: pushes exactly one value and changes nothing else. */
    method LoadBuffer(loader: Loader, req: LoadRequest) returns (status: int)
      modifies this
      ensures stack == old(stack) + [loader(req).pushed] && heap == old(heap)
      ensures status == loader(req).status
    {
      var r := loader(req);
      stack := stack + [r.pushed];
      status := r.status;
    }
  }
}
