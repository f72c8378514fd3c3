# lovely-injector: the Lua stack protocol of `sys.rs`

lovely-injector puts modules into a running Lua 5.1 (LuaJIT) host. It also
replaces the host's `print`. Both are done from Rust through the Lua C API. This
project models the three routines in `crates/lovely-core/src/sys.rs` that drive
the Lua stack, and proves what they promise:

- `load_module` compiles a buffer with the host's loader and runs it under
  `lua_pcall`. When the call succeeds, it stores a one-upvalue C closure over
  the result at `package.preload[name]`. On every exit except a raised Lua error, it
  restores the entry stack depth.
- `override_print` converts each argument with the global `tostring`. It logs
  `"[G] "` followed by the strings joined by tabs, and returns no results.
- `lua_identity_closure` is the C function behind that closure. It pushes its
  first upvalue and returns 1.

The Dafny files are:

- `wrappers.dfy`: an `Option` type.
- `lua.dfy` (module `Lua`): an abstract Lua 5.1 state, with semantics taken
  from the Lua 5.1 Reference Manual.
  - Values are nil, booleans, byte strings, tables by reference, Lua functions,
    and C closures with their upvalues.
  - The heap maps each table reference to its string-keyed fields.
  - Index resolution covers positive and negative stack indices,
    `LUA_GLOBALSINDEX` and `lua_upvalueindex(n)` (sections 3.1 to 3.4).
  - The class `State` holds the stack and the heap. It has one method per API
    function the routines use (section 3.7, and `luaL_loadbuffer` from
    section 4.1).
  - Running a callable value is an abstract interpreter `run` that maps the
    callee, the arguments and the heap to results or an error, plus a new heap.
    The loader is an abstract function from the request to the value it pushes.
- `sys.dfy` (module `Sys`): the three routines as methods over a `State`.
  - Each routine is proved against a function of the state it starts from:
    `Inject` for `load_module` and `Stringify`/`LogLine` for `override_print`.
  - Lemmas about those functions state the routines' guarantees.

Exits are modelled as follows:

- A Rust panic on a NUL byte (`CString::new(..).unwrap()`) is the outcome
  `Panicked`.
- A Lua error raised by an unprotected API call escapes the routine (Lua
  unwinds the C frame). It is the outcome `Raised(error)`.

The closure is stored under `name` itself (`sys.rs:150-151`); the loader
receives a different name, `"@" + name` (`sys.rs:126-127`, `142`).

## Model

| member | source | states |
|---|---|---|
| Lua.Locate | crates/lovely-core/src/sys.rs:15 | A resolved stack slot lies below the top, and an upvalue pseudo-index (below `LUA_GLOBALSINDEX = -10002`) denotes an upvalue numbered from 1 |
| Lua.NegativeIndexMirrorsPositive | crates/lovely-core/src/sys.rs:132 | Index -k names the same stack slot as top + 1 - k, so `-1` in `lua_getfield(state, -1, "preload")` is the `package` value just pushed (and `-1`, `-2` at lines 172 and 178 count from the top) |
| Lua.UpvalueIndexDenotesUpvalue | crates/lovely-core/src/sys.rs:192-193 | `LUA_GLOBALSINDEX - n` denotes upvalue n at every stack depth |
| Lua.Adjust | crates/lovely-core/src/sys.rs:154 | Adjusting to n values gives exactly n values, and a prefix when there are at least n |
| Lua.AdjustAt | crates/lovely-core/src/sys.rs:154 | Value i of an adjusted sequence is value i of the original, or nil past its end |
| Lua.FirstResult | crates/lovely-core/src/sys.rs:146 | The single result of a call with nresults 1 is the first result, or nil when there is none |
| Lua.RawGetAfterSet | crates/lovely-core/src/sys.rs:151 | A table write changes exactly one field of one table |
| Lua.InvokeNonCallable | crates/lovely-core/src/sys.rs:146 | Calling a value that is not a function (such as a loader's error string) fails with "attempt to call" and changes no table |
| Lua.State.GetTop | crates/lovely-core/src/sys.rs:130-135 | `lua_gettop` returns the number of stack elements |
| Lua.State.SetTop | crates/lovely-core/src/sys.rs:154 | `lua_settop` with n >= 0 leaves exactly n values (truncating or padding with nil); with -k it drops k - 1 values from the top; tables are unchanged |
| Lua.State.PushValue | crates/lovely-core/src/sys.rs:168 | `lua_pushvalue` pushes a copy of the value at a valid index and nothing else changes |
| Lua.State.GetField | crates/lovely-core/src/sys.rs:131-132 | `lua_getfield` on a table pushes its field; on any other value it raises "attempt to index" with stack and tables unchanged |
| Lua.State.SetField | crates/lovely-core/src/sys.rs:151 | `lua_setfield` on a table stores the top value at the key and pops it; on any other value it raises with stack and tables unchanged |
| Lua.State.PushCClosure | crates/lovely-core/src/sys.rs:148 | `lua_pushcclosure` pops n values and pushes a C closure whose upvalues are those values, in order |
| Lua.State.Call | crates/lovely-core/src/sys.rs:169 | `lua_call` replaces the function and its arguments by the adjusted results, or raises the callee's error |
| Lua.State.PCall | crates/lovely-core/src/sys.rs:146 | `lua_pcall` returns 0 and leaves the adjusted results, or returns LUA_ERRRUN and leaves the error value, removing the function and arguments in both cases |
| Lua.State.ToLString | crates/lovely-core/src/sys.rs:171-172 | `lua_tolstring` gives the bytes of a string and nothing (a NULL pointer) for any other value |
| Lua.State.LoadBuffer | crates/lovely-core/src/sys.rs:138-144 | `luaL_loadbuffer` pushes exactly the one value the loader produces for the request, and changes no table |
| Lua.RawGet | crates/lovely-core/src/sys.rs:131-132 | Reading a field of a table: a missing table or key reads as nil (no metamethods) |
| Lua.RawSet | crates/lovely-core/src/sys.rs:151 | Writing a field of a table: storing nil removes the key (no metamethods) |
| Lua.Invoke | crates/lovely-core/src/sys.rs:146 | Calling a value: a function runs in the interpreter, anything else fails with "attempt to call a X value" and the heap unchanged; `lua_call` and `lua_pcall` both dispatch through it |
| Sys.IdentityClosure | crates/lovely-core/src/sys.rs:191-196 | Pushes exactly one value, upvalue 1, returns 1, and changes no table; the one result is that upvalue |
| Sys.IdentityClosureIsIdempotent | crates/lovely-core/src/sys.rs:187-196 | An identity closure returns its captured value on every call, whatever the arguments and tables |
| Sys.HasNul | crates/lovely-core/src/sys.rs:123 | The condition under which `CString::new(..).unwrap()` panics (lines 123, 127 and 150): a NUL byte in the string |
| Sys.ChunkName | crates/lovely-core/src/sys.rs:126 | `format!("@{name}")`: one byte longer than the name, `'@'` first, then exactly the name |
| Sys.LoadRequestFor | crates/lovely-core/src/sys.rs:138-144 | The loader's arguments: the buffer, a length equal to the buffer's byte length (the NUL terminator excluded), the chunk name `"@" + name` and a null mode |
| Sys.Inject | crates/lovely-core/src/sys.rs:117-155 | The effect of `load_module` on the tables, which every `Inject` lemma below is about; a panic leaves the heap as it was, and the only Lua error it raises itself is "attempt to index" on a value that is not a table |
| Sys.ChunkNameNul | crates/lovely-core/src/sys.rs:125-127 | `"@" + name` holds a NUL exactly when `name` does, so the second `CString::new(name)` cannot panic once the first has succeeded |
| Sys.LoadModule | crates/lovely-core/src/sys.rs:117-155 | The outcome and the final heap are those of `Inject`; on every exit except a raised Lua error the stack is exactly the entry stack |
| Sys.PushPreload | crates/lovely-core/src/sys.rs:129-132 | Pushes `package` and then `package.preload`, changing no table; raises "attempt to index" when `package` is not a table |
| Sys.RunAndRegister | crates/lovely-core/src/sys.rs:133-152 | Passes the loader the buffer, its length without the NUL, `"@" + name` and a null mode. Calls the chunk protected for one result. On success it writes the identity closure over that result into the table saved at the absolute index, even with values pushed above it. On failure it writes nothing. The entry stack is kept below any leftovers |
| Sys.InjectPanicsExactlyOnNul | crates/lovely-core/src/sys.rs:122-127 | `load_module` panics exactly when the buffer or the name holds a NUL, and then changes no table |
| Sys.InjectRaisesExactlyOnNonTable | crates/lovely-core/src/sys.rs:130-151 | A Lua error escapes exactly when `package` is not a table, or when the chunk ran and `package.preload` is not a table |
| Sys.InjectRegistersOnSuccess | crates/lovely-core/src/sys.rs:146-151 | On pcall success, `preload[name]` becomes a C closure with exactly one upvalue, the chunk's first result; every other field of every table is as the chunk left it |
| Sys.InjectFailureWritesNothing | crates/lovely-core/src/sys.rs:145-152 | On pcall failure `load_module` returns normally and adds no write of its own: the tables are as the failed chunk left them |
| Sys.InjectLoadErrorChangesNothing | crates/lovely-core/src/sys.rs:137-146 | When the loader pushes an error string, the protected call fails on it and every table, `package.preload` included, is unchanged |
| Sys.InjectIgnoresLoaderStatus | crates/lovely-core/src/sys.rs:137-144 | The loader's return code plays no part; only the value it pushed matters |
| Sys.RegisteredEntryReturnsChunkResult | crates/lovely-core/src/sys.rs:147-151 | Calling the registered preload entry later returns the chunk's result, on every call and with any arguments |
| Sys.OverridePrint | crates/lovely-core/src/sys.rs:160-185 | The logged line is `"[G] "` followed by the converted arguments joined by tabs. The stack is back to the arguments, and 0 results are returned. An error from `tostring` escapes with nothing logged. The tables end as the conversions leave them |
| Sys.ConvertArgument | crates/lovely-core/src/sys.rs:164-178 | One iteration calls the current global `tostring` on argument i for one result, reads it as bytes and pops it, so the stack is again exactly the arguments; a `tostring` error escapes |
| Sys.Stringify | crates/lovely-core/src/sys.rs:164-179 | The loop's conversions, left to right, each looking up the global `tostring` again on the heap the previous call left; an error stops it before the failing argument yields a piece, so there are fewer pieces than arguments |
| Sys.Piece | crates/lovely-core/src/sys.rs:171-175 | The bytes read from a `tostring` result: a string's bytes; for any other value (a NULL pointer of length 0) the empty string |
| Sys.StringifyAdvances | crates/lovely-core/src/sys.rs:163-177 | A conversion that returns appends exactly one piece and continues from the heap it left |
| Sys.StringifyStops | crates/lovely-core/src/sys.rs:169 | A conversion that raises ends the whole conversion with that error and that heap |
| Sys.StringifyOnePiecePerArgument | crates/lovely-core/src/sys.rs:163-177 | There is at most one piece per argument, and exactly one per argument when no error occurs |
| Sys.StringifyWithPureToString | crates/lovely-core/src/sys.rs:163-177 | With a `tostring` that neither fails nor writes, piece i is the string of argument i, in left-to-right order, and no table changes |
| Sys.PrintWithoutArguments | crates/lovely-core/src/sys.rs:161-182 | With no arguments the logged line is the bare `"[G] "` |
| Sys.JoinTabs | crates/lovely-core/src/sys.rs:181 | `join("\t")`: the joined string starts with the first piece; its inverse is SplitTabs (see the lemmas below) |
| Sys.JoinTabsCountsTabs | crates/lovely-core/src/sys.rs:181 | Joining tab-free pieces gives exactly one tab fewer than there are pieces, so single tabs separate them |
| Sys.LogLine | crates/lovely-core/src/sys.rs:182 | `"[G] {msg}"`: the line starts with `"[G] "` and the rest is exactly the tab join of the pieces |
| Sys.SplitTabs | crates/lovely-core/src/sys.rs:181 | Splitting a string at tabs gives at least one piece; this split is the reference inverse that the join lemmas below relate to the tab join |
| Sys.JoinTabsExtendFirst | crates/lovely-core/src/sys.rs:181 | Prepending bytes to the first piece prepends them to the joined string |
| Sys.JoinSplitTabs | crates/lovely-core/src/sys.rs:181 | Joining the pieces of a split gives back the string |
| Sys.SplitTabFreePrefix | crates/lovely-core/src/sys.rs:181 | A tab-free prefix only extends the first piece of a split |
| Sys.SplitJoinTabs | crates/lovely-core/src/sys.rs:181 | Splitting the tab join of tab-free pieces gives back exactly those pieces |
| Sys.LogLineReadsBack | crates/lovely-core/src/sys.rs:181-182 | The logged line starts with `"[G] "`, and the rest splits back into the tab-free pieces, one per argument in order |

## Left out

- `generate!`, `LuaLib`, `LuaLib::from_library`, `init_lua_library` and the `LUA` global (`sys.rs:11-112`) are not modelled. They resolve symbols from a dynamic library and initialise a global once, which is FFI plumbing with no stack protocol.
- The bindings `lua_toboolean`, `lua_topointer`, `lua_type`, `lua_typename` and `lua_isstring` are not modelled, because no modelled routine calls them.
- `crates/lovely-android/src/lib.rs` is not part of this model. That file is JNI lookups, a panic hook, one-time initialisation and inline hooking.
- The `info!` sink is not modelled. `OverridePrint` returns the line it would log.
- `String::from_utf8_lossy` is not modelled. Strings stay byte sequences.
- The loader and `tostring` stay abstract. Calls go through the interpreter `run`, the loader is a function of its request, and a `LuaFunction` is an opaque prototype.
- Sys.RunsIdentityClosure is an assumption, not a proof, that the interpreter runs closures of `lua_identity_closure` as `Sys.IdentityClosure` does. It reads that method's proven postcondition (the top `nres` values are `IdentityResults(L.upvalues)` and the heap is unchanged) through the Lua 5.1 C-function return convention: the results of a C function are its top `nres` stack values. The interpreter is abstract, so nothing links it to the method; `Sys.IdentityClosureIsIdempotent` and `Sys.RegisteredEntryReturnsChunkResult` take it as a precondition.
- Numbers, userdata, threads and metatables are not modelled. `lua_getfield` and `lua_setfield` are raw accesses, with no `__index` or `__newindex`, and they accept only tables.
- A C closure holds its upvalues by value (`Lua.Value`), and `Lua.State.upvalues` is a constant, so upvalue mutation (`lua_replace` on an upvalue index, `debug.setupvalue` on the stored closure) cannot be expressed; that the identity closure returns the same value on every call holds partly by this construction.
- The globals table is the constant `Lua.State.globals`, so a `setfenv(0, t)` from inside a `tostring` call, which in Lua 5.1 would change the table that `LUA_GLOBALSINDEX` at `sys.rs:167` denotes for the next argument, cannot be expressed.
- Lua.Locate does not resolve the registry and environment pseudo-indices, because sys.rs does not use them.
- Lua.State.PushValue and the other push operations ignore the stack limit (`lua_checkstack`, stack overflow). Memory errors (`LUA_ERRMEM`) and message handlers are not modelled either, so `PCall` requires `errfunc == 0` as sys.rs passes it.
- Sys.LoadModule does not state the stack on the `Raised` exit. Lua unwinds the C frame there, so the caller never sees it.
- Sys.OverridePrint does not state the stack or the results on the `Raised` exit, for the same reason.
- Sys.Piece reads a `tostring` result that is not a string as empty bytes. In the source, `lua_tolstring` returns NULL for such a value, and `slice::from_raw_parts` on a null pointer is undefined behaviour in Rust.
- Garbage collection, table allocation and C-function addresses are abstract. A table is a reference number, and `lua_identity_closure` is a fixed address.
