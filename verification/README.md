# zig-js value bridge: verified model of the host-side shim

This project models, in Dafny, the parts of `src/zig_wasm_exec.js` that have
definite behaviour: the JavaScript host shim that a Zig program compiled to
WebAssembly calls back into.

- **Line-buffered stdout** (`fs.writeSync`). Guest bytes are decoded and
  appended to a module-level text buffer. When the buffer holds a newline,
  everything before the *last* newline goes to `console.log` as one entry,
  and the buffer keeps only what follows. Modelled as an immutable `Console`
  (buffer and log) with a pure step function.
- **Positional write guard** (`fs.write`). Only a whole-buffer write with
  offset 0 and a `null` position is forwarded to `writeSync`. Anything else
  fails with ENOSYS and changes nothing.
- **The other `fs` members**. `fsync` succeeds; every other stub reports the
  `enosys()` error. `Fs.Dispatch` performs any one `fs` call.
- **`TypeId`**: the two-way name/code table for `NONE`, `OBJECT`, `STRING`,
  `SYMBOL` and `FUNCTION`.
- **The handle table** of a `Zig` instance (`#values` and `#idPool`), with
  `finalizeRef` and `#loadValue`.

Modules: `Wrappers` (Option), `Fs` (the `fs` object), `FsRuns` (properties of
sequences of `writeSync` calls and of `fs` calls), `TypeIds`, `ValueTable`.

The text decoder is a parameter, `Fs.Decoder = seq<byte> -> string`. The
source calls `decoder.decode` but never defines `decoder`. All properties hold
for every decoder.

## Model

| member | source | states |
|---|---|---|
| Fs.LastIndexOf | src/zig_wasm_exec.js:12 | the result is -1 exactly when the character is absent; otherwise it is a position holding the character, with no occurrence after it |
| Fs.WriteSync | src/zig_wasm_exec.js:10-18 | returns the byte length of the input whatever was flushed; the new buffer never holds a newline; with no newline in old buffer ++ decoded input nothing is logged and the buffer is exactly that text; otherwise exactly one entry is appended, and entry ++ "\n" ++ new buffer equals old buffer ++ decoded input |
| Fs.Write | src/zig_wasm_exec.js:19-26 | succeeds exactly when offset is 0, length is the buffer length and position is null; then it reports n = buffer length and has the effect of writeSync; otherwise it reports ENOSYS and leaves the console unchanged |
| Fs.Stub | src/zig_wasm_exec.js:27-49 | a stub succeeds exactly when it is fsync; every other stub fails with code ENOSYS |
| Fs.Dispatch | src/zig_wasm_exec.js:1-50 | a call replies with a byte count exactly when it is writeSync or a whole-buffer write, and then it replies the buffer length and leaves the console as writeSync does; every other call leaves the console unchanged; a call fails exactly when it is a non-fsync stub or a write that is not whole-buffer, and then it reports the enosys() error |
| FsRuns.WriteSyncConserves | src/zig_wasm_exec.js:11-15 | one writeSync neither loses nor invents text: the flushed log (each entry plus its newline) followed by the buffer grows by exactly the decoded input |
| FsRuns.WriteAllConserves | src/zig_wasm_exec.js:10-18 | over any sequence of writeSync calls, flushed log ++ buffer is the starting text followed by the concatenation of all decoded inputs |
| FsRuns.InitialRunConserves | src/zig_wasm_exec.js:7-18 | from the initial empty buffer, flushed log ++ buffer is exactly everything the guest wrote |
| FsRuns.WriteAllBufferHasNoNewline | src/zig_wasm_exec.js:12-15 | a buffer without a newline stays without one through any sequence of writeSync calls |
| FsRuns.InitialBufferHasNoNewline | src/zig_wasm_exec.js:7-15 | starting from "", the buffer never contains a newline after any sequence of writeSync calls |
| FsRuns.WriteAllExtendsLog | src/zig_wasm_exec.js:13-15 | the log only grows: the old log is a prefix of the new one, and a run of n calls adds at most n entries |
| FsRuns.DispatchAllConserves | src/zig_wasm_exec.js:10-50 | over any sequence of fs calls, flushed log ++ buffer is the starting text followed by the decoded text of exactly the calls that replied with a byte count; rejected writes and stubs add nothing |
| FsRuns.DispatchAllBufferHasNoNewline | src/zig_wasm_exec.js:10-50 | no sequence of fs calls leaves a newline in a buffer that had none |
| FsRuns.InitialDispatchRun | src/zig_wasm_exec.js:7-50 | from the initial empty buffer, after any sequence of fs calls the buffer has no newline and flushed log ++ buffer is exactly the decoded text of the accepted writes |
| FsRuns.LastNewlineAfter | src/zig_wasm_exec.js:12 | in line ++ "\n" ++ rest with no newline in rest, the last newline is at position length(line) |
| FsRuns.WriteSyncFlushesAt | src/zig_wasm_exec.js:11-15 | whenever old buffer ++ decoded input splits as line ++ "\n" ++ rest with no newline in rest, writeSync logs exactly line (which may itself contain newlines) and keeps exactly rest |
| FsRuns.TwoCallScenario | src/zig_wasm_exec.js:10-18 | two newline-free lines joined by one newline and written in two calls, split at any point, log exactly the first line and leave the second buffered |
| FsRuns.LineOneLineTwo | src/zig_wasm_exec.js:10-18 | "line one\nline two" written in two calls logs exactly "line one" and leaves "line two" in the buffer |
| TypeIds.Code | src/zig_wasm_exec.js:66-75 | the code listed under a type's name is in 0..4, and the code-to-name entry at that code is the type's name |
| TypeIds.Name | src/zig_wasm_exec.js:66-75 | every type's name is one of the five names listed in the code-to-name entries |
| TypeIds.FromCode | src/zig_wasm_exec.js:71-75 | a numeric key yields a type exactly for 0..4, and that type's code is the key |
| TypeIds.FromName | src/zig_wasm_exec.js:66-70 | among the literal's name keys, a string yields a type only if that type's name is the string, and yields no entry only if no type has that name |
| TypeIds.NameToCode | src/zig_wasm_exec.js:66-70 | the literal's name-to-code half gives a code in 0..4 or no entry |
| TypeIds.CodeToName | src/zig_wasm_exec.js:71-75 | the literal's code-to-name half gives a name exactly for the codes 0..4 |
| TypeIds.TypeIdRoundTrips | src/zig_wasm_exec.js:65-76 | every type is recovered from its code and from its name |
| TypeIds.TableIsBijection | src/zig_wasm_exec.js:65-76 | name->code(code->name(c)) == c for every code 0..4, and code->name(name->code(s)) == s for every listed name |
| TypeIds.CodesAndNamesAreDistinct | src/zig_wasm_exec.js:66-75 | distinct types have distinct codes and distinct names |
| ValueTable.Empty | src/zig_wasm_exec.js:89-91 | a new instance has every slot empty and an empty id pool, so every pooled id trivially names an empty slot |
| ValueTable.LoadValue | src/zig_wasm_exec.js:133-135 | a lookup yields the slot's value exactly when the slot is filled, and undefined otherwise |
| ValueTable.FinalizeRef | src/zig_wasm_exec.js:114-118 | slot h becomes empty and h is pushed on top of the id pool; every other slot and every earlier pool entry is unchanged; no validity check is made |
| ValueTable.FinalizeAllEffect | src/zig_wasm_exec.js:114-118 | after finalising a sequence of handles, every finalised slot is empty, every other slot keeps its value, and the pool is the old pool followed by the handles in order |
| ValueTable.FinalizeKeepsPoolFree | src/zig_wasm_exec.js:114-118 | if every pooled id names an empty slot, it still does after finalizeRef |
| ValueTable.PoolStaysFree | src/zig_wasm_exec.js:89-91 | starting from a table whose pooled ids are all empty slots, such as a new one, that stays true after any sequence of finalisations |
| ValueTable.FinalizeTwicePushesTwice | src/zig_wasm_exec.js:114-118 | finalising the same handle twice leaves the slots as after one finalisation but pushes the handle twice |

## Left out

- `#storeValue`, `#loadString` and `run` (src/zig_wasm_exec.js:137-150) have empty or missing bodies. No store, string-loading or run operation is modelled. No handle-allocation scheme is invented, so the table only ever shrinks.
- `#storeValue()` at src/zig_wasm_exec.js:137 is a method declaration with no body, which is a syntax error, so the module as written does not load. The model describes the behaviour the text of the other members states, not something the file can do today.
- `stringVal` (src/zig_wasm_exec.js:125-128) only calls those two stubs, so it is not modelled.
- The text decoder is never defined in the source. It is an arbitrary function supplied by the caller, and no UTF-8 decoding is modelled.
- `console.log` is modelled only as an appended sequence of strings. `console.warn` from `exit` is not modelled.
- The exit promise, its resolver and `exit` (src/zig_wasm_exec.js:83-87, 102-106) are left out. The promise is never resolved, and `exit` only warns.
- The `process` stub (src/zig_wasm_exec.js:51-62) is not modelled. Its `getuid`, `getgid`, `geteuid`, `getegid`, `pid` and `ppid` are the constant -1. Its `getgroups`, `umask`, `cwd` and `chdir` throw the `enosys()` error, and those four throwing members are left out too.
- `fs.constants` (all -1), the `argv`, `env`, `exited` and `mem` fields, and the ignored `runtimeContext` constructor argument are constant data and are not modelled.
- A host-supplied `globalThis.fs` replaces the shim entirely; only the shim is modelled.
- The arguments the stubs ignore (paths, modes, descriptors) are dropped from `Fs.StubCall`. Callbacks are modelled as the reply value they receive.
- TypeIds.NameToCode: only the ten keys the `TypeId` literal lists are modelled. Keys inherited from `Object.prototype` (such as "toString" or "constructor") and numeric strings (`TypeId["2"]` is "STRING") are not, so for those strings the model gives no entry where JavaScript gives a value. No code in the file reads `TypeId`.
- JavaScript's `lastIndexOf` and `substring` index UTF-16 code units, while a Dafny `string` is a sequence of Unicode scalar values. Because the separator is the single code unit `"\n"`, the split falls between the same characters either way. Text with surrogate pairs is not modelled in UTF-16 terms.
- `#loadValue` cannot tell an empty slot from a slot holding `undefined`; the model's table holds no such value.
- `src/zig_wasm_exec.test.js` (WebAssembly instantiation against a separately built `zig_test.wasm`, a fetch polyfill) and `examples/hello-world/src/main.ts` (bundler and DOM wiring) are I/O and are not modelled.

## Behaviour of the handle table worth noting

A handle table is usually expected to reject a finalised or never-issued handle and to make a second finalisation harmless. This code does neither, and the model follows the code.

- Loading a finalised handle is not an error. `#loadValue` returns `undefined`, and `ValueTable.LoadValue` yields `None`.
- Finalising a finalised handle pushes it onto the id pool again (`ValueTable.FinalizeTwicePushesTwice`).
