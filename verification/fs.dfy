/**
 The `fs` object the bridge installs when the host supplies none
 (src/zig_wasm_exec.js:1-50): a line-buffered writer to the host console,
 a positional `write` that only accepts whole-buffer writes, and a set of
 stubs that fail with ENOSYS (all but `fsync`, which succeeds).
 */
module Fs {

  newtype byte = b: int | 0 <= b < 256

  /** The text decoder applied to guest bytes. The source never defines it,
      so every operation that decodes takes it as a parameter. */
  type Decoder = seq<byte> -> string

  const NL: char := '\n'

  /** The module-level output buffer together with the lines sent to
      `console.log`, oldest first. */
  datatype Console = Console(buffer: string, log: seq<string>)

  /** The buffer starts empty and nothing has been logged. */
  const Initial: Console := Console("", [])

  /** The error object built by `enosys()`. */
  datatype FsError = FsError(message: string, code: string)

  const Enosys: FsError := FsError("not implemented", "ENOSYS")

  /** What the caller observes: an error passed to the callback, a callback
      with no value, or a byte count (returned by `writeSync`, passed to the
      callback by `write`). */
  datatype Reply = Failed(err: FsError) | Succeeded | Wrote(n: nat)

  /** The `position` argument of `write`; only `null` is accepted, and the
      strict comparison in the source rejects `undefined` as well. */
  datatype Position = Null | Undefined | At(index: int)

  /** Index of the last occurrence of `ch` in `s`, or -1 when there is none
      (JavaScript's `String.prototype.lastIndexOf` for a one-character needle). */
  function LastIndexOf(s: string, ch: char): (r: int)
    ensures -1 <= r < |s|
    ensures r == -1 <==> ch !in s
    ensures 0 <= r ==> s[r] == ch && ch !in s[r + 1..]
  {
    if |s| == 0 then -1
    else if s[|s| - 1] == ch then |s| - 1
    else
      assert s == s[..|s| - 1] + [s[|s| - 1]];
      LastIndexOf(s[..|s| - 1], ch)
  }

  /** `fs.writeSync(fd, buf)`: append the decoded bytes to the buffer; if the
      buffer now holds a newline, log everything before the last newline as
      one entry and keep only what follows it. The descriptor is ignored.
      Returns the new console and the byte length of `buf`. */
  function WriteSync(c: Console, fd: int, buf: seq<byte>, decode: Decoder): (r: (Console, nat))
    ensures r.1 == |buf|
    ensures NL !in r.0.buffer
    ensures NL !in c.buffer + decode(buf) ==> r.0 == Console(c.buffer + decode(buf), c.log)
    ensures NL in c.buffer + decode(buf) ==>
              && |r.0.log| == |c.log| + 1
              && r.0.log[..|c.log|] == c.log
              && r.0.log[|c.log|] + [NL] + r.0.buffer == c.buffer + decode(buf)
  {
    var text := c.buffer + decode(buf);
    var nl := LastIndexOf(text, NL);
    if nl == -1 then
      (Console(text, c.log), |buf|)
    else
      assert text == text[..nl] + [NL] + text[nl + 1..];
      (Console(text[nl + 1..], c.log + [text[..nl]]), |buf|)
  }

  /** `fs.write(fd, buf, offset, length, position, callback)`: anything but a
      whole-buffer write at no position fails with ENOSYS and changes nothing;
      a whole-buffer write behaves as `writeSync` and reports its count. */
  function Write(c: Console, fd: int, buf: seq<byte>, offset: int, length: int,
                 position: Position, decode: Decoder): (r: (Console, Reply))
    ensures r.1.Wrote? <==> offset == 0 && length == |buf| && position == Null
    ensures !r.1.Wrote? ==> r == (c, Failed(Enosys))
    ensures r.1.Wrote? ==> r.1.n == |buf| && r.0 == WriteSync(c, fd, buf, decode).0
  {
    if offset != 0 || length != |buf| || position != Null then
      (c, Failed(Enosys))
    else
      var (c', n) := WriteSync(c, fd, buf, decode);
      (c', Wrote(n))
  }

  /** The remaining members of the `fs` object, each of which only invokes its callback. */
  datatype StubOp =
    | Chmod | Chown | Close | Fchmod | Fchown | Fstat | Fsync | Ftruncate
    | Lchown | Link | Lstat | Mkdir | Open | Read | Readdir | Readlink
    | Rename | Rmdir | Stat | Symlink | Truncate | Unlink | Utimes

  /** One call on the `fs` object. Arguments the source ignores are omitted
      from the stub calls. */
  datatype FsCall =
    | WriteSyncCall(fd: int, buf: seq<byte>)
    | WriteCall(fd: int, buf: seq<byte>, offset: int, length: int, position: Position)
    | StubCall(op: StubOp)

  /** The callback argument of a stub: `fsync` reports success, every other
      stub reports ENOSYS. */
  function Stub(op: StubOp): (r: Reply)
    ensures r.Succeeded? <==> op == Fsync
    ensures !r.Succeeded? ==> r.Failed? && r.err.code == "ENOSYS"
  {
    if op == Fsync then Succeeded else Failed(Enosys)
  }

  /** The calls that reach `writeSync`: every `writeSync` call, and every
      `write` of the whole buffer at offset 0 and a `null` position. */
  predicate Accepts(call: FsCall)
  {
    || call.WriteSyncCall?
    || (call.WriteCall? && call.offset == 0 && call.length == |call.buf| && call.position == Null)
  }

  /** Perform one call on the `fs` object. */
  function Dispatch(c: Console, call: FsCall, decode: Decoder): (r: (Console, Reply))
    ensures r.1.Wrote? <==> Accepts(call)
    ensures Accepts(call) ==> r == (WriteSync(c, call.fd, call.buf, decode).0, Wrote(|call.buf|))
    ensures !Accepts(call) ==> r.0 == c
    ensures r.1.Failed? ==> r.0 == c && r.1.err == Enosys
    ensures call.StubCall? ==> r.0 == c && !r.1.Wrote?
    ensures r.1.Wrote? ==> r.1.n == |call.buf|
    ensures r.1.Failed? <==> (call.StubCall? && call.op != Fsync)
                             || (call.WriteCall? && !(call.offset == 0 && call.length == |call.buf| && call.position == Null))
  {
    match call
    case WriteSyncCall(fd, buf) =>
      var (c', n) := WriteSync(c, fd, buf, decode);
      (c', Wrote(n))
    case WriteCall(fd, buf, offset, length, position) =>
      Write(c, fd, buf, offset, length, position, decode)
    case StubCall(op) =>
      (c, Stub(op))
  }
}
