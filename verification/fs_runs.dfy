/**
 Properties of `fs.writeSync`, and of the `fs` object as a whole, over
 sequences of calls: the console conserves every decoded character that was
 accepted, keeps its log as a growing prefix, and never leaves a newline in
 the buffer.
 */
module FsRuns {
  import opened Fs

  /** Feed the buffers to `writeSync` on descriptor `fd`, in order. */
  function WriteAll(c: Console, fd: int, bufs: seq<seq<byte>>, decode: Decoder): (r: Console)
    decreases |bufs|
  {
    if |bufs| == 0 then c
    else WriteAll(WriteSync(c, fd, bufs[0], decode).0, fd, bufs[1..], decode)
  }

  /** Everything the buffers decode to, concatenated. */
  function Decoded(bufs: seq<seq<byte>>, decode: Decoder): (s: string)
    decreases |bufs|
  {
    if |bufs| == 0 then "" else decode(bufs[0]) + Decoded(bufs[1..], decode)
  }

  /** The text the logged entries stand for: each entry followed by the
      newline that ended it. */
  function Flushed(log: seq<string>): (s: string)
    decreases |log|
  {
    if |log| == 0 then "" else Flushed(log[..|log| - 1]) + log[|log| - 1] + [NL]
  }

  /** Logging one more entry extends the flushed text by that entry and its newline. */
  lemma FlushedAppend(log: seq<string>, line: string)
    ensures Flushed(log + [line]) == Flushed(log) + line + [NL]
  {
    assert (log + [line])[..|log|] == log;
  }

  /** Appending one entry that ends where the new buffer begins conserves
      the flushed text plus the buffer. */
  lemma FlushConserves(log: seq<string>, log': seq<string>, buffer: string, buffer': string, input: string)
    requires |log'| == |log| + 1 && log'[..|log|] == log
    requires log'[|log|] + [NL] + buffer' == buffer + input
    ensures Flushed(log') + buffer' == Flushed(log) + buffer + input
  {
    var line := log'[|log|];
    assert log' == log + [line];
    FlushedAppend(log, line);
    Regroup(Flushed(log), line, buffer', buffer, input);
  }

  /** Prefixing both sides of `line + "\n" + rest == a + b` with `f`. */
  lemma Regroup(f: string, line: string, rest: string, a: string, b: string)
    requires line + [NL] + rest == a + b
    ensures f + line + [NL] + rest == f + a + b
  {
    calc {
      f + line + [NL] + rest;
      f + (line + [NL] + rest);
      f + (a + b);
      f + a + b;
    }
  }

  /** One `writeSync` neither loses nor invents text: the flushed log plus
      the buffer grows by exactly the decoded input. */
  lemma WriteSyncConserves(c: Console, fd: int, buf: seq<byte>, decode: Decoder)
    ensures var c' := WriteSync(c, fd, buf, decode).0;
            Flushed(c'.log) + c'.buffer == Flushed(c.log) + c.buffer + decode(buf)
  {
    var c' := WriteSync(c, fd, buf, decode).0;
    if NL in c.buffer + decode(buf) {
      FlushConserves(c.log, c'.log, c.buffer, c'.buffer, decode(buf));
    }
  }

  /** Over any run, the flushed log plus the buffer is the starting text
      followed by everything the guest wrote. */
  lemma {:induction false} WriteAllConserves(c: Console, fd: int, bufs: seq<seq<byte>>, decode: Decoder)
    ensures var c' := WriteAll(c, fd, bufs, decode);
            Flushed(c'.log) + c'.buffer == Flushed(c.log) + c.buffer + Decoded(bufs, decode)
    decreases |bufs|
  {
    if |bufs| > 0 {
      var c1 := WriteSync(c, fd, bufs[0], decode).0;
      WriteSyncConserves(c, fd, bufs[0], decode);
      WriteAllConserves(c1, fd, bufs[1..], decode);
    }
  }

  /** From the initial console, the log and buffer together are exactly the
      decoded output of the guest. */
  lemma InitialRunConserves(fd: int, bufs: seq<seq<byte>>, decode: Decoder)
    ensures var c' := WriteAll(Initial, fd, bufs, decode);
            Flushed(c'.log) + c'.buffer == Decoded(bufs, decode)
  {
    WriteAllConserves(Initial, fd, bufs, decode);
  }

  /** The buffer never holds a newline after a run that started from a
      newline-free buffer (in particular, from the initial empty one). */
  lemma {:induction false} WriteAllBufferHasNoNewline(c: Console, fd: int, bufs: seq<seq<byte>>, decode: Decoder)
    requires NL !in c.buffer
    ensures NL !in WriteAll(c, fd, bufs, decode).buffer
    decreases |bufs|
  {
    if |bufs| > 0 {
      WriteAllBufferHasNoNewline(WriteSync(c, fd, bufs[0], decode).0, fd, bufs[1..], decode);
    }
  }

  /** Starting from the initial empty buffer, no run leaves a newline in it. */
  lemma InitialBufferHasNoNewline(fd: int, bufs: seq<seq<byte>>, decode: Decoder)
    ensures NL !in WriteAll(Initial, fd, bufs, decode).buffer
  {
    WriteAllBufferHasNoNewline(Initial, fd, bufs, decode);
  }

  /** Logged entries are never rewritten: the old log is a prefix of the new
      one, and a run of n calls adds at most n entries. */
  lemma {:induction false} WriteAllExtendsLog(c: Console, fd: int, bufs: seq<seq<byte>>, decode: Decoder)
    ensures var c' := WriteAll(c, fd, bufs, decode);
            && |c.log| <= |c'.log| <= |c.log| + |bufs|
            && c'.log[..|c.log|] == c.log
    decreases |bufs|
  {
    if |bufs| > 0 {
      var c1 := WriteSync(c, fd, bufs[0], decode).0;
      WriteAllExtendsLog(c1, fd, bufs[1..], decode);
      var c' := WriteAll(c1, fd, bufs[1..], decode);
      assert c'.log[..|c.log|] == c'.log[..|c1.log|][..|c.log|];
    }
  }

  /** The last newline of `line + "\n" + rest` is the one after `line` when `rest` has none. */
  lemma {:induction false} LastNewlineAfter(line: string, rest: string)
    requires NL !in rest
    ensures LastIndexOf(line + [NL] + rest, NL) == |line|
    decreases |rest|
  {
    var text := line + [NL] + rest;
    if |rest| > 0 {
      var shorter := rest[..|rest| - 1];
      assert text[..|text| - 1] == line + [NL] + shorter;
      assert text[|text| - 1] == rest[|rest| - 1];
      LastNewlineAfter(line, shorter);
    }
  }

  /** The flushed line and the kept rest are determined by the text alone:
      whenever the text splits as `line + "\n" + rest` with no newline in
      `rest`, `writeSync` logs exactly `line` and keeps exactly `rest`. */
  lemma WriteSyncFlushesAt(c: Console, fd: int, buf: seq<byte>, decode: Decoder, line: string, rest: string)
    requires c.buffer + decode(buf) == line + [NL] + rest
    requires NL !in rest
    ensures WriteSync(c, fd, buf, decode).0 == Console(rest, c.log + [line])
  {
    var text := line + [NL] + rest;
    LastNewlineAfter(line, rest);
    assert text[..|line|] == line && text[|line| + 1..] == rest;
  }

  /** A run of two calls is the two `writeSync` steps one after the other. */
  lemma TwoCallsThrough(c1: Console, b1: seq<byte>, b2: seq<byte>, decode: Decoder)
    ensures WriteAll(c1, 1, [b1, b2], decode) == WriteSync(WriteSync(c1, 1, b1, decode).0, 1, b2, decode).0
  {
    var c2 := WriteSync(c1, 1, b1, decode).0;
    assert [b1, b2][1..] == [b2];
    assert [b2][1..] == [];
    assert WriteAll(c2, 1, [b2], decode) == WriteAll(WriteSync(c2, 1, b2, decode).0, 1, [], decode);
  }

  /** A split point inside the first line leaves a newline-free first piece. */
  lemma SplitBeforeNewline(t1: string, t2: string, one: string, two: string)
    requires NL !in one
    requires t1 + t2 == one + [NL] + two
    requires |t1| <= |one|
    ensures NL !in t1
  {
    assert t1 == (one + [NL] + two)[..|t1|] == one[..|t1|];
    assert forall i | 0 <= i < |t1| :: t1[i] == one[i];
  }

  /** A split point after the newline cuts the second line in two. */
  lemma SplitAfterNewline(t1: string, t2: string, one: string, two: string)
    requires NL !in two
    requires t1 + t2 == one + [NL] + two
    requires |t1| > |one|
    ensures var k := |t1| - |one| - 1;
            t1 == one + [NL] + two[..k] && two[..k] + t2 == two && NL !in two[..k]
  {
    var s := one + [NL] + two;
    var k := |t1| - |one| - 1;
    assert t1 == s[..|t1|] && t2 == s[|t1|..];
    assert forall i | 0 <= i < k :: two[..k][i] == two[i];
  }

  /** The split falls before the newline: the first call logs nothing and
      the second flushes the first line. */
  lemma SplitInFirstLine(b1: seq<byte>, b2: seq<byte>, decode: Decoder, one: string, two: string)
    requires NL !in one && NL !in two
    requires decode(b1) + decode(b2) == one + [NL] + two
    requires |decode(b1)| <= |one|
    ensures WriteAll(Initial, 1, [b1, b2], decode) == Console(two, [one])
  {
    TwoCallsThrough(Initial, b1, b2, decode);
    SplitBeforeNewline(decode(b1), decode(b2), one, two);
    assert Initial.buffer + decode(b1) == decode(b1);
    WriteSyncFlushesAt(Console(decode(b1), []), 1, b2, decode, one, two);
  }

  /** The split falls after the newline: the first call flushes the first
      line and the second only extends the buffer. */
  lemma SplitInSecondLine(b1: seq<byte>, b2: seq<byte>, decode: Decoder, one: string, two: string)
    requires NL !in one && NL !in two
    requires decode(b1) + decode(b2) == one + [NL] + two
    requires |decode(b1)| > |one|
    ensures WriteAll(Initial, 1, [b1, b2], decode) == Console(two, [one])
  {
    var k := |decode(b1)| - |one| - 1;
    TwoCallsThrough(Initial, b1, b2, decode);
    SplitAfterNewline(decode(b1), decode(b2), one, two);
    assert Initial.buffer + decode(b1) == decode(b1);
    WriteSyncFlushesAt(Initial, 1, b1, decode, one, two[..k]);
  }

  /** Two newline-free lines joined by one newline and written in two calls,
      split anywhere, log exactly the first line and leave the second buffered. */
  lemma TwoCallScenario(b1: seq<byte>, b2: seq<byte>, decode: Decoder, one: string, two: string)
    requires NL !in one && NL !in two
    requires decode(b1) + decode(b2) == one + [NL] + two
    ensures WriteAll(Initial, 1, [b1, b2], decode) == Console(two, [one])
  {
    if |decode(b1)| <= |one| {
      SplitInFirstLine(b1, b2, decode, one, two);
    } else {
      SplitInSecondLine(b1, b2, decode, one, two);
    }
  }

  /** The concrete case: "line one\nline two" written in two calls. */
  lemma LineOneLineTwo(b1: seq<byte>, b2: seq<byte>, decode: Decoder)
    requires decode(b1) + decode(b2) == "line one\nline two"
    ensures WriteAll(Initial, 1, [b1, b2], decode) == Console("line two", ["line one"])
  {
    assert "line one\nline two" == "line one" + [NL] + "line two";
    TwoCallScenario(b1, b2, decode, "line one", "line two");
  }

  /** Perform the calls on the `fs` object, in order. */
  function DispatchAll(c: Console, calls: seq<FsCall>, decode: Decoder): (r: Console)
    decreases |calls|
  {
    if |calls| == 0 then c
    else DispatchAll(Dispatch(c, calls[0], decode).0, calls[1..], decode)
  }

  /** The decoded text of the calls that reach `writeSync`, concatenated;
      rejected writes and stubs contribute nothing. */
  function AcceptedText(calls: seq<FsCall>, decode: Decoder): (s: string)
    decreases |calls|
  {
    if |calls| == 0 then ""
    else (if Accepts(calls[0]) then decode(calls[0].buf) else "") + AcceptedText(calls[1..], decode)
  }

  /** Over any sequence of `fs` calls, the flushed log plus the buffer is the
      starting text followed by the decoded text of exactly the calls that
      replied with a byte count. */
  lemma {:induction false} DispatchAllConserves(c: Console, calls: seq<FsCall>, decode: Decoder)
    ensures var c' := DispatchAll(c, calls, decode);
            Flushed(c'.log) + c'.buffer == Flushed(c.log) + c.buffer + AcceptedText(calls, decode)
    decreases |calls|
  {
    if |calls| > 0 {
      var call := calls[0];
      var c1 := Dispatch(c, call, decode).0;
      if Accepts(call) {
        WriteSyncConserves(c, call.fd, call.buf, decode);
      }
      DispatchAllConserves(c1, calls[1..], decode);
    }
  }

  /** No sequence of `fs` calls leaves a newline in a buffer that had none. */
  lemma {:induction false} DispatchAllBufferHasNoNewline(c: Console, calls: seq<FsCall>, decode: Decoder)
    requires NL !in c.buffer
    ensures NL !in DispatchAll(c, calls, decode).buffer
    decreases |calls|
  {
    if |calls| > 0 {
      DispatchAllBufferHasNoNewline(Dispatch(c, calls[0], decode).0, calls[1..], decode);
    }
  }

  /** From the initial console, any sequence of `fs` calls leaves a
      newline-free buffer, and the flushed log plus the buffer is exactly the
      decoded text of the accepted writes. */
  lemma InitialDispatchRun(calls: seq<FsCall>, decode: Decoder)
    ensures var c' := DispatchAll(Initial, calls, decode);
            && NL !in c'.buffer
            && Flushed(c'.log) + c'.buffer == AcceptedText(calls, decode)
  {
    DispatchAllBufferHasNoNewline(Initial, calls, decode);
    DispatchAllConserves(Initial, calls, decode);
  }
}
