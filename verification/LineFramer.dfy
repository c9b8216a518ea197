/** The GUI backend's command stream: bytes arrive in chunks in a fixed buffer and leave it as
    lines. */
module LineFramer {
  import opened CText

  const BUFFER_SIZE := 1024

  const LF: char := '\n'
  const CR: char := '\r'

  /** What the station does in answer to input: runs a command line, or reports that the
      buffer overflowed and drops what it held. */
  datatype Reply = Command(line: string) | TooLong

  // ---------------------------------------------------------------------------------------
  // The lines of a stream
  // ---------------------------------------------------------------------------------------

  predicate NoLf(s: string) {
    LF !in s
  }

  /** The position of the first newline, or the length. */
  function FirstLf(s: string): (k: nat)
    ensures k <= |s| && NoLf(s[..k]) && (k < |s| ==> s[k] == LF)
  {
    if |s| == 0 || s[0] == LF then 0
    else
      var k := 1 + FirstLf(s[1..]);
      assert s[..k] == [s[0]] + s[1..][..k - 1];
      k
  }

  /** The texts between newlines, the last one not included. */
  function Lines(s: string): seq<string>
    decreases |s|
  {
    var k := FirstLf(s);
    if k == |s| then [] else [s[..k]] + Lines(s[k + 1..])
  }

  /** The text after the last newline. */
  function Residue(s: string): (r: string)
    ensures NoLf(r) && |r| <= |s|
    decreases |s|
  {
    var k := FirstLf(s);
    if k == |s| then
      assert s[..k] == s;
      s
    else Residue(s[k + 1..])
  }

  /** A line as the command parser sees it: one trailing carriage return dropped, and nothing
      from the first NUL on. */
  function CommandText(raw: string): string {
    UpToNul(if |raw| > 0 && raw[|raw| - 1] == CR then raw[..|raw| - 1] else raw)
  }

  function Commands(lines: seq<string>): (replies: seq<Reply>)
    ensures |replies| == |lines|
  {
    seq(|lines|, i requires 0 <= i < |lines| => Command(CommandText(lines[i])))
  }

  lemma CommandsOfConcat(a: seq<string>, b: seq<string>)
    ensures Commands(a + b) == Commands(a) + Commands(b)
  {
  }

  lemma NoCommands()
    ensures Commands([]) == []
  {
  }

  lemma FirstLfOfPrefix(s: string, t: string)
    requires FirstLf(s) < |s|
    ensures FirstLf(s + t) == FirstLf(s)
    decreases |s|
  {
    if s[0] != LF {
      assert (s + t)[1..] == s[1..] + t;
      FirstLfOfPrefix(s[1..], t);
    }
  }

  /** The first line and what follows it. */
  lemma {:induction false} TakeLine(s: string)
    ensures var k := FirstLf(s);
            if k == |s| then Lines(s) == [] && Residue(s) == s
            else Lines(s) == [s[..k]] + Lines(s[k + 1..]) && Residue(s) == Residue(s[k + 1..])
  {
    hide FirstLf;
  }

  /** Lines with their newlines, one after another. */
  function Unlines(lines: seq<string>): string
    decreases |lines|
  {
    if |lines| == 0 then [] else lines[0] + [LF] + Unlines(lines[1..])
  }

  /** Lines and residue are the stream, cut at every newline and nowhere else. */
  lemma {:induction false} LinesRejoin(s: string)
    ensures Unlines(Lines(s)) + Residue(s) == s
    ensures forall i :: 0 <= i < |Lines(s)| ==> NoLf(Lines(s)[i])
    decreases |s|
  {
    hide FirstLf, Lines, Residue;
    TakeLine(s);
    var k := FirstLf(s);
    if k < |s| {
      LinesRejoin(s[k + 1..]);
      assert s == s[..k] + [LF] + s[k + 1..];
      assert Lines(s)[1..] == Lines(s[k + 1..]);
    }
  }

  /** Lines can be taken off the front of a stream at any point: only the residue of what came
      before matters. */
  lemma {:induction false} LinesOfConcat(s: string, t: string)
    ensures Lines(s + t) == Lines(s) + Lines(Residue(s) + t)
    ensures Residue(s + t) == Residue(Residue(s) + t)
    decreases |s|
  {
    hide FirstLf, Lines, Residue;
    TakeLine(s);
    var k := FirstLf(s);
    if k < |s| {
      FirstLfOfPrefix(s, t);
      TakeLine(s + t);
      assert (s + t)[..k] == s[..k];
      assert (s + t)[k + 1..] == s[k + 1..] + t;
      LinesOfConcat(s[k + 1..], t);
    }
  }

  // ---------------------------------------------------------------------------------------
  // Runs of chunks
  // ---------------------------------------------------------------------------------------

  datatype Run = Run(replies: seq<Reply>, residue: string)

  /** One receive: the chunk lands behind the residue; a full buffer is thrown away. */
  function Receive(residue: string, chunk: string): Run {
    if |residue| + |chunk| >= BUFFER_SIZE then Run([TooLong], [])
    else Run(Commands(Lines(residue + chunk)), Residue(residue + chunk))
  }

  function ReceiveAll(residue: string, chunks: seq<string>): Run
    decreases |chunks|
  {
    if |chunks| == 0 then Run([], residue)
    else
      var first := Receive(residue, chunks[0]);
      var rest := ReceiveAll(first.residue, chunks[1..]);
      Run(first.replies + rest.replies, rest.residue)
  }

  /** No chunk ever fills the buffer. */
  predicate NeverFills(residue: string, chunks: seq<string>)
    decreases |chunks|
  {
    |chunks| > 0 ==>
      && |residue| + |chunks[0]| < BUFFER_SIZE
      && NeverFills(Residue(residue + chunks[0]), chunks[1..])
  }

  function Flatten(chunks: seq<string>): string
    decreases |chunks|
  {
    if |chunks| == 0 then [] else chunks[0] + Flatten(chunks[1..])
  }

  /** The station runs exactly the lines of the stream, in order, and keeps exactly the text
      after the last newline, if and only if no chunk fills the buffer: when it does not
      overflow, how the stream is cut makes no difference; when it does, the client sees it. */
  lemma {:induction false} ChunkInvariance(residue: string, chunks: seq<string>)
    requires NoLf(residue)
    ensures var run := ReceiveAll(residue, chunks);
            var stream := residue + Flatten(chunks);
            && (NeverFills(residue, chunks)
                ==> run == Run(Commands(Lines(stream)), Residue(stream)))
            && (NeverFills(residue, chunks) <==> TooLong !in run.replies)
    decreases |chunks|
  {
    if |chunks| == 0 {
      assert residue + Flatten(chunks) == residue;
      NoLines(residue);
    } else {
      var seen := residue + chunks[0];
      var first := Receive(residue, chunks[0]);
      assert residue + Flatten(chunks) == seen + Flatten(chunks[1..]);
      if |seen| < BUFFER_SIZE {
        ChunkInvariance(first.residue, chunks[1..]);
        LinesOfConcat(seen, Flatten(chunks[1..]));
        CommandsOfConcat(Lines(seen), Lines(Residue(seen) + Flatten(chunks[1..])));
      } else {
        assert ReceiveAll(residue, chunks).replies[0] == TooLong;
      }
    }
  }

  lemma NoLines(s: string)
    requires NoLf(s)
    ensures Lines(s) == [] && Residue(s) == s
  {
    assert forall i :: 0 <= i < |s| ==> s[i] in s;
  }

  /** The answer is that of the stream exactly when the buffer is never filled. */
  lemma ServedExactlyWhenNeverFilled(residue: string, chunks: seq<string>)
    requires NoLf(residue)
    ensures ReceiveAll(residue, chunks).replies == Commands(Lines(residue + Flatten(chunks)))
       <==> NeverFills(residue, chunks)
  {
    ChunkInvariance(residue, chunks);
    var lines := Lines(residue + Flatten(chunks));
    assert TooLong !in Commands(lines);
  }

  /** Two ways of cutting a stream give the same answer. */
  lemma CutsDoNotMatter(chunks: seq<string>, others: seq<string>)
    requires Flatten(chunks) == Flatten(others)
    requires NeverFills([], chunks) && NeverFills([], others)
    ensures ReceiveAll([], chunks) == ReceiveAll([], others)
  {
    ChunkInvariance([], chunks);
    ChunkInvariance([], others);
  }

  /** Every run of bytes without a newline is at most this long. */
  ghost predicate LinesWithin(s: string, limit: nat) {
    forall i, j :: 0 <= i <= j <= |s| && NoLf(s[i..j]) ==> j - i <= limit
  }

  lemma {:induction false} ResidueIsSuffix(s: string)
    ensures s[|s| - |Residue(s)|..] == Residue(s)
    decreases |s|
  {
    hide FirstLf, Lines, Residue;
    TakeLine(s);
    var k := FirstLf(s);
    if k < |s| {
      var rest := s[k + 1..];
      ResidueIsSuffix(rest);
      assert s[|s| - |Residue(rest)|..] == rest[|rest| - |Residue(rest)|..];
    } else {
      assert s[0..] == s;
    }
  }

  lemma SuffixWithin(s: string, cut: nat, limit: nat)
    requires cut <= |s| && LinesWithin(s, limit)
    ensures LinesWithin(s[cut..], limit)
  {
    forall i, j | 0 <= i <= j <= |s| - cut && NoLf(s[cut..][i..j])
      ensures j - i <= limit
    {
      assert s[cut..][i..j] == s[cut + i..cut + j];
    }
  }

  /** Short lines in small chunks are always served: when no line is longer than a limit and
      no chunk fills the rest of the buffer. */
  lemma {:induction false} ShortLinesNeverFill(residue: string, chunks: seq<string>, limit: nat)
    requires NoLf(residue) && LinesWithin(residue + Flatten(chunks), limit)
    requires forall i :: 0 <= i < |chunks| ==> limit + |chunks[i]| < BUFFER_SIZE
    ensures NeverFills(residue, chunks)
    decreases |chunks|
  {
    hide FirstLf, Lines, Residue;
    if |chunks| > 0 {
      var stream := residue + Flatten(chunks);
      assert |residue| <= limit by {
        assert stream[0..|residue|] == residue;
      }
      var seen := residue + chunks[0];
      var left := Residue(seen);
      ResidueIsSuffix(seen);
      var cut := |seen| - |left|;
      SuffixWithin(stream, cut, limit);
      assert stream[cut..] == left + Flatten(chunks[1..]) by {
        assert stream == seen + Flatten(chunks[1..]);
      }
      hide LinesWithin;
      ShortLinesNeverFill(left, chunks[1..], limit);
    }
  }

  /** A full buffer is dropped even when it holds nothing but finished commands: 1024 bytes
      received at once are never served, whatever they are, and one byte less always is. */
  lemma FullBufferIsDropped(stream: string)
    requires |stream| <= 1024
    ensures |stream| == 1024 ==> ReceiveAll([], [stream]) == Run([TooLong], [])
    ensures |stream| < 1024 ==> ReceiveAll([], [stream]) == Run(Commands(Lines(stream)), Residue(stream))
  {
    assert [] + stream == stream;
    assert forall run: Run :: ReceiveAll(run.residue, [stream][1..]) == Run([], run.residue);
  }

  lemma {:induction false} ReceiveMore(residue: string, chunks: seq<string>, more: seq<string>)
    ensures var first := ReceiveAll(residue, chunks);
            var rest := ReceiveAll(first.residue, more);
            ReceiveAll(residue, chunks + more) == Run(first.replies + rest.replies, rest.residue)
    decreases |chunks|
  {
    if |chunks| == 0 {
      assert chunks + more == more;
    } else {
      assert (chunks + more)[1..] == chunks[1..] + more;
      ReceiveMore(Receive(residue, chunks[0]).residue, chunks[1..], more);
    }
  }

  /** A run with an overflow: the lines finished before the chunk that fills the buffer are
      answered, the client is told once, what the buffer held and the whole chunk are dropped,
      and the rest is answered as on a new connection. */
  lemma OverflowStartsAfresh(chunks: seq<string>, chunk: string, more: seq<string>)
    requires NeverFills([], chunks) && |Residue(Flatten(chunks))| + |chunk| >= 1024
    ensures var rest := ReceiveAll([], more);
            ReceiveAll([], chunks + [chunk] + more)
            == Run(Commands(Lines(Flatten(chunks))) + [TooLong] + rest.replies, rest.residue)
  {
    hide Lines, Residue, Commands;
    ChunkInvariance([], chunks);
    assert [] + Flatten(chunks) == Flatten(chunks);
    var first := ReceiveAll([], chunks);
    assert ([chunk] + more)[1..] == more;
    assert ReceiveAll(first.residue, [chunk] + more) == Run([TooLong] + ReceiveAll([], more).replies, ReceiveAll([], more).residue);
    ReceiveMore([], chunks, [chunk] + more);
    assert chunks + [chunk] + more == chunks + ([chunk] + more);
    assert first.replies + ([TooLong] + ReceiveAll([], more).replies) == first.replies + [TooLong] + ReceiveAll([], more).replies;
  }

  // ---------------------------------------------------------------------------------------
  // What a line says
  // ---------------------------------------------------------------------------------------

  /** A line may end in a carriage return, which is dropped, one of them; anything else stays. */
  lemma CarriageReturnDropped(s: string)
    requires NoNul(s)
    ensures CommandText(s + [CR]) == s
    ensures (s == "" || s[|s| - 1] != CR) ==> CommandText(s) == s
  {
    assert (s + [CR])[..|s|] == s;
    UpToNulOfPlain(s);
  }

  lemma {:induction false} UpToNulOfPlain(s: string)
    requires NoNul(s)
    ensures UpToNul(s) == s
    decreases |s|
  {
    if |s| > 0 {
      UpToNulOfPlain(s[1..]);
      assert s == [s[0]] + s[1..];
    }
  }

  /** Nothing from the first NUL on is read, whatever follows it. */
  lemma NulEndsCommand(s: string, t: string)
    requires NoNul(s)
    ensures CommandText(s + [NUL] + t) == s
  {
    var raw := s + [NUL] + t;
    var cut := if raw[|raw| - 1] == CR then raw[..|raw| - 1] else raw;
    assert cut[..|s|] == s && cut[|s|] == NUL;
    UpToNulIs(cut, |s|);
  }

  /** A command as a client may write it: no terminator, no newline, no carriage return at its
      end. */
  predicate Plain(command: string) {
    NoNul(command) && NoLf(command) && (command == "" || command[|command| - 1] != CR)
  }

  /** Commands, each ended by a newline or by a carriage return and a newline. */
  function Written(commands: seq<string>, withCr: seq<bool>): string
    requires |withCr| == |commands|
    decreases |commands|
  {
    if |commands| == 0 then ""
    else commands[0] + (if withCr[0] then [CR, LF] else [LF]) + Written(commands[1..], withCr[1..])
  }

  function Answers(commands: seq<string>): seq<Reply> {
    if |commands| == 0 then [] else [Command(commands[0])] + Answers(commands[1..])
  }

  lemma OneCommand(command: string, withCr: bool, rest: string)
    requires Plain(command)
    ensures var s := command + (if withCr then [CR, LF] else [LF]) + rest;
            Commands(Lines(s)) == [Command(command)] + Commands(Lines(rest)) && Residue(s) == Residue(rest)
  {
    hide FirstLf, Lines, Residue, CommandText;
    var s := command + (if withCr then [CR, LF] else [LF]) + rest;
    var raw := command + if withCr then [CR] else [];
    assert s == raw + [LF] + rest;
    assert s[..|raw|] == raw && s[|raw| + 1..] == rest;
    FirstLfIs(s, |raw|);
    TakeLine(s);
    CommandsOfConcat([raw], Lines(rest));
    CarriageReturnDropped(command);
    assert command + [] == command;
    assert Commands([raw]) == [Command(command)];
  }

  lemma {:induction false} WrittenLines(commands: seq<string>, withCr: seq<bool>)
    requires |withCr| == |commands| && forall i :: 0 <= i < |commands| ==> Plain(commands[i])
    ensures Commands(Lines(Written(commands, withCr))) == Answers(commands)
    ensures Residue(Written(commands, withCr)) == ""
    decreases |commands|
  {
    hide Lines, Residue, Commands, Plain;
    if |commands| == 0 {
      NoLines("");
      NoCommands();
    } else {
      OneCommand(commands[0], withCr[0], Written(commands[1..], withCr[1..]));
      WrittenLines(commands[1..], withCr[1..]);
    }
  }

  /** Plain commands are answered by exactly those commands, in order, whichever way their lines
      end and however the stream is cut, as long as no chunk fills the buffer. */
  lemma PlainCommandsServed(commands: seq<string>, withCr: seq<bool>, chunks: seq<string>)
    requires |withCr| == |commands| && forall i :: 0 <= i < |commands| ==> Plain(commands[i])
    requires Flatten(chunks) == Written(commands, withCr) && NeverFills([], chunks)
    ensures ReceiveAll([], chunks) == Run(Answers(commands), "")
  {
    hide Lines, Residue, Commands, Written, Flatten, NeverFills, Plain;
    ChunkInvariance([], chunks);
    assert [] + Flatten(chunks) == Flatten(chunks);
    WrittenLines(commands, withCr);
  }

  // ---------------------------------------------------------------------------------------
  // The client's buffer
  // ---------------------------------------------------------------------------------------

  class Client {
    var fd: int
    var buffer: array<char>
    var size: nat
    var replies: seq<Reply>

    ghost predicate Valid()
      reads this, buffer
    {
      buffer.Length == BUFFER_SIZE && size < BUFFER_SIZE && NoLf(buffer[..size])
    }

    constructor ()
      ensures Valid() && size == 0 && replies == [] && fresh(buffer)
    {
      fd := -1;
      buffer := new char[BUFFER_SIZE](_ => NUL);
      size := 0;
      replies := [];
    }

    method Accept(clientFd: int)
      requires Valid()
      modifies this`fd, this`size
      ensures Valid() && fd == clientFd && size == 0
    {
      fd := clientFd;
      size := 0;
    }

    method Close()
      requires Valid()
      modifies this`fd, this`size
      ensures Valid()
      ensures fd == if old(fd) >= 0 then -1 else old(fd)
      ensures size == if old(fd) >= 0 then 0 else old(size)
    {
      if fd >= 0 {
        fd := -1;
        size := 0;
      }
    }

    /** One `recv` of what the peer sent, empty when the peer closed or the call failed. The
        call is asked for the rest of the buffer, which is at least one byte. */
    method Recv(data: string)
      requires Valid() && fd >= 0
      requires |data| <= BUFFER_SIZE - size
      modifies this, buffer
      ensures Valid() && buffer == old(buffer)
      ensures |data| == 0 ==> fd == -1 && size == 0 && replies == old(replies)
      ensures |data| > 0 ==> fd == old(fd)
      ensures |data| > 0 ==> replies == old(replies) + Receive(old(buffer[..size]), data).replies
      ensures |data| > 0 ==> buffer[..size] == Receive(old(buffer[..size]), data).residue
      ensures BUFFER_SIZE - size >= 1
    {
      if |data| == 0 {
        Close();
        return;
      }
      ghost var residue := buffer[..size];
      forall i | 0 <= i < |data| {
        buffer[size + i] := data[i];
      }
      size := size + |data|;
      assert buffer[..size] == residue + data;
      if size >= BUFFER_SIZE {
        size := 0;
        replies := replies + [TooLong];
      } else {
        ProcessBuffer();
      }
    }

    /** Dispatches every finished line and moves what is left to the front of the buffer. */
    method ProcessBuffer()
      requires buffer.Length == BUFFER_SIZE && size < BUFFER_SIZE
      modifies this`size, this`replies, buffer
      ensures size < BUFFER_SIZE
      ensures buffer[..size] == Residue(old(buffer[..size]))
      ensures replies == old(replies) + Commands(Lines(old(buffer[..size])))
    {
      var processed := DispatchLines();
      if processed > 0 {
        ghost var rest := buffer[processed..size];
        forall i | 0 <= i < size - processed {
          buffer[i] := buffer[processed + i];
        }
        size := size - processed;
        assert buffer[..size] == rest;
      }
    }

    /** Dispatches the finished lines one after another, up to where no newline is left. */
    method DispatchLines() returns (processed: nat)
      requires buffer.Length == BUFFER_SIZE && size < BUFFER_SIZE
      modifies this`replies
      ensures processed <= size
      ensures buffer[processed..size] == Residue(buffer[..size])
      ensures replies == old(replies) + Commands(Lines(buffer[..size]))
    {
      hide Lines, Residue, FirstLf, Commands;
      processed := 0;
      ghost var text := buffer[..size];
      ghost var before := replies;
      ghost var done: seq<Reply> := [];
      assert text[0..] == text;
      while processed < size
        invariant processed <= size
        invariant replies == before + done
        invariant done + Commands(Lines(text[processed..])) == Commands(Lines(text))
        invariant Residue(text[processed..]) == Residue(text)
      {
        var found, newline := Memchr(processed);
        assert text[processed..] == buffer[processed..size];
        if !found {
          break;
        }
        assert text[processed..][..newline - processed] == buffer[processed..newline];
        FirstLfIs(text[processed..], newline - processed);
        LinesFrom(text, processed, newline);
        assert text[processed..newline] == buffer[processed..newline];
        DispatchLine(processed, newline);
        done := done + Commands([text[processed..newline]]);
        processed := newline + 1;
      }
      assert text[processed..] == buffer[processed..size];
      NoLines(text[processed..]);
      NoCommands();
    }

    method Memchr(from: nat) returns (found: bool, at: nat)
      requires from <= size <= buffer.Length
      ensures found ==> from <= at < size && buffer[at] == LF && NoLf(buffer[from..at])
      ensures !found ==> NoLf(buffer[from..size])
    {
      at := from;
      while at < size
        invariant from <= at <= size && NoLf(buffer[from..at])
      {
        if buffer[at] == LF {
          return true, at;
        }
        assert buffer[from..at + 1] == buffer[from..at] + [buffer[at]];
        at := at + 1;
      }
      found := false;
    }

    /** Copies a line out of the buffer, drops its carriage return and hands it on. */
    method DispatchLine(processed: nat, newline: nat)
      requires buffer.Length == BUFFER_SIZE && processed <= newline < size < BUFFER_SIZE
      modifies this`replies
      ensures replies == old(replies) + Commands([buffer[processed..newline]])
    {
      var lineLength := newline - processed;
      if lineLength >= BUFFER_SIZE {
        lineLength := BUFFER_SIZE - 1;
      }
      var line := new char[BUFFER_SIZE](_ => NUL);
      forall i | 0 <= i < lineLength {
        line[i] := buffer[processed + i];
      }
      ghost var raw := buffer[processed..newline];
      assert line[..lineLength] == raw;
      line[lineLength] := NUL;
      var end := lineLength;
      if lineLength > 0 && line[lineLength - 1] == CR {
        line[lineLength - 1] := NUL;
        end := lineLength - 1;
      }
      assert line[..end] == raw[..end];
      UpToNulStops(line[..], end);
      replies := replies + [Command(UpToNul(line[..]))];
    }
  }

  lemma FirstLfIs(s: string, k: nat)
    requires k < |s| && s[k] == LF && NoLf(s[..k])
    ensures FirstLf(s) == k
  {
    var f := FirstLf(s);
    assert forall i :: 0 <= i < f ==> s[i] in s[..f];
    assert forall i :: 0 <= i < k ==> s[i] in s[..k];
  }

  /** One turn of the line loop. */
  lemma LinesFrom(text: string, processed: nat, newline: nat)
    requires processed <= newline < |text| && FirstLf(text[processed..]) == newline - processed
    ensures Commands(Lines(text[processed..]))
         == Commands([text[processed..newline]]) + Commands(Lines(text[newline + 1..]))
    ensures Residue(text[processed..]) == Residue(text[newline + 1..])
  {
    var s, k := text[processed..], newline - processed;
    assert s[..k] == text[processed..newline];
    assert s[k + 1..] == text[newline + 1..];
    CommandsOfConcat([s[..k]], Lines(s[k + 1..]));
  }
}
