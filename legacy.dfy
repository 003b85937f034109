/**
  `SingleInstance`, the older single-instance class: ownership fixed when the
  named mutex is created in the constructor, arguments passed to the first
  instance one per line over a named pipe, and the dispose pattern with a
  finalizer.
*/
module Legacy {
  import opened Wrappers

  datatype Failure = InvalidOperation(message: string)

  const FirstInstanceMessage := "This is the first instance."
  const NotFirstInstanceMessage := "This is not the first instance."
  /** What `PipeStream` raises when it is flushed before it was connected. */
  const PipeNotConnectedMessage := "Pipe hasn't been connected yet."

  /** The line terminator `StreamWriter.WriteLine` appends (`Environment.NewLine` on Windows). */
  const NewLine: string := "\r\n"

  /** The text the writer is given for the arguments: each one and a line terminator, in order. */
  function Lines(arguments: seq<string>): (r: string)
    ensures |r| >= 2 * |arguments|
    ensures r == "" <==> arguments == []
  {
    if arguments == [] then "" else arguments[0] + NewLine + Lines(arguments[1..])
  }

  lemma {:induction false} LinesSnoc(arguments: seq<string>, i: nat)
    requires i < |arguments|
    ensures Lines(arguments[..i + 1]) == Lines(arguments[..i]) + arguments[i] + NewLine
  {
    if i == 0 {
      assert arguments[..1][1..] == [];
    } else {
      assert arguments[..i + 1][1..] == arguments[1..][..i];
      assert arguments[..i][1..] == arguments[1..][..i - 1];
      LinesSnoc(arguments[1..], i - 1);
    }
  }

  predicate IsLineBreak(c: char) {
    c == '\r' || c == '\n'
  }

  /** An argument that a line reader gives back unchanged: it holds no line break. */
  predicate IsSingleLine(s: string) {
    forall i :: 0 <= i < |s| ==> !IsLineBreak(s[i])
  }

  /** Where the first line of `text` ends: the first line break, or the end of the text. */
  function LineLength(text: string): (n: nat)
    ensures n <= |text|
    ensures IsSingleLine(text[..n])
    ensures n < |text| ==> IsLineBreak(text[n])
  {
    if text == [] || IsLineBreak(text[0]) then 0
    else
      var n := 1 + LineLength(text[1..]);
      assert forall i :: 1 <= i < n ==> text[..n][i] == text[1..][..n - 1][i - 1];
      n
  }

  /**
    `StreamReader.ReadLine`: the text up to the first "\r", "\n" or "\r\n",
    with the rest after that terminator; no line (null) at the end of the stream.
  */
  function ReadLine(text: string): (r: (Option<string>, string))
    ensures text == [] <==> r.0.None?
    ensures |r.1| < |text| || text == []
    ensures r.0.Some? ==> IsSingleLine(r.0.value) && r.0.value <= text
  {
    if text == [] then (None, [])
    else
      var n := LineLength(text);
      if n == |text| then
        assert text[..n] == text;
        (Some(text), [])
      else if text[n] == '\r' && n + 1 < |text| && text[n + 1] == '\n' then (Some(text[..n]), text[n + 2..])
      else (Some(text[..n]), text[n + 1..])
  }

  /**
    The line and the rest of a non-empty text are separated by the end of the
    text, by "\r\n", by "\n", or by a "\r" that no "\n" follows.
  */
  lemma ReadLineTerminator(text: string)
    requires text != []
    ensures var r := ReadLine(text);
      || (text == r.0.value && r.1 == [])
      || text == r.0.value + "\r\n" + r.1
      || text == r.0.value + "\n" + r.1
      || (text == r.0.value + "\r" + r.1 && (r.1 == [] || r.1[0] != '\n'))
  {
    var n := LineLength(text);
    if n == |text| {
      assert text[..n] == text;
    } else if text[n] == '\r' && n + 1 < |text| && text[n + 1] == '\n' {
      assert text == text[..n] + "\r\n" + text[n + 2..];
    } else {
      assert text == text[..n] + [text[n]] + text[n + 1..];
    }
  }

  /** What `count` successive `ReadLine` calls return. */
  function ReadLines(text: string, count: nat): seq<Option<string>>
    decreases count
  {
    if count == 0 then [] else
      var r := ReadLine(text);
      [r.0] + ReadLines(r.1, count - 1)
  }

  lemma ReadLinesStep(text: string, count: nat)
    requires count > 0
    ensures ReadLines(text, count) == [ReadLine(text).0] + ReadLines(ReadLine(text).1, count - 1)
  {
  }

  /**
    The read loop of a listener: one `ReadLine` for each of the `polls` times
    the pipe still reports itself connected, collecting what each returns.
  */
  method ReadArguments(text: string, polls: nat) returns (arguments: seq<Option<string>>)
    ensures arguments == ReadLines(text, polls)
  {
    arguments := [];
    var rest := text;
    var k := 0;
    while k < polls
      invariant k <= polls
      invariant arguments + ReadLines(rest, polls - k) == ReadLines(text, polls)
    {
      var line := ReadLine(rest);
      ReadLinesStep(rest, polls - k);
      arguments := arguments + [line.0];
      rest := line.1;
      k := k + 1;
    }
  }

  function Somes(arguments: seq<string>): (r: seq<Option<string>>)
    ensures |r| == |arguments|
    ensures forall i :: 0 <= i < |r| ==> r[i] == Some(arguments[i])
  {
    if arguments == [] then [] else [Some(arguments[0])] + Somes(arguments[1..])
  }

  lemma ReadLineOfLine(argument: string, rest: string)
    requires IsSingleLine(argument)
    ensures ReadLine(argument + NewLine + rest) == (Some(argument), rest)
  {
    var text := argument + NewLine + rest;
    assert text[..|argument|] == argument && text[|argument|] == '\r' && text[|argument| + 1] == '\n';
    assert LineLength(text) == |argument|;
    assert text[|argument| + 2..] == rest;
  }

  /** A line followed by a line break ends there. */
  lemma {:induction false} LineLengthAtBreak(line: string, rest: string)
    requires IsSingleLine(line) && rest != [] && IsLineBreak(rest[0])
    ensures LineLength(line + rest) == |line|
  {
    if line == [] {
      assert line + rest == rest;
    } else {
      assert (line + rest)[1..] == line[1..] + rest;
      assert IsSingleLine(line[1..]) by {
        assert forall i :: 0 <= i < |line| - 1 ==> line[1..][i] == line[i + 1];
      }
      LineLengthAtBreak(line[1..], rest);
    }
  }

  /**
    An argument that holds a line break is cut at its first one: the reader
    returns only the text before it, and the rest arrives as further lines.
  */
  lemma {:induction false} ReadLineCutsArgument(argument: string, rest: string)
    requires !IsSingleLine(argument)
    ensures LineLength(argument) < |argument|
    ensures ReadLine(argument + NewLine + rest).0 == Some(argument[..LineLength(argument)])
  {
    var n := LineLength(argument);
    var tail := argument[n..] + NewLine + rest;
    var text := argument[..n] + tail;
    assert argument + NewLine + rest == text by {
      assert argument == argument[..n] + argument[n..];
    }
    assert tail[0] == argument[n];
    LineLengthAtBreak(argument[..n], tail);
    ReadLineBeforeBreak(text);
    assert text[..n] == argument[..n];
  }

  lemma ReadLineBeforeBreak(text: string)
    requires LineLength(text) < |text|
    ensures ReadLine(text).0 == Some(text[..LineLength(text)])
  {
  }

  lemma {:induction false} ReadLineOfLineFeed(line: string, rest: string)
    requires IsSingleLine(line)
    ensures ReadLine(line + "\n" + rest) == (Some(line), rest)
  {
    var text := line + "\n" + rest;
    LineLengthAtBreak(line, "\n" + rest);
    assert text == line + ("\n" + rest);
    assert text[..|line|] == line && text[|line|] == '\n' && text[|line| + 1..] == rest;
  }

  /** One argument "a\nb" is read back as the two lines "a" and "b". */
  lemma {:induction false} ArgumentSplitInTwo(a: string, b: string)
    requires IsSingleLine(a) && IsSingleLine(b)
    ensures ReadLines(Lines([a + "\n" + b]), 3) == [Some(a), Some(b), None]
  {
    var text := a + "\n" + (b + NewLine);
    assert Lines([a + "\n" + b]) == text by {
      assert [a + "\n" + b][1..] == [];
    }
    ReadLineOfLineFeed(a, b + NewLine);
    ReadLineOfLine(b, "");
    assert b + NewLine + "" == b + NewLine;
    assert ReadLines("", 1) == [None];
  }

  /**
    Arguments written one per line are read back in the same order, one per
    `ReadLine`, when none contains a line break; the next read finds the end.
  */
  lemma {:induction false} ReadLinesOfLines(arguments: seq<string>)
    requires forall i :: 0 <= i < |arguments| ==> IsSingleLine(arguments[i])
    ensures ReadLines(Lines(arguments), |arguments| + 1) == Somes(arguments) + [None]
  {
    if arguments == [] {
      assert ReadLines("", 1) == [None];
    } else {
      var rest := Lines(arguments[1..]);
      assert Lines(arguments) == arguments[0] + NewLine + rest;
      ReadLineOfLine(arguments[0], rest);
      ReadLinesOfLines(arguments[1..]);
    }
  }

  /** How the client's pipe behaves: no server within the 200 ms, a break at a write, or none. */
  datatype ClientPipe =
    | ConnectTimeout
    | BreaksAt(write: nat)    // the write with this index fails; past the last one, the final flush fails
    | Healthy

  /** What the server's end of one connection delivers: a broken pipe, or text while it stays connected. */
  datatype ServerSession =
    | Broken
    | Connected(text: string, polls: nat)  // `IsConnected` holds for `polls` loop tests

  function Min(a: nat, b: nat): nat {
    if a < b then a else b
  }

  class SingleInstance {
    const identifier: string
    const ownsMutex: bool
    /** `_mutex != null` */
    var mutexPresent: bool
    /** How often `ReleaseMutex` was called */
    ghost var releases: nat
    var disposedValue: bool
    /** What `_argumentsReceived` has published, and whether it was completed */
    var argumentsReceived: seq<seq<Option<string>>>
    var argumentsCompleted: bool
    /** Listening work items queued on the thread pool */
    var listenersQueued: nat

    ghost predicate Valid()
      reads this
    {
      && releases <= 1
      && (releases == 0 <==> mutexPresent)
      && (!mutexPresent ==> ownsMutex && disposedValue)
      && (argumentsCompleted ==> disposedValue)
    }

    /** The constructor creates the named mutex with initial ownership; `createdNew` is its report. */
    constructor (identifier: string, createdNew: bool)
      ensures Valid()
      ensures this.identifier == identifier && ownsMutex == createdNew
      ensures mutexPresent && releases == 0 && !disposedValue
      ensures argumentsReceived == [] && !argumentsCompleted && listenersQueued == 0
    {
      this.identifier := identifier;
      ownsMutex := createdNew;
      mutexPresent := true;
      releases := 0;
      disposedValue := false;
      argumentsReceived := [];
      argumentsCompleted := false;
      listenersQueued := 0;
    }

    /** `IsFirstInstance`: an instance that does not own the mutex never releases it. */
    function IsFirstInstance(): (r: bool)
      reads this
      ensures Valid() && !r ==> mutexPresent && releases == 0
    {
      ownsMutex
    }

    /**
      `PassArgumentsToFirstInstance` as its documentation and its timeout
      handler intend: refused on the first instance. Otherwise true exactly
      when connecting and every write succeed; a connect timeout or a broken
      pipe gives false instead of an exception. `sent` is the text the writer
      accepted: the arguments one per line, in order, up to a break.
    */
    method PassArgumentsToFirstInstance(arguments: seq<string>, pipe: ClientPipe) returns (r: Result<bool, Failure>, sent: string)
      ensures IsFirstInstance() ==> r == Failure(InvalidOperation(FirstInstanceMessage)) && sent == ""
      ensures !IsFirstInstance() ==> r == Success(pipe.Healthy?)
      ensures !IsFirstInstance() ==>
        sent == match pipe
                case ConnectTimeout => ""
                case BreaksAt(k) => Lines(arguments[..Min(k, |arguments|)])
                case Healthy => Lines(arguments)
    {
      sent := "";
      if IsFirstInstance() {
        return Failure(InvalidOperation(FirstInstanceMessage)), sent;
      }
      if pipe.ConnectTimeout? {
        return Success(false), sent;
      }
      var i := 0;
      while i < |arguments|
        invariant i <= |arguments|
        invariant sent == Lines(arguments[..i])
        invariant pipe.BreaksAt? ==> i <= pipe.write
      {
        if pipe.BreaksAt? && pipe.write == i {
          return Success(false), sent;
        }
        LinesSnoc(arguments, i);
        sent := sent + arguments[i] + NewLine;
        i := i + 1;
      }
      assert arguments[..i] == arguments;
      if pipe.BreaksAt? {
        // the writer's flush on disposal meets the broken pipe
        return Success(false), sent;
      }
      r := Success(true);
    }

    /**
      `PassArgumentsToFirstInstance` as the code stands. After a connect
      timeout the `using` writer is disposed, and its flush on the pipe that
      never connected raises an `InvalidOperationException`; it replaces the
      timeout and neither handler catches it. Every other path is the one of
      `PassArgumentsToFirstInstance`.
    */
    method PassArgumentsAsWritten(arguments: seq<string>, pipe: ClientPipe) returns (r: Result<bool, Failure>, sent: string)
      ensures IsFirstInstance() ==> r == Failure(InvalidOperation(FirstInstanceMessage)) && sent == ""
      ensures !IsFirstInstance() && pipe.ConnectTimeout? ==> r == Failure(InvalidOperation(PipeNotConnectedMessage)) && sent == ""
      ensures !IsFirstInstance() && !pipe.ConnectTimeout? ==> r == Success(pipe.Healthy?)
      ensures !IsFirstInstance() && !pipe.ConnectTimeout? ==>
        sent == match pipe
                case BreaksAt(k) => Lines(arguments[..Min(k, |arguments|)])
                case _ => Lines(arguments)
    {
      if !IsFirstInstance() && pipe.ConnectTimeout? {
        return Failure(InvalidOperation(PipeNotConnectedMessage)), "";
      }
      r, sent := PassArgumentsToFirstInstance(arguments, pipe);
    }

    /** `ListenForArgumentsFromSuccessiveInstances`: only the first instance queues a listener. */
    method ListenForArgumentsFromSuccessiveInstances() returns (r: Outcome<Failure>)
      modifies this`listenersQueued
      ensures r == if IsFirstInstance() then Pass else Fail(InvalidOperation(NotFirstInstanceMessage))
      ensures listenersQueued == old(listenersQueued) + if r.Pass? then 1 else 0
    {
      if !IsFirstInstance() {
        return Fail(InvalidOperation(NotFirstInstanceMessage));
      }
      listenersQueued := listenersQueued + 1;
      r := Pass;
    }

    /**
      One connection served by a queued listener: a line is read each time the
      pipe still reports itself connected, and the lines read are published
      together. A broken pipe publishes nothing.
    */
    method ListenForArguments(session: ServerSession)
      requires Valid() && listenersQueued > 0
      modifies this`argumentsReceived
      ensures Valid()
      ensures argumentsReceived ==
        if session.Broken? || argumentsCompleted then old(argumentsReceived)
        else old(argumentsReceived) + [ReadLines(session.text, session.polls)]
    {
      if session.Broken? {
        return;
      }
      var arguments := ReadArguments(session.text, session.polls);
      if !argumentsCompleted {
        argumentsReceived := argumentsReceived + [arguments];
      }
    }

    /**
      `Dispose(bool)`: the first call marks the object disposed; when called
      from `Dispose()` it also releases the mutex if it is owned and present,
      and completes the arguments stream. Later calls change nothing.
    */
    method DisposeCore(disposing: bool)
      requires Valid()
      modifies this`mutexPresent, this`releases, this`argumentsCompleted, this`disposedValue
      ensures Valid()
      ensures disposedValue
      ensures old(disposedValue) ==> mutexPresent == old(mutexPresent) && releases == old(releases) && argumentsCompleted == old(argumentsCompleted)
      ensures !old(disposedValue) ==>
        && mutexPresent == (old(mutexPresent) && !(disposing && ownsMutex))
        && releases == old(releases) + (if disposing && ownsMutex && old(mutexPresent) then 1 else 0)
        && argumentsCompleted == (old(argumentsCompleted) || disposing)
    {
      if disposedValue {
        return;
      }
      if disposing {
        if mutexPresent && ownsMutex {
          releases := releases + 1;
          mutexPresent := false;
        }
        argumentsCompleted := true;
      }
      disposedValue := true;
    }

    /** `Dispose()`. */
    method Dispose()
      requires Valid()
      modifies this`mutexPresent, this`releases, this`argumentsCompleted, this`disposedValue
      ensures Valid() && disposedValue
      ensures old(disposedValue) ==> mutexPresent == old(mutexPresent) && releases == old(releases) && argumentsCompleted == old(argumentsCompleted)
      ensures !old(disposedValue) ==> argumentsCompleted && mutexPresent == (old(mutexPresent) && !ownsMutex)
      ensures releases <= 1 && (releases == 1 <==> !mutexPresent)
    {
      DisposeCore(true);
    }

    /** The finalizer: marks the object disposed, releasing and completing nothing. */
    method Finalize()
      requires Valid()
      modifies this`mutexPresent, this`releases, this`argumentsCompleted, this`disposedValue
      ensures Valid() && disposedValue
      ensures mutexPresent == old(mutexPresent) && releases == old(releases) && argumentsCompleted == old(argumentsCompleted)
    {
      DisposeCore(false);
    }
  }
}
