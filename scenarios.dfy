/**
  Situations from the repository's unit tests, and one of the legacy client,
  replayed against the model; each assertion is a consequence of the
  contracts alone.
*/
module Scenarios {
  import opened Wrappers
  import opened Utf8
  import opened Framing
  import opened Service
  import Legacy

  /**
    Two services on one identifier, as in TestSingleInstance: the first to
    create the mutex owns it, the second does not, and asking again repeats
    the first answer. After disposal every guarded operation is refused.
  */
  method TwoInstances() returns (firstOwns: Result<bool, Failure>, secondOwns: Result<bool, Failure>, afterDispose: Result<bool, Failure>)
    ensures firstOwns == Success(true) && secondOwns == Success(false)
    ensures afterDispose == Failure(ObjectDisposed(DisposedMessage))
  {
    var first := new SingleInstanceService("Global\\SingleInstance.Test1");
    assert !first.IsFirstInstance();
    firstOwns := first.TryStartSingleInstance(true);
    assert first.IsFirstInstance();

    var second := new SingleInstanceService("Global\\SingleInstance.Test1");
    secondOwns := second.TryStartSingleInstance(false);
    assert !second.IsFirstInstance();
    // the mutex is not asked again: the first answer stands
    var again := second.TryStartSingleInstance(true);
    assert again == Success(false);

    first.Dispose();
    first.Dispose();
    afterDispose := first.TryStartSingleInstance(true);
    var sent, _ := first.SendMessageToFirstInstance("ping", Replied([]));
    assert sent.Failure?;
    var started := first.StartListenServer();
    assert started == Fail(ObjectDisposed(DisposedMessage));
  }

  /** A byte stream cut into two reads before its last byte. */
  lemma SplitBeforeLast(s: seq<Byte>)
    requires |s| > 0
    ensures Concat([s[..|s| - 1], s[|s| - 1..]]) == s
  {
    assert [s[..|s| - 1], s[|s| - 1..]][..1] == [s[..|s| - 1]];
    assert Concat([s[..|s| - 1]]) == [] + s[..|s| - 1];
  }

  /**
    The guards of TestSendMessageToFirstInstanceAsync: only the first
    instance listens, and only once.
  */
  method ListenGuards() returns (started: Outcome<Failure>, startedAgain: Outcome<Failure>, startedByClient: Outcome<Failure>)
    ensures started == Pass
    ensures startedAgain == Fail(InvalidOperation(AlreadyStartedMessage))
    ensures startedByClient == Fail(InvalidOperation(NotFirstInstanceMessage))
  {
    var server := new SingleInstanceService("Global\\SingleInstance.Test2");
    var owned := server.TryStartSingleInstance(true);
    var client := new SingleInstanceService("Global\\SingleInstance.Test2");
    owned := client.TryStartSingleInstance(false);

    started := server.StartListenServer();
    startedAgain := server.StartListenServer();
    startedByClient := client.StartListenServer();
  }

  /**
    The first instance's side of UnitTest.cs:55-89: the request for `question`
    arrives with its delimiter split across two reads, is published once, and
    the subscriber answers through the request's reply output; a second answer
    is refused. The result is what the connection carries back.
  */
  method ServeRequest(question: string, answer: string) returns (written: seq<Byte>)
    requires Transportable(question)
    ensures written == EncodeFrame(answer)
  {
    var server := new SingleInstanceService("Global\\SingleInstance.Test2");
    var owned := server.TryStartSingleInstance(true);
    var started := server.StartListenServer();

    var request := EncodeFrame(question);
    var chunks := [request[..|request| - 1], request[|request| - 1..]];
    SplitBeforeLast(request);
    PublishesFrame(Accepted(chunks), question);
    var running := server.ListenStep(Accepted(chunks));
    assert server.Messages() == [question];
    var pending := server.received[0];
    assert pending.message == question;

    var answered := SendResponse(pending.reply, answer, false);
    assert answered == Pass;
    written := pending.reply.written;
    var again := SendResponse(pending.reply, answer, false);
    assert again == Fail(WriterCompleted) && pending.reply.written == written;
  }

  /**
    A subscriber answers a request whose client has already gone: the frame
    is written to the output, and the flush on completing it fails.
  */
  method ReplyToDepartedClient(answer: string) returns (r: Outcome<Failure>, written: seq<Byte>)
    ensures r == Fail(BrokenPipe) && written == EncodeFrame(answer)
  {
    var reply := new OutputPipe();
    r := SendResponse(reply, answer, true);
    written := reply.written;
  }

  /**
    The client's side of UnitTest.cs:55-89: the frame of the question goes
    out, and the first instance's answer comes back as the result.
  */
  method RequestAndReply(question: string, answer: string) returns (reply: Result<string, Failure>, wire: seq<Byte>)
    requires Transportable(question) && !ContainsCrLf(answer)
    ensures reply == Success(answer) && wire == EncodeFrame(question)
  {
    var written := ServeRequest(question, answer);
    assert Concat([written]) == written by {
      assert [written][..0] == [];
    }
    assert FirstFrame(written) == answer by {
      ReadFrameOfMessage(answer, []);
      assert EncodeFrame(answer) + [] == written;
    }
    var client := new SingleInstanceService("Global\\SingleInstance.Test2");
    var owned := client.TryStartSingleInstance(false);
    reply, wire := client.SendMessageToFirstInstance(question, Replied([written]));
  }

  /**
    A successive legacy instance whose connect times out: as written the call
    ends in an exception, where the intended result is false.
  */
  method LegacyConnectTimeout() returns (asWritten: Result<bool, Legacy.Failure>, intended: Result<bool, Legacy.Failure>)
    ensures asWritten == Failure(Legacy.InvalidOperation(Legacy.PipeNotConnectedMessage))
    ensures intended == Success(false)
  {
    var instance := new Legacy.SingleInstance("SingleInstance.Legacy", false);
    var arguments := ["--open", "file.txt"];
    var sent: string;
    asWritten, sent := instance.PassArgumentsAsWritten(arguments, Legacy.ConnectTimeout);
    intended, sent := instance.PassArgumentsToFirstInstance(arguments, Legacy.ConnectTimeout);
  }
}
