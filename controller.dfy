/** The run controller of Torrent2LS (Program.Run, Program.Exit,
    Program.PostTorrent): it checks the arguments, resolves the device
    address, uploads the torrent, notifies the user and sets the process
    exit code.

    The program's surroundings are inputs to the model: the file system is
    a map from existing paths to their bytes, reading the configuration
    file and parsing an address are outcomes given in advance, and the
    HTTP transport either throws or answers with a text. What the program
    does to the outside world is recorded, in order, as events. */
module Controller {
  import opened Encoding
  import opened Multipart
  import opened Response

  datatype Icon = Info | Error

  /** The outcome of a call that can throw; `cause` is the exception text. */
  datatype Outcome<T> = Ok(value: T) | Threw(cause: string)

  /** What the HTTP transport does with the one request. */
  datatype Transport =
    | StreamFails(cause: string)    // creating the request or opening its stream throws
    | ResponseFails(cause: string)  // the body is written, then getting the response throws
    | Responds(text: string)        // the device answers with this text

  /** The program's effects, in the order it performs them. */
  datatype Event =
    | Notified(message: string, icon: Icon)      // Notify: a balloon tip
    | Exited(code: int)                          // Exit: the exit code is written
    | ConfigRead(path: string)                   // the configuration file is read
    | AddressParsed(text: string)                // IPAddress.Parse is called
    | RequestStarted(url: string, contentType: string)  // the one upload is attempted
    | BodySent(body: seq<byte>)                  // the request body as written
    | ResponseReceived(text: string)             // the response body as read

  /** Everything outside the program that a run depends on. */
  datatype World = World(
    files: map<string, seq<byte>>,               // existing files and their bytes
    startupPath: string,                         // Application.StartupPath
    config: Outcome<string>,                     // reading lsip.txt to the end
    parseAddress: string -> Outcome<string>,     // IPAddress.Parse, then ToString
    ticks: nat,                                  // DateTime.Now.Ticks
    transport: Transport)

  // ---------------------------------------------------------------------
  // Messages and paths

  const NoArgumentMessage: string := "Argument 1 must be a valid torrent."

  function NotAFileMessage(path: string): string
  {
    "Argument is not a valid file:\n" + path
  }

  function ConfigPath(startupPath: string): string
  {
    startupPath + "\\lsip.txt"
  }

  function ConfigErrorMessage(configPath: string, cause: string): string
  {
    "Error while getting LinkStation IP from config file: " + configPath + "\n" + cause
  }

  function AcceptedMessage(name: string): string
  {
    "Torrent added successfully: " + name
  }

  function RejectedMessage(name: string): string
  {
    "LinkStation did not accept torrent: " + name
  }

  function PostErrorMessage(cause: string): string
  {
    "Error while posting to LinkStation:\n" + cause
  }

  /** The exception BinaryReader.ReadBytes throws for a negative count. */
  const CountOutOfRange: string := "System.ArgumentOutOfRangeException"

  predicate IsSeparator(c: char)
  {
    c == '\\' || c == '/' || c == ':'
  }

  /** FileInfo.Name: the last component of a path, after its last
      directory or volume separator. */
  function FileName(path: string): (name: string)
    ensures |name| <= |path| && name == path[|path| - |name|..]
    ensures forall i :: 0 <= i < |name| ==> !IsSeparator(name[i])
    ensures |name| < |path| ==> IsSeparator(path[|path| - |name| - 1])
  {
    if path == [] then []
    else if IsSeparator(path[|path| - 1]) then []
    else FileName(path[..|path| - 1]) + [path[|path| - 1]]
  }

  // ---------------------------------------------------------------------
  // The exit code

  /** The codes the events write to Environment.ExitCode, in order. */
  function ExitCodes(events: seq<Event>): (codes: seq<int>)
    ensures |codes| <= |events|
  {
    if events == [] then []
    else
      var rest := ExitCodes(events[1..]);
      if events[0].Exited? then [events[0].code] + rest else rest
  }

  /** A code is written exactly when an Exit with that code occurs. */
  lemma {:induction false} ExitCodesMembers(events: seq<Event>, c: int)
    ensures c in ExitCodes(events) <==> Exited(c) in events
  {
    if events != [] {
      ExitCodesMembers(events[1..], c);
      assert Exited(c) in events <==> events[0] == Exited(c) || Exited(c) in events[1..];
    }
  }

  lemma {:induction false} ExitCodesAppend(a: seq<Event>, b: seq<Event>)
    ensures ExitCodes(a + b) == ExitCodes(a) + ExitCodes(b)
  {
    if a == [] {
      assert a + b == b;
    } else {
      assert (a + b)[1..] == a[1..] + b;
      ExitCodesAppend(a[1..], b);
    }
  }

  /** Every Exit overwrites the exit code: the last write wins, and
      without any the code keeps its `initial` value. */
  function FinalExitCode(initial: int, events: seq<Event>): (code: int)
    ensures code == initial || Exited(code) in events
    ensures (forall e :: e in events ==> !e.Exited?) ==> code == initial
    ensures events != [] && events[|events| - 1].Exited? ==> code == events[|events| - 1].code
  {
    var codes := ExitCodes(events);
    ExitCodesFacts(events);
    if codes == [] then initial else codes[|codes| - 1]
  }

  /** The last code written comes from an Exit among the events, there
      is one exactly when some Exit ran, and an Exit at the end of the
      events wrote it. */
  lemma ExitCodesFacts(events: seq<Event>)
    ensures var codes := ExitCodes(events);
      (codes != [] ==> Exited(codes[|codes| - 1]) in events)
      && ((forall e :: e in events ==> !e.Exited?) ==> codes == [])
      && (events != [] && events[|events| - 1].Exited? ==>
            codes != [] && codes[|codes| - 1] == events[|events| - 1].code)
  {
    var codes := ExitCodes(events);
    if codes != [] {
      ExitCodesMembers(events, codes[|codes| - 1]);
    }
    if events != [] && events[|events| - 1].Exited? {
      var n := |events|;
      assert events == events[..n - 1] + [events[n - 1]];
      ExitCodesAppend(events[..n - 1], [events[n - 1]]);
      assert [events[n - 1]][1..] == [];
    }
  }

  lemma FinalExitCodeAppend(initial: int, a: seq<Event>, b: seq<Event>)
    ensures FinalExitCode(initial, a + b) == FinalExitCode(FinalExitCode(initial, a), b)
  {
    ExitCodesAppend(a, b);
  }

  // ---------------------------------------------------------------------
  // Specification of a run

  function PostFailure(cause: string): seq<Event>
  {
    [Notified(PostErrorMessage(cause), Error), Exited(4)]
  }

  function VerdictNotice(name: string, text: string): Event
  {
    if Classify(text) == Accepted then Notified(AcceptedMessage(name), Info)
    else Notified(RejectedMessage(name), Error)
  }

  /** The exception PostTorrent's try block throws, if any: opening the
      request stream fails, the narrowed file length is negative
      (BinaryReader.ReadBytes), or getting the response fails. */
  function Thrown(contents: seq<byte>, transport: Transport): Option<string>
  {
    if transport.StreamFails? then Some(transport.cause)
    else if ReadCount(contents) < 0 then Some(CountOutOfRange)
    else if transport.ResponseFails? then Some(transport.cause)
    else None
  }

  /** The effects of PostTorrent's try block up to where it completes or
      throws: the request, then the body when it could be written, then
      the answer and the verdict notice when there is one. */
  function TryEvents(name: string, contents: seq<byte>, address: string, ticks: nat, transport: Transport)
    : seq<Event>
  {
    var boundary := Boundary(ticks);
    [RequestStarted(RequestUrl(address), ContentType(boundary))]
    + if transport.StreamFails? || ReadCount(contents) < 0 then []
      else
        [BodySent(Body(boundary, name, contents[..ReadCount(contents)]))]
        + if transport.Responds? then [ResponseReceived(transport.text), VerdictNotice(name, transport.text)]
          else []
  }

  /** The catch block: the error notice and Exit(4). */
  function CatchEvents(thrown: Option<string>): seq<Event>
  {
    match thrown
    case None => []
    case Some(cause) => PostFailure(cause)
  }

  /** The events of PostTorrent. */
  function PostEvents(name: string, contents: seq<byte>, address: string, ticks: nat, transport: Transport)
    : seq<Event>
  {
    TryEvents(name, contents, address, ticks, transport) + CatchEvents(Thrown(contents, transport))
  }

  /** The text to parse as the address: the second argument when there
      are exactly two, otherwise the configuration file's text, untrimmed. */
  function AddressText(args: seq<string>, w: World): Outcome<string>
  {
    if |args| == 2 then Ok(args[1]) else w.config
  }

  /** The address step of Run (Program.cs:71-81): the address text, parsed. */
  function ResolveAddress(args: seq<string>, w: World): Outcome<string>
  {
    match AddressText(args, w)
    case Threw(cause) => Threw(cause)
    case Ok(ip) => w.parseAddress(ip)
  }

  function ParseEvents(text: Outcome<string>): seq<Event>
  {
    match text
    case Threw(_) => []
    case Ok(ip) => [AddressParsed(ip)]
  }

  function ResolutionEvents(args: seq<string>, w: World): seq<Event>
  {
    (if |args| == 2 then [] else [ConfigRead(ConfigPath(w.startupPath))])
    + ParseEvents(AddressText(args, w))
  }

  function ConfigFailure(configPath: string, cause: string): seq<Event>
  {
    [Notified(ConfigErrorMessage(configPath, cause), Error), Exited(3)]
  }

  /** What follows address resolution: the configuration error notice and
      Exit(3), or the upload and Exit of PostTorrent's result, 0. */
  function AfterResolution(args: seq<string>, w: World): seq<Event>
    requires |args| > 0 && args[0] in w.files
  {
    match ResolveAddress(args, w)
    case Threw(cause) => ConfigFailure(ConfigPath(w.startupPath), cause)
    case Ok(address) =>
      PostEvents(FileName(args[0]), w.files[args[0]], address, w.ticks, w.transport) + [Exited(0)]
  }

  /** The events of Run. */
  function RunEvents(args: seq<string>, w: World): seq<Event>
  {
    if |args| == 0 then [Notified(NoArgumentMessage, Error), Exited(1)]
    else if args[0] !in w.files then [Notified(NotAFileMessage(args[0]), Error), Exited(2)]
    else ResolutionEvents(args, w) + AfterResolution(args, w)
  }

  /** The exit code a run is meant to end with, as a decision table: 1
      without arguments, 2 for a missing file, 3 when the address cannot
      be resolved, 0 otherwise (an accepted, a rejected and a failed
      upload alike). */
  function ExpectedExitCode(args: seq<string>, w: World): int
  {
    if |args| == 0 then 1
    else if args[0] !in w.files then 2
    else if ResolveAddress(args, w).Threw? then 3
    else 0
  }

  lemma ExitCodesOfPair(e0: Event, e1: Event)
    requires !e0.Exited?
    ensures ExitCodes([e0, e1]) == if e1.Exited? then [e1.code] else []
  {
    assert [e0, e1][1..] == [e1];
    assert [e1][1..] == [];
  }

  /** The try block writes no exit code. */
  lemma TryExitCodes(name: string, contents: seq<byte>, address: string, ticks: nat, transport: Transport)
    ensures ExitCodes(TryEvents(name, contents, address, ticks, transport)) == []
  {
    var boundary := Boundary(ticks);
    var start := [RequestStarted(RequestUrl(address), ContentType(boundary))];
    var events := TryEvents(name, contents, address, ticks, transport);
    assert [start[0]][1..] == [];
    if transport.StreamFails? || ReadCount(contents) < 0 {
      assert events == start;
    } else {
      var sent := [BodySent(Body(boundary, name, contents[..ReadCount(contents)]))];
      var reply := if transport.Responds? then [ResponseReceived(transport.text), VerdictNotice(name, transport.text)]
        else [];
      assert events == start + (sent + reply);
      ExitCodesAppend(start, sent + reply);
      ExitCodesAppend(sent, reply);
      assert [sent[0]][1..] == [];
      if transport.Responds? {
        ExitCodesOfPair(reply[0], reply[1]);
      }
    }
  }

  /** PostTorrent writes the exit code 4 exactly when its try block
      throws, and writes nothing otherwise. */
  lemma PostExitCodes(name: string, contents: seq<byte>, address: string, ticks: nat, transport: Transport)
    ensures ExitCodes(PostEvents(name, contents, address, ticks, transport)) ==
      if Thrown(contents, transport).Some? then [4] else []
  {
    var thrown := Thrown(contents, transport);
    TryExitCodes(name, contents, address, ticks, transport);
    ExitCodesAppend(TryEvents(name, contents, address, ticks, transport), CatchEvents(thrown));
    if thrown.Some? {
      ExitCodesOfPair(PostFailure(thrown.value)[0], PostFailure(thrown.value)[1]);
    }
  }

  lemma ResolutionExitCodes(args: seq<string>, w: World)
    ensures ExitCodes(ResolutionEvents(args, w)) == []
  {
    ExitCodesAppend(if |args| == 2 then [] else [ConfigRead(ConfigPath(w.startupPath))],
      ParseEvents(AddressText(args, w)));
  }

  /** Past resolution: Exit(3) on a configuration error, otherwise
      PostTorrent's codes followed by the 0 it returns. */
  lemma AfterResolutionExitCodes(args: seq<string>, w: World)
    requires |args| > 0 && args[0] in w.files
    ensures ExitCodes(AfterResolution(args, w)) ==
      if ResolveAddress(args, w).Threw? then [3]
      else (if Thrown(w.files[args[0]], w.transport).Some? then [4] else []) + [0]
  {
    var after := AfterResolution(args, w);
    match ResolveAddress(args, w)
    case Threw(cause) =>
      var failure := ConfigFailure(ConfigPath(w.startupPath), cause);
      assert after == failure;
      ExitCodesOfPair(failure[0], failure[1]);
    case Ok(address) =>
      var post := PostEvents(FileName(args[0]), w.files[args[0]], address, w.ticks, w.transport);
      assert after == post + [Exited(0)];
      PostExitCodes(FileName(args[0]), w.files[args[0]], address, w.ticks, w.transport);
      ExitZeroAppends(post);
  }

  /** A final Exit(0) appends the code 0. */
  lemma ExitZeroAppends(events: seq<Event>)
    ensures ExitCodes(events + [Exited(0)]) == ExitCodes(events) + [0]
  {
    ExitCodesAppend(events, [Exited(0)]);
    assert [Exited(0)][1..] == [];
  }

  /** The exit codes a run writes, in order. On a transport failure that
      is 4 and then 0: PostTorrent returns 0 and Run passes it to Exit. */
  lemma RunExitCodes(args: seq<string>, w: World)
    ensures ExitCodes(RunEvents(args, w)) ==
      if |args| == 0 then [1]
      else if args[0] !in w.files then [2]
      else if ResolveAddress(args, w).Threw? then [3]
      else (if Thrown(w.files[args[0]], w.transport).Some? then [4] else []) + [0]
  {
    if |args| == 0 {
      ExitCodesOfPair(Notified(NoArgumentMessage, Error), Exited(1));
    } else if args[0] !in w.files {
      ExitCodesOfPair(Notified(NotAFileMessage(args[0]), Error), Exited(2));
    } else {
      ResolutionExitCodes(args, w);
      ExitCodesAppend(ResolutionEvents(args, w), AfterResolution(args, w));
      AfterResolutionExitCodes(args, w);
    }
  }

  /** Whatever the exit code was before, the run leaves the code of the
      decision table: the last Exit wins. */
  lemma RunExitCode(initial: int, args: seq<string>, w: World)
    ensures FinalExitCode(initial, RunEvents(args, w)) == ExpectedExitCode(args, w)
  {
    LastRunCode(args, w);
  }

  lemma LastRunCode(args: seq<string>, w: World)
    ensures var codes := ExitCodes(RunEvents(args, w));
      |codes| > 0 && codes[|codes| - 1] == ExpectedExitCode(args, w)
  {
    RunExitCodes(args, w);
    var codes := ExitCodes(RunEvents(args, w));
    if |args| == 0 {
      assert codes == [1];
    } else if args[0] !in w.files {
      assert codes == [2];
    } else if ResolveAddress(args, w).Threw? {
      assert codes == [3];
    } else if Thrown(w.files[args[0]], w.transport).Some? {
      assert codes == [4] + [0];
    } else {
      assert codes == [] + [0];
    }
  }

  // ---------------------------------------------------------------------
  // Properties of a run

  predicate ResolvesAddress(events: seq<Event>)
  {
    exists e :: e in events && (e.ConfigRead? || e.AddressParsed?)
  }

  predicate Uploads(events: seq<Event>)
  {
    exists e :: e in events && e.RequestStarted?
  }

  /** How many upload attempts the events hold. */
  function Attempts(events: seq<Event>): (n: nat)
    ensures n <= |events|
    ensures n == 0 <==> !Uploads(events)
  {
    if events == [] then 0
    else
      var rest := Attempts(events[1..]);
      assert forall e :: e in events <==> e == events[0] || e in events[1..];
      (if events[0].RequestStarted? then 1 else 0) + rest
  }

  lemma {:induction false} AttemptsAppend(a: seq<Event>, b: seq<Event>)
    ensures Attempts(a + b) == Attempts(a) + Attempts(b)
  {
    if a == [] {
      assert a + b == b;
    } else {
      assert (a + b)[1..] == a[1..] + b;
      AttemptsAppend(a[1..], b);
    }
  }

  /** After its first event, PostTorrent neither resolves an address nor
      starts another request. */
  lemma PostEventsAfterStart(name: string, contents: seq<byte>, address: string, ticks: nat, transport: Transport)
    ensures var post := PostEvents(name, contents, address, ticks, transport);
      |post| >= 3 && post[0] == RequestStarted(RequestUrl(address), ContentType(Boundary(ticks)))
      && forall e :: e in post[1..] ==> !e.RequestStarted? && !e.ConfigRead? && !e.AddressParsed?
  {
    TryEventsAfterStart(name, contents, address, ticks, transport);
    CatchEventsKinds(Thrown(contents, transport));
    LaterEventsKinds(TryEvents(name, contents, address, ticks, transport), CatchEvents(Thrown(contents, transport)));
  }

  /** The catch block notifies and exits, or adds nothing. */
  lemma CatchEventsKinds(thrown: Option<string>)
    ensures |CatchEvents(thrown)| == if thrown.Some? then 2 else 0
    ensures forall e :: e in CatchEvents(thrown) ==> e.Notified? || e.Exited?
  {
  }

  /** The try block's later events followed by the catch block's hold no
      request start and no configuration step. */
  lemma LaterEventsKinds(tried: seq<Event>, caught: seq<Event>)
    requires |tried| >= 1
    requires forall e :: e in tried[1..] ==> e.BodySent? || e.ResponseReceived? || e.Notified?
    requires forall e :: e in caught ==> e.Notified? || e.Exited?
    ensures forall e :: e in (tried + caught)[1..] ==> !e.RequestStarted? && !e.ConfigRead? && !e.AddressParsed?
  {
    assert (tried + caught)[1..] == tried[1..] + caught;
  }

  lemma TryEventsAfterStart(name: string, contents: seq<byte>, address: string, ticks: nat, transport: Transport)
    ensures var tried := TryEvents(name, contents, address, ticks, transport);
      |tried| >= 1 && tried[0] == RequestStarted(RequestUrl(address), ContentType(Boundary(ticks)))
      && (Thrown(contents, transport).None? ==> |tried| == 4)
      && forall e :: e in tried[1..] ==> e.BodySent? || e.ResponseReceived? || e.Notified?
  {
    var tried := TryEvents(name, contents, address, ticks, transport);
    if transport.StreamFails? || ReadCount(contents) < 0 {
      assert |tried| == 1;
    } else {
      var boundary := Boundary(ticks);
      var sent := [BodySent(Body(boundary, name, contents[..ReadCount(contents)]))];
      var reply := if transport.Responds? then [ResponseReceived(transport.text), VerdictNotice(name, transport.text)]
        else [];
      assert tried[1..] == sent + reply;
      UploadKinds(sent[0], reply);
    }
  }

  /** The body sent, then the answer and its notice or nothing. */
  lemma UploadKinds(sent: Event, reply: seq<Event>)
    requires sent.BodySent?
    requires forall e :: e in reply ==> e.ResponseReceived? || e.Notified?
    ensures forall e :: e in [sent] + reply ==> e.BodySent? || e.ResponseReceived? || e.Notified?
  {
  }

  /** When the device answers, PostTorrent's effects are the request, the
      whole narrowed body, the answer and the verdict notice, and no Exit. */
  lemma AnsweredPost(name: string, contents: seq<byte>, address: string, ticks: nat, text: string)
    requires 0 <= ReadCount(contents)
    ensures var post := PostEvents(name, contents, address, ticks, Responds(text));
      |post| == 4
      && post[0] == RequestStarted(RequestUrl(address), ContentType(Boundary(ticks)))
      && post[1] == BodySent(Body(Boundary(ticks), name, contents[..ReadCount(contents)]))
      && post[2] == ResponseReceived(text)
      && post[3] == VerdictNotice(name, text)
    ensures ExitCodes(PostEvents(name, contents, address, ticks, Responds(text))) == []
  {
    assert Thrown(contents, Responds(text)) == None;
    assert PostEvents(name, contents, address, ticks, Responds(text))
      == TryEvents(name, contents, address, ticks, Responds(text));
    PostExitCodes(name, contents, address, ticks, Responds(text));
  }

  /** Once the address is resolved a run is the resolution, PostTorrent
      and the Exit of the 0 it returns. */
  lemma UploadingRun(args: seq<string>, w: World)
    requires |args| > 0 && args[0] in w.files && ResolveAddress(args, w).Ok?
    ensures RunEvents(args, w) == ResolutionEvents(args, w)
      + (PostEvents(FileName(args[0]), w.files[args[0]], ResolveAddress(args, w).value, w.ticks, w.transport) + [Exited(0)])
  {
  }

  /** Without arguments the run exits with 1 and neither resolves an
      address nor uploads. */
  lemma NoArguments(w: World)
    ensures FinalExitCode(0, RunEvents([], w)) == 1
    ensures !ResolvesAddress(RunEvents([], w)) && !Uploads(RunEvents([], w))
  {
    RunExitCode(0, [], w);
  }

  /** When the first argument names no existing file the run exits with 2
      and neither resolves an address nor uploads. */
  lemma MissingFile(args: seq<string>, w: World)
    requires |args| > 0 && args[0] !in w.files
    ensures FinalExitCode(0, RunEvents(args, w)) == 2
    ensures !ResolvesAddress(RunEvents(args, w)) && !Uploads(RunEvents(args, w))
  {
    RunExitCode(0, args, w);
  }

  /** PostTorrent and the Exit that follows it neither read the
      configuration nor parse an address. */
  lemma UploadResolvesNothing(name: string, contents: seq<byte>, address: string, ticks: nat, transport: Transport)
    ensures forall e :: e in PostEvents(name, contents, address, ticks, transport) + [Exited(0)] ==>
      !e.ConfigRead? && !e.AddressParsed?
  {
    var post := PostEvents(name, contents, address, ticks, transport);
    PostEventsAfterStart(name, contents, address, ticks, transport);
    forall e | e in post + [Exited(0)]
      ensures !e.ConfigRead? && !e.AddressParsed?
    {
      assert e == post[0] || e in post[1..] || e == Exited(0);
    }
  }

  /** Past resolution, a run neither reads the configuration nor parses
      another address. */
  lemma AfterResolutionResolvesNothing(args: seq<string>, w: World)
    requires |args| > 0 && args[0] in w.files
    ensures forall e :: e in AfterResolution(args, w) ==> !e.ConfigRead? && !e.AddressParsed?
  {
    var after := AfterResolution(args, w);
    match ResolveAddress(args, w)
    case Threw(cause) =>
      assert after == ConfigFailure(ConfigPath(w.startupPath), cause);
    case Ok(address) =>
      UploadResolvesNothing(FileName(args[0]), w.files[args[0]], address, w.ticks, w.transport);
      assert after == PostEvents(FileName(args[0]), w.files[args[0]], address, w.ticks, w.transport) + [Exited(0)];
  }

  /** The address text is the second argument when there are exactly two
      arguments, and lsip.txt is then never read; with one, three or more
      arguments it is the text read from lsip.txt next to the executable. */
  lemma AddressSource(args: seq<string>, w: World)
    requires |args| > 0 && args[0] in w.files
    ensures |args| == 2 ==>
      RunEvents(args, w)[0] == AddressParsed(args[1])
      && forall e :: e in RunEvents(args, w) ==> !e.ConfigRead?
    ensures |args| != 2 ==>
      RunEvents(args, w)[0] == ConfigRead(ConfigPath(w.startupPath))
      && (w.config.Ok? ==> RunEvents(args, w)[1] == AddressParsed(w.config.value))
      && (w.config.Threw? ==> forall e :: e in RunEvents(args, w) ==> !e.AddressParsed?)
  {
    AfterResolutionResolvesNothing(args, w);
  }

  /** When the address cannot be resolved the run exits with 3 and makes
      no upload. */
  lemma ResolutionFailure(args: seq<string>, w: World)
    requires |args| > 0 && args[0] in w.files && ResolveAddress(args, w).Threw?
    ensures FinalExitCode(0, RunEvents(args, w)) == 3
    ensures !Uploads(RunEvents(args, w))
  {
    RunExitCode(0, args, w);
    ResolutionEventsKinds(args, w);
    var failure := ConfigFailure(ConfigPath(w.startupPath), ResolveAddress(args, w).cause);
    assert RunEvents(args, w) == ResolutionEvents(args, w) + failure;
    assert forall e :: e in failure ==> e.Notified? || e.Exited?;
  }

  /** Once the address is resolved the run makes exactly one upload
      attempt, and it always ends with exit code 0, even when the transport
      failed and Exit(4) ran first. */
  lemma UploadEndsWithZero(args: seq<string>, w: World)
    requires |args| > 0 && args[0] in w.files && ResolveAddress(args, w).Ok?
    ensures Attempts(RunEvents(args, w)) == 1
    ensures FinalExitCode(0, RunEvents(args, w)) == 0
  {
    RunExitCode(0, args, w);
    OneAttempt(args, w);
  }

  /** Resolution reads the configuration and parses an address, and
      does nothing else. */
  lemma ResolutionEventsKinds(args: seq<string>, w: World)
    ensures forall e :: e in ResolutionEvents(args, w) ==> e.ConfigRead? || e.AddressParsed?
  {
    var read: seq<Event> := if |args| == 2 then [] else [ConfigRead(ConfigPath(w.startupPath))];
    var parsed := ParseEvents(AddressText(args, w));
    assert forall e :: e in parsed ==> e.AddressParsed?;
    assert forall e :: e in read ==> e.ConfigRead?;
    assert ResolutionEvents(args, w) == read + parsed;
  }

  lemma OneAttempt(args: seq<string>, w: World)
    requires |args| > 0 && args[0] in w.files && ResolveAddress(args, w).Ok?
    ensures Attempts(RunEvents(args, w)) == 1
  {
    var post := PostEvents(FileName(args[0]), w.files[args[0]], ResolveAddress(args, w).value, w.ticks, w.transport);
    PostAttempts(FileName(args[0]), w.files[args[0]], ResolveAddress(args, w).value, w.ticks, w.transport);
    var resolution := ResolutionEvents(args, w);
    UploadingRun(args, w);
    ResolutionEventsKinds(args, w);
    AttemptsAppend(resolution, post + [Exited(0)]);
    AttemptsAppend(post, [Exited(0)]);
  }

  lemma PostAttempts(name: string, contents: seq<byte>, address: string, ticks: nat, transport: Transport)
    ensures Attempts(PostEvents(name, contents, address, ticks, transport)) == 1
  {
    var post := PostEvents(name, contents, address, ticks, transport);
    PostEventsAfterStart(name, contents, address, ticks, transport);
    assert post == [post[0]] + post[1..];
    assert !Uploads(post[1..]);
    AttemptsAppend([post[0]], post[1..]);
  }

  /** On a transport failure Exit(4) runs and is then overwritten by
      Exit(0): the codes written are 4 then 0, and the process ends with 0. */
  lemma TransportFailureEndsWithZero(args: seq<string>, w: World)
    requires |args| > 0 && args[0] in w.files && ResolveAddress(args, w).Ok?
    requires w.transport.StreamFails? || w.transport.ResponseFails?
    ensures var codes := ExitCodes(RunEvents(args, w));
      |codes| == 2 && codes[0] == 4 && codes[1] == 0
    ensures FinalExitCode(0, RunEvents(args, w)) == 0
  {
    var name, contents, address := FileName(args[0]), w.files[args[0]], ResolveAddress(args, w).value;
    var post := PostEvents(name, contents, address, w.ticks, w.transport);
    assert Thrown(contents, w.transport).Some?;
    UploadingRun(args, w);
    ResolutionExitCodes(args, w);
    PostExitCodes(name, contents, address, w.ticks, w.transport);
    FailedUploadCodes(ResolutionEvents(args, w), post);
  }

  /** Effects without exits, then a PostTorrent that wrote 4, then Exit(0). */
  lemma FailedUploadCodes(resolution: seq<Event>, post: seq<Event>)
    requires ExitCodes(resolution) == [] && ExitCodes(post) == [4]
    ensures var codes := ExitCodes(resolution + (post + [Exited(0)]));
      |codes| == 2 && codes[0] == 4 && codes[1] == 0
    ensures FinalExitCode(0, resolution + (post + [Exited(0)])) == 0
  {
    ExitZeroAppends(post);
    ExitCodesAppend(resolution, post + [Exited(0)]);
    assert ExitCodes(resolution + (post + [Exited(0)])) == [] + ([4] + [0]);
  }

  /** The upload as the device sees it: the request names the resolved
      address and the same boundary that frames the body, and the body is
      the multipart framing of the whole torrent file (when shorter than
      2^31 bytes), from which a receiver gets the file's bytes back
      exactly when they are clear of the delimiter. */
  lemma UploadedBody(args: seq<string>, w: World)
    requires |args| > 0 && args[0] in w.files && ResolveAddress(args, w).Ok?
    requires !w.transport.StreamFails? && |w.files[args[0]]| < Int32Limit
    ensures var events, boundary := RunEvents(args, w), Boundary(w.ticks);
      var k := |ResolutionEvents(args, w)|;
      |events| > k + 1
      && events[k] == RequestStarted(RequestUrl(ResolveAddress(args, w).value), ContentType(boundary))
      && events[k + 1] == BodySent(Body(boundary, FileName(args[0]), w.files[args[0]]))
    ensures '\r' !in FileName(args[0]) ==>
      var r := ParseBody(Body(Boundary(w.ticks), FileName(args[0]), w.files[args[0]]), Boundary(w.ticks));
      r.Some? && Utf8Decode(r.value.header) == Some(PartHeader(FileName(args[0])))
      && (r.value.content == w.files[args[0]] <==> ClearOf(w.files[args[0]], Boundary(w.ticks)))
  {
    var name, contents, address := FileName(args[0]), w.files[args[0]], ResolveAddress(args, w).value;
    WholeFilePost(name, contents, address, w.ticks, w.transport);
    UploadingRun(args, w);
    var post := PostEvents(name, contents, address, w.ticks, w.transport);
    var resolution, tail := ResolutionEvents(args, w), post + [Exited(0)];
    assert tail[0] == post[0] && tail[1] == post[1];
    assert RunEvents(args, w) == resolution + tail;
    if '\r' !in name {
      ParseBodyRoundTrip(Boundary(w.ticks), name, contents);
    }
  }

  /** When the stream opens and the file is shorter than 2^31 bytes,
      PostTorrent's request is followed by the body carrying the whole file. */
  lemma WholeFilePost(name: string, contents: seq<byte>, address: string, ticks: nat, transport: Transport)
    requires !transport.StreamFails? && |contents| < Int32Limit
    ensures var post := PostEvents(name, contents, address, ticks, transport);
      |post| >= 2
      && post[0] == RequestStarted(RequestUrl(address), ContentType(Boundary(ticks)))
      && post[1] == BodySent(Body(Boundary(ticks), name, contents))
  {
    BodyCarriesWholeFile(contents);
    var tried := TryEvents(name, contents, address, ticks, transport);
    assert tried[1] == BodySent(Body(Boundary(ticks), name, contents));
    assert PostEvents(name, contents, address, ticks, transport)[..2] == tried[..2];
  }

  /** With an answer from the device the user sees the success notice
      exactly when the answer does not contain "Fail", and the run ends
      with 0 either way. */
  lemma AnswerClassified(args: seq<string>, w: World)
    requires |args| > 0 && args[0] in w.files && ResolveAddress(args, w).Ok?
    requires w.transport.Responds? && 0 <= ReadCount(w.files[args[0]])
    ensures var events, k := RunEvents(args, w), |ResolutionEvents(args, w)|;
      |events| == k + 5
      && events[k + 2] == ResponseReceived(w.transport.text)
      && events[k + 3] == (if Classify(w.transport.text) == Accepted
                           then Notified(AcceptedMessage(FileName(args[0])), Info)
                           else Notified(RejectedMessage(FileName(args[0])), Error))
      && events[k + 4] == Exited(0)
  {
    var name, contents, address := FileName(args[0]), w.files[args[0]], ResolveAddress(args, w).value;
    AnsweredPost(name, contents, address, w.ticks, w.transport.text);
    UploadingRun(args, w);
  }

  // ---------------------------------------------------------------------
  // The program's state

  /** Regrouping a concatenation of effects. */
  lemma Regroup(a: seq<Event>, b: seq<Event>, c: seq<Event>)
    ensures a + (b + c) == a + b + c
  {
  }

  /** The static state of Program that a run changes: Environment.ExitCode,
      the tray icon's visibility, whether the message loop was told to
      exit, and the effects so far. */
  class Program {
    var exitCode: int
    var iconVisible: bool
    var exiting: bool
    var trace: seq<Event>

    /** The state agrees with the effects: the exit code is the last one
        written (0 before any), and the icon is hidden and the message
        loop ends once Exit has run. */
    predicate Consistent()
      reads this
    {
      exitCode == FinalExitCode(0, trace)
      && iconVisible == (ExitCodes(trace) == [])
      && exiting == (ExitCodes(trace) != [])
    }

    /** Main's set-up: the icon is shown, the exit code is still 0. */
    constructor ()
      ensures Consistent()
      ensures trace == [] && exitCode == 0 && iconVisible && !exiting
    {
      exitCode := 0;
      iconVisible := true;
      exiting := false;
      trace := [];
    }

    /** Program.Exit: overwrites the exit code, hides the icon and ends
        the message loop. */
    method Exit(code: int)
      requires Consistent()
      modifies this
      ensures Consistent()
      ensures trace == old(trace) + [Exited(code)]
      ensures exitCode == code && !iconVisible && exiting
    {
      ExitCodesAppend(trace, [Exited(code)]);
      exitCode := code;
      iconVisible := false;
      exiting := true;
      trace := trace + [Exited(code)];
    }

    /** Program.Notify: shows a balloon tip (and waits for it). */
    method Notify(message: string, icon: Icon)
      requires Consistent()
      modifies this
      ensures Consistent()
      ensures trace == old(trace) + [Notified(message, icon)]
      ensures exitCode == old(exitCode) && iconVisible == old(iconVisible) && exiting == old(exiting)
    {
      ExitCodesAppend(trace, [Notified(message, icon)]);
      trace := trace + [Notified(message, icon)];
    }

    /** Records an effect that touches neither the exit code nor the icon. */
    method Record(e: Event)
      requires Consistent() && !e.Exited?
      modifies this
      ensures Consistent()
      ensures trace == old(trace) + [e]
      ensures exitCode == old(exitCode) && iconVisible == old(iconVisible) && exiting == old(exiting)
    {
      ExitCodesAppend(trace, [e]);
      trace := trace + [e];
    }

    /** The try block of Program.PostTorrent: builds and sends the
        request and classifies the answer; it returns the exception that
        ended it early, if any. */
    method TryPost(name: string, contents: seq<byte>, address: string, ticks: nat, transport: Transport)
      returns (thrown: Option<string>)
      requires Consistent()
      modifies this
      ensures Consistent()
      ensures thrown == Thrown(contents, transport)
      ensures trace == old(trace) + TryEvents(name, contents, address, ticks, transport)
    {
      var url := RequestUrl(address);
      var boundary := Boundary(ticks);
      Record(RequestStarted(url, ContentType(boundary)));
      if transport.StreamFails? {
        return Some(transport.cause);
      }
      var stream := new RequestStream();
      var complete := WriteBody(stream, boundary, name, contents);
      if !complete {
        return Some(CountOutOfRange);
      }
      assert stream.written == Body(boundary, name, contents[..ReadCount(contents)]);
      ghost var started := trace;
      Record(BodySent(stream.written));
      ghost var reply: seq<Event> := [];
      match transport {
        case ResponseFails(cause) =>
          thrown := Some(cause);
        case Responds(text) =>
          ReadAnswer(name, text);
          thrown := None;
          reply := [ResponseReceived(text), VerdictNotice(name, text)];
      }
      Regroup(started, [BodySent(stream.written)], reply);
      Regroup(old(trace), [RequestStarted(url, ContentType(boundary))], [BodySent(stream.written)] + reply);
    }

    /** Reading the device's answer in Program.PostTorrent: the answer is
        taken in, and the success notice is shown unless it contains
        "Fail", the rejection notice otherwise. */
    method ReadAnswer(name: string, text: string)
      requires Consistent()
      modifies this
      ensures Consistent()
      ensures trace == old(trace) + [ResponseReceived(text), VerdictNotice(name, text)]
      ensures exitCode == old(exitCode)
    {
      Record(ResponseReceived(text));
      if Classify(text) == Accepted {
        Notify(AcceptedMessage(name), Info);
      } else {
        Notify(RejectedMessage(name), Error);
      }
      Regroup(old(trace), [ResponseReceived(text)], [VerdictNotice(name, text)]);
    }

    /** Program.PostTorrent: the try block, and on any exception the
        error notice and Exit(4). It returns 0 in every case. */
    method PostTorrent(name: string, contents: seq<byte>, address: string, ticks: nat, transport: Transport)
      returns (r: byte)
      requires Consistent()
      modifies this
      ensures Consistent()
      ensures r == 0
      ensures trace == old(trace) + PostEvents(name, contents, address, ticks, transport)
    {
      var thrown := TryPost(name, contents, address, ticks, transport);
      if thrown.Some? {
        ghost var caught := trace;
        Notify(PostErrorMessage(thrown.value), Error);
        Exit(4);
        Regroup(caught, [Notified(PostErrorMessage(thrown.value), Error)], [Exited(4)]);
      }
      assert PostEvents(name, contents, address, ticks, transport)
        == TryEvents(name, contents, address, ticks, transport) + CatchEvents(thrown);
      Regroup(old(trace), TryEvents(name, contents, address, ticks, transport), CatchEvents(thrown));
      r := 0;
    }

    /** The address step of Program.Run: the second argument when there
        are exactly two, otherwise the configuration file, then parsed. */
    method ReadAddress(args: seq<string>, w: World) returns (address: Outcome<string>)
      requires Consistent()
      modifies this
      ensures Consistent()
      ensures address == ResolveAddress(args, w)
      ensures trace == old(trace) + ResolutionEvents(args, w)
      ensures exitCode == old(exitCode)
    {
      var ip: Outcome<string>;
      if |args| == 2 {
        ip := Ok(args[1]);
      } else {
        Record(ConfigRead(ConfigPath(w.startupPath)));
        ip := w.config;
      }
      ghost var read := trace;
      address := ip;
      if ip.Ok? {
        Record(AddressParsed(ip.value));
        address := w.parseAddress(ip.value);
      }
      assert trace == read + ParseEvents(ip);
    }

    /** Program.Run: one run, from the arguments to the final Exit. */
    method Run(args: seq<string>, w: World)
      requires Consistent()
      modifies this
      ensures Consistent()
      ensures trace == old(trace) + RunEvents(args, w)
      ensures exitCode == ExpectedExitCode(args, w)
    {
      ghost var before := trace;
      RunExitCode(FinalExitCode(0, before), args, w);
      FinalExitCodeAppend(0, before, RunEvents(args, w));
      if |args| == 0 {
        Notify(NoArgumentMessage, Error);
        Exit(1);
        assert RunEvents(args, w) == [Notified(NoArgumentMessage, Error), Exited(1)];
        return;
      }
      var torrentFile := args[0];
      if torrentFile !in w.files {
        Notify(NotAFileMessage(torrentFile), Error);
        Exit(2);
        assert RunEvents(args, w) == [Notified(NotAFileMessage(torrentFile), Error), Exited(2)];
        return;
      }
      assert RunEvents(args, w) == ResolutionEvents(args, w) + AfterResolution(args, w);
      var address := ReadAddress(args, w);
      FinishRun(args, w, address);
      Regroup(before, ResolutionEvents(args, w), AfterResolution(args, w));
    }

    /** The rest of Program.Run once the address step has run: the error
        notice and Exit(3) of its catch block, or the upload and the Exit
        of PostTorrent's result. */
    method FinishRun(args: seq<string>, w: World, address: Outcome<string>)
      requires Consistent() && |args| > 0 && args[0] in w.files && address == ResolveAddress(args, w)
      modifies this
      ensures Consistent()
      ensures trace == old(trace) + AfterResolution(args, w)
    {
      var torrentFile := args[0];
      var configPath := ConfigPath(w.startupPath);
      if address.Threw? {
        Notify(ConfigErrorMessage(configPath, address.cause), Error);
        Exit(3);
        assert AfterResolution(args, w) == ConfigFailure(configPath, address.cause);
        return;
      }
      ghost var posted := PostEvents(FileName(torrentFile), w.files[torrentFile], address.value, w.ticks, w.transport);
      assert AfterResolution(args, w) == posted + [Exited(0)];
      var code := PostTorrent(FileName(torrentFile), w.files[torrentFile], address.value, w.ticks, w.transport);
      Exit(code as int);
      Regroup(old(trace), posted, [Exited(0)]);
    }
  }
}
