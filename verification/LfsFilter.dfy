/** The long-running filter: a session of clean requests over pkt-lines. */
module LfsFilter {
  import opened Wrappers
  import opened LfsPointer
  import opened Utf8
  import opened PktLine

  /** The largest data the server puts in one packet. */
  const PKT_MAX: nat := 65_516

  function Take(s: string, n: nat): string {
    if |s| <= n then s else s[..n]
  }

  /** Streams one file's content and produces what cleaning stores for it. */
  class Cleaner {
    var head: string
    var len: nat
    var hashed: string   // the input the digest has taken

    ghost predicate Valid()
      reads this
    {
      head == Take(hashed, POINTER_MAX) && len == |hashed|
    }

    constructor ()
      ensures Valid() && hashed == []
    {
      head, len, hashed := [], 0, [];
    }

    method Update(bytes: string)
      requires Valid()
      modifies this
      ensures Valid() && hashed == old(hashed) + bytes
      ensures |head| <= 1024 && head <= hashed && len == |hashed|
    {
      if |head| < POINTER_MAX {
        var take := if |bytes| < POINTER_MAX - |head| then |bytes| else POINTER_MAX - |head|;
        head := head + bytes[..take];
      }
      len := len + |bytes|;
      hashed := hashed + bytes;
    }

    /** The cleaned bytes, or nothing if the digest failed: a function of the whole content alone. */
    method Finish(digest: string -> Option<string>) returns (r: Option<string>)
      requires Valid()
      ensures r == Clean(digest, hashed)
    {
      hide AcceptsPointer;
      if len == 0 {
        return Some([]);
      }
      if len < POINTER_MAX {
        var isPointer := IsPointer(head);
        if isPointer {
          return Some(head);
        }
      }
      match digest(hashed) {
        case None => return None;
        case Some(oid) => return Some(Pointer(oid, len));
      }
    }
  }

  /** The bytes still to come from Git. */
  class Input {
    var bytes: string

    constructor (bytes: string)
      ensures this.bytes == bytes
    {
      this.bytes := bytes;
    }

    method ReadPkt() returns (r: Read)
      modifies this
      ensures r == DecodePkt(old(bytes))
      ensures r.Got? ==> bytes == r.rest
    {
      if bytes == [] {
        return End;
      }
      if |bytes| < 4 {
        return Malformed;
      }
      var length := ParseLength(bytes[..4]);
      if length.None? {
        return Malformed;
      }
      var len := length.value;
      if len == 0 {
        r := Got(Flush, bytes[4..]);
      } else if len <= 4 || |bytes| < len {
        return Malformed;
      } else {
        r := Got(Data(bytes[4..len]), bytes[len..]);
      }
      bytes := r.rest;
    }

    method ReadList() returns (r: Listed)
      modifies this
      ensures r == DecodeList(old(bytes))
      ensures r.Lines? ==> bytes == r.rest
    {
      hide DecodePkt;
      var lines: seq<string> := [];
      ghost var whole := DecodeList(bytes);
      while true
        invariant whole == match DecodeList(bytes)
                           case BadList => BadList
                           case Lines(more, rest) => Lines(lines + more, rest)
        decreases |bytes|
      {
        var pkt := ReadPkt();
        match pkt {
          case Got(Flush, rest) =>
            assert lines + [] == lines;
            return Lines(lines, rest);
          case Got(Data(data), rest) =>
            if !IsUtf8(data) {
              return BadList;
            }
            var line := StripSuffix(data, '\n');
            assert forall more: seq<string> {:trigger lines + ([line] + more)} :: lines + ([line] + more) == lines + [line] + more;
            lines := lines + [line];
          case End => return BadList;
          case Malformed => return BadList;
        }
      }
    }
  }

  // ----- the server's side of a session -----

  /** The server's answer to one request. */
  function Answer(cleaned: Option<string>): string {
    match cleaned
    case None => EncodeText("status=error") + FLUSH
    case Some(bytes) => EncodeText("status=success") + FLUSH + EncodeBytes(bytes) + FLUSH
  }

  /** Content in packets of at most `PKT_MAX` bytes, ended by a flush. */
  function EncodeBytes(bytes: string): string
    decreases |bytes|
  {
    if bytes == [] then FLUSH else EncodePkt(Take(bytes, PKT_MAX)) + EncodeBytes(bytes[|Take(bytes, PKT_MAX)|..])
  }

  function CommandOf(request: seq<string>): Option<string> {
    if request == [] then None
    else if StripPrefix(request[0], "command=").Some? then StripPrefix(request[0], "command=")
    else CommandOf(request[1..])
  }

  /** Only `clean` was negotiated. */
  ghost function Handled(digest: string -> Option<string>, request: seq<string>, content: string): Option<string> {
    if CommandOf(request) == Some("clean") then Clean(digest, content) else None
  }

  datatype Session = Session(ok: bool, output: string)

  /** The session from request `k` on. `ready(k)` tells whether a SHA-256 can be set up for it: where
      it cannot, the session fails before the content is read. */
  ghost function ServeRequests(digest: string -> Option<string>, ready: nat -> bool, k: nat, input: string): Session
    decreases |input|
  {
    if input == [] then Session(true, [])
    else
      match DecodeList(input)
      case BadList => Session(false, [])
      case Lines(request, rest) =>
        if !ready(k) then Session(false, [])
        else
          match DecodeContent(rest)
          case BadContent => Session(false, [])
          case Content(content, rest) =>
            var more := ServeRequests(digest, ready, k + 1, rest);
            Session(more.ok, Answer(Handled(digest, request, content)) + more.output)
  }

  const HELLO: string := EncodeText("git-filter-server") + EncodeText("version=2") + FLUSH
  const CAPABILITIES: string := EncodeText("capability=clean") + FLUSH

  predicate IsHello(lines: seq<string>) {
    lines != [] && lines[0] == "git-filter-client" && "version=2" in lines
  }

  ghost function Serve(digest: string -> Option<string>, ready: nat -> bool, input: string): Session {
    match DecodeList(input)
    case BadList => Session(false, [])
    case Lines(hello, rest) =>
      if !IsHello(hello) then Session(false, [])
      else
        match DecodeList(rest)
        case BadList => Session(false, HELLO)
        case Lines(capabilities, rest) =>
          if "capability=clean" !in capabilities then Session(false, HELLO)
          else
            var session := ServeRequests(digest, ready, 0, rest);
            Session(session.ok, HELLO + (CAPABILITIES + session.output))
  }

  // ----- what Git sends -----

  /** A request as Git sends it: its lines, and the file in pieces of any size a packet can hold. */
  datatype Request = Request(lines: seq<string>, chunks: seq<string>)

  predicate IsRequest(r: Request) {
    AllLines(r.lines) && AllChunks(r.chunks)
  }

  predicate AllRequests(requests: seq<Request>) {
    forall i :: 0 <= i < |requests| ==> IsRequest(requests[i])
  }

  function EncodeRequests(requests: seq<Request>): string
    requires AllRequests(requests)
  {
    if requests == [] then []
    else
      assert IsRequest(requests[0]);
      EncodeList(requests[0].lines) + (EncodeChunks(requests[0].chunks) + EncodeRequests(requests[1..]))
  }

  /** A reply: the outcome of every request, in order. */
  ghost function Replies(digest: string -> Option<string>, requests: seq<Request>): seq<Option<string>> {
    if requests == [] then []
    else [Handled(digest, requests[0].lines, Joined(requests[0].chunks))] + Replies(digest, requests[1..])
  }

  function Answers(replies: seq<Option<string>>): string {
    if replies == [] then [] else Answer(replies[0]) + Answers(replies[1..])
  }

  /** How many of `count` requests from the `k`-th on are begun before a SHA-256 cannot be set up. */
  function Begun(ready: nat -> bool, k: nat, count: nat): (n: nat)
    ensures n <= count && (forall i :: k <= i < k + n ==> ready(i)) && (n < count ==> !ready(k + n))
    decreases count
  {
    if count == 0 || !ready(k) then 0 else 1 + Begun(ready, k + 1, count - 1)
  }

  lemma OneRequestServed(digest: string -> Option<string>, ready: nat -> bool, k: nat, r: Request, after: string)
    requires IsRequest(r)
    ensures
      var more := ServeRequests(digest, ready, k + 1, after);
      ServeRequests(digest, ready, k, EncodeList(r.lines) + (EncodeChunks(r.chunks) + after))
        == if ready(k) then Session(more.ok, Answer(Handled(digest, r.lines, Joined(r.chunks))) + more.output)
           else Session(false, [])
  {
    hide EncodeList, EncodeChunks, DecodeList, DecodeContent, Answer, Handled;
    ListNotEmpty(r.lines);
    ListRoundTrip(r.lines, EncodeChunks(r.chunks) + after);
    ContentRoundTrip(r.chunks, after);
  }

  /** Requests are answered one after the other, and then what follows them is served, unless a SHA-256 cannot
      be set up before. */
  lemma {:induction false} RequestsThen(digest: string -> Option<string>, ready: nat -> bool, k: nat, requests: seq<Request>,
      after: string)
    requires AllRequests(requests)
    ensures
      var n, more := Begun(ready, k, |requests|), ServeRequests(digest, ready, k + |requests|, after);
      var answers := Answers(Replies(digest, requests[..n]));
      ServeRequests(digest, ready, k, EncodeRequests(requests) + after)
        == if n == |requests| then Session(more.ok, answers + more.output) else Session(false, answers)
    decreases |requests|
  {
    hide *;
    NoneBegun(digest, ready, k);
    if requests == [] {
      assert EncodeRequests([]) + after == after;
      assert Answers(Replies(digest, requests[..0])) + ServeRequests(digest, ready, k, after).output
          == ServeRequests(digest, ready, k, after).output;
    } else {
      EncodeRequestsCons(requests);
      var rest := EncodeRequests(requests[1..]) + after;
      assert EncodeRequests(requests) + after == EncodeList(requests[0].lines) + (EncodeChunks(requests[0].chunks) + rest);
      BegunStep(ready, k, |requests|);
      OneRequestServed(digest, ready, k, requests[0], rest);
      RequestsThen(digest, ready, k + 1, requests[1..], after);
      RepliesStep(digest, requests, Begun(ready, k, |requests|));
      var first, answers := Answer(Handled(digest, requests[0].lines, Joined(requests[0].chunks))),
        Answers(Replies(digest, requests[1..][..Begun(ready, k + 1, |requests| - 1)]));
      var output := ServeRequests(digest, ready, k + |requests|, after).output;
      assert first + (answers + output) == first + answers + output;
    }
  }

  lemma NoneBegun(digest: string -> Option<string>, ready: nat -> bool, k: nat)
    ensures EncodeRequests([]) == [] && Begun(ready, k, 0) == 0 && Answers(Replies(digest, [])) == []
  {
  }

  lemma RequestsServed(digest: string -> Option<string>, ready: nat -> bool, k: nat, requests: seq<Request>)
    requires AllRequests(requests)
    ensures
      var n := Begun(ready, k, |requests|);
      ServeRequests(digest, ready, k, EncodeRequests(requests))
        == Session(n == |requests|, Answers(Replies(digest, requests[..n])))
  {
    hide *;
    var n := Begun(ready, k, |requests|);
    RequestsThen(digest, ready, k, requests, []);
    NothingServed(digest, ready, k + |requests|);
    assert EncodeRequests(requests) + [] == EncodeRequests(requests);
    assert Answers(Replies(digest, requests[..n])) + [] == Answers(Replies(digest, requests[..n]));
  }

  lemma NothingServed(digest: string -> Option<string>, ready: nat -> bool, k: nat)
    ensures ServeRequests(digest, ready, k, []) == Session(true, [])
  {
  }

  lemma EncodeRequestsCons(requests: seq<Request>)
    requires AllRequests(requests) && requests != []
    ensures IsRequest(requests[0]) && AllLines(requests[0].lines) && AllChunks(requests[0].chunks)
    ensures AllRequests(requests[1..])
    ensures EncodeRequests(requests)
         == EncodeList(requests[0].lines) + (EncodeChunks(requests[0].chunks) + EncodeRequests(requests[1..]))
  {
    assert IsRequest(requests[0]);
    hide EncodeList, EncodeChunks;
  }

  lemma BegunStep(ready: nat -> bool, k: nat, count: nat)
    requires count > 0
    ensures Begun(ready, k, count) == if ready(k) then 1 + Begun(ready, k + 1, count - 1) else 0
  {
  }

  lemma RepliesCons(digest: string -> Option<string>, requests: seq<Request>)
    requires requests != []
    ensures
      var reply, more := Handled(digest, requests[0].lines, Joined(requests[0].chunks)), Replies(digest, requests[1..]);
      Answers(Replies(digest, requests)) == Answer(reply) + Answers(more)
  {
    hide Answer, Handled;
    var reply, more := Handled(digest, requests[0].lines, Joined(requests[0].chunks)), Replies(digest, requests[1..]);
    assert ([reply] + more)[1..] == more;
  }

  lemma RepliesStep(digest: string -> Option<string>, requests: seq<Request>, n: nat)
    requires requests != [] && n <= |requests|
    ensures Answers(Replies(digest, requests[..n])) ==
      if n == 0 then []
      else
        Answer(Handled(digest, requests[0].lines, Joined(requests[0].chunks)))
        + Answers(Replies(digest, requests[1..][..n - 1]))
  {
    if n > 0 {
      hide *;
      var some := requests[..n];
      assert some[0] == requests[0] && some[1..] == requests[1..][..n - 1];
      RepliesCons(digest, some);
    }
  }

  lemma ListNotEmpty(lines: seq<string>)
    requires AllLines(lines)
    ensures |EncodeList(lines)| > 0
  {
    hide Hex4, IsUtf8;
    if lines != [] {
      assert IsLine(lines[0]);
    }
  }

  /** A whole session is served: after the handshake, every request is answered in order, with the
      cleaned whole content or an error; how files were cut into packets does not matter. A SHA-256
      that cannot be set up ends the session after the answers before it. */
  lemma SessionServed(digest: string -> Option<string>, ready: nat -> bool, hello: seq<string>, capabilities: seq<string>,
      requests: seq<Request>)
    requires AllLines(hello) && IsHello(hello)
    requires AllLines(capabilities) && "capability=clean" in capabilities
    requires AllRequests(requests)
    ensures
      var n := Begun(ready, 0, |requests|);
      Serve(digest, ready, EncodeList(hello) + (EncodeList(capabilities) + EncodeRequests(requests)))
        == Session(n == |requests|, HELLO + (CAPABILITIES + Answers(Replies(digest, requests[..n]))))
  {
    hide EncodeList, EncodeRequests, DecodeList, ServeRequests, Answers, Replies, EncodeText, Begun;
    ListRoundTrip(hello, EncodeList(capabilities) + EncodeRequests(requests));
    ListRoundTrip(capabilities, EncodeRequests(requests));
    RequestsServed(digest, ready, 0, requests);
  }

  // ----- sessions that fail -----

  /** A request cut short after the requests before it: those are answered, and the session fails. */
  lemma CutSessionFails(digest: string -> Option<string>, ready: nat -> bool, requests: seq<Request>, r: Request, n: nat)
    requires AllRequests(requests) && IsRequest(r) && forall k :: 0 <= k < |requests| ==> ready(k)
    requires 0 < n < |EncodeList(r.lines) + EncodeChunks(r.chunks)|
    ensures ServeRequests(digest, ready, 0, EncodeRequests(requests) + (EncodeList(r.lines) + EncodeChunks(r.chunks))[..n])
         == Session(false, Answers(Replies(digest, requests)))
  {
    assert AllLines(r.lines) && AllChunks(r.chunks);
    hide *;
    CutRequestFails(digest, ready, |requests|, r, n);
    FailsAfter(digest, ready, requests, (EncodeList(r.lines) + EncodeChunks(r.chunks))[..n]);
  }

  lemma FailsAfter(digest: string -> Option<string>, ready: nat -> bool, requests: seq<Request>, cut: string)
    requires AllRequests(requests) && forall k :: 0 <= k < |requests| ==> ready(k)
    requires ServeRequests(digest, ready, |requests|, cut) == Session(false, [])
    ensures ServeRequests(digest, ready, 0, EncodeRequests(requests) + cut)
         == Session(false, Answers(Replies(digest, requests)))
  {
    hide *;
    AllBegun(ready, |requests|);
    RequestsThen(digest, ready, 0, requests, cut);
    assert requests[..|requests|] == requests;
    assert Answers(Replies(digest, requests)) + [] == Answers(Replies(digest, requests));
  }

  lemma AllBegun(ready: nat -> bool, count: nat)
    requires forall k :: 0 <= k < count ==> ready(k)
    ensures Begun(ready, 0, count) == count
  {
    hide Begun;
  }

  lemma CutRequestFails(digest: string -> Option<string>, ready: nat -> bool, k: nat, r: Request, n: nat)
    requires IsRequest(r) && 0 < n < |EncodeList(r.lines) + EncodeChunks(r.chunks)|
    ensures ServeRequests(digest, ready, k, (EncodeList(r.lines) + EncodeChunks(r.chunks))[..n]) == Session(false, [])
  {
    hide EncodeList, EncodeChunks, DecodeList, DecodeContent, Answer, Handled;
    var lines, chunks := EncodeList(r.lines), EncodeChunks(r.chunks);
    PacketThenPrefix(lines, chunks, n);
    if n < |lines| {
      CutListIsRefused(r.lines, n);
    } else {
      ListRoundTrip(r.lines, chunks[..n - |lines|]);
      CutContentIsRefused(r.chunks, n - |lines|);
    }
  }

  /** Anything but a client's hello of version 2 is refused without a word; and where the capability is not
      offered the session fails after the server's own hello. */
  lemma HandshakeRefused(digest: string -> Option<string>, ready: nat -> bool, hello: seq<string>, capabilities: seq<string>,
      rest: string)
    requires AllLines(hello) && AllLines(capabilities)
    ensures hello == [] || hello[0] != "git-filter-client" || "version=2" !in hello ==>
      Serve(digest, ready, EncodeList(hello) + rest) == Session(false, [])
    ensures
      hello != [] && hello[0] == "git-filter-client" && "version=2" in hello && "capability=clean" !in capabilities ==>
      Serve(digest, ready, EncodeList(hello) + (EncodeList(capabilities) + rest))
        == Session(false, EncodeText("git-filter-server") + EncodeText("version=2") + "0000")
  {
    hide EncodeList, DecodeList, ServeRequests, EncodeText;
    ListRoundTrip(hello, rest);
    ListRoundTrip(hello, EncodeList(capabilities) + rest);
    ListRoundTrip(capabilities, rest);
  }

  /** The first line that names a command decides: `clean` cleans, any other command is an error. */
  lemma {:induction false} FirstCommandDecides(before: seq<string>, command: string, after: seq<string>)
    requires forall i :: 0 <= i < |before| ==> !("command=" <= before[i])
    ensures CommandOf(before + (["command=" + command] + after)) == Some(command) && CommandOf(before) == None
    decreases |before|
  {
    var request := before + (["command=" + command] + after);
    if before == [] {
      assert ("command=" + command)[8..] == command;
    } else {
      assert request[1..] == before[1..] + (["command=" + command] + after);
      FirstCommandDecides(before[1..], command, after);
    }
  }

  /** Content goes out in packets of 65516 bytes, but for a shorter last one. */
  lemma {:induction false} BytesInPackets(bytes: string) returns (chunks: seq<string>)
    ensures AllChunks(chunks) && EncodeBytes(bytes) == EncodeChunks(chunks) && Joined(chunks) == bytes
    ensures forall i :: 0 <= i < |chunks| ==> 0 < |chunks[i]| <= 65_516 && (i < |chunks| - 1 ==> |chunks[i]| == 65_516)
    decreases |bytes|
  {
    hide EncodePkt;
    if bytes == [] {
      chunks := [];
    } else {
      var chunk := Take(bytes, PKT_MAX);
      var more := BytesInPackets(bytes[|chunk|..]);
      chunks := [chunk] + more;
      assert chunks[1..] == more && chunk + bytes[|chunk|..] == bytes;
      assert |chunk| < 65_516 ==> bytes[|chunk|..] == [] && more == [];
    }
  }

  // ----- what Git reads back -----

  /** Git's reading of one answer: the content, or nothing if the status is not success. */
  datatype Reply = Cleaned(bytes: string) | Refused | Garbled

  function ReplyOf(cleaned: Option<string>): Reply {
    match cleaned case None => Refused case Some(bytes) => Cleaned(bytes)
  }

  function ReadAnswer(input: string): (Reply, string) {
    match DecodeList(input)
    case BadList => (Garbled, input)
    case Lines(status, rest) =>
      if status != ["status=success"] then (if status == ["status=error"] then (Refused, rest) else (Garbled, rest))
      else
        match DecodeContent(rest)
        case BadContent => (Garbled, rest)
        case Content(bytes, rest) =>
          match DecodeList(rest)
          case BadList => (Garbled, rest)
          case Lines(trailing, rest) => (if trailing == [] then Cleaned(bytes) else Garbled, rest)
  }

  lemma TextIsLine(line: string)
    requires |line| < DATA_MAX
    requires forall i :: 0 <= i < |line| ==> line[i] as int < 0x80
    ensures IsLine(line)
  {
    AsciiIsUtf8(line + "\n");
  }

  lemma OneLineList(line: string)
    requires IsLine(line)
    ensures AllLines([line]) && EncodeList([line]) == EncodeText(line) + FLUSH
  {
    hide EncodePkt, IsUtf8, IsLine, EncodeText;
    assert [line][1..] == [];
  }

  lemma StatusLines()
    ensures AllLines(["status=success"]) && AllLines(["status=error"]) && AllLines([])
    ensures EncodeList(["status=success"]) == EncodeText("status=success") + FLUSH
    ensures EncodeList(["status=error"]) == EncodeText("status=error") + FLUSH
    ensures EncodeList([]) == FLUSH
  {
    hide EncodeText, IsLine;
    TextIsLine("status=success");
    TextIsLine("status=error");
    OneLineList("status=success");
    OneLineList("status=error");
  }

  lemma {:induction false} BytesRoundTrip(bytes: string, rest: string)
    ensures DecodeContent(EncodeBytes(bytes) + rest) == Content(bytes, rest)
    decreases |bytes|
  {
    hide EncodePkt, DecodePkt;
    if bytes == [] {
      FlushRoundTrip(rest);
    } else {
      var chunk := Take(bytes, PKT_MAX);
      var after := EncodeBytes(bytes[|chunk|..]) + rest;
      assert EncodeBytes(bytes) + rest == EncodePkt(chunk) + after;
      PktRoundTrip(chunk, after);
      BytesRoundTrip(bytes[|chunk|..], rest);
      hide EncodeBytes;
      assert chunk + bytes[|chunk|..] == bytes;
    }
  }

  /** Git reads back exactly what the server answered, and is left at the next answer. */
  lemma AnswerRoundTrip(cleaned: Option<string>, rest: string)
    ensures ReadAnswer(Answer(cleaned) + rest) == (ReplyOf(cleaned), rest)
  {
    hide EncodeText, EncodeList, DecodeList, DecodeContent, EncodeBytes;
    StatusLines();
    match cleaned
    case None =>
      ListRoundTrip(["status=error"], rest);
    case Some(bytes) =>
      var trailing := FLUSH + rest;
      var body := EncodeBytes(bytes) + trailing;
      assert Answer(cleaned) + rest == EncodeList(["status=success"]) + body;
      ListRoundTrip(["status=success"], body);
      BytesRoundTrip(bytes, trailing);
      ListRoundTrip([], rest);
  }

  function ReadAnswers(n: nat, input: string): (seq<Reply>, string) {
    if n == 0 then ([], input)
    else
      var (reply, rest) := ReadAnswer(input);
      var (more, rest) := ReadAnswers(n - 1, rest);
      ([reply] + more, rest)
  }

  function Outcomes(replies: seq<Option<string>>): seq<Reply> {
    seq(|replies|, i requires 0 <= i < |replies| => ReplyOf(replies[i]))
  }

  lemma OutcomesCons(replies: seq<Option<string>>)
    ensures Outcomes(replies) == if replies == [] then [] else [ReplyOf(replies[0])] + Outcomes(replies[1..])
  {
    hide ReplyOf;
  }

  lemma {:induction false} AnswersRoundTrip(replies: seq<Option<string>>, rest: string)
    ensures ReadAnswers(|replies|, Answers(replies) + rest) == (Outcomes(replies), rest)
    decreases |replies|
  {
    OutcomesCons(replies);
    hide ReadAnswer, Answer, Outcomes, ReplyOf;
    if replies == [] {
      assert Answers(replies) + rest == rest;
    } else {
      var after := Answers(replies[1..]) + rest;
      assert Answers(replies) + rest == Answer(replies[0]) + after;
      AnswerRoundTrip(replies[0], after);
      AnswersRoundTrip(replies[1..], rest);
    }
  }

  lemma TwoLineList(first: string, second: string)
    requires IsLine(first) && IsLine(second)
    ensures AllLines([first, second])
    ensures EncodeList([first, second]) == EncodeText(first) + (EncodeText(second) + FLUSH)
  {
    OneLineList(second);
    hide EncodePkt, IsUtf8, IsLine, EncodeText;
    assert [first, second][1..] == [second];
  }

  lemma HandshakeLists()
    ensures AllLines(["git-filter-server", "version=2"]) && EncodeList(["git-filter-server", "version=2"]) == HELLO
    ensures AllLines(["capability=clean"]) && EncodeList(["capability=clean"]) == CAPABILITIES
  {
    hide EncodeText, IsLine, EncodeList;
    TextIsLine("git-filter-server");
    TextIsLine("version=2");
    TextIsLine("capability=clean");
    TwoLineList("git-filter-server", "version=2");
    OneLineList("capability=clean");
  }

  /** What Git must read from a whole session's output: the handshake, then one outcome per request
      in the order of the requests, and nothing after. */
  ghost predicate ReadsBack(digest: string -> Option<string>, requests: seq<Request>, output: string) {
    match DecodeList(output)
    case BadList => false
    case Lines(hello, rest) =>
      && hello == ["git-filter-server", "version=2"]
      && match DecodeList(rest)
         case BadList => false
         case Lines(capabilities, rest) =>
           && capabilities == ["capability=clean"]
           && var (outcomes, end) := ReadAnswers(|requests|, rest);
           && end == []
           && |outcomes| == |requests|
           && forall i :: 0 <= i < |requests| ==>
                outcomes[i] ==
                  if CommandOf(requests[i].lines) == Some("clean")
                  then ReplyOf(Clean(digest, Joined(requests[i].chunks)))
                  else Refused
  }

  lemma {:induction false} RepliesAt(digest: string -> Option<string>, requests: seq<Request>)
    ensures |Replies(digest, requests)| == |requests|
    ensures forall i :: 0 <= i < |requests| ==>
      Replies(digest, requests)[i] == Handled(digest, requests[i].lines, Joined(requests[i].chunks))
  {
    hide Handled;
    if requests != [] {
      RepliesAt(digest, requests[1..]);
      forall i | 0 <= i < |requests|
        ensures Replies(digest, requests)[i] == Handled(digest, requests[i].lines, Joined(requests[i].chunks))
      {
        if i > 0 {
          assert requests[i] == requests[1..][i - 1];
        }
      }
    }
  }

  /** The session round trip, from Git's requests to the outcomes Git reads: all of them if the session
      ends well, and else those before the request that no SHA-256 could be set up for. */
  lemma SessionRoundTrip(digest: string -> Option<string>, ready: nat -> bool, hello: seq<string>, capabilities: seq<string>,
      requests: seq<Request>)
    requires AllLines(hello) && IsHello(hello)
    requires AllLines(capabilities) && "capability=clean" in capabilities
    requires AllRequests(requests)
    ensures
      var session := Serve(digest, ready, EncodeList(hello) + (EncodeList(capabilities) + EncodeRequests(requests)));
      var n := Begun(ready, 0, |requests|);
      && (session.ok <==> forall i :: 0 <= i < |requests| ==> ready(i))
      && ReadsBack(digest, requests[..n], session.output)
  {
    hide *;
    SessionServed(digest, ready, hello, capabilities, requests);
    AnswersReadBack(digest, requests[..Begun(ready, 0, |requests|)]);
  }

  lemma AnswersReadBack(digest: string -> Option<string>, requests: seq<Request>)
    ensures ReadsBack(digest, requests, HELLO + (CAPABILITIES + Answers(Replies(digest, requests))))
  {
    hide EncodeList, DecodeList, Answers, Replies, EncodeText, ReadAnswers, Handled, Joined, IsLine, Clean, CommandOf, ReplyOf;
    var replies := Replies(digest, requests);
    var answers := Answers(replies);
    HandshakeLists();
    ListRoundTrip(["git-filter-server", "version=2"], CAPABILITIES + answers);
    ListRoundTrip(["capability=clean"], answers);
    AnswersRoundTrip(replies, []);
    assert answers + [] == answers;
    RepliesAt(digest, requests);
    forall i | 0 <= i < |requests|
      ensures Outcomes(replies)[i] ==
        if CommandOf(requests[i].lines) == Some("clean") then ReplyOf(Clean(digest, Joined(requests[i].chunks))) else Refused
    {
      OutcomeIs(digest, requests[i].lines, Joined(requests[i].chunks));
    }
  }

  lemma OutcomeIs(digest: string -> Option<string>, request: seq<string>, content: string)
    ensures ReplyOf(Handled(digest, request, content)) ==
      if CommandOf(request) == Some("clean") then ReplyOf(Clean(digest, content)) else Refused
  {
    hide Clean, CommandOf;
  }

  // ----- the loop itself -----

  class Output {
    var bytes: string

    constructor ()
      ensures bytes == []
    {
      bytes := [];
    }

    method Write(more: string)
      modifies this
      ensures bytes == old(bytes) + more
    {
      bytes := bytes + more;
    }

    method WriteBytes(content: string)
      modifies this
      ensures bytes == old(bytes) + EncodeBytes(content)
    {
      hide EncodePkt;
      var rest := content;
      while rest != []
        invariant bytes + EncodeBytes(rest) == old(bytes) + EncodeBytes(content)
        decreases |rest|
      {
        var chunk := Take(rest, PKT_MAX);
        ghost var before := bytes;
        Write(EncodePkt(chunk));
        assert before + (EncodePkt(chunk) + EncodeBytes(rest[|chunk|..])) == bytes + EncodeBytes(rest[|chunk|..]);
        rest := rest[|chunk|..];
      }
      Write(FLUSH);
    }

    method WriteAnswer(cleaned: Option<string>)
      modifies this
      ensures bytes == old(bytes) + Answer(cleaned)
    {
      hide EncodeText, EncodeBytes;
      match cleaned {
        case Some(content) =>
          Write(EncodeText("status=success"));
          Write(FLUSH);
          WriteBytes(content);
          Write(FLUSH);
        case None =>
          Write(EncodeText("status=error"));
          Write(FLUSH);
      }
    }
  }

  /** Read one file's content into a cleaner, packet by packet. */
  method ReadInto(input: Input, cleaner: Cleaner) returns (ok: bool)
    requires cleaner.Valid()
    modifies input, cleaner
    ensures cleaner.Valid()
    ensures match DecodeContent(old(input.bytes))
            case BadContent => !ok
            case Content(content, rest) => ok && input.bytes == rest && cleaner.hashed == old(cleaner.hashed) + content
  {
    hide DecodePkt, Cleaner.Valid;
    ghost var whole := DecodeContent(input.bytes);
    while true
      invariant cleaner.Valid() && old(cleaner.hashed) <= cleaner.hashed
      invariant whole == match DecodeContent(input.bytes)
                         case BadContent => BadContent
                         case Content(more, rest) =>
                           Content(cleaner.hashed[|old(cleaner.hashed)|..] + more, rest)
      decreases |input.bytes|
    {
      ghost var before := cleaner.hashed;
      var pkt := input.ReadPkt();
      match pkt {
        case Got(Flush, rest) =>
          return true;
        case Got(Data(data), rest) =>
          cleaner.Update(data);
          ghost var n := |old(cleaner.hashed)|;
          assert cleaner.hashed[n..] == before[n..] + data;
          assert forall more: string {:trigger before[n..] + (data + more)} ::
            before[n..] + (data + more) == before[n..] + data + more;
        case End => return false;
        case Malformed => return false;
      }
    }
  }

  lemma RequestStep(digest: string -> Option<string>, ready: nat -> bool, k: nat, input: string)
    requires input != []
    ensures match DecodeList(input)
            case BadList => ServeRequests(digest, ready, k, input) == Session(false, [])
            case Lines(request, rest) =>
              if !ready(k) then ServeRequests(digest, ready, k, input) == Session(false, [])
              else
                match DecodeContent(rest)
                case BadContent => ServeRequests(digest, ready, k, input) == Session(false, [])
                case Content(content, rest) =>
                  var more := ServeRequests(digest, ready, k + 1, rest);
                  ServeRequests(digest, ready, k, input)
                    == Session(more.ok, Answer(Handled(digest, request, content)) + more.output)
  {
    hide DecodeList, DecodeContent, Answer, Handled;
  }

  /** The request loop: each request is read, cleaned and answered before the next. */
  method ServeAll(digest: string -> Option<string>, ready: nat -> bool, input: Input, output: Output) returns (ok: bool)
    modifies input, output
    ensures
      var session := ServeRequests(digest, ready, 0, old(input.bytes));
      ok == session.ok && output.bytes == old(output.bytes) + session.output
  {
    hide DecodeList, DecodeContent, Answer, Clean, CommandOf, ServeRequests;
    ghost var whole := ServeRequests(digest, ready, 0, input.bytes);
    var k: nat := 0;
    while input.bytes != []
      invariant
        var more := ServeRequests(digest, ready, k, input.bytes);
        whole.ok == more.ok && output.bytes + more.output == old(output.bytes) + whole.output
      decreases |input.bytes|
    {
      ghost var more := ServeRequests(digest, ready, k, input.bytes);
      ghost var before := output.bytes;
      RequestStep(digest, ready, k, input.bytes);
      var request := input.ReadList();
      if request.BadList? || !ready(k) {
        return false;
      }
      k := k + 1;
      var cleaner := new Cleaner();
      var complete := ReadInto(input, cleaner);
      if !complete {
        return false;
      }
      ghost var content := DecodeContent(request.rest).bytes;
      assert cleaner.hashed == content;
      var result := None;
      if CommandOf(request.lines) == Some("clean") {
        result := cleaner.Finish(digest);
      }
      output.WriteAnswer(result);
      assert result == Handled(digest, request.lines, content);
      ghost var rest := ServeRequests(digest, ready, k, input.bytes);
      assert more.output == Answer(result) + rest.output;
      assert before + (Answer(result) + rest.output) == before + Answer(result) + rest.output;
    }
    NothingServed(digest, ready, k);
    ok := true;
  }

  /** The whole session: the handshake, then the request loop. */
  method ServeSession(digest: string -> Option<string>, ready: nat -> bool, input: Input, output: Output) returns (ok: bool)
    modifies input, output
    ensures
      var session := Serve(digest, ready, old(input.bytes));
      ok == session.ok && output.bytes == old(output.bytes) + session.output
  {
    hide DecodeList, ServeRequests, EncodeText;
    var hello := input.ReadList();
    if hello.BadList? || !IsHello(hello.lines) {
      return false;
    }
    output.Write(HELLO);
    var capabilities := input.ReadList();
    if capabilities.BadList? || "capability=clean" !in capabilities.lines {
      return false;
    }
    output.Write(CAPABILITIES);
    ok := ServeAll(digest, ready, input, output);
  }
}
