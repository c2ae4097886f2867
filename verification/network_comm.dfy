/**
 * The TCP exchange of `network_comm.py` (`network_service`): one accepted
 * connection (a text message, or an image announced by an `IMG f n` header
 * and then read in chunks of at most 4096 bytes), followed by the outbound
 * commands `MSG r t` and `IMG_SEND r f n::path`.
 *
 * Sockets are replaced by values: an accepted connection is the header text
 * its first `recv(512)` returned plus the stream of chunks the peer sends
 * afterwards; an outbound connection is whether `connect` succeeds and what
 * the first `recv(16)` returns. The image folder is a map from file name to
 * bytes, the files read for sending another such map.
 */
module NetworkComm {
  import opened Wrappers
  import opened PyStr
  import opened Contacts

  type byte = b: int | 0 <= b < 256

  /** One non-empty piece of the peer's byte stream; the end of the sequence is the peer closing. */
  type Chunk = c: seq<byte> | |c| > 0 witness [0]

  /** The largest read the image loop asks for. */
  const RecvMax: nat := 4096

  /** `b"OK"`. */
  const Ok: seq<byte> := [79, 75]

  /** Everything the peer sends, in order. */
  function Flatten(cs: seq<Chunk>): seq<byte>
    decreases |cs|
  {
    if |cs| == 0 then [] else cs[0] + Flatten(cs[1..])
  }

  datatype Received = Received(data: seq<byte>, rest: seq<Chunk>)

  /**
   * `conn.recv(n)`: at most `n` bytes of what has arrived, and `b""` only
   * once the peer has closed; nothing is lost or reordered.
   */
  function Recv(stream: seq<Chunk>, n: nat): (r: Received)
    requires n > 0
    ensures |r.data| <= n
    ensures r.data + Flatten(r.rest) == Flatten(stream)
    ensures r.data == [] <==> stream == []
  {
    if |stream| == 0 then Received([], [])
    else if |stream[0]| <= n then Received(stream[0], stream[1..])
    else
      var head: Chunk := stream[0][n..];
      assert Flatten([head] + stream[1..]) == head + Flatten(stream[1..]) by {
        assert ([head] + stream[1..])[1..] == stream[1..];
      }
      assert stream[0][..n] + head == stream[0];
      Received(stream[0][..n], [head] + stream[1..])
  }

  /**
   * What the image loop collects for a declared size: nothing for a size of
   * zero or less, the first `size` bytes when the peer sends that many, and
   * everything it sent when it closes early.
   */
  function Expected(stream: seq<Chunk>, size: int): (r: seq<byte>)
    ensures |r| <= if size <= 0 then 0 else size
    ensures |r| <= |Flatten(stream)| && r == Flatten(stream)[..|r|]
    ensures 0 < size <= |Flatten(stream)| ==> |r| == size
    ensures size > |Flatten(stream)| ==> r == Flatten(stream)
  {
    var all := Flatten(stream);
    if size <= 0 then []
    else if size <= |all| then all[..size]
    else all
  }

  /** The size of the next read: `min(4096, size - len(data))`. */
  function NextRequest(size: int, have: nat): int {
    if size - have < RecvMax then size - have else RecvMax
  }

  /**
   * The exact-length read loop: keep asking for `min(4096, size - len(data))`
   * bytes until `size` bytes are in or the peer closes. It collects exactly
   * `Expected(stream, size)`, never more than the declared size. `offsets[i]`
   * is how much had been collected when request `i` was made: the offsets
   * start at 0 and grow with every request, each request asks for exactly
   * `min(4096, size - offsets[i])` bytes, and that is at least 1.
   */
  method ReadExact(stream: seq<Chunk>, size: int) returns (data: seq<byte>, requests: seq<nat>, offsets: seq<nat>)
    ensures data == Expected(stream, size)
    ensures size <= 0 ==> requests == []
    ensures RequestLog(size, requests, offsets, |data|)
  {
    data := [];
    requests := [];
    offsets := [];
    var rest := stream;
    while |data| < size
      invariant data + Flatten(rest) == Flatten(stream)
      invariant |data| <= size || data == []
      invariant size <= 0 ==> requests == []
      invariant OpenLog(size, requests, offsets, |data|)
      decreases size - |data|
    {
      var n: nat := NextRequest(size, |data|);
      var chunk := Recv(rest, n);
      LogStep(size, requests, offsets, |data|, |chunk.data|);
      requests := requests + [n];
      offsets := offsets + [|data|];
      if chunk.data == [] {
        assert rest == [];
        break;
      }
      assert (data + chunk.data) + Flatten(chunk.rest) == data + (chunk.data + Flatten(chunk.rest));
      data := data + chunk.data;
      rest := chunk.rest;
    }
    ReadEnds(stream, size, data, rest);
  }

  /** The requests made so far, with the amount collected at each, when `have` bytes are in. */
  predicate RequestLog(size: int, requests: seq<nat>, offsets: seq<nat>, have: nat) {
    && |offsets| == |requests|
    && (|requests| > 0 ==> offsets[0] == 0)
    && (forall i :: 0 <= i < |requests| ==>
          offsets[i] < size && offsets[i] <= have && requests[i] == NextRequest(size, offsets[i]))
    && (forall i :: 0 < i < |requests| ==> offsets[i - 1] < offsets[i])
  }

  /** The log while the loop goes on: every request so far has been answered with at least one byte. */
  predicate OpenLog(size: int, requests: seq<nat>, offsets: seq<nat>, have: nat) {
    && RequestLog(size, requests, offsets, have)
    && (|requests| > 0 ==> offsets[|offsets| - 1] < have)
    && (requests == [] ==> have == 0)
  }

  /** One more request, made with `have` bytes in, after which `more` bytes arrive. */
  lemma LogStep(size: int, requests: seq<nat>, offsets: seq<nat>, have: nat, more: nat)
    requires OpenLog(size, requests, offsets, have) && have < size
    ensures RequestLog(size, requests + [NextRequest(size, have) as nat], offsets + [have], have)
    ensures more > 0 ==> OpenLog(size, requests + [NextRequest(size, have) as nat], offsets + [have], have + more)
  {
    var rs := requests + [NextRequest(size, have) as nat];
    var os := offsets + [have];
    forall i | 0 < i < |rs|
      ensures os[i - 1] < os[i]
    {
      if i < |requests| {
        assert os[i - 1] == offsets[i - 1] && os[i] == offsets[i];
      }
    }
  }

  /** Where the read loop stops: at the declared size, or earlier once the stream is used up. */
  lemma ReadEnds(stream: seq<Chunk>, size: int, data: seq<byte>, rest: seq<Chunk>)
    requires data + Flatten(rest) == Flatten(stream)
    requires |data| <= size || data == []
    requires |data| >= size || rest == []
    ensures data == Expected(stream, size)
  {
    assert data == Flatten(stream)[..|data|];
    if rest == [] {
      assert data == Flatten(stream);
    }
  }

  // ----------------------------------------------------------- receiving

  /** An accepted connection: the text of its first `recv(512)`, then the rest of the stream. */
  datatype Incoming = Incoming(header: string, body: seq<Chunk>)

  /** Why an operation failed; the exception text Python renders for it is not modelled. */
  datatype Fault =
    | UnpackMismatch(expected: nat, got: nat)   // `a, b, c = xs` with the wrong number of items
    | NotAnInteger(literal: string)             // `int(...)` rejects the text
    | ConnectFailed                             // the peer cannot be reached
    | FileUnreadable(path: string)              // `open(path, "rb")` fails

  /** A UI event: a plain text, or a context text followed by the rendered exception. */
  datatype Event = Notice(text: string) | Failure(context: string, fault: Fault)

  const ImgReceiveFailed: string := "[Fehler] Bildempfang fehlgeschlagen: "
  const MsgSendFailed: string := "[Fehler] Nachricht nicht gesendet: "
  const ImgSendFailed: string := "[Fehler] Bildversand fehlgeschlagen: "

  /** What one accepted connection leads to: whether `OK` was sent back, the image folder afterwards, the UI events. */
  datatype Reception = Reception(acked: bool, images: map<string, seq<byte>>, events: seq<Event>)

  /**
   * One accepted connection. Every connection yields exactly one UI event,
   * and the image folder changes only when the header is acknowledged.
   */
  function Receive(images: map<string, seq<byte>>, c: Incoming): (r: Reception)
    ensures |r.events| == 1
    ensures !r.acked ==> r.images == images
    ensures r.acked ==> StartsWith(Strip(c.header), "IMG")
  {
    var header := Strip(c.header);
    if StartsWith(header, "IMG") then
      var toks := SplitWs(header);
      if |toks| != 3 then Reception(false, images, [Failure(ImgReceiveFailed, UnpackMismatch(3, |toks|))])
      else
        match ParseInt(toks[2])
        case None => Reception(false, images, [Failure(ImgReceiveFailed, NotAnInteger(toks[2]))])
        case Some(size) =>
          var filename := toks[1];
          Reception(true, images[filename := Expected(c.body, size)],
                    [Notice("[Bild] Empfangen: " + filename + " (" + IntToString(size) + " Bytes)")])
    else
      Reception(false, images, [Notice("[Nachricht] " + header)])
  }

  // ------------------------------------------------------------- sending

  /** An outbound connection: whether `connect` succeeds, and what the first `recv(16)` returns. */
  datatype Link = Link(connects: bool, ack: seq<byte>)

  /** A command from the UI together with the connection it would open. */
  datatype NetCommand = NetCommand(text: string, link: Link)

  datatype Payload = Text(text: string) | Bytes(data: seq<byte>)

  /** One `sendall` on an outbound connection to `(ip, port)`. */
  datatype Sent = Sent(ip: string, port: int, payload: Payload)

  /** A handled command, or the exception that ends the service. */
  datatype CmdResult = Done(sent: seq<Sent>, events: seq<Event>) | Crash

  datatype MsgRequest = MsgRequest(recipient: string, text: string)

  datatype ImgRequest = ImgRequest(recipient: string, filename: string, size: int, path: string)

  /** `_, recipient, text = cmd.split(" ", 2)`; `None` when the unpacking raises. */
  function ParseMsg(cmd: string): (r: Option<MsgRequest>)
    ensures r.Some? ==> Absent(r.value.recipient, " ")
  {
    var parts := Split(cmd, " ", 2);
    if |parts| != 3 then None else Some(MsgRequest(parts[1], parts[2]))
  }

  /**
   * `cmd.split(" ", 1)[1].split("::")` unpacked into header and path, then
   * `header.split()[:3]` into recipient, file name and size, and `int(size)`;
   * `None` when any of these raises.
   */
  function ParseImgSend(cmd: string): Option<ImgRequest> {
    var first := Split(cmd, " ", 1);
    if |first| < 2 then None
    else
      var parts := Split(first[1], "::", -1);
      if |parts| != 2 then None
      else
        var toks := SplitWs(parts[0]);
        if |toks| < 3 then None
        else
          match ParseInt(toks[2])
          case None => None
          case Some(n) => Some(ImgRequest(toks[0], toks[1], n, parts[1]))
  }

  /** The text a message is delivered as: `f"{username}: {text}"`. */
  function MsgBody(username: string, text: string): string {
    username + ": " + text
  }

  /** The image header: `f"IMG {filename} {size}\n"`. */
  function ImgHeader(filename: string, size: int): string {
    "IMG" + " " + filename + " " + IntToString(size) + "\n"
  }

  function UnknownRecipient(recipient: string): Event {
    Notice("[Warnung] Empfänger " + recipient + " nicht gefunden. (Tipp: who ausführen)")
  }

  /** `MSG`: look the recipient up in the contact table, connect, send the text. */
  function SendMsg(username: string, contacts: Table, req: MsgRequest, link: Link): (r: CmdResult)
    ensures r.Done? && |r.events| == 1
    ensures |r.sent| <= 1
  {
    if req.recipient in contacts.m then
      var a := contacts.m[req.recipient];
      if link.connects then
        Done([Sent(a.ip, a.port, Text(MsgBody(username, req.text)))],
             [Notice("[System] Nachricht an " + req.recipient + " gesendet.")])
      else
        Done([], [Failure(MsgSendFailed, ConnectFailed)])
    else
      Done([], [UnknownRecipient(req.recipient)])
  }

  /** `IMG_SEND`: look the recipient up, connect, send the header, and the file only after an `OK`. */
  function SendImg(contacts: Table, files: map<string, seq<byte>>, req: ImgRequest, link: Link): (r: CmdResult)
    ensures r.Done? && |r.events| <= 1
    ensures |r.sent| <= 2
  {
    if req.recipient in contacts.m then
      var a := contacts.m[req.recipient];
      if !link.connects then Done([], [Failure(ImgSendFailed, ConnectFailed)])
      else
        var header := Sent(a.ip, a.port, Text(ImgHeader(req.filename, req.size)));
        if link.ack != Ok then Done([header], [])
        else if req.path in files then
          Done([header, Sent(a.ip, a.port, Bytes(files[req.path]))],
               [Notice("[System] Bild an " + req.recipient + " gesendet: " + req.filename)])
        else
          Done([header], [Failure(ImgSendFailed, FileUnreadable(req.path))])
    else
      Done([], [UnknownRecipient(req.recipient)])
  }

  /** One command from the queue: `MSG...`, else `IMG_SEND...`, else ignored. */
  function HandleNetCommand(username: string, contacts: Table, files: map<string, seq<byte>>, c: NetCommand): (r: CmdResult)
    ensures r.Crash? <==>
              || (StartsWith(c.text, "MSG") && ParseMsg(c.text).None?)
              || (!StartsWith(c.text, "MSG") && StartsWith(c.text, "IMG_SEND") && ParseImgSend(c.text).None?)
    ensures r.Done? ==> |r.events| <= 1
  {
    if StartsWith(c.text, "MSG") then
      match ParseMsg(c.text)
      case None => Crash
      case Some(req) => SendMsg(username, contacts, req, c.link)
    else if StartsWith(c.text, "IMG_SEND") then
      match ParseImgSend(c.text)
      case None => Crash
      case Some(req) => SendImg(contacts, files, req, c.link)
    else
      Done([], [])
  }

  /** The drained queue: what was sent and shown, and whether the service survived. */
  datatype Drained = Drained(sent: seq<Sent>, events: seq<Event>, alive: bool)

  /**
   * `while not net_queue.empty()`: the commands in order. The service
   * survives exactly when no command raises; a command that raises keeps
   * what the earlier ones sent and showed, and the later ones stay queued.
   */
  function DrainNet(username: string, contacts: Table, files: map<string, seq<byte>>, cmds: seq<NetCommand>): (r: Drained)
    ensures r.alive <==> forall i :: 0 <= i < |cmds| ==> HandleNetCommand(username, contacts, files, cmds[i]).Done?
    ensures |r.events| <= |cmds|
    decreases |cmds|
  {
    if |cmds| == 0 then Drained([], [], true)
    else
      match HandleNetCommand(username, contacts, files, cmds[0])
      case Crash => Drained([], [], false)
      case Done(sent, events) =>
        var rest := DrainNet(username, contacts, files, cmds[1..]);
        assert forall i :: 1 <= i < |cmds| ==> cmds[i] == cmds[1..][i - 1];
        Drained(sent + rest.sent, events + rest.events, rest.alive)
  }

  /** One loop iteration: the service's state is its image folder. */
  datatype NetStep = NetStep(images: map<string, seq<byte>>, acked: bool, sent: seq<Sent>, events: seq<Event>, alive: bool)

  /** One pass: the connection `accept` returned (`None` on timeout), then the queued commands. */
  function NetPoll(username: string, images: map<string, seq<byte>>, contacts: Table, files: map<string, seq<byte>>,
                   incoming: Option<Incoming>, cmds: seq<NetCommand>): (r: NetStep)
    ensures incoming.None? ==> r.images == images && !r.acked
    ensures r.alive == DrainNet(username, contacts, files, cmds).alive
  {
    var rec := if incoming.Some? then Receive(images, incoming.value) else Reception(false, images, []);
    var drained := DrainNet(username, contacts, files, cmds);
    NetStep(rec.images, rec.acked, drained.sent, rec.events + drained.events, drained.alive)
  }

  // ---------------------------------------------------------- properties

  /** The sender's image header, after the receiver's `strip()`, is three tokens and nothing else. */
  lemma ImgHeaderTokens(filename: string, size: int)
    requires IsWord(filename)
    ensures Strip(ImgHeader(filename, size)) == "IMG" + " " + filename + " " + IntToString(size)
    ensures SplitWs("IMG" + " " + filename + " " + IntToString(size)) == ["IMG", filename, IntToString(size)]
  {
    assert IsWord("IMG") && AllSpace("\n");
    WordsLine("IMG", filename, IntToString(size), "\n");
  }

  /**
   * The image header round trip: the header `IMG f n` the sender writes is
   * acknowledged by the receiver, which stores what the read loop collects
   * under `f` and reports the declared size `n`.
   */
  lemma ImgHeaderRoundTrip(images: map<string, seq<byte>>, filename: string, size: int, body: seq<Chunk>)
    requires IsWord(filename)
    ensures Receive(images, Incoming(ImgHeader(filename, size), body))
         == Reception(true, images[filename := Expected(body, size)],
                      [Notice("[Bild] Empfangen: " + filename + " (" + IntToString(size) + " Bytes)")])
  {
    ImgHeaderTokens(filename, size);
    ParseIntToString(size);
    var t := "IMG" + " " + filename + " " + IntToString(size);
    assert StartsWith(t, "IMG") by { assert t[..3] == "IMG"; }
    ReceiveImageOf(images, Incoming(ImgHeader(filename, size), body), ["IMG", filename, IntToString(size)], size);
  }

  /** A stripped header that starts with `IMG` and splits into three tokens with an integer size is received as an image. */
  lemma ReceiveImageOf(images: map<string, seq<byte>>, c: Incoming, toks: seq<string>, size: int)
    requires StartsWith(Strip(c.header), "IMG") && SplitWs(Strip(c.header)) == toks
    requires |toks| == 3 && ParseInt(toks[2]) == Some(size) && toks[2] == IntToString(size)
    ensures Receive(images, c)
         == Reception(true, images[toks[1] := Expected(c.body, size)],
                      [Notice("[Bild] Empfangen: " + toks[1] + " (" + IntToString(size) + " Bytes)")])
  {
  }

  /**
   * A complete transfer stores exactly the first `size` bytes; a transfer the
   * peer cuts short is still stored, with what arrived, and still reported
   * with the declared size.
   */
  lemma ImageStored(images: map<string, seq<byte>>, filename: string, size: int, body: seq<Chunk>)
    requires IsWord(filename) && size > 0
    ensures var r := Receive(images, Incoming(ImgHeader(filename, size), body));
            && r.acked && filename in r.images
            && (size <= |Flatten(body)| ==> r.images[filename] == Flatten(body)[..size])
            && (size > |Flatten(body)| ==> r.images[filename] == Flatten(body))
            && r.events == [Notice("[Bild] Empfangen: " + filename + " (" + IntToString(size) + " Bytes)")]
  {
    ImgHeaderRoundTrip(images, filename, size, body);
  }

  /**
   * The receiver acknowledges exactly the headers that start with `IMG`,
   * split into three tokens and carry an integer size; any other `IMG`
   * header yields one `[Fehler] Bildempfang` event, no `OK` and no file.
   */
  lemma ReceiveAcks(images: map<string, seq<byte>>, c: Incoming)
    ensures var h := Strip(c.header);
            var toks := SplitWs(h);
            var r := Receive(images, c);
            && (r.acked <==> StartsWith(h, "IMG") && |toks| == 3 && ParseInt(toks[2]).Some?)
            && (StartsWith(h, "IMG") && !r.acked ==>
                  r.images == images && |r.events| == 1
                  && r.events[0].Failure? && r.events[0].context == ImgReceiveFailed)
  {
  }

  /** A header that does not start with `IMG` is shown verbatim (after `strip()`) as a message. */
  lemma TextHeaderVerbatim(images: map<string, seq<byte>>, c: Incoming)
    requires !StartsWith(Strip(c.header), "IMG")
    ensures Receive(images, c) == Reception(false, images, [Notice("[Nachricht] " + Strip(c.header))])
  {
  }

  /** `split(" ", 2)` recovers a space-free recipient and the text verbatim, spaces and all. */
  lemma MsgCommandRoundTrip(recipient: string, text: string)
    requires ' ' !in recipient
    ensures StartsWith("MSG " + recipient + " " + text, "MSG")
    ensures ParseMsg("MSG " + recipient + " " + text) == Some(MsgRequest(recipient, text))
  {
    var cmd := "MSG " + recipient + " " + text;
    assert cmd[..3] == "MSG";
    assert cmd == "MSG" + [' '] + (recipient + [' '] + text);
    SplitCons("MSG", ' ', recipient + [' '] + text, 2);
    SplitCons(recipient, ' ', text, 1);
    assert " " == [' '];
  }

  /**
   * `MSG r t`: an unknown recipient gives one `[Warnung]` event and no
   * connection; a known, reachable one receives exactly `username: t`; an
   * unreachable one gives one `[Fehler]` event.
   */
  lemma MsgDelivery(username: string, contacts: Table, files: map<string, seq<byte>>,
                    recipient: string, text: string, link: Link)
    requires ' ' !in recipient
    ensures var r := HandleNetCommand(username, contacts, files, NetCommand("MSG " + recipient + " " + text, link));
            && (recipient !in contacts.m ==> r == Done([], [UnknownRecipient(recipient)]))
            && (recipient in contacts.m && link.connects ==>
                  var a := contacts.m[recipient];
                  r == Done([Sent(a.ip, a.port, Text(username + ": " + text))],
                            [Notice("[System] Nachricht an " + recipient + " gesendet.")]))
            && (recipient in contacts.m && !link.connects ==> r == Done([], [Failure(MsgSendFailed, ConnectFailed)]))
  {
    MsgCommandRoundTrip(recipient, text);
  }

  /** The text of an image command: `IMG_SEND r f n::path`. */
  function ImgSendText(recipient: string, filename: string, size: int, path: string): string {
    "IMG_SEND " + recipient + " " + filename + " " + IntToString(size) + "::" + path
  }

  /**
   * The image command round trip: recipient, file name, size and path come
   * back out, provided the names are single tokens and neither the names nor
   * the path contain `::`.
   */
  lemma ImgSendRoundTrip(recipient: string, filename: string, size: int, path: string)
    requires IsWord(recipient) && IsWord(filename) && Absent(recipient, "::") && Absent(filename, "::")
    requires Absent(path, "::")
    ensures !StartsWith(ImgSendText(recipient, filename, size, path), "MSG")
    ensures StartsWith(ImgSendText(recipient, filename, size, path), "IMG_SEND")
    ensures ParseImgSend(ImgSendText(recipient, filename, size, path)) == Some(ImgRequest(recipient, filename, size, path))
  {
    var p := IntToString(size);
    var h := recipient + " " + filename + " " + p;
    var cmd := ImgSendText(recipient, filename, size, path);
    ImgSendPrefix(cmd, h + "::" + path);
    ImgSendPieces(recipient, filename, size, path);
    SplitWsThree(recipient, filename, p);
    ParseIntToString(size);
    ParseImgSendOf(cmd, h + "::" + path, h, path, recipient, filename, p, size);
  }

  lemma ImgSendPrefix(cmd: string, rest: string)
    requires cmd == "IMG_SEND " + rest
    ensures !StartsWith(cmd, "MSG") && StartsWith(cmd, "IMG_SEND")
  {
    assert cmd[..8] == "IMG_SEND";
    assert cmd[0] == 'I';
  }

  /** `ParseImgSend` from the outcomes of its splits and its `int()`. */
  lemma ParseImgSendOf(cmd: string, rest: string, h: string, path: string,
                       recipient: string, filename: string, p: string, size: int)
    requires |Split(cmd, " ", 1)| >= 2 && Split(cmd, " ", 1)[1] == rest
    requires Split(rest, "::", -1) == [h, path]
    requires SplitWs(h) == [recipient, filename, p]
    requires ParseInt(p) == Some(size)
    ensures ParseImgSend(cmd) == Some(ImgRequest(recipient, filename, size, path))
  {
  }

  /** The two splits of an image command: at the first space, then at `::`. */
  lemma {:induction false} ImgSendPieces(recipient: string, filename: string, size: int, path: string)
    requires Absent(recipient, "::") && Absent(filename, "::") && Absent(path, "::")
    ensures var h := recipient + " " + filename + " " + IntToString(size);
            && Split(ImgSendText(recipient, filename, size, path), " ", 1) == ["IMG_SEND", h + "::" + path]
            && Split(h + "::" + path, "::", -1) == [h, path]
  {
    var p := IntToString(size);
    var h := recipient + " " + filename + " " + p;
    FirstSpaceSplit(ImgSendText(recipient, filename, size, path), h + "::" + path);
    HeaderColonFree(recipient, filename, size);
    PathSplit(h, path);
  }

  /** The header part `r f n` of an image command holds no `::` and ends in a character of `n`, not in `:`. */
  lemma {:induction false} HeaderColonFree(recipient: string, filename: string, size: int)
    requires Absent(recipient, "::") && Absent(filename, "::")
    ensures var h := recipient + " " + filename + " " + IntToString(size);
            Absent(h, "::") && h != [] && h[|h| - 1] != ':'
  {
    var p := IntToString(size);
    var h := recipient + " " + filename + " " + p;
    assert Absent(p, "::") by {
      forall i: nat | i <= |p|
        ensures !OccursAt(p, "::", i)
      {
        if i < |p| {
          assert IsDigit(p[i]) || p[i] == '-';
        }
      }
    }
    ColonPairFree(recipient, ' ', filename);
    assert recipient + " " + filename == recipient + [' '] + filename;
    ColonPairFree(recipient + " " + filename, ' ', p);
    assert h == recipient + " " + filename + [' '] + p;
    assert h[|h| - 1] == p[|p| - 1];
  }

  lemma FirstSpaceSplit(cmd: string, rest: string)
    requires cmd == "IMG_SEND " + rest
    ensures Split(cmd, " ", 1) == ["IMG_SEND", rest]
  {
    assert cmd == "IMG_SEND" + [' '] + rest;
    SplitCons("IMG_SEND", ' ', rest, 1);
    assert " " == [' '];
  }

  /** `::` occurs at `j` exactly when the characters at `j` and `j + 1` are both `:`. */
  lemma ColonPairAt(s: string, j: nat)
    ensures OccursAt(s, "::", j) <==> j + 2 <= |s| && s[j] == ':' && s[j + 1] == ':'
  {
    if j + 2 <= |s| {
      assert s[j..j + 2] == [s[j], s[j + 1]];
    }
  }

  /** Joining two `::`-free strings with a character other than `:` makes no `::`. */
  lemma {:induction false} ColonPairFree(x: string, c: char, y: string)
    requires Absent(x, "::") && Absent(y, "::") && c != ':'
    ensures Absent(x + [c] + y, "::")
  {
    var s := x + [c] + y;
    forall j: nat | j <= |s|
      ensures !OccursAt(s, "::", j)
    {
      ColonPairAt(s, j);
      if j + 2 <= |x| {
        ColonPairAt(x, j);
      } else if j > |x| {
        ColonPairAt(y, j - |x| - 1);
      }
    }
  }

  /** `h::path` splits at `::` into `h` and the path when neither holds `::` and `h` does not end in `:`. */
  lemma {:induction false} PathSplit(h: string, path: string)
    requires Absent(h, "::") && h != [] && h[|h| - 1] != ':' && Absent(path, "::")
    ensures Split(h + "::" + path, "::", -1) == [h, path]
  {
    var s := h + "::" + path;
    assert OccursAt(s, "::", |h|) by { assert s[|h|..|h| + 2] == "::"; }
    forall j: nat | j < |h|
      ensures !OccursAt(s, "::", j)
    {
      ColonPairAt(s, j);
      if j + 1 < |h| {
        ColonPairAt(h, j);
      }
    }
    assert Find(s, "::") == Some(|h|);
    assert s[..|h|] == h;
    assert s[|h| + 2..] == path;
    SplitAbsent(path, "::", -1);
  }

  /**
   * The `OK` gate: once the header has gone out to a known, reachable
   * recipient, the file bytes are sent, and the success event shown, exactly
   * when the reply is `OK` and the file can be read; an `OK` for a file that
   * cannot be read gives the failure event instead; any other reply closes
   * the connection with nothing more sent and no event.
   */
  lemma ImgSendAckGate(contacts: Table, files: map<string, seq<byte>>, req: ImgRequest, link: Link)
    requires req.recipient in contacts.m && link.connects
    ensures var a := contacts.m[req.recipient];
            var r := SendImg(contacts, files, req, link);
            && r.sent[0] == Sent(a.ip, a.port, Text(ImgHeader(req.filename, req.size)))
            && (|r.sent| == 2 <==> link.ack == Ok && req.path in files)
            && (|r.sent| == 2 ==>
                  && r.sent[1] == Sent(a.ip, a.port, Bytes(files[req.path]))
                  && r.events == [Notice("[System] Bild an " + req.recipient + " gesendet: " + req.filename)])
            && (link.ack != Ok ==> r == Done([r.sent[0]], []))
            && (link.ack == Ok && req.path !in files ==>
                  r == Done([r.sent[0]], [Failure(ImgSendFailed, FileUnreadable(req.path))]))
  {
  }

  /** A command whose recipient is not in the contact table gives exactly one `[Warnung]` event and sends nothing. */
  lemma UnknownRecipientWarns(username: string, contacts: Table, files: map<string, seq<byte>>, c: NetCommand)
    ensures StartsWith(c.text, "MSG") && ParseMsg(c.text).Some? && ParseMsg(c.text).value.recipient !in contacts.m ==>
              HandleNetCommand(username, contacts, files, c) == Done([], [UnknownRecipient(ParseMsg(c.text).value.recipient)])
    ensures !StartsWith(c.text, "MSG") && StartsWith(c.text, "IMG_SEND")
            && ParseImgSend(c.text).Some? && ParseImgSend(c.text).value.recipient !in contacts.m ==>
              HandleNetCommand(username, contacts, files, c) == Done([], [UnknownRecipient(ParseImgSend(c.text).value.recipient)])
  {
  }

  /**
   * An image sent end to end: when the whole file reaches the receiver, the
   * receiver's folder holds exactly the sender's file under its name.
   */
  lemma ImageEndToEnd(contacts: Table, files: map<string, seq<byte>>, req: ImgRequest, link: Link,
                      images: map<string, seq<byte>>, body: seq<Chunk>)
    requires req.recipient in contacts.m && link.connects && link.ack == Ok && req.path in files
    requires IsWord(req.filename) && req.size == |files[req.path]| && Flatten(body) == files[req.path]
    ensures var r := SendImg(contacts, files, req, link);
            && r.sent[0].payload.Text?
            && Receive(images, Incoming(r.sent[0].payload.text, body)).images == images[req.filename := files[req.path]]
  {
    ImgHeaderRoundTrip(images, req.filename, req.size, body);
    assert Flatten(body)[..|Flatten(body)|] == Flatten(body);
  }

  /**
   * A text message end to end: `username: text` reaches the receiver as
   * `[Nachricht] username: text`, provided the sender's handle does not
   * start with `IMG` or with whitespace and the text is not empty and does
   * not end in whitespace (the receiver strips the line).
   */
  lemma TextEndToEnd(username: string, text: string, images: map<string, seq<byte>>, body: seq<Chunk>)
    requires username != [] && !IsSpace(username[0]) && !StartsWith(username, "IMG")
    requires text != [] && !IsSpace(text[|text| - 1])
    ensures Receive(images, Incoming(MsgBody(username, text), body))
         == Reception(false, images, [Notice("[Nachricht] " + username + ": " + text)])
  {
    var m := MsgBody(username, text);
    assert Strip(m) == m by {
      assert m[0] == username[0] && m[|m| - 1] == text[|text| - 1];
      StripPadded([], m, []);
      assert [] + m + [] == m;
    }
    assert !StartsWith(m, "IMG") by {
      if |username| >= 3 {
        assert m[..3] == username[..3];
      } else if |m| >= 3 {
        assert m[|username|] == ':';
        assert m[..3][|username|] != "IMG"[|username|];
      }
    }
    TextHeaderVerbatim(images, Incoming(m, body));
    assert "[Nachricht] " + m == "[Nachricht] " + username + ": " + text;
  }

  /**
   * The other side of that proviso: a handle starting with `IMG` turns every
   * text message into an image header, so a one-word message is rejected as
   * a malformed image and never shown.
   */
  lemma ImgPrefixedHandle(username: string, word: string, images: map<string, seq<byte>>, body: seq<Chunk>)
    requires IsWord(username) && |username| >= 3 && username[..3] == "IMG" && IsWord(word)
    ensures var r := Receive(images, Incoming(MsgBody(username, word), body));
            && !r.acked && r.images == images
            && r.events == [Failure(ImgReceiveFailed, UnpackMismatch(3, 2))]
  {
    var m := MsgBody(username, word);
    ImgHandleLine(username, word);
    MalformedImage(images, Incoming(m, body));
  }

  /** `f"{username}: {word}"` with an `IMG...` handle: stripped already, starts with `IMG`, two tokens. */
  lemma ImgHandleLine(username: string, word: string)
    requires IsWord(username) && |username| >= 3 && username[..3] == "IMG" && IsWord(word)
    ensures Strip(MsgBody(username, word)) == MsgBody(username, word)
    ensures StartsWith(MsgBody(username, word), "IMG")
    ensures |SplitWs(MsgBody(username, word))| == 2
  {
    var m := MsgBody(username, word);
    var head := username + ":";
    assert m == head + " " + word;
    assert IsWord(head) by {
      assert head[|head| - 1] == ':';
    }
    TwoWords(head, word);
    assert m[..3] == username[..3];
  }

  /** An `IMG` header without exactly three tokens is reported with its token count and acknowledges nothing. */
  lemma MalformedImage(images: map<string, seq<byte>>, c: Incoming)
    requires StartsWith(Strip(c.header), "IMG") && |SplitWs(Strip(c.header))| != 3
    ensures Receive(images, c) ==
              Reception(false, images, [Failure(ImgReceiveFailed, UnpackMismatch(3, |SplitWs(Strip(c.header))|))])
  {
  }

  /** Two words joined by one space are already stripped and split back into the two words. */
  lemma TwoWords(a: string, b: string)
    requires IsWord(a) && IsWord(b)
    ensures Strip(a + " " + b) == a + " " + b
    ensures SplitWs(a + " " + b) == [a, b]
  {
    var m := a + " " + b;
    assert Strip(m) == m by {
      assert Trimmed(m) by {
        assert m[0] == a[0] && m[|m| - 1] == b[|b| - 1];
      }
      StripPadded([], m, []);
      assert [] + m + [] == m;
    }
    assert SplitWs(m) == [a, b] by {
      assert AllSpace(" ");
      SplitWsSingle(b);
      SplitWsCons(a, " ", b);
    }
  }
}
