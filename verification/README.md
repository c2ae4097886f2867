# Plauderkiste: discovery and exchange, modelled in Dafny

Plauderkiste is a peer-to-peer chat for a local network. Each peer runs two
services:

- a **discovery service** on a shared UDP port. It announces the peer with
  `JOIN name port`, asks who is there with `WHO`, answers a `WHO` with
  `SEEN name ip port, ...`, and keeps the contact table (`kontaktbuch`) that
  both services share.
- an **exchange service** on the peer's own TCP port. It receives text
  messages and images announced by an `IMG file size` header, and it carries
  out the user's `MSG recipient text` and `IMG_SEND recipient file size::path`
  commands.

An older discovery handler, which answers `WHO` with `KNOWUSERS ...`, is
modelled alongside.

Sockets, clocks and queues are replaced by values. A received datagram is its
text, its sender's address and the clock reading taken while it is handled. An
accepted TCP connection is the header text of its first read plus the stream of
chunks the peer sends after it. An outbound connection is whether `connect`
succeeds and what the first `recv(16)` returns. The command queues are
sequences, and the image folder and the files available for sending are maps
from names to bytes. Each poll of a service loop is a pure function from its
state and inputs to a new state plus the datagrams, payloads and UI events it
produces, in program order. An exception the loop does not catch is an explicit
outcome (`Crash`, `Dead`, `alive == false`).

Modules:

- `Wrappers`: `Option` and `Somes`, which keeps the present values of a sequence of options, in order.
- `PyStr`: the parts of Python's `str` the services use. This covers `strip()`,
  `split()`, `split(sep, maxsplit)`, `sep.join`, `replace`, `int()` and `str(int)`,
  with Python's whitespace set.
- `OrderedDict`: a Python `dict` that keeps its insertion order, with `d[k] = v`, `pop`, `items()` and assignment loops.
- `Contacts`: the contact table, its `", "`-joined `name ip port` listing, and the `JOIN name port` announcement.
- `DiscoveryComm`: `discovery_service` of `discovery_comm.py`.
- `NetworkComm`: `network_service` of `network_comm.py`, including the exact-length read loop `ReadExact`.
- `DiscoveryLegacy`: `discovery_service_starten` of `discovery.py`.

Behaviour of the code that a reader may not expect (the model follows the code as written):

- A `JOIN` datagram that does not split into three tokens, or whose port is
  not an integer, ends the discovery loop. So does a `LEAVE` that does not
  split into two tokens. Only `BlockingIOError` is caught
  (`discovery_comm.py:105`).
- A malformed `MSG` or `IMG_SEND` command ends the exchange loop in the same
  way, because it is parsed outside any `try` (`network_comm.py:96`, `111-114`).
- In the older handler, a three-token `JOIN` with a non-integer port ends the
  loop (`discovery.py:36`, `60-61`).
- An image transfer the peer cuts short is still stored with the bytes that
  arrived. The receiver also still reports the declared size; nothing is
  discarded (`network_comm.py:71-79`).
- `SEEN` entries go into `peers` and `kontaktbuch` as soon as they arrive, and
  are also buffered. The commit after the quiet period applies the buffer a
  second time, and the buffer wins on shared names.
- The quiet period is strictly more than 600 ms (`discovery_comm.py:140`).
- `LEAVE` pops the peer from both maps but not from the `SEEN` buffer (`discovery_comm.py:85-89`). A peer that answered an open `WHO` round and then left is written back into both maps by the commit that closes the round (LeftPeerReturns).
- Every `JOIN` from another peer is answered with our own `JOIN` and three `WHO` broadcasts (`discovery_comm.py:71-73`). That answer is itself a `JOIN` from another peer, so two running peers keep answering each other's `JOIN` for as long as both run (JoinHandshake).

## Model

| member | source | states |
|---|---|---|
| DiscoveryComm.Start | discovery_comm.py:35-57 | `peers` holds only the own entry, which is also upserted into the shared table; the cache is empty and no round is open. The outputs are the own-IP event, one `JOIN name tcp_port` broadcast and three `WHO` broadcasts. Starting on an empty shared table establishes the invariant. |
| DiscoveryComm.HandleJoin | discovery_comm.py:64-78 | A handled `JOIN` keeps the dicts well formed and `peers` equal to `kontaktbuch`. |
| DiscoveryComm.HandleLeave | discovery_comm.py:85-89 | A handled `LEAVE` keeps the dicts well formed and the two maps equal. |
| DiscoveryComm.HandleSeen | discovery_comm.py:91-103 | A `SEEN` keeps the invariant and leaves the round flag alone. |
| DiscoveryComm.HandleDatagram | discovery_comm.py:62-106 | Every datagram the loop survives keeps the invariant. |
| DiscoveryComm.HandleCommand | discovery_comm.py:109-137 | No command touches `peers` or `kontaktbuch`, and every command keeps the invariant. |
| DiscoveryComm.Drain | discovery_comm.py:109-137 | Draining the whole queue leaves both maps as they were and keeps the invariant. |
| DiscoveryComm.Commit | discovery_comm.py:140-146 | The commit fires exactly when a round is open and more than 600 ms have passed. Both maps then become their union with the buffer (the buffer wins), the round closes, the buffer empties and one event is shown. Otherwise nothing changes. The invariant is kept. |
| DiscoveryComm.Poll | discovery_comm.py:59-148 | One loop pass that the service survives keeps the invariant. |
| DiscoveryComm.CrashingDatagrams | discovery_comm.py:62-105 | The service dies on exactly two kinds of datagram. One is a `JOIN` that is not three tokens, or whose port is not an integer unless it names us. The other is a `LEAVE` (after the `JOIN`/`WHO` tests) that is not two tokens. |
| DiscoveryComm.SelfJoinIgnored | discovery_comm.py:64-67 | A `JOIN` with our own nickname changes no map and sends nothing. It also skips the command drain and the commit for that pass. |
| DiscoveryComm.JoinFromPeer | discovery_comm.py:64-78 | A `JOIN u p` from another peer upserts `u -> (source ip, p)` into both maps and leaves the cache and the round alone. It sends our own `JOIN` to the sender's discovery port, then the join event, then three `WHO`. |
| DiscoveryComm.LeaveRemoves | discovery_comm.py:85-89 | A two-token `LEAVE u` removes `u` from both maps; an absent `u` changes nothing. It leaves the `SEEN` buffer, the round flag and the round timer as they were, and reports the leave. |
| DiscoveryComm.LeftPeerReturns | discovery_comm.py:85-89 | A peer that is in the `SEEN` buffer of an open round and then sends `LEAVE` is removed from `peers`, but the commit that closes the round (`discovery_comm.py:140-143`) writes it back into both maps at its buffered address. |
| DiscoveryComm.ParseEntryText | discovery_comm.py:96-99 | When the name and the IP are each one whitespace-free token without `,`, one listed `name ip port` entry, with or without a leading space, parses back to its name and address. |
| DiscoveryComm.SeenPiecesOfListing | discovery_comm.py:92 | For a trimmed, `SEEN`-free listing, removing `SEEN` and stripping gives back the listing itself, which is then split at `,`. |
| DiscoveryComm.ListingShape | discovery_comm.py:81 | The listing of a table whose names and IPs are listable is trimmed, contains no `SEEN`, and is empty only for an empty table. |
| DiscoveryComm.SeenReplyPrefix | discovery_comm.py:82 | The `WHO` reply still starts with `SEEN` after the receiver's `strip()`. |
| DiscoveryComm.SeenEntriesOfListing | discovery_comm.py:80-101 | When every name and IP in the replier's `peers` is one whitespace-free token without `,` and without the substring `SEEN`, the entries parsed from the `WHO` reply are exactly the replier's `peers` items, in order. An empty table gives the reply `SEEN `, which yields no entry. The source does not enforce the condition (see WhoReplyRebuildsPeers). |
| DiscoveryComm.ParseListing | discovery_comm.py:93-99 | When every name and IP is one whitespace-free token without `,`, the comma-separated pieces of a non-empty listing parse back to its items. |
| DiscoveryComm.WhoReplyRebuildsPeers | discovery_comm.py:80-101 | A `WHO` is answered to the asker with `SEEN ` plus the `peers` listing, and nothing changes. When every name and IP in the replier's `peers` is one whitespace-free token without `,` and without the substring `SEEN`, that reply makes the three empty maps of the asker all equal to the replier's `peers`, key order included. The source does not enforce this condition: a name such as `SEENA`, which the `JOIN` handler accepts, loses its `SEEN` to `replace` and comes back as `A`. |
| DiscoveryComm.ParsePiecesAppend | discovery_comm.py:93-101 | The pieces of a `SEEN` text are parsed independently of one another. |
| DiscoveryComm.SeenSkipsMalformed | discovery_comm.py:93-101 | A malformed piece adds nothing and does not disturb its neighbours. A well-formed piece adds exactly its own entry, in place. |
| DiscoveryComm.SeenLastWriterWins | discovery_comm.py:91-103 | After a `SEEN`, each name holds the address of its last well-formed entry in all three maps (`peers`, `kontaktbuch`, `seen_cache`). A name no well-formed entry mentions keeps what it had, or stays absent, in each of the three. Nothing is sent, and the timer is restamped only while a round is open. |
| DiscoveryComm.SeenDispatch | discovery_comm.py:62-103 | A stripped datagram that starts with `SEEN` and matches none of the earlier tests goes to the `SEEN` handler and sends nothing. |
| DiscoveryComm.WhoCommandOpensRound | discovery_comm.py:111-119 | The `WHO` command sends three `WHO` broadcasts and then shows `[System] WHO-Broadcast gesendet.`, and nothing more. It opens the round, empties the buffer and stamps the timer, and changes nothing else. |
| DiscoveryComm.ForwardedCommands | discovery_comm.py:120-130 | `JOIN...` and `LEAVE...` commands are broadcast verbatim. A `JOIN` command is followed by three `WHO` and sets `joined`, and neither command touches the maps. |
| DiscoveryComm.PeersCommand | discovery_comm.py:131-137 | `PEERS` changes nothing. It lists the shared table in insertion order under a heading, or says that nobody is known. |
| DiscoveryComm.UnknownCommandIgnored | discovery_comm.py:109-137 | A command that is not `WHO`, `PEERS` or does not start with `JOIN` or `LEAVE` matches no branch: it changes nothing and sends nothing. Every other command sends something. |
| DiscoveryComm.ListingLines | discovery_comm.py:132-135 | A non-empty table is listed as a heading followed by one ` - name @ ip:port` line per key, in key order. |
| DiscoveryComm.RunKeepsInv | discovery_comm.py:59-148 | Any number of loop passes the service survives keep the invariant, whatever commands are pending. |
| DiscoveryComm.Run | discovery_comm.py:59-148 | The `while True` loop over several passes. The commands a pass leaves queued (after our own `JOIN`, `discovery_comm.py:66-67`) are drained first by the next pass (`:109`). What is still queued after a run is a suffix of the pending commands followed by everything queued during the run. While every pass meets our own `JOIN`, the state stays, nothing is sent and every command stays queued. RunOne, PollLeaves and RunAppend state the pass-by-pass handover. |
| DiscoveryComm.RunOne | discovery_comm.py:59-148 | A run of one pass is that pass, with the pending commands ahead of the pass's own. |
| DiscoveryComm.RunAppend | discovery_comm.py:59-148 | Running two stretches of input one after the other, handing over the state and the still-queued commands, equals running them together, with the outputs concatenated. |
| DiscoveryComm.SkippedCommandsWait | discovery_comm.py:64-67 | A pass that meets our own `JOIN` changes nothing and sends nothing (the `continue` skips the drain at `discovery_comm.py:109`). Its commands wait ahead of the next pass's, exactly as if they had been queued for that pass. |
| DiscoveryComm.PollLeaves | discovery_comm.py:59-148 | A pass that meets our own `JOIN` changes nothing, sends nothing and leaves its whole queue for the next pass. Any other pass that survives drains the queue completely. |
| DiscoveryComm.MapsStayEqual | discovery_comm.py:37-146 | A service that starts on an empty shared table and is its only writer keeps `peers` and `kontaktbuch` equal, key order included, through any run. |
| DiscoveryComm.JoinHandshake | discovery_comm.py:64-73 | For two peers with different nicknames that are each one whitespace-free token: A's `JOIN` reaching B makes B record A at A's source IP and TCP port and answer with B's own `JOIN` to A's discovery port. That answer reaching A makes A record B the same way and answer with A's `JOIN` again, so the exchange repeats. A nickname with a space in it is not covered: its `JOIN` does not unpack into three tokens and ends the receiver's loop (CrashingDatagrams). |
| DiscoveryComm.JoinTextReceived | discovery_comm.py:64-73 | When our nickname is one whitespace-free token that differs from the receiver's, our `JOIN` text arriving at another peer makes it record us and answer first with its own `JOIN`. |
| NetworkComm.Recv | network_comm.py:72-73 | `recv(n)` returns at most `n` bytes and loses or reorders nothing. It returns `b""` exactly when the peer has closed. |
| NetworkComm.Expected | network_comm.py:70-75 | What the read loop collects is a prefix of the stream and never longer than the declared size. It is exactly `size` bytes when that many arrive, and everything sent when the peer closes early. |
| NetworkComm.ReadExact | network_comm.py:70-75 | The loop terminates and collects exactly `Expected`. Request `i`, made with `offsets[i]` bytes in, asks for `min(4096, size - offsets[i])` bytes. The offsets start at 0, grow strictly, stay below the declared size, and nothing is requested for a size of zero or less. |
| NetworkComm.Receive | network_comm.py:63-85 | Every connection yields one event. Only an acknowledged `IMG` header changes the image folder. |
| NetworkComm.ReceiveAcks | network_comm.py:64-82 | `OK` is sent exactly for a header that starts with `IMG`, splits into three tokens and has an integer size. Any other `IMG` header gives one `[Fehler] Bildempfang` event and no file. |
| NetworkComm.TextHeaderVerbatim | network_comm.py:83-85 | A header that does not start with `IMG` is shown as `[Nachricht] ` plus the stripped header, and nothing else happens. |
| NetworkComm.MalformedImage | network_comm.py:66-82 | An `IMG` header without exactly three tokens is reported with its token count and not acknowledged. |
| NetworkComm.ImgHeaderTokens | network_comm.py:120 | After the receiver's `strip()` and `split()`, the sender's `IMG f n\n` gives back `IMG`, `f` and `str(n)`. |
| NetworkComm.ImgHeaderRoundTrip | network_comm.py:63-79 | The sender's header is acknowledged. The receiver stores what the loop collects under `f` and reports the declared size. |
| NetworkComm.ImageStored | network_comm.py:70-79 | A complete transfer stores exactly the first `size` bytes. A truncated transfer still stores what arrived and reports the declared size. |
| NetworkComm.ParseMsg | network_comm.py:96 | A parsed `MSG` recipient never contains a space. |
| NetworkComm.MsgCommandRoundTrip | network_comm.py:96 | For a space-free recipient, `split(" ", 2)` gives back the recipient and the text verbatim. |
| NetworkComm.SendMsg | network_comm.py:97-108 | A parsed `MSG` shows exactly one event and opens at most one delivery. |
| NetworkComm.MsgDelivery | network_comm.py:94-108 | An unknown recipient gives one `[Warnung]` event and no connection. A reachable known one receives exactly `username: text`, and an unreachable one gives one `[Fehler]` event. |
| NetworkComm.SendImg | network_comm.py:115-130 | An image command shows at most one event and sends at most the header and the file. |
| NetworkComm.ImgSendPieces | network_comm.py:111-112 | When neither the names nor the path contain `::`, the image command splits at its first space and then at `::` into exactly the header part and the path. |
| NetworkComm.ImgSendRoundTrip | network_comm.py:109-114 | When `r` and `f` are single whitespace-free tokens and none of `r`, `f` and the path contains `::`, `IMG_SEND r f n::path` is not taken for a `MSG` and parses back to `r`, `f`, `n` and the path. |
| NetworkComm.ImgSendAckGate | network_comm.py:117-128 | For a reachable known recipient the header goes out first. The file is sent and the success event shown exactly when the reply is `OK` and the file is readable. An `OK` for an unreadable file sends nothing more and shows the `[Fehler] Bildversand` event. Any other reply ends the exchange with no event. |
| NetworkComm.UnknownRecipientWarns | network_comm.py:94-130 | A parsed `MSG` or `IMG_SEND` for a name not in the table gives exactly one `[Warnung]` event and sends nothing. |
| NetworkComm.HandleNetCommand | network_comm.py:92-130 | A command ends the service exactly when it is a `MSG` or `IMG_SEND` whose parse raises. A handled command shows at most one event. |
| NetworkComm.DrainNet | network_comm.py:92-130 | The service survives the queue exactly when no command in it raises, and each command shows at most one event. |
| NetworkComm.NetPoll | network_comm.py:59-130 | Without a connection the image folder is unchanged and nothing is acknowledged. The service survives the pass exactly when its command drain does. |
| NetworkComm.ImageEndToEnd | network_comm.py:118-124 | When the whole file arrives, the receiver's folder holds exactly the sender's file under its name. |
| NetworkComm.TextEndToEnd | network_comm.py:102 | `username: text` is shown by the receiver as `[Nachricht] username: text` when the handle is non-empty and starts with neither `IMG` nor whitespace, and the text is non-empty and does not end in whitespace. The receiver strips the line, so other texts arrive stripped. |
| NetworkComm.ImgPrefixedHandle | network_comm.py:64-82 | A handle that starts with `IMG` turns a one-word message into a malformed image header: it is rejected with a token-count error and never shown. |
| DiscoveryLegacy.Start | discovery.py:12 | Start-up upserts the own handle with the own IP and port. |
| DiscoveryLegacy.Handle | discovery.py:28-57 | Only `JOIN...` and `LEAVE...` change the table, and every change keeps it well formed. |
| DiscoveryLegacy.JoinRules | discovery.py:31-38 | A three-token `JOIN` with an integer port upserts `handle -> (source ip, port)`. A non-integer port raises, and any other token count changes nothing. |
| DiscoveryLegacy.CrashesOnlyOnBadPort | discovery.py:31-61 | The loop ends exactly on a three-token `JOIN` whose port is not an integer. |
| DiscoveryLegacy.SelfJoinOverwrites | discovery.py:12-38 | With no self-filter, when our handle is one whitespace-free token, a `JOIN` with our own handle from another address overwrites our own entry. |
| DiscoveryLegacy.LeaveRules | discovery.py:41-47 | A two-token `LEAVE` removes the handle, does nothing for an absent one, and keeps every other entry. Any other token count changes nothing. |
| DiscoveryLegacy.WhoAnswered | discovery.py:50-57 | An exact `WHO` changes nothing and is answered to the sender with `KNOWUSERS ` plus the table listing. |
| DiscoveryLegacy.KnowUsersListing | discovery.py:50-55 | When every handle and IP is one whitespace-free token without `,`, the `KNOWUSERS` reply splits at `,` into one piece per user, in table order, and each entry splits back into handle, IP and port. A handle containing `SEEN` is fine here, since this reply removes nothing. An empty table gives the single piece `KNOWUSERS `. |
| DiscoveryLegacy.OtherIgnored | discovery.py:31-57 | A message that is none of `JOIN...`, `LEAVE...` or exactly `WHO` changes nothing and sends nothing. |
| Contacts.EntryTokens | discovery_comm.py:81 | When the name and IP are each one whitespace-free token without `,`, a `name ip port` entry is trimmed and comma-free, and splits back into its three parts. |
| Contacts.EntryTextShape | discovery_comm.py:81 | When the name and IP are moreover free of `SEEN`, the entry is also free of `SEEN`. |
| Contacts.JoinedShape | discovery_comm.py:81 | Well-shaped entries joined with `", "` give a trimmed, `SEEN`-free text that is empty only for no entries. |
| Contacts.SplitListing | discovery_comm.py:92 | When the prefix and every entry are free of `,`, splitting the prefix plus the `", "`-joined non-empty entries at `,` gives one piece per entry. The first piece carries the prefix and every later piece one leading space. |
| Contacts.JoinLineTokens | discovery_comm.py:48 | When the name is one whitespace-free token, `JOIN name port` is stripped already, starts with `JOIN`, and splits into `JOIN`, the name and `str(port)`, which parses back to the port. |
| OrderedDict.Set | discovery_comm.py:68 | `d[k] = v` maps `k` to `v` and keeps the dict well formed. An existing key keeps its place and a new key goes last. |
| OrderedDict.Pop | discovery_comm.py:87 | `pop(k, None)` removes `k` if present and keeps the dict well formed. An absent `k` leaves the key order as it was. A present `k` is cut out at its place, and the other keys keep their order. |
| OrderedDict.ItemsOf | discovery_comm.py:81 | `items()` lists each listed key with its value, in key order. |
| OrderedDict.SetAll | discovery_comm.py:93-99 | Assigning a list of pairs keeps the dict well formed and drops no key. |
| OrderedDict.SetAllLastWins | discovery_comm.py:93-99 | After the pairs are assigned in turn, a key holds the value of its last pair. |
| OrderedDict.SetAllAt | discovery_comm.py:93-99 | After the pairs are assigned in turn, each key holds the value of the last pair that names it. A key no pair names keeps what it had, or stays absent. |
| OrderedDict.SetAllUntouched | discovery_comm.py:93-99 | A key no pair mentions keeps its value, or stays absent. |
| OrderedDict.SetAllItemsIsUnion | discovery_comm.py:141-143 | Assigning the items of `c` into `d` makes `d` the map union in which `c` wins. |
| OrderedDict.RebuildFromItems | discovery_comm.py:97-99 | Assigning a dict's items into an empty dict rebuilds it, key order included. |
| PyStr.StripPadded | discovery_comm.py:63 | `strip()` removes exactly the surrounding whitespace from a trimmed text. |
| PyStr.SplitWs | discovery_comm.py:65 | `split()` yields only non-empty, whitespace-free tokens. |
| PyStr.WordsLine | network_comm.py:63-67 | Three words joined by single spaces, with trailing whitespace, strip and split back into the three words. |
| PyStr.Split | network_comm.py:96 | `split(sep, maxsplit)` returns at most `maxsplit + 1` pieces, never none. Joining them with `sep` gives the input back, and no piece but the last contains `sep`. SplitLastFree and SplitLeftmost complete the description. |
| PyStr.SplitLeftmost | network_comm.py:111 | Every cut is at the leftmost occurrence of `sep` in the text still to be split. This also holds for a separator that overlaps itself, such as `"::"`, where `":::"` splits into `""` and `":"` (SplitOverlapping). |
| PyStr.SplitLastFree | network_comm.py:96 | Splitting does not stop early: unless all `maxsplit` cuts were used, the last piece holds no `sep` either. |
| PyStr.SplitCons | network_comm.py:96 | Splitting at a one-character separator peels off the separator-free prefix and uses up one split. |
| PyStr.ReplaceLeading | discovery_comm.py:92 | `replace("SEEN", "")` on `SEEN` followed by a `SEEN`-free text leaves that text. |
| PyStr.IntToString | discovery_comm.py:48 | `str(i)` is one trimmed token of digits and `-`. |
| PyStr.ParseIntToString | discovery_comm.py:68 | `int(str(i)) == i`. |

## Left out

- Sockets (bind, broadcast, `recvfrom`, `sendto`, `accept`, `connect`, `close`) are replaced by the input values and output lists described above. The 512-byte limit of the header read and of a datagram is not modelled, so the header is the given text.
- Clocks and sleeps: `time.time()` is a millisecond reading passed in with each datagram, command and commit check. The 0.2 s spacing between the three `WHO` broadcasts and the 0.1 s loop sleep are not modelled; only the count of broadcasts is.
- Processes, `Manager.dict` sharing and the queues (`start.py`, `main.py`): the shared table is a value owned by the caller, and a queue is a sequence. Concurrent writers to the shared table are not modelled.
- Files: `os.makedirs`, `os.path.join`, the file write, its failure, `open_image` and its subprocess are not modelled. The image folder is a map from file name to bytes, and a file that cannot be read is a path missing from the file map.
- Decoding: UTF-8 decoding errors are not modelled, and text is a sequence of characters. `int()` accepts an optional sign, ASCII digits and single underscores between digits; other Unicode digits are not modelled.
- The text Python renders for an exception is not modelled: a failure event carries a `Fault` value in its place.
- Failures of `sendall` on a connection that did connect are not modelled: a connected link sends what it is given.
- Errors raised by `recv` are not modelled; a stream only ever ends cleanly. There are three such cases. A reset during the image read loop (`network_comm.py:72`) would show `[Fehler] Bildempfang fehlgeschlagen` and store no file; the model instead stores what arrived. A failing `s.recv(16)` for the acknowledgement (`network_comm.py:121`) would show `[Fehler] Bildversand fehlgeschlagen`; in the model an acknowledgement is always a value. A failing header read `conn.recv(512)` (`network_comm.py:63`) is outside the inner `try`, would not be caught and would end the service; the model always has a header.
- The `[System] Lausche auf TCP-Port` start-up event and the `[DISCOVERY] Gestartet` print are not modelled.
- The `joined` flag is set by a `JOIN` command and never read, so it is carried along but nothing is proved about it beyond that.
- `network.py` is not part of this model: its loop reads several datagrams per pass, uses an undefined name, and resets its image state at the top of every pass, so it has no coherent behaviour to state.
- `ui_cli.py`, `cli.py` (interactive terminal UI and configuration rewriting) and `data_manager.py` (file and TOML I/O) are not part of this model.
- DiscoveryComm.HandleJoin: its own contract states only that the invariant is kept; what it computes is stated by JoinFromPeer, SelfJoinIgnored and CrashingDatagrams.
- DiscoveryComm.HandleLeave: its own contract states only that the invariant is kept; what it computes is stated by LeaveRemoves and CrashingDatagrams.
- DiscoveryComm.HandleSeen: its own contract states only the invariant and the untouched round flag; what it computes is stated by SeenLastWriterWins.
- DiscoveryComm.HandleDatagram: its own contract states only that the invariant is kept; the per-message lemmas above state what it computes.
- DiscoveryComm.Poll: its own contract states only that the invariant is kept. PollLeaves states what a pass leaves queued, and RunOne that a one-pass run is that pass. No lemma states the whole pass as the datagram step, then Drain, then Commit; the steps' own lemmas (CrashingDatagrams, SelfJoinIgnored, JoinFromPeer, Drain, Commit) state what each of them does.
- PyStr.SplitWs: its own contract states only the shape of the tokens. Its full behaviour on the texts the services exchange is stated by WordsLine and its helpers.
