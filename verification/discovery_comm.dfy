/**
 * The discovery service of `discovery_comm.py` (`discovery_service`), with
 * the datagram socket, the clock, the UI queue and the command queue replaced
 * by values. Each step of the poll loop is a pure function from the loop's
 * state and its input to a new state and the list of things the loop sends:
 * unicast and broadcast datagrams and UI events, in program order.
 *
 *  1. handle at most one received datagram (`JOIN`, exact `WHO`, `LEAVE`,
 *     `SEEN`, tested in that order after `strip()`);
 *  2. drain the command queue (`WHO`, `JOIN...`, `LEAVE...`, `PEERS`);
 *  3. once more than 600 ms have passed since the last `SEEN` while a WHO
 *     round is open, commit the buffered `SEEN` entries into both maps.
 *
 * Only `BlockingIOError` is caught around step 1, so a malformed `JOIN` or
 * `LEAVE` raises out of the loop and ends the service: `Crash` / `Dead`.
 */
module DiscoveryComm {
  import opened Wrappers
  import opened PyStr
  import opened OrderedDict
  import opened Contacts

  /** WHO datagrams per burst. */
  const WhoRepeats: nat := 3

  /** Quiet time after the last SEEN before the buffered entries are committed. */
  const SeenWindowMs: nat := 600

  /** The configuration keys the service reads: `handle`, `whoisport`, `port`. */
  datatype Config = Config(nickname: string, udpPort: int, tcpPort: int)

  /**
   * One received datagram, decoded: its text, the sender's address, and the
   * clock reading (milliseconds) the loop takes while handling it.
   */
  datatype Datagram = Datagram(payload: string, srcIp: string, srcPort: int, clock: nat)

  /** One entry of the command queue, with the clock reading the loop takes while handling it. */
  datatype Command = Command(text: string, clock: nat)

  datatype Output =
    | Unicast(payload: string, ip: string, port: int)
    | Broadcast(payload: string, port: int)   // to 255.255.255.255
    | Ui(text: string)

  datatype State = State(
    peers: Table,          // the service's own dict
    kontaktbuch: Table,    // the shared contact table
    seenCache: Table,      // SEEN entries buffered during a WHO round
    seenTimer: nat,        // clock reading of the last SEEN of the round
    awaitingSeen: bool,    // a WHO round is open
    joined: bool)          // set by a JOIN command, never read

  /** How handling one datagram leaves the rest of the iteration. */
  datatype Handled =
    | Continue(state: State, out: seq<Output>)   // go on to steps 2 and 3
    | SkipRest                                   // the `continue` after a JOIN with our own nickname
    | Crash                                      // an uncaught exception: the service ends

  datatype Step = Step(state: State, out: seq<Output>)

  /** One loop iteration: the service runs on (with the commands it left queued), or it has died. */
  datatype Outcome =
    | Running(state: State, out: seq<Output>, queued: seq<Command>)
    | Dead

  /** The dicts are well formed, and `peers` and `kontaktbuch` agree, key order included. */
  predicate Inv(s: State) {
    && Valid(s.peers) && Valid(s.kontaktbuch) && Valid(s.seenCache)
    && s.peers == s.kontaktbuch
  }

  /** `f"JOIN {nickname} {tcp_port}"`. */
  function JoinText(cfg: Config): string {
    JoinLine(cfg.nickname, cfg.tcpPort)
  }

  function WhoBurst(cfg: Config): (r: seq<Output>)
    ensures |r| == WhoRepeats
    ensures forall i :: 0 <= i < |r| ==> r[i] == Broadcast("WHO", cfg.udpPort)
  {
    var who := Broadcast("WHO", cfg.udpPort);
    [who, who, who]
  }

  // ------------------------------------------------------------- start-up

  /**
   * Start-up: `peers` holds only our own entry, the same entry is written into
   * the shared `kontaktbuch`, the own IP is reported, and one JOIN and three
   * WHO are broadcast.
   */
  function Start(cfg: Config, ownIp: string, kontaktbuch: Table): (r: Step)
    ensures r.state.peers.m == map[cfg.nickname := Addr(ownIp, cfg.tcpPort)]
    ensures r.state.kontaktbuch.m == kontaktbuch.m[cfg.nickname := Addr(ownIp, cfg.tcpPort)]
    ensures r.state.seenCache.m == map[] && !r.state.awaitingSeen
    ensures kontaktbuch == Empty() ==> Inv(r.state)
    ensures r.out == [Ui("[Netzwerk] Eigene IP: " + ownIp), Broadcast(JoinText(cfg), cfg.udpPort)] + WhoBurst(cfg)
  {
    var own := Addr(ownIp, cfg.tcpPort);
    var s := State(Set(Empty(), cfg.nickname, own), Set(kontaktbuch, cfg.nickname, own), Empty(), 0, false, false);
    Step(s, [Ui("[Netzwerk] Eigene IP: " + ownIp), Broadcast(JoinText(cfg), cfg.udpPort)] + WhoBurst(cfg))
  }

  // ------------------------------------------------ step 1: one datagram

  /** `JOIN`: `_, user, port = msg.split()`; our own nickname skips the rest; `int(port)` may raise. */
  function HandleJoin(cfg: Config, s: State, msg: string, srcIp: string): (r: Handled)
    ensures Inv(s) && r.Continue? ==> Inv(r.state)
  {
    var toks := SplitWs(msg);
    if |toks| != 3 then Crash
    else if toks[1] == cfg.nickname then SkipRest
    else
      match ParseInt(toks[2])
      case None => Crash
      case Some(port) =>
        var user := toks[1];
        var a := Addr(srcIp, port);
        Continue(
          s.(peers := Set(s.peers, user, a), kontaktbuch := Set(s.kontaktbuch, user, a)),
          [Unicast(JoinText(cfg), srcIp, cfg.udpPort), Ui("[Peer] " + user + " ist dem Chat beigetreten.")]
          + WhoBurst(cfg))
  }

  /** `LEAVE`: `_, user = msg.split()` may raise; the user is popped from both maps. */
  function HandleLeave(s: State, msg: string): (r: Handled)
    ensures Inv(s) && r.Continue? ==> Inv(r.state)
  {
    var toks := SplitWs(msg);
    if |toks| != 2 then Crash
    else
      var user := toks[1];
      Continue(
        s.(peers := Pop(s.peers, user), kontaktbuch := Pop(s.kontaktbuch, user)),
        [Ui("[Peer] " + user + " hat den Chat verlassen.")])
  }

  /** The comma-separated pieces of a SEEN text: `msg.replace("SEEN", "").strip().split(",")`. */
  function SeenPieces(msg: string): seq<string> {
    Split(Strip(Replace(msg, "SEEN", "")), ",", -1)
  }

  /**
   * One piece: skipped (`None`) when blank, and when `name, ip, p =
   * piece.strip().split()` or `int(p)` raises; the `except` keeps the loop going.
   */
  function ParseSeenPiece(piece: string): Option<(string, Addr)> {
    var t := Strip(piece);
    if t == [] then None
    else
      var toks := SplitWs(t);
      if |toks| != 3 then None
      else
        match ParseInt(toks[2])
        case None => None
        case Some(p) => Some((toks[0], Addr(toks[1], p)))
  }

  /** Each piece parsed on its own. */
  function ParsedPieces(pieces: seq<string>): (r: seq<Option<(string, Addr)>>)
    ensures |r| == |pieces|
    ensures forall i :: 0 <= i < |pieces| ==> r[i] == ParseSeenPiece(pieces[i])
  {
    seq(|pieces|, i requires 0 <= i < |pieces| => ParseSeenPiece(pieces[i]))
  }

  /** The entries of the well-formed pieces, in order. */
  function ParsePieces(pieces: seq<string>): seq<(string, Addr)> {
    Somes(ParsedPieces(pieces))
  }

  function SeenEntries(msg: string): seq<(string, Addr)> {
    ParsePieces(SeenPieces(msg))
  }

  /** `SEEN`: every entry goes into `peers`, `kontaktbuch` and `seen_cache`; the timer restarts only during a WHO round. */
  function HandleSeen(s: State, msg: string, clock: nat): (r: State)
    ensures Inv(s) ==> Inv(r)
    ensures r.awaitingSeen == s.awaitingSeen && r.joined == s.joined
  {
    var entries := SeenEntries(msg);
    s.(peers := SetAll(s.peers, entries),
       kontaktbuch := SetAll(s.kontaktbuch, entries),
       seenCache := SetAll(s.seenCache, entries),
       seenTimer := if s.awaitingSeen then clock else s.seenTimer)
  }

  /** Step 1 for one received datagram. */
  function HandleDatagram(cfg: Config, s: State, d: Datagram): (r: Handled)
    ensures Inv(s) && r.Continue? ==> Inv(r.state)
  {
    var msg := Strip(d.payload);
    if StartsWith(msg, "JOIN") then HandleJoin(cfg, s, msg, d.srcIp)
    else if msg == "WHO" then Continue(s, [Unicast("SEEN " + TableText(s.peers), d.srcIp, d.srcPort)])
    else if StartsWith(msg, "LEAVE") then HandleLeave(s, msg)
    else if StartsWith(msg, "SEEN") then Continue(HandleSeen(s, msg, d.clock), [])
    else Continue(s, [])
  }

  // ------------------------------------------------ step 2: command queue

  /** `PEERS`: the shared table listed as UI events, or a note that it is empty. */
  function PeersListing(t: Table): seq<Output> {
    if t.m == map[] then [Ui("[Peers] Keine anderen Nutzer gefunden.")]
    else
      var items := Items(t);
      [Ui("[Peers] Aktuelle Nutzer:")]
      + seq(|items|, i requires 0 <= i < |items| =>
              Ui(" - " + items[i].0 + " @ " + items[i].1.ip + ":" + IntToString(items[i].1.port)))
  }

  function HandleCommand(cfg: Config, s: State, c: Command): (r: Step)
    ensures r.state.peers == s.peers && r.state.kontaktbuch == s.kontaktbuch
    ensures Inv(s) ==> Inv(r.state)
  {
    if c.text == "WHO" then
      Step(s.(awaitingSeen := true, seenCache := Empty(), seenTimer := c.clock),
           WhoBurst(cfg) + [Ui("[System] WHO-Broadcast gesendet.")])
    else if StartsWith(c.text, "JOIN") then
      Step(s.(joined := true),
           [Broadcast(c.text, cfg.udpPort)] + WhoBurst(cfg) + [Ui("[System] JOIN gesendet.")])
    else if StartsWith(c.text, "LEAVE") then
      Step(s, [Broadcast(c.text, cfg.udpPort), Ui("[System] LEAVE gesendet.")])
    else if c.text == "PEERS" then
      Step(s, PeersListing(s.kontaktbuch))
    else
      Step(s, [])
  }

  /** `while not disc_queue.empty()`: every queued command, in order. */
  function Drain(cfg: Config, s: State, queue: seq<Command>): (r: Step)
    ensures r.state.peers == s.peers && r.state.kontaktbuch == s.kontaktbuch
    ensures Inv(s) ==> Inv(r.state)
    decreases |queue|
  {
    if |queue| == 0 then Step(s, [])
    else
      var first := HandleCommand(cfg, s, queue[0]);
      var rest := Drain(cfg, first.state, queue[1..]);
      Step(rest.state, first.out + rest.out)
  }

  // ------------------------------------------------- step 3: SEEN commit

  /**
   * The commit fires exactly when a WHO round is open and more than 600 ms
   * have passed since the last SEEN; it then upserts every buffered entry
   * into both maps (the buffer wins on shared names, other names keep their
   * entries), closes the round and empties the buffer. Otherwise nothing
   * happens.
   */
  function Commit(s: State, now: nat): (r: Step)
    ensures s.awaitingSeen && now - s.seenTimer > SeenWindowMs && Valid(s.seenCache) ==>
              && r.state.kontaktbuch.m == s.kontaktbuch.m + s.seenCache.m
              && r.state.peers.m == s.peers.m + s.seenCache.m
              && !r.state.awaitingSeen && r.state.seenCache.m == map[]
              && r.out == [Ui("[System] Nutzerliste aktualisiert.")]
    ensures !(s.awaitingSeen && now - s.seenTimer > SeenWindowMs) ==> r == Step(s, [])
    ensures Inv(s) ==> Inv(r.state)
  {
    if s.awaitingSeen && now - s.seenTimer > SeenWindowMs then
      var items := Items(s.seenCache);
      var next := Step(s.(kontaktbuch := SetAll(s.kontaktbuch, items),
                          peers := SetAll(s.peers, items),
                          awaitingSeen := false,
                          seenCache := Empty()),
                       [Ui("[System] Nutzerliste aktualisiert.")]);
      if Valid(s.seenCache) then
        SetAllItemsIsUnion(s.kontaktbuch, s.seenCache);
        SetAllItemsIsUnion(s.peers, s.seenCache);
        next
      else
        next
    else
      Step(s, [])
  }

  // ------------------------------------------------------- one iteration

  /**
   * One pass of the `while True` loop. `d` is the datagram `recvfrom` returns
   * (`None` for `BlockingIOError`), `queue` the commands waiting, `now` the
   * clock reading of the commit check.
   */
  function Poll(cfg: Config, s: State, d: Option<Datagram>, queue: seq<Command>, now: nat): (r: Outcome)
    ensures Inv(s) && r.Running? ==> Inv(r.state)
  {
    var h := if d.Some? then HandleDatagram(cfg, s, d.value) else Continue(s, []);
    match h
    case Crash => Dead
    case SkipRest => Running(s, [], queue)
    case Continue(s1, out1) =>
      var drained := Drain(cfg, s1, queue);
      var committed := Commit(drained.state, now);
      Running(committed.state, out1 + drained.out + committed.out, [])
  }

  // ------------------------------------------------------------ properties

  /** The tokens `split()` gives for a datagram after `strip()`. */
  function Tokens(d: Datagram): seq<string> {
    SplitWs(Strip(d.payload))
  }

  /**
   * Exactly these datagrams end the service: a `JOIN...` that does not split
   * into three tokens, or whose port is not an integer (unless it names us);
   * and a `LEAVE...` that does not split into two tokens. Every other
   * datagram, however malformed, lets the loop go on.
   */
  lemma CrashingDatagrams(cfg: Config, s: State, d: Datagram, queue: seq<Command>, now: nat)
    ensures var msg := Strip(d.payload);
            var toks := Tokens(d);
            Poll(cfg, s, Some(d), queue, now).Dead? <==>
              || (StartsWith(msg, "JOIN")
                  && (|toks| != 3 || (toks[1] != cfg.nickname && ParseInt(toks[2]).None?)))
              || (!StartsWith(msg, "JOIN") && msg != "WHO" && StartsWith(msg, "LEAVE") && |toks| != 2)
  {
  }

  /** A JOIN carrying our own nickname changes nothing, sends nothing and leaves the queue for the next pass. */
  lemma SelfJoinIgnored(cfg: Config, s: State, d: Datagram, queue: seq<Command>, now: nat)
    requires StartsWith(Strip(d.payload), "JOIN")
    requires |Tokens(d)| == 3 && Tokens(d)[1] == cfg.nickname
    ensures Poll(cfg, s, Some(d), queue, now) == Running(s, [], queue)
  {
  }

  /**
   * A JOIN from another peer upserts `user -> (source ip, port)` into both
   * maps, leaving every other name as it was, replies with our own JOIN to
   * the sender's discovery port, reports the join and broadcasts three WHO.
   */
  lemma JoinFromPeer(cfg: Config, s: State, d: Datagram, port: int)
    requires StartsWith(Strip(d.payload), "JOIN")
    requires |Tokens(d)| == 3 && Tokens(d)[1] != cfg.nickname && ParseInt(Tokens(d)[2]) == Some(port)
    ensures var user := Tokens(d)[1];
            var r := HandleDatagram(cfg, s, d);
            && r.Continue?
            && r.state.peers.m == s.peers.m[user := Addr(d.srcIp, port)]
            && r.state.kontaktbuch.m == s.kontaktbuch.m[user := Addr(d.srcIp, port)]
            && r.state.seenCache == s.seenCache && r.state.awaitingSeen == s.awaitingSeen
            && r.state.seenTimer == s.seenTimer
            && r.out == [Unicast(JoinText(cfg), d.srcIp, cfg.udpPort),
                         Ui("[Peer] " + user + " ist dem Chat beigetreten.")] + WhoBurst(cfg)
  {
  }

  /**
   * A well-formed LEAVE removes the name from both maps (nothing happens to a
   * name that is absent) and keeps every other name; it reports the leave.
   * The SEEN buffer and the round are left alone.
   */
  lemma LeaveRemoves(cfg: Config, s: State, d: Datagram)
    requires var msg := Strip(d.payload);
             !StartsWith(msg, "JOIN") && msg != "WHO" && StartsWith(msg, "LEAVE")
    requires |Tokens(d)| == 2
    ensures var user := Tokens(d)[1];
            var r := HandleDatagram(cfg, s, d);
            && r.Continue?
            && r.state.peers.m == s.peers.m - {user}
            && r.state.kontaktbuch.m == s.kontaktbuch.m - {user}
            && r.state.seenCache == s.seenCache && r.state.awaitingSeen == s.awaitingSeen
            && r.state.seenTimer == s.seenTimer
            && r.out == [Ui("[Peer] " + user + " hat den Chat verlassen.")]
  {
  }

  /**
   * A LEAVE does not touch the SEEN buffer, so a peer that answered the open
   * WHO round and then left is written back into both maps, at its buffered
   * address, by the commit that closes the round.
   */
  lemma LeftPeerReturns(cfg: Config, s: State, d: Datagram, now: nat)
    requires var msg := Strip(d.payload);
             !StartsWith(msg, "JOIN") && msg != "WHO" && StartsWith(msg, "LEAVE")
    requires |Tokens(d)| == 2 && Tokens(d)[1] in s.seenCache.m
    requires Valid(s.seenCache) && s.awaitingSeen && now - s.seenTimer > SeenWindowMs
    ensures var user := Tokens(d)[1];
            var r := HandleDatagram(cfg, s, d);
            && r.Continue?
            && user !in r.state.peers.m
            && var after := Commit(r.state, now).state;
               && user in after.peers.m && after.peers.m[user] == s.seenCache.m[user]
               && user in after.kontaktbuch.m && after.kontaktbuch.m[user] == s.seenCache.m[user]
  {
    LeaveRemoves(cfg, s, d);
  }

  /** What `ParseSeenPiece` yields once the stripped piece, its tokens and its port are known. */
  lemma ParseSeenPieceOf(piece: string, name: string, ip: string, portText: string, port: int)
    requires Strip(piece) != []
    requires SplitWs(Strip(piece)) == [name, ip, portText]
    requires ParseInt(portText) == Some(port)
    ensures ParseSeenPiece(piece) == Some((name, Addr(ip, port)))
  {
  }

  lemma ParseEntryText(name: string, a: Addr)
    requires Field(name) && Field(a.ip)
    ensures ParseSeenPiece(EntryText(name, a)) == Some((name, a))
    ensures ParseSeenPiece(" " + EntryText(name, a)) == Some((name, a))
  {
    var e := EntryText(name, a);
    var p := IntToString(a.port);
    assert Trimmed(e) && SplitWs(e) == [name, a.ip, p] by {
      EntryTokens(name, a);
    }
    assert Strip(e) == e by {
      StripPadded([], e, []);
      assert [] + e + [] == e;
    }
    assert Strip(" " + e) == e by {
      assert AllSpace(" ");
      StripPadded(" ", e, []);
      assert " " + e + [] == " " + e;
    }
    assert ParseInt(p) == Some(a.port) by {
      ParseIntToString(a.port);
    }
    ParseSeenPieceOf(e, name, a.ip, p, a.port);
    ParseSeenPieceOf(" " + e, name, a.ip, p, a.port);
  }

  /** An empty listing: `SEEN ` strips to `SEEN`, which leaves one blank piece and no entry. */
  lemma SeenOfEmptyListing()
    ensures Strip("SEEN " + []) == "SEEN"
    ensures SeenEntries("SEEN") == []
  {
    assert Strip("SEEN " + []) == "SEEN" by {
      StripPadded([], "SEEN", " ");
      assert [] + "SEEN" + " " == "SEEN " + [];
    }
    SeenAlone();
  }

  /** `SEEN` alone: removing `SEEN` leaves nothing, one blank piece, no entry. */
  lemma SeenAlone()
    ensures SeenEntries("SEEN") == []
  {
    assert SeenPieces("SEEN") == [[]] by {
      assert Replace("SEEN", "SEEN", "") == [] by {
        ReplaceLeading("SEEN", []);
        assert "SEEN" + [] == "SEEN";
      }
      assert Strip([]) == [];
      SplitFree([], ',', -1);
      assert "," == [','];
    }
    assert ParseSeenPiece([]).None? by {
      assert Strip([]) == [];
    }
    assert ParsedPieces([[]]) == [None];
  }

  /** A non-empty listing that is trimmed and free of `SEEN`: the pieces are those of the listing itself. */
  lemma SeenPiecesOfListing(j: string)
    requires j != [] && Trimmed(j) && Absent(j, "SEEN")
    ensures Strip("SEEN " + j) == "SEEN " + j
    ensures SeenPieces("SEEN " + j) == Split(j, ",", -1)
  {
    var msg := "SEEN " + j;
    assert Strip(msg) == msg by {
      StripPadded([], msg, []);
      assert [] + msg + [] == msg;
    }
    SeenRemoved(j);
    SpaceStripped(j);
  }

  /** Removing `SEEN` from `SEEN j` leaves `" " + j` when `j` has no `SEEN` of its own. */
  lemma SeenRemoved(j: string)
    requires Absent(j, "SEEN")
    ensures Replace("SEEN " + j, "SEEN", "") == " " + j
  {
    AbsentAcross([], ' ', j, "SEEN");
    assert [] + [' '] + j == " " + j;
    assert "SEEN " + j == "SEEN" + (" " + j);
    ReplaceLeading("SEEN", " " + j);
  }

  lemma SpaceStripped(j: string)
    requires j != [] && Trimmed(j)
    ensures Strip(" " + j) == j
  {
    assert AllSpace(" ");
    StripPadded(" ", j, []);
    assert " " + j + [] == " " + j;
  }

  /** The entries of a listable table are well shaped, so its listing is trimmed and free of `SEEN`. */
  lemma ListingShape(t: Table)
    requires Valid(t) && ListableTable(t)
    ensures forall i :: 0 <= i < |Items(t)| ==> Listable(Items(t)[i].0) && Listable(Items(t)[i].1.ip)
    ensures Trimmed(TableText(t)) && Absent(TableText(t), "SEEN")
    ensures TableText(t) == [] <==> Items(t) == []
  {
    var items := Items(t);
    var es := EntryTexts(items);
    forall i | 0 <= i < |items|
      ensures Listable(items[i].0) && Listable(items[i].1.ip)
    {
      assert items[i] in items;
    }
    forall i | 0 <= i < |es|
      ensures EntryShape(es[i])
    {
      EntryTextShape(items[i].0, items[i].1);
    }
    JoinedShape(es);
  }

  /** The receiver's `strip()` leaves `SEEN` at the head of the reply. */
  lemma SeenReplyPrefix(t: Table)
    requires Valid(t) && ListableTable(t)
    ensures |Strip("SEEN " + TableText(t))| >= 4 && Strip("SEEN " + TableText(t))[..4] == "SEEN"
  {
    ListingShape(t);
    SeenHead(TableText(t));
  }

  lemma SeenHead(j: string)
    requires Trimmed(j) && Absent(j, "SEEN")
    ensures |Strip("SEEN " + j)| >= 4 && Strip("SEEN " + j)[..4] == "SEEN"
  {
    if j == [] {
      SeenOfEmptyListing();
      assert Strip("SEEN " + j) == "SEEN";
    } else {
      SeenPiecesOfListing(j);
      assert ("SEEN " + j)[..4] == "SEEN";
    }
  }

  /**
   * The SEEN text of a listable table, after the receiver's `strip()`, parses
   * back to the table's items, in order.
   */
  lemma SeenEntriesOfListing(t: Table)
    requires Valid(t) && ListableTable(t)
    ensures SeenEntries(Strip("SEEN " + TableText(t))) == Items(t)
  {
    var items := Items(t);
    var es := EntryTexts(items);
    var j := TableText(t);
    ListingShape(t);
    if j == [] {
      SeenOfEmptyListing();
    } else {
      SeenPiecesOfListing(j);
      forall i | 0 <= i < |es|
        ensures Field(items[i].0) && Field(items[i].1.ip) && ',' !in es[i]
      {
        EntryTokens(items[i].0, items[i].1);
      }
      assert Split(j, ",", -1) == [es[0]] + Spaced(es[1..]) by {
        SplitListing([], es);
        assert [] + j == j;
        assert [] + es[0] == es[0];
      }
      ParseListing(items);
    }
  }

  /** The pieces of a non-empty listing parse back to its items. */
  lemma ParseListing(items: seq<(string, Addr)>)
    requires |items| > 0
    requires forall i :: 0 <= i < |items| ==> Field(items[i].0) && Field(items[i].1.ip)
    ensures ParsePieces([EntryTexts(items)[0]] + Spaced(EntryTexts(items)[1..])) == items
  {
    var es := EntryTexts(items);
    var ps := [es[0]] + Spaced(es[1..]);
    forall i | 0 <= i < |ps|
      ensures ParsedPieces(ps)[i] == Some(items[i])
    {
      ParseEntryText(items[i].0, items[i].1);
      if i > 0 {
        assert ps[i] == " " + es[i];
      }
    }
    SomesOfSomes(ParsedPieces(ps), items);
  }

  /**
   * The WHO round trip: a WHO makes this service unicast `SEEN ` and the
   * listing of its `peers` to the asker, changing nothing; a service whose
   * three maps are empty that receives that reply ends up with `peers`,
   * `kontaktbuch` and `seen_cache` all equal to the replier's `peers`, in the
   * same order, provided no name or IP holds whitespace, `,` or `SEEN`.
   */
  lemma WhoReplyRebuildsPeers(cfg: Config, s: State, who: Datagram,
                              cfg': Config, s': State, replier: string, replierPort: int, clock: nat)
    requires Strip(who.payload) == "WHO"
    requires Valid(s.peers) && ListableTable(s.peers)
    requires s'.peers == Empty() && s'.kontaktbuch == Empty() && s'.seenCache == Empty()
    ensures var reply := "SEEN " + TableText(s.peers);
            && HandleDatagram(cfg, s, who) == Continue(s, [Unicast(reply, who.srcIp, who.srcPort)])
            && var r := HandleDatagram(cfg', s', Datagram(reply, replier, replierPort, clock));
               && r.Continue? && r.out == []
               && r.state.peers == s.peers && r.state.kontaktbuch == s.peers && r.state.seenCache == s.peers
  {
    var reply := "SEEN " + TableText(s.peers);
    var msg := Strip(reply);
    SeenEntriesOfListing(s.peers);
    SeenReplyPrefix(s.peers);
    RebuildFromItems(s.peers);
    assert msg[..4] == "SEEN";
    assert !StartsWith(msg, "JOIN") by { assert msg[0] != "JOIN"[0]; }
    assert msg != "WHO" by { assert msg[0] != "WHO"[0]; }
    assert !StartsWith(msg, "LEAVE") by { assert msg[0] != "LEAVE"[0]; }
  }

  lemma ParsePiecesAppend(a: seq<string>, b: seq<string>)
    ensures ParsePieces(a + b) == ParsePieces(a) + ParsePieces(b)
  {
    assert ParsedPieces(a + b) == ParsedPieces(a) + ParsedPieces(b);
    SomesAppend(ParsedPieces(a), ParsedPieces(b));
  }

  /**
   * A malformed piece of a SEEN text is skipped without disturbing its
   * neighbours: the entries of the pieces around it are applied as if it
   * were not there, and a well-formed piece contributes exactly its entry.
   */
  lemma SeenSkipsMalformed(before: seq<string>, piece: string, after: seq<string>)
    ensures ParseSeenPiece(piece).None? ==>
              ParsePieces(before + [piece] + after) == ParsePieces(before) + ParsePieces(after)
    ensures ParseSeenPiece(piece).Some? ==>
              ParsePieces(before + [piece] + after)
              == ParsePieces(before) + [ParseSeenPiece(piece).value] + ParsePieces(after)
  {
    ParsePiecesAppend(before + [piece], after);
    ParsePiecesAppend(before, [piece]);
    assert ParsedPieces([piece]) == [ParseSeenPiece(piece)];
    assert Somes([ParseSeenPiece(piece)]) == (if ParseSeenPiece(piece).Some? then [ParseSeenPiece(piece).value] else []) + Somes<(string, Addr)>([]);
  }

  /**
   * A SEEN datagram: each name takes the address of its last well-formed
   * entry, in all three maps; a name no well-formed entry mentions keeps what
   * it had. The round timer restarts only while a WHO round is open.
   */
  lemma SeenLastWriterWins(cfg: Config, s: State, d: Datagram, name: string)
    requires var msg := Strip(d.payload);
             !StartsWith(msg, "JOIN") && msg != "WHO" && !StartsWith(msg, "LEAVE") && StartsWith(msg, "SEEN")
    ensures var es := SeenEntries(Strip(d.payload));
            var r := HandleDatagram(cfg, s, d);
            && r.Continue? && r.out == []
            && r.state.seenTimer == (if s.awaitingSeen then d.clock else s.seenTimer)
            && LastWriter(s.peers, r.state.peers, es, name)
            && LastWriter(s.kontaktbuch, r.state.kontaktbuch, es, name)
            && LastWriter(s.seenCache, r.state.seenCache, es, name)
  {
    SeenDispatch(cfg, s, d);
    var es := SeenEntries(Strip(d.payload));
    SetAllAt(s.peers, es, name);
    SetAllAt(s.kontaktbuch, es, name);
    SetAllAt(s.seenCache, es, name);
  }

  /** A datagram that is a `SEEN` and nothing earlier in the dispatch goes to the SEEN handler and sends nothing. */
  lemma SeenDispatch(cfg: Config, s: State, d: Datagram)
    requires var msg := Strip(d.payload);
             !StartsWith(msg, "JOIN") && msg != "WHO" && !StartsWith(msg, "LEAVE") && StartsWith(msg, "SEEN")
    ensures HandleDatagram(cfg, s, d) == Continue(HandleSeen(s, Strip(d.payload), d.clock), [])
  {
  }

  /**
   * The WHO command opens a round: three WHO broadcasts, the flag set, the
   * buffer emptied, the timer stamped; the maps are not touched.
   */
  lemma WhoCommandOpensRound(cfg: Config, s: State, clock: nat)
    ensures var r := HandleCommand(cfg, s, Command("WHO", clock));
            && r.state == s.(awaitingSeen := true, seenCache := Empty(), seenTimer := clock)
            && |r.out| == WhoRepeats + 1
            && (forall i :: 0 <= i < WhoRepeats ==> r.out[i] == Broadcast("WHO", cfg.udpPort))
            && r.out[WhoRepeats] == Ui("[System] WHO-Broadcast gesendet.")
  {
  }

  /**
   * `JOIN...` and `LEAVE...` commands are broadcast verbatim on the discovery
   * port; a JOIN command is followed by three WHO and marks the service as
   * joined. Neither touches the maps.
   */
  lemma ForwardedCommands(cfg: Config, s: State, c: Command)
    ensures StartsWith(c.text, "JOIN") && c.text != "WHO" ==>
              HandleCommand(cfg, s, c)
              == Step(s.(joined := true), [Broadcast(c.text, cfg.udpPort)] + WhoBurst(cfg) + [Ui("[System] JOIN gesendet.")])
    ensures !StartsWith(c.text, "JOIN") && c.text != "WHO" && StartsWith(c.text, "LEAVE") ==>
              HandleCommand(cfg, s, c) == Step(s, [Broadcast(c.text, cfg.udpPort), Ui("[System] LEAVE gesendet.")])
  {
  }

  /**
   * Any other command is dropped silently: it changes nothing and sends
   * nothing, and it is the only kind of command that sends nothing.
   */
  lemma UnknownCommandIgnored(cfg: Config, s: State, c: Command)
    ensures var known := c.text == "WHO" || StartsWith(c.text, "JOIN") || StartsWith(c.text, "LEAVE") || c.text == "PEERS";
            && (!known ==> HandleCommand(cfg, s, c) == Step(s, []))
            && (HandleCommand(cfg, s, c).out == [] <==> !known)
  {
  }

  /**
   * `PEERS` lists the shared table in insertion order, one line per name
   * after a heading, or says that nobody is known; nothing changes.
   */
  lemma PeersCommand(cfg: Config, s: State, clock: nat)
    requires Valid(s.kontaktbuch)
    ensures var t := s.kontaktbuch;
            var r := HandleCommand(cfg, s, Command("PEERS", clock));
            && r.state == s
            && (t.m == map[] ==> r.out == [Ui("[Peers] Keine anderen Nutzer gefunden.")])
            && (t.m != map[] ==>
                  && |r.out| == |t.keys| + 1 && r.out[0] == Ui("[Peers] Aktuelle Nutzer:")
                  && forall i :: 0 <= i < |t.keys| ==>
                       r.out[i + 1] == Ui(" - " + t.keys[i] + " @ " + t.m[t.keys[i]].ip + ":" + IntToString(t.m[t.keys[i]].port)))
  {
    assert !StartsWith("PEERS", "JOIN") by {
      assert "PEERS"[..4][0] != "JOIN"[0];
    }
    assert !StartsWith("PEERS", "LEAVE") by {
      assert "PEERS"[..5][0] != "LEAVE"[0];
    }
    if s.kontaktbuch.m != map[] {
      ListingLines(s.kontaktbuch);
    }
  }

  lemma ListingLines(t: Table)
    requires Valid(t) && t.m != map[]
    ensures var r := PeersListing(t);
            && |r| == |t.keys| + 1 && r[0] == Ui("[Peers] Aktuelle Nutzer:")
            && forall i :: 0 <= i < |t.keys| ==>
                 r[i + 1] == Ui(" - " + t.keys[i] + " @ " + t.m[t.keys[i]].ip + ":" + IntToString(t.m[t.keys[i]].port))
  {
    var r := PeersListing(t);
    assert |Items(t)| == |t.keys|;
    forall i | 0 <= i < |t.keys|
      ensures r[i + 1] == Ui(" - " + t.keys[i] + " @ " + t.m[t.keys[i]].ip + ":" + IntToString(t.m[t.keys[i]].port))
    {
      ItemAt(t, i);
    }
  }

  /** A service that starts on an empty shared table, and is its only writer, keeps `peers` and `kontaktbuch` equal. */
  lemma {:induction false} MapsStayEqual(cfg: Config, ownIp: string,
                                         inputs: seq<(Option<Datagram>, seq<Command>, nat)>)
    ensures var r := Run(cfg, Start(cfg, ownIp, Empty()).state, [], inputs);
            r.Running? ==> r.state.peers == r.state.kontaktbuch
  {
    RunKeepsInv(cfg, Start(cfg, ownIp, Empty()).state, [], inputs);
  }

  /**
   * Several passes of the loop, each with its datagram, the commands queued
   * since the pass before, and its commit clock. Commands a pass leaves in the
   * queue (after a JOIN with our own nickname) are drained first by the next
   * pass; whatever the last pass leaves is returned as still queued.
   */
  function Run(cfg: Config, s: State, pending: seq<Command>, inputs: seq<(Option<Datagram>, seq<Command>, nat)>): (r: Outcome)
    ensures r.Running? ==> IsSuffix(r.queued, pending + Queued(inputs))
    ensures AllSkipped(cfg, s, inputs) ==> r == Running(s, [], pending + Queued(inputs))
    decreases |inputs|
  {
    if |inputs| == 0 then
      assert pending + Queued(inputs) == pending;
      Running(s, [], pending)
    else
      match Poll(cfg, s, inputs[0].0, pending + inputs[0].1, inputs[0].2)
      case Dead => Dead
      case Running(s1, out1, queued) =>
        PollLeaves(cfg, s, inputs[0].0, pending + inputs[0].1, inputs[0].2);
        SkippedRest(cfg, s, inputs);
        match Run(cfg, s1, queued, inputs[1..])
        case Dead => Dead
        case Running(s2, out2, left) =>
          QueuedCons(pending, inputs);
          SuffixStep(left, queued, pending + inputs[0].1, Queued(inputs[1..]));
          Running(s2, out1 + out2, left)
  }

  lemma SkippedRest(cfg: Config, s: State, inputs: seq<(Option<Datagram>, seq<Command>, nat)>)
    requires |inputs| > 0
    ensures AllSkipped(cfg, s, inputs) ==>
              inputs[0].0.Some? && HandleDatagram(cfg, s, inputs[0].0.value).SkipRest? && AllSkipped(cfg, s, inputs[1..])
  {
  }

  /** Every pass of `inputs` meets a JOIN with our own nickname (in state `s`). */
  predicate AllSkipped(cfg: Config, s: State, inputs: seq<(Option<Datagram>, seq<Command>, nat)>) {
    forall i :: 0 <= i < |inputs| ==> inputs[i].0.Some? && HandleDatagram(cfg, s, inputs[i].0.value).SkipRest?
  }

  /** All commands queued during a run, pass by pass, in queue order. */
  function Queued(inputs: seq<(Option<Datagram>, seq<Command>, nat)>): seq<Command>
    decreases |inputs|
  {
    if |inputs| == 0 then [] else inputs[0].1 + Queued(inputs[1..])
  }

  predicate IsSuffix(x: seq<Command>, y: seq<Command>) {
    |x| <= |y| && y[|y| - |x|..] == x
  }

  lemma QueuedCons(pending: seq<Command>, inputs: seq<(Option<Datagram>, seq<Command>, nat)>)
    requires |inputs| > 0
    ensures pending + Queued(inputs) == (pending + inputs[0].1) + Queued(inputs[1..])
  {
  }

  /**
   * A suffix of `q + more` where `q` is either nothing or all of `queue` is a
   * suffix of `queue + more`.
   */
  lemma SuffixStep(left: seq<Command>, q: seq<Command>, queue: seq<Command>, more: seq<Command>)
    requires q == [] || q == queue
    requires IsSuffix(left, q + more)
    ensures IsSuffix(left, queue + more)
  {
    if q == [] {
      assert q + more == more;
      var y := queue + more;
      assert y[|y| - |left|..] == more[|more| - |left|..];
    }
  }

  /**
   * A pass that meets our own `JOIN` leaves the whole queue, untouched, for
   * the next pass; any other pass that survives drains it completely.
   */
  lemma PollLeaves(cfg: Config, s: State, d: Option<Datagram>, queue: seq<Command>, now: nat)
    ensures var r := Poll(cfg, s, d, queue, now);
            if d.Some? && HandleDatagram(cfg, s, d.value).SkipRest? then r == Running(s, [], queue)
            else r.Running? ==> r.queued == []
  {
  }

  /** A run of one pass is that pass, with the pending commands queued first. */
  lemma RunOne(cfg: Config, s: State, pending: seq<Command>, x: (Option<Datagram>, seq<Command>, nat))
    ensures Run(cfg, s, pending, [x]) == Poll(cfg, s, x.0, pending + x.1, x.2)
  {
    var p := Poll(cfg, s, x.0, pending + x.1, x.2);
    assert [x][0] == x && [x][1..] == [];
    match p
    case Dead =>
    case Running(s1, out1, q) =>
      assert Run(cfg, s1, q, []) == Running(s1, [], q);
      assert out1 + [] == out1;
  }

  lemma {:induction false} RunKeepsInv(cfg: Config, s: State, pending: seq<Command>,
                                       inputs: seq<(Option<Datagram>, seq<Command>, nat)>)
    requires Inv(s)
    ensures Run(cfg, s, pending, inputs).Running? ==> Inv(Run(cfg, s, pending, inputs).state)
    decreases |inputs|
  {
    if |inputs| > 0 {
      var p := Poll(cfg, s, inputs[0].0, pending + inputs[0].1, inputs[0].2);
      if p.Running? {
        RunKeepsInv(cfg, p.state, p.queued, inputs[1..]);
      }
    }
  }

  /**
   * Runs compose: running two stretches of input one after the other, with the
   * state and the still-queued commands of the first handed to the second, is
   * the same as running them together, and the outputs are concatenated.
   */
  lemma {:induction false} RunAppend(cfg: Config, s: State, pending: seq<Command>,
                                     a: seq<(Option<Datagram>, seq<Command>, nat)>,
                                     b: seq<(Option<Datagram>, seq<Command>, nat)>)
    ensures Run(cfg, s, pending, a + b)
         == match Run(cfg, s, pending, a)
            case Dead => Dead
            case Running(s1, out1, left1) =>
              match Run(cfg, s1, left1, b)
              case Dead => Dead
              case Running(s2, out2, left2) => Running(s2, out1 + out2, left2)
    decreases |a|
  {
    if |a| == 0 {
      assert a + b == b;
      match Run(cfg, s, pending, b)
      case Dead =>
      case Running(s2, out2, left2) => assert [] + out2 == out2;
    } else {
      assert (a + b)[0] == a[0];
      assert (a + b)[1..] == a[1..] + b;
      var p := Poll(cfg, s, a[0].0, pending + a[0].1, a[0].2);
      if p.Running? {
        RunAppend(cfg, p.state, p.queued, a[1..], b);
        match Run(cfg, p.state, p.queued, a[1..])
        case Dead =>
        case Running(s1, out1, left1) =>
          match Run(cfg, s1, left1, b)
          case Dead =>
          case Running(s2, out2, left2) =>
            assert p.out + (out1 + out2) == (p.out + out1) + out2;
      }
    }
  }

  /**
   * A pass that meets our own `JOIN` does nothing else: it changes no state,
   * sends nothing, and its commands wait in the queue, ahead of the next
   * pass's, exactly as if they had been queued for that next pass.
   */
  lemma SkippedCommandsWait(cfg: Config, s: State, pending: seq<Command>, d: Datagram, cmds: seq<Command>, now: nat,
                            rest: seq<(Option<Datagram>, seq<Command>, nat)>)
    requires HandleDatagram(cfg, s, d).SkipRest?
    ensures Run(cfg, s, pending, [(Some(d), cmds, now)] + rest) == Run(cfg, s, pending + cmds, rest)
  {
    var inputs := [(Some(d), cmds, now)] + rest;
    assert inputs[0] == (Some(d), cmds, now) && inputs[1..] == rest;
    assert Poll(cfg, s, Some(d), pending + cmds, now) == Running(s, [], pending + cmds);
    match Run(cfg, s, pending + cmds, rest)
    case Dead =>
    case Running(s2, out2, left2) => assert [] + out2 == out2;
  }

  /**
   * The JOIN handshake: our JOIN reaching another peer makes it record us at
   * our source IP and TCP port and answer with its own JOIN to our discovery
   * port; that answer reaching us makes us record it the same way and answer
   * with our JOIN again, so the exchange never settles.
   */
  lemma JoinHandshake(a: Config, sa: State, ipA: string, b: Config, sb: State, ipB: string,
                      clock: nat, udpSrc: int)
    requires IsWord(a.nickname) && IsWord(b.nickname) && a.nickname != b.nickname
    requires a.udpPort == b.udpPort
    ensures var atB := HandleDatagram(b, sb, Datagram(JoinText(a), ipA, udpSrc, clock));
            && atB.Continue?
            && atB.state.kontaktbuch.m == sb.kontaktbuch.m[a.nickname := Addr(ipA, a.tcpPort)]
            && |atB.out| > 0 && atB.out[0] == Unicast(JoinText(b), ipA, a.udpPort)
            && var atA := HandleDatagram(a, sa, Datagram(JoinText(b), ipB, b.udpPort, clock));
               && atA.Continue?
               && atA.state.kontaktbuch.m == sa.kontaktbuch.m[b.nickname := Addr(ipB, b.tcpPort)]
               && |atA.out| > 0 && atA.out[0] == Unicast(JoinText(a), ipB, a.udpPort)
  {
    JoinTextReceived(b, sb, a, ipA, udpSrc, clock);
    JoinTextReceived(a, sa, b, ipB, b.udpPort, clock);
  }

  /** Our JOIN text arriving at another peer from `ip`: it records us and answers with its own JOIN. */
  lemma JoinTextReceived(rcv: Config, s: State, sender: Config, ip: string, srcPort: int, clock: nat)
    requires IsWord(sender.nickname) && sender.nickname != rcv.nickname
    ensures var r := HandleDatagram(rcv, s, Datagram(JoinText(sender), ip, srcPort, clock));
            && r.Continue?
            && r.state.kontaktbuch.m == s.kontaktbuch.m[sender.nickname := Addr(ip, sender.tcpPort)]
            && |r.out| > 0 && r.out[0] == Unicast(JoinText(rcv), ip, rcv.udpPort)
  {
    JoinLineTokens(sender.nickname, sender.tcpPort);
    JoinFromPeer(rcv, s, Datagram(JoinText(sender), ip, srcPort, clock), sender.tcpPort);
  }
}
