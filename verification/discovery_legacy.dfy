/**
 * The older discovery handler of `discovery.py` (`discovery_service_starten`):
 * one contact table `users`, `JOIN` and `LEAVE` accepted only with the exact
 * token count, no filter on the own handle, and a `KNOWUSERS` reply to `WHO`.
 * Only `ConnectionResetError` is caught, so a three-token `JOIN` whose port
 * is not an integer ends the service.
 */
module DiscoveryLegacy {
  import opened Wrappers
  import opened PyStr
  import opened OrderedDict
  import opened Contacts

  /** A reply datagram to `(ip, port)`. */
  datatype Reply = Reply(payload: string, ip: string, port: int)

  datatype Served =
    | Served(users: Table, replies: seq<Reply>)
    | Crashed

  /** Start-up: the own handle is entered with the own IP and TCP port. */
  function Start(users: Table, handle: string, ip: string, port: int): (r: Table)
    ensures r.m == users.m[handle := Addr(ip, port)]
    ensures Valid(users) ==> Valid(r)
  {
    Set(users, handle, Addr(ip, port))
  }

  /** The reply to `WHO`: `KNOWUSERS ` and the `", "`-joined `h ip p` entries. */
  function KnowUsers(users: Table): string {
    "KNOWUSERS " + TableText(users)
  }

  /** One decoded datagram from `(srcIp, srcPort)`; it is stripped here, as the loop does. */
  function Handle(users: Table, raw: string, srcIp: string, srcPort: int): (r: Served)
    ensures r.Served? && Valid(users) ==> Valid(r.users)
    ensures r.Served? && r.users != users ==> StartsWith(Strip(raw), "JOIN") || StartsWith(Strip(raw), "LEAVE")
  {
    var message := Strip(raw);
    if StartsWith(message, "JOIN") then
      var parts := SplitWs(message);
      if |parts| == 3 then
        match ParseInt(parts[2])
        case None => Crashed
        case Some(port) => Served(Set(users, parts[1], Addr(srcIp, port)), [])
      else Served(users, [])
    else if StartsWith(message, "LEAVE") then
      var parts := SplitWs(message);
      if |parts| == 2 then Served(Pop(users, parts[1]), []) else Served(users, [])
    else if message == "WHO" then
      Served(users, [Reply(KnowUsers(users), srcIp, srcPort)])
    else
      Served(users, [])
  }

  /**
   * `JOIN`: with exactly three tokens and an integer port the handle is
   * upserted with the source IP, even when it is our own handle; a
   * non-integer port ends the service; any other token count changes nothing.
   */
  lemma JoinRules(users: Table, raw: string, srcIp: string, srcPort: int)
    requires StartsWith(Strip(raw), "JOIN")
    ensures var parts := SplitWs(Strip(raw));
            var r := Handle(users, raw, srcIp, srcPort);
            && (|parts| != 3 ==> r == Served(users, []))
            && (|parts| == 3 && ParseInt(parts[2]).None? ==> r.Crashed?)
            && (|parts| == 3 && ParseInt(parts[2]).Some? ==>
                  && r.Served? && r.replies == []
                  && r.users.m == users.m[parts[1] := Addr(srcIp, ParseInt(parts[2]).value)])
  {
  }

  /** The service ends exactly on a three-token `JOIN` whose port is not an integer. */
  lemma CrashesOnlyOnBadPort(users: Table, raw: string, srcIp: string, srcPort: int)
    ensures var message := Strip(raw);
            var parts := SplitWs(message);
            Handle(users, raw, srcIp, srcPort).Crashed? <==>
              StartsWith(message, "JOIN") && |parts| == 3 && ParseInt(parts[2]).None?
  {
  }

  /**
   * A self-`JOIN` is not filtered: a peer announcing our own handle from
   * another address overwrites our own entry.
   */
  lemma SelfJoinOverwrites(users: Table, handle: string, ip: string, port: int, srcIp: string, srcPort: int)
    requires IsWord(handle)
    ensures var joined := Handle(Start(users, handle, ip, port), JoinLine(handle, port), srcIp, srcPort);
            && joined.Served?
            && handle in joined.users.m
            && joined.users.m[handle] == Addr(srcIp, port)
  {
    JoinLineTokens(handle, port);
    JoinRules(Start(users, handle, ip, port), JoinLine(handle, port), srcIp, srcPort);
  }

  /**
   * `LEAVE`: with exactly two tokens the handle is removed (nothing happens
   * to an absent one) and every other handle keeps its entry; any other token
   * count changes nothing.
   */
  lemma LeaveRules(users: Table, raw: string, srcIp: string, srcPort: int)
    requires !StartsWith(Strip(raw), "JOIN") && StartsWith(Strip(raw), "LEAVE")
    ensures var parts := SplitWs(Strip(raw));
            var r := Handle(users, raw, srcIp, srcPort);
            && r.Served? && r.replies == []
            && (|parts| == 2 ==> r.users.m == users.m - {parts[1]})
            && (|parts| == 2 ==> forall k :: k in users.m && k != parts[1] ==> k in r.users.m && r.users.m[k] == users.m[k])
            && (|parts| != 2 ==> r.users == users)
  {
  }

  /**
   * An exact `WHO` changes nothing and is answered, to the sender, with
   * `KNOWUSERS ` and the listing of `users`.
   */
  lemma WhoAnswered(users: Table, raw: string, srcIp: string, srcPort: int)
    requires Strip(raw) == "WHO"
    ensures Handle(users, raw, srcIp, srcPort) == Served(users, [Reply("KNOWUSERS " + TableText(users), srcIp, srcPort)])
  {
    assert !StartsWith("WHO", "JOIN") && !StartsWith("WHO", "LEAVE");
  }

  /**
   * The `KNOWUSERS` reply of a table whose handles and IPs are single
   * comma-free tokens splits at `,` into one piece per user, in table order,
   * and each entry splits back into its handle, IP and port; an empty table
   * gives the bare `KNOWUSERS `. Nothing is removed from the text, so a
   * handle containing `SEEN` comes through as it is.
   */
  lemma KnowUsersListing(users: Table)
    requires Valid(users) && FieldTable(users)
    ensures users.keys == [] ==> Split(KnowUsers(users), ",", -1) == ["KNOWUSERS "]
    ensures var items := Items(users);
            var es := EntryTexts(items);
            && |es| == |users.keys|
            && (users.keys != [] ==> Split(KnowUsers(users), ",", -1) == ["KNOWUSERS " + es[0]] + Spaced(es[1..]))
            && forall i :: 0 <= i < |es| ==>
                 SplitWs(es[i]) == [users.keys[i], users.m[users.keys[i]].ip, IntToString(users.m[users.keys[i]].port)]
  {
    var items := Items(users);
    var es := EntryTexts(items);
    forall i | 0 <= i < |es|
      ensures ',' !in es[i]
      ensures SplitWs(es[i]) == [users.keys[i], users.m[users.keys[i]].ip, IntToString(users.m[users.keys[i]].port)]
    {
      ItemAt(users, i);
      EntryTokens(items[i].0, items[i].1);
    }
    if users.keys == [] {
      KnowUsersOfEmpty(users);
    } else {
      KnowUsersPrefix();
      SplitListing("KNOWUSERS ", es);
    }
  }

  lemma KnowUsersOfEmpty(users: Table)
    requires users.keys == []
    ensures Split(KnowUsers(users), ",", -1) == ["KNOWUSERS "]
  {
    assert Items(users) == [];
    assert EntryTexts(Items(users)) == [];
    assert KnowUsers(users) == "KNOWUSERS ";
    KnowUsersPrefix();
    assert "," == [','];
    SplitFree("KNOWUSERS ", ',', -1);
  }

  lemma KnowUsersPrefix()
    ensures ',' !in "KNOWUSERS "
  {
    var p := "KNOWUSERS ";
    forall i | 0 <= i < |p|
      ensures p[i] != ','
    {
    }
  }

  /** A message that is none of `JOIN...`, `LEAVE...` or exactly `WHO` changes nothing and sends nothing. */
  lemma OtherIgnored(users: Table, raw: string, srcIp: string, srcPort: int)
    requires !StartsWith(Strip(raw), "JOIN") && !StartsWith(Strip(raw), "LEAVE") && Strip(raw) != "WHO"
    ensures Handle(users, raw, srcIp, srcPort) == Served(users, [])
  {
  }
}
