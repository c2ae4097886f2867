/**
 * The contact table both discovery handlers keep (name -> (ip, port)) and the
 * text form in which they list it in a reply: `", "`-joined `name ip port`
 * entries, in the table's insertion order.
 */
module Contacts {
  import opened Wrappers
  import opened PyStr
  import opened OrderedDict

  /** Where a peer is reached: the `(ip, port)` tuple stored under its name. */
  datatype Addr = Addr(ip: string, port: int)

  type Table = Dict<Addr>

  /** `f"{n} {ip} {p}"` for one table entry. */
  function EntryText(name: string, a: Addr): string {
    name + " " + a.ip + " " + IntToString(a.port)
  }

  function EntryTexts(items: seq<(string, Addr)>): (r: seq<string>)
    ensures |r| == |items|
    ensures forall i :: 0 <= i < |r| ==> r[i] == EntryText(items[i].0, items[i].1)
  {
    seq(|items|, i requires 0 <= i < |items| => EntryText(items[i].0, items[i].1))
  }

  /** `", ".join(f"{n} {ip} {p}" for n, (ip, p) in t.items())`. */
  function TableText(t: Table): string {
    Join(", ", EntryTexts(Items(t)))
  }

  /** A name or IP that survives the comma split and `split()`: one whitespace-free token with no `,`. */
  predicate Field(s: string) {
    IsWord(s) && ',' !in s
  }

  /** Every name and every IP in `t` is a field. */
  predicate FieldTable(t: Table) {
    forall k :: k in t.m ==> Field(k) && Field(t.m[k].ip)
  }

  /**
   * A name or IP that the `SEEN` listing carries intact: a field with no
   * `SEEN` inside it, since the receiver removes every `SEEN`.
   */
  predicate Listable(s: string) {
    Field(s) && Absent(s, "SEEN")
  }

  /** Every name and every IP in `t` is listable. */
  predicate ListableTable(t: Table) {
    forall k :: k in t.m ==> Listable(k) && Listable(t.m[k].ip)
  }

  /** The shape of one listed entry: trimmed, comma-free, `SEEN`-free, three tokens. */
  predicate EntryShape(e: string) {
    e != [] && Trimmed(e) && ',' !in e && Absent(e, "SEEN")
  }

  /** An entry of two fields and a port is trimmed, comma-free, and splits back into its three parts. */
  lemma EntryTokens(name: string, a: Addr)
    requires Field(name) && Field(a.ip)
    ensures Trimmed(EntryText(name, a))
    ensures ',' !in EntryText(name, a)
    ensures SplitWs(EntryText(name, a)) == [name, a.ip, IntToString(a.port)]
  {
    var p := IntToString(a.port);
    var e := EntryText(name, a);
    assert ',' !in p by {
      forall i | 0 <= i < |p|
        ensures p[i] != ','
      {
        assert IsDigit(p[i]) || p[i] == '-';
      }
    }
    assert ',' !in e;
    assert e[0] == name[0];
    assert e[|e| - 1] == p[|p| - 1];
    SplitWsThree(name, a.ip, p);
  }

  lemma EntryTextShape(name: string, a: Addr)
    requires Listable(name) && Listable(a.ip)
    ensures EntryShape(EntryText(name, a))
    ensures SplitWs(EntryText(name, a)) == [name, a.ip, IntToString(a.port)]
  {
    var p := IntToString(a.port);
    var e := EntryText(name, a);
    assert Absent(p, "SEEN") by {
      forall i | 0 <= i < |p|
        ensures p[i] !in "SEEN"
      {
        assert IsDigit(p[i]) || p[i] == '-';
      }
      AbsentByChars(p, "SEEN");
    }
    AbsentAcross(a.ip, ' ', p, "SEEN");
    assert a.ip + " " + p == a.ip + [' '] + p;
    AbsentAcross(name, ' ', a.ip + " " + p, "SEEN");
    assert e == name + [' '] + (a.ip + " " + p);
    EntryTokens(name, a);
  }

  /** Joining well-shaped entries with `", "` gives a trimmed, `SEEN`-free text, empty only for no entries. */
  lemma {:induction false} JoinedShape(es: seq<string>)
    requires forall i :: 0 <= i < |es| ==> EntryShape(es[i])
    ensures Absent(Join(", ", es), "SEEN")
    ensures Trimmed(Join(", ", es))
    ensures Join(", ", es) == [] <==> es == []
  {
    if |es| == 0 {
      assert Absent([], "SEEN");
    } else if |es| > 1 {
      var tail := Join(", ", es[1..]);
      JoinedShape(es[1..]);
      assert es[1..][0] == es[1];
      AbsentAcross([], ' ', tail, "SEEN");
      assert [] + [' '] + tail == " " + tail;
      AbsentAcross(es[0], ',', " " + tail, "SEEN");
      assert Join(", ", es) == es[0] + [','] + (" " + tail);
    }
  }

  /** Splitting `pre + ", ".join(es)` at `,`: the first piece carries `pre`, every later piece a leading space. */
  function Spaced(es: seq<string>): (r: seq<string>)
    ensures |r| == |es|
    ensures forall i :: 0 <= i < |es| ==> r[i] == " " + es[i]
  {
    seq(|es|, i requires 0 <= i < |es| => " " + es[i])
  }

  lemma {:induction false} SplitListing(pre: string, es: seq<string>)
    requires |es| > 0 && ',' !in pre
    requires forall i :: 0 <= i < |es| ==> ',' !in es[i]
    ensures Split(pre + Join(", ", es), ",", -1) == [pre + es[0]] + Spaced(es[1..])
    decreases |es|
  {
    assert "," == [','];
    if |es| == 1 {
      assert ',' !in pre + es[0];
      SplitFree(pre + es[0], ',', -1);
      assert Spaced(es[1..]) == [];
    } else {
      var tail := Join(", ", es[1..]);
      assert pre + Join(", ", es) == (pre + es[0]) + [','] + (" " + tail);
      assert ',' !in pre + es[0];
      SplitCons(pre + es[0], ',', " " + tail, -1);
      assert es[1..][0] == es[1];
      assert es[1..][1..] == es[2..];
      SplitListing(" ", es[1..]);
      assert Spaced(es[1..]) == [" " + es[1]] + Spaced(es[2..]);
    }
  }

  /** The announcement `f"JOIN {name} {port}"` both discovery handlers understand. */
  function JoinLine(handle: string, port: int): string {
    "JOIN" + " " + handle + " " + IntToString(port)
  }

  /** The announcement needs no stripping, and splits back into `JOIN`, the handle and a port that parses back. */
  lemma JoinLineTokens(handle: string, port: int)
    requires IsWord(handle)
    ensures Strip(JoinLine(handle, port)) == JoinLine(handle, port)
    ensures StartsWith(JoinLine(handle, port), "JOIN")
    ensures SplitWs(JoinLine(handle, port)) == ["JOIN", handle, IntToString(port)]
    ensures ParseInt(IntToString(port)) == Some(port)
  {
    assert IsWord("JOIN") && AllSpace([]);
    WordsLine("JOIN", handle, IntToString(port), []);
    assert JoinLine(handle, port) + [] == JoinLine(handle, port);
    assert JoinLine(handle, port)[..4] == "JOIN";
    ParseIntToString(port);
  }
}
