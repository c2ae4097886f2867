/**
 * The part of Python's `str` the chat services rely on: `strip()`, `split()`
 * on whitespace, `split(sep, maxsplit)`, `replace`, `startswith`, `join`,
 * `int()` on a string and the decimal rendering of an `int`.
 *
 * `split()` (no argument: runs of whitespace, empty pieces dropped) and
 * `split(sep, maxsplit)` (a literal separator, empty pieces kept) behave
 * differently, so they are two functions here: `SplitWs` and `Split`.
 */
module PyStr {
  import opened Wrappers

  /** The characters for which Python's `str.isspace()` holds. */
  const Whitespace: set<char> := {
    ' ', '\t', '\n', '\U{b}', '\U{c}', '\r', '\U{1c}', '\U{1d}', '\U{1e}', '\U{1f}',
    '\U{85}', '\U{a0}', '\U{1680}', '\U{2000}', '\U{2001}', '\U{2002}', '\U{2003}',
    '\U{2004}', '\U{2005}', '\U{2006}', '\U{2007}', '\U{2008}', '\U{2009}', '\U{200a}',
    '\U{2028}', '\U{2029}', '\U{202f}', '\U{205f}', '\U{3000}'
  }

  predicate IsSpace(c: char) {
    c in Whitespace
  }

  /** No whitespace character anywhere in `s`. */
  predicate NoSpace(s: string) {
    forall i :: 0 <= i < |s| ==> !IsSpace(s[i])
  }

  /** Only whitespace characters in `s`. */
  predicate AllSpace(s: string) {
    forall i :: 0 <= i < |s| ==> IsSpace(s[i])
  }

  /** What `split()` can return as one token: non-empty and whitespace-free. */
  predicate IsWord(s: string) {
    |s| > 0 && NoSpace(s)
  }

  /** Neither end of `s` is whitespace, so `strip()` leaves it alone. */
  predicate Trimmed(s: string) {
    s == [] || (!IsSpace(s[0]) && !IsSpace(s[|s| - 1]))
  }

  predicate StartsWith(s: string, prefix: string) {
    |prefix| <= |s| && s[..|prefix|] == prefix
  }

  // ---------------------------------------------------------------- strip

  function LStrip(s: string): (r: string)
    ensures |r| <= |s|
    ensures r == [] || !IsSpace(r[0])
  {
    if |s| > 0 && IsSpace(s[0]) then LStrip(s[1..]) else s
  }

  function RStrip(s: string): (r: string)
    ensures |r| <= |s| && r == s[..|r|]
    ensures r == [] || !IsSpace(r[|r| - 1])
  {
    if |s| > 0 && IsSpace(s[|s| - 1]) then RStrip(s[..|s| - 1]) else s
  }

  /** Python's `s.strip()`. */
  function Strip(s: string): (r: string)
    ensures Trimmed(r)
    ensures |r| <= |s|
  {
    RStrip(LStrip(s))
  }

  lemma {:induction false} LStripSkipsSpace(pad: string, s: string)
    requires AllSpace(pad)
    ensures LStrip(pad + s) == LStrip(s)
    decreases |pad|
  {
    if pad != [] {
      assert (pad + s)[1..] == pad[1..] + s;
      LStripSkipsSpace(pad[1..], s);
    } else {
      assert pad + s == s;
    }
  }

  lemma {:induction false} RStripSkipsSpace(s: string, pad: string)
    requires AllSpace(pad)
    ensures RStrip(s + pad) == RStrip(s)
    decreases |pad|
  {
    if pad != [] {
      assert (s + pad)[..|s + pad| - 1] == s + pad[..|pad| - 1];
      RStripSkipsSpace(s, pad[..|pad| - 1]);
    } else {
      assert s + pad == s;
    }
  }

  /** Stripping whitespace padding off a trimmed string gives the string back. */
  lemma StripPadded(pre: string, s: string, post: string)
    requires AllSpace(pre) && AllSpace(post) && Trimmed(s)
    ensures Strip(pre + s + post) == s
  {
    LStripSkipsSpace(pre, s + post);
    assert pre + s + post == pre + (s + post);
    if s == [] {
      assert s + post == post;
      LStripSkipsSpace(post, []);
      assert post + [] == post;
    } else {
      assert LStrip(s + post) == s + post;
      RStripSkipsSpace(s, post);
    }
  }

  // ------------------------------------------------- split() on whitespace

  /** Length of the leading run of non-whitespace characters of `s`. */
  function WordEnd(s: string): (k: nat)
    ensures k <= |s| && NoSpace(s[..k]) && (k == |s| || IsSpace(s[k]))
  {
    if |s| == 0 || IsSpace(s[0]) then 0
    else
      var k := 1 + WordEnd(s[1..]);
      assert s[..k] == [s[0]] + s[1..][..k - 1];
      k
  }

  /** Python's `s.split()`: the maximal whitespace-free runs, left to right. */
  function SplitWs(s: string): (r: seq<string>)
    ensures forall i :: 0 <= i < |r| ==> IsWord(r[i])
    decreases |s|
  {
    var t := LStrip(s);
    if t == [] then []
    else
      var k := WordEnd(t);
      assert k > 0;
      var word := t[..k];
      assert IsWord(word);
      [word] + SplitWs(t[k..])
  }

  lemma WordEndOfWord(w: string, rest: string)
    requires NoSpace(w)
    requires rest == [] || IsSpace(rest[0])
    ensures WordEnd(w + rest) == |w|
    decreases |w|
  {
    if w != [] {
      assert (w + rest)[1..] == w[1..] + rest;
      WordEndOfWord(w[1..], rest);
    } else {
      assert w + rest == rest;
    }
  }

  lemma SplitWsSingle(w: string)
    requires IsWord(w)
    ensures SplitWs(w) == [w]
  {
    WordEndOfWord(w, []);
    assert w + [] == w;
  }

  lemma SplitWsCons(w: string, sep: string, rest: string)
    requires IsWord(w) && AllSpace(sep) && |sep| > 0
    ensures SplitWs(w + sep + rest) == [w] + SplitWs(rest)
  {
    var s := w + sep + rest;
    assert s == w + (sep + rest);
    WordEndOfWord(w, sep + rest);
    assert s[|w|..] == sep + rest;
    LStripSkipsSpace(sep, rest);
    assert SplitWs(sep + rest) == SplitWs(rest);
  }

  /** Three words joined by single spaces, with trailing whitespace: `strip()` then `split()` gives the words back. */
  lemma WordsLine(a: string, b: string, c: string, pad: string)
    requires IsWord(a) && IsWord(b) && IsWord(c) && AllSpace(pad)
    ensures Strip(a + " " + b + " " + c + pad) == a + " " + b + " " + c
    ensures SplitWs(a + " " + b + " " + c) == [a, b, c]
  {
    var t := a + " " + b + " " + c;
    assert Trimmed(t) by {
      assert t[0] == a[0];
      assert t[|t| - 1] == c[|c| - 1];
    }
    assert Strip(t + pad) == t by {
      StripPadded([], t, pad);
      assert [] + t + pad == t + pad;
    }
    SplitWsThree(a, b, c);
  }

  /** Three words joined by single spaces split back into the three words. */
  lemma {:induction false} SplitWsThree(a: string, b: string, c: string)
    requires IsWord(a) && IsWord(b) && IsWord(c)
    ensures SplitWs(a + " " + b + " " + c) == [a, b, c]
  {
    var bc := b + " " + c;
    assert SplitWs(bc) == [b, c] by {
      assert AllSpace(" ");
      SplitWsSingle(c);
      SplitWsCons(b, " ", c);
    }
    assert SplitWs(a + " " + bc) == [a] + [b, c] by {
      assert AllSpace(" ");
      SplitWsCons(a, " ", bc);
    }
    assert a + " " + b + " " + c == a + " " + bc;
  }

  // ------------------------------------------- split(sep, maxsplit) and join

  /** `pat` occurs in `s` starting at index `i`. */
  predicate OccursAt(s: string, pat: string, i: nat) {
    i + |pat| <= |s| && s[i..i + |pat|] == pat
  }

  /** `pat` occurs nowhere in `s`. */
  predicate Absent(s: string, pat: string) {
    forall i: nat :: i <= |s| ==> !OccursAt(s, pat, i)
  }

  function FindFrom(s: string, pat: string, i: nat): (r: Option<nat>)
    requires i <= |s|
    ensures r.Some? ==> i <= r.value && OccursAt(s, pat, r.value)
    ensures r.Some? ==> forall j: nat :: i <= j < r.value ==> !OccursAt(s, pat, j)
    ensures r.None? ==> forall j: nat :: i <= j <= |s| ==> !OccursAt(s, pat, j)
    decreases |s| - i
  {
    if OccursAt(s, pat, i) then Some(i)
    else if i == |s| then None
    else FindFrom(s, pat, i + 1)
  }

  /** The lowest index at which `pat` occurs in `s`, like Python's `str.find`. */
  function Find(s: string, pat: string): (r: Option<nat>)
    ensures r.Some? ==> OccursAt(s, pat, r.value)
    ensures r.Some? ==> forall j: nat :: j < r.value ==> !OccursAt(s, pat, j)
    ensures r.None? <==> Absent(s, pat)
  {
    FindFrom(s, pat, 0)
  }

  /** Python's `sep.join(parts)`. */
  function Join(sep: string, parts: seq<string>): string {
    if |parts| == 0 then []
    else if |parts| == 1 then parts[0]
    else parts[0] + sep + Join(sep, parts[1..])
  }

  /**
   * Python's `s.split(sep, maxsplit)` for a non-empty `sep`: cut at the first
   * `maxsplit` occurrences of `sep`, left to right (all of them when
   * `maxsplit` is negative); empty pieces are kept. Joining the pieces with
   * `sep` gives `s` back, and no piece but the last contains `sep`
   * (SplitLastFree adds that the last one does not either, unless all
   * `maxsplit` cuts were used).
   */
  function Split(s: string, sep: string, maxsplit: int): (r: seq<string>)
    requires |sep| > 0
    ensures |r| >= 1
    ensures Join(sep, r) == s
    ensures maxsplit >= 0 ==> |r| <= maxsplit + 1
    ensures forall i :: 0 <= i < |r| - 1 ==> Absent(r[i], sep)
    decreases |s|
  {
    if maxsplit == 0 then [s]
    else
      match Find(s, sep)
      case None => [s]
      case Some(i) =>
        var rest := Split(s[i + |sep|..], sep, if maxsplit > 0 then maxsplit - 1 else maxsplit);
        assert s == s[..i] + sep + s[i + |sep|..];
        assert Absent(s[..i], sep) by {
          forall j: nat | j <= i
            ensures !OccursAt(s[..i], sep, j)
          {
            if OccursAt(s[..i], sep, j) {
              assert s[..i][j..j + |sep|] == s[j..j + |sep|];
              assert OccursAt(s, sep, j);
            }
          }
        }
        [s[..i]] + rest
  }

  /**
   * Splitting does not stop early: unless all `maxsplit` cuts were used, the
   * last piece holds no `sep` either, so every occurrence was cut.
   */
  lemma {:induction false} SplitLastFree(s: string, sep: string, maxsplit: int)
    requires |sep| > 0
    ensures var r := Split(s, sep, maxsplit);
            maxsplit < 0 || |r| <= maxsplit ==> Absent(r[|r| - 1], sep)
    decreases |s|
  {
    if maxsplit != 0 {
      match Find(s, sep)
      case None =>
      case Some(i) =>
        var m := if maxsplit > 0 then maxsplit - 1 else maxsplit;
        var rest := Split(s[i + |sep|..], sep, m);
        assert Split(s, sep, maxsplit) == [s[..i]] + rest;
        SplitLastFree(s[i + |sep|..], sep, m);
    }
  }

  /**
   * Every cut is the leftmost one: each piece but the last ends where the
   * first occurrence of `sep` in the text still to be split begins.
   */
  predicate LeftmostCuts(sep: string, r: seq<string>) {
    forall k :: 0 <= k < |r| - 1 ==> Find(Join(sep, r[k..]), sep) == Some(|r[k]|)
  }

  /**
   * `split` cuts leftmost. With Split's own contract and SplitLastFree this
   * fixes the result, also for a separator that overlaps itself, such as
   * `"::"`.
   */
  lemma {:induction false} SplitLeftmost(s: string, sep: string, maxsplit: int)
    requires |sep| > 0
    ensures LeftmostCuts(sep, Split(s, sep, maxsplit))
    decreases |s|
  {
    if maxsplit != 0 {
      match Find(s, sep)
      case None =>
      case Some(i) =>
        var m := if maxsplit > 0 then maxsplit - 1 else maxsplit;
        var rest := Split(s[i + |sep|..], sep, m);
        assert Split(s, sep, maxsplit) == [s[..i]] + rest;
        SplitLeftmost(s[i + |sep|..], sep, m);
        LeftmostCons(sep, s[..i], rest);
    }
  }

  /** With the self-overlapping `"::"`, `":::"` is cut at index 0, not 1. */
  lemma SplitOverlapping()
    ensures Split(":::", "::", -1) == ["", ":"]
  {
    var s := ":::";
    assert OccursAt(s, "::", 0) by { assert s[0..2] == "::"; }
    assert Find(s, "::") == Some(0);
    assert s[2..] == ":";
    assert !OccursAt(":", "::", 0) && !OccursAt(":", "::", 1);
    assert Absent(":", "::");
    assert Split(":", "::", -1) == [":"];
    assert s[..0] == "";
  }

  lemma LeftmostCons(sep: string, a: string, rest: seq<string>)
    requires |rest| > 0 && LeftmostCuts(sep, rest)
    requires Find(a + sep + Join(sep, rest), sep) == Some(|a|)
    ensures LeftmostCuts(sep, [a] + rest)
  {
    var r := [a] + rest;
    forall k | 0 <= k < |r| - 1
      ensures Find(Join(sep, r[k..]), sep) == Some(|r[k]|)
    {
      if k == 0 {
        assert r[k..] == r;
        assert r[1..] == rest;
      } else {
        assert r[k..] == rest[k - 1..];
      }
    }
  }

  /** The one-character separator `c` is found first right after a `c`-free prefix. */
  lemma FindAfterFree(a: string, c: char, b: string)
    requires c !in a
    ensures Find(a + [c] + b, [c]) == Some(|a|)
  {
    var s := a + [c] + b;
    assert OccursAt(s, [c], |a|) by { assert s[|a|..|a| + 1] == [c]; }
    forall j: nat | j < |a|
      ensures !OccursAt(s, [c], j)
    {
      assert s[j..j + 1] == [a[j]];
    }
  }

  /** Splitting at a one-character separator peels off the separator-free prefix. */
  lemma SplitCons(a: string, c: char, b: string, maxsplit: int)
    requires c !in a && maxsplit != 0
    ensures Split(a + [c] + b, [c], maxsplit)
         == [a] + Split(b, [c], if maxsplit > 0 then maxsplit - 1 else maxsplit)
  {
    FindAfterFree(a, c, b);
    var s := a + [c] + b;
    assert s[..|a|] == a;
    assert s[|a| + 1..] == b;
  }

  /** A separator-free string splits into itself alone. */
  lemma SplitFree(a: string, c: char, maxsplit: int)
    requires c !in a
    ensures Split(a, [c], maxsplit) == [a]
  {
    if maxsplit != 0 {
      forall j: nat | j <= |a|
        ensures !OccursAt(a, [c], j)
      {
        if j < |a| {
          assert a[j..j + 1] == [a[j]];
        }
      }
    }
  }

  /** A separator whose first character does not occur in `a` is found first right after `a`. */
  lemma SplitAtFirst(a: string, sep: string, b: string, maxsplit: int)
    requires |sep| > 0 && sep[0] !in a && maxsplit != 0
    ensures Split(a + sep + b, sep, maxsplit)
         == [a] + Split(b, sep, if maxsplit > 0 then maxsplit - 1 else maxsplit)
  {
    var s := a + sep + b;
    assert OccursAt(s, sep, |a|) by { assert s[|a|..|a| + |sep|] == sep; }
    forall j: nat | j < |a|
      ensures !OccursAt(s, sep, j)
    {
      if j + |sep| <= |s| {
        assert s[j..j + |sep|][0] == a[j];
      }
    }
    assert Find(s, sep) == Some(|a|);
    assert s[..|a|] == a;
    assert s[|a| + |sep|..] == b;
  }

  /** A string that does not contain the separator splits into itself alone. */
  lemma SplitAbsent(s: string, sep: string, maxsplit: int)
    requires |sep| > 0 && Absent(s, sep)
    ensures Split(s, sep, maxsplit) == [s]
  {
  }

  /** Python's `s.replace(old, new)`: every non-overlapping occurrence, left to right. */
  function Replace(s: string, pat: string, repl: string): string
    requires |pat| > 0
  {
    Join(repl, Split(s, pat, -1))
  }

  /** A separator character that `pat` does not contain cannot be part of an occurrence of `pat`. */
  lemma AbsentAcross(a: string, c: char, b: string, pat: string)
    requires |pat| > 0 && c !in pat
    requires Absent(a, pat) && Absent(b, pat)
    ensures Absent(a + [c] + b, pat)
  {
    var s := a + [c] + b;
    forall i: nat | i <= |s|
      ensures !OccursAt(s, pat, i)
    {
      if i + |pat| <= |s| {
        if i + |pat| <= |a| {
          assert s[i..i + |pat|] == a[i..i + |pat|];
          assert !OccursAt(a, pat, i);
        } else if i > |a| {
          assert s[i..i + |pat|] == b[i - |a| - 1..i - |a| - 1 + |pat|];
          assert !OccursAt(b, pat, i - |a| - 1);
        } else {
          assert s[i..i + |pat|][|a| - i] == c;
          assert pat[|a| - i] in pat;
        }
      }
    }
  }

  /** A string none of whose characters occur in `pat` does not contain `pat`. */
  lemma AbsentByChars(s: string, pat: string)
    requires |pat| > 0
    requires forall i :: 0 <= i < |s| ==> s[i] !in pat
    ensures Absent(s, pat)
  {
    forall i: nat | i <= |s|
      ensures !OccursAt(s, pat, i)
    {
      if i + |pat| <= |s| {
        assert s[i..i + |pat|][0] == s[i];
        assert pat[0] in pat;
      }
    }
  }

  /** Removing every occurrence of `pat` from `pat + s`, when `s` holds none, leaves `s`. */
  lemma ReplaceLeading(pat: string, s: string)
    requires |pat| > 0 && Absent(s, pat)
    ensures Replace(pat + s, pat, "") == s
  {
    var t := pat + s;
    assert OccursAt(t, pat, 0) by { assert t[0..|pat|] == pat; }
    assert t[|pat|..] == s;
    assert Find(t, pat) == Some(0);
    assert t[..0] == [];
    var rest := Split(s, pat, -1);
    assert Find(s, pat).None?;
    assert rest == [s];
    assert Split(t, pat, -1) == [[], s];
    assert Join("", [[], s]) == [] + "" + Join("", [s]);
  }

  // ------------------------------------------------------ int() and str(int)

  predicate IsDigit(c: char) {
    '0' <= c <= '9'
  }

  /** What Python's `int()` accepts after an optional sign: ASCII digits, single `_` only between digits. */
  predicate DigitGroup(s: string) {
    && |s| > 0 && IsDigit(s[0]) && IsDigit(s[|s| - 1])
    && forall i :: 0 <= i < |s| ==>
         || IsDigit(s[i])
         || (s[i] == '_' && 0 < i < |s| - 1 && IsDigit(s[i - 1]) && IsDigit(s[i + 1]))
  }

  /** Decimal value of the digits of `s`, underscores skipped. */
  function DigitsValue(s: string): nat {
    if |s| == 0 then 0
    else
      var last := s[|s| - 1];
      if IsDigit(last) then DigitsValue(s[..|s| - 1]) * 10 + (last as int - '0' as int)
      else DigitsValue(s[..|s| - 1])
  }

  /**
   * Python's `int(s)` in base 10: surrounding whitespace stripped, an
   * optional sign, then a digit group; `None` stands for the `ValueError`.
   */
  function ParseInt(s: string): Option<int> {
    var t := Strip(s);
    if |t| > 0 && (t[0] == '+' || t[0] == '-') then
      var magnitude: int := DigitsValue(t[1..]);
      if DigitGroup(t[1..]) then Some(if t[0] == '-' then -magnitude else magnitude)
      else None
    else if DigitGroup(t) then Some(DigitsValue(t))
    else None
  }

  function DigitChar(d: nat): (c: char)
    requires d < 10
    ensures IsDigit(c)
  {
    ('0' as int + d) as char
  }

  /** Decimal rendering of a natural number, without leading zeros. */
  function NatToString(n: nat): (r: string)
    ensures |r| > 0 && forall i :: 0 <= i < |r| ==> IsDigit(r[i])
  {
    if n < 10 then [DigitChar(n)] else NatToString(n / 10) + [DigitChar(n % 10)]
  }

  /** Python's `str(i)` / `f"{i}"` for an `int`. */
  function IntToString(i: int): (r: string)
    ensures IsWord(r) && Trimmed(r)
    ensures forall k :: 0 <= k < |r| ==> IsDigit(r[k]) || r[k] == '-'
  {
    var r := if i < 0 then "-" + NatToString(-i) else NatToString(i);
    assert forall k :: 0 <= k < |r| ==> IsDigit(r[k]) || r[k] == '-';
    SignedDigitsAreWord(r);
    r
  }

  lemma SignedDigitsAreWord(s: string)
    requires |s| > 0 && forall k :: 0 <= k < |s| ==> IsDigit(s[k]) || s[k] == '-'
    ensures IsWord(s) && Trimmed(s)
  {
    forall k | 0 <= k < |s|
      ensures !IsSpace(s[k])
    {
      assert IsDigit(s[k]) || s[k] == '-';
    }
  }

  lemma {:induction false} NatToStringValue(n: nat)
    ensures DigitsValue(NatToString(n)) == n
  {
    if n >= 10 {
      var s := NatToString(n);
      assert s[..|s| - 1] == NatToString(n / 10);
      NatToStringValue(n / 10);
    }
  }

  /** A non-empty run of ASCII digits is a digit group. */
  lemma DigitsAreGroup(s: string)
    requires |s| > 0 && forall i :: 0 <= i < |s| ==> IsDigit(s[i])
    ensures DigitGroup(s)
  {
  }

  /** `int(str(i)) == i`: the decimal rendering of an `int` parses back to it. */
  lemma ParseIntToString(i: int)
    ensures ParseInt(IntToString(i)) == Some(i)
  {
    var s := IntToString(i);
    assert Strip(s) == s by {
      StripPadded([], s, []);
      assert [] + s + [] == s;
    }
    var magnitude: nat := if i < 0 then -i else i;
    var digits := NatToString(magnitude);
    NatToStringValue(magnitude);
    DigitsAreGroup(digits);
    if i < 0 {
      assert s[1..] == digits;
    } else {
      assert s == digits;
      assert IsDigit(s[0]);
    }
  }
}
