/**
 The text side of memory files (crates/heramind-agent/src/session.rs): trimming, lines, and what a
 file says once blank lines and white space at line ends are disregarded.
 */
module MemoryText {
  import opened Basics

  // ---------------------------------------------------------------------------
  // Strings
  // ---------------------------------------------------------------------------

  /** The Unicode White_Space property. */
  predicate IsWs(c: char) {
    || '\t' <= c <= '\r' || c == ' ' || c == '\U{85}' || c == '\U{A0}' || c == '\U{1680}'
    || '\U{2000}' <= c <= '\U{200A}' || c == '\U{2028}' || c == '\U{2029}' || c == '\U{202F}'
    || c == '\U{205F}' || c == '\U{3000}'
  }

  const BULLET: string := "\U{2022} "

  function TrimEnd(s: string): (r: string)
    ensures |r| <= |s|
  {
    if s == [] || !IsWs(s[|s| - 1]) then s else TrimEnd(s[..|s| - 1])
  }

  function TrimStart(s: string): (r: string)
    ensures |r| <= |s|
  {
    if s == [] || !IsWs(s[0]) then s else TrimStart(s[1..])
  }

  function Trim(s: string): string {
    TrimEnd(TrimStart(s))
  }

  function StripPrefix(s: string, prefix: string): Option<string> {
    if prefix <= s then Some(s[|prefix|..]) else None
  }

  /** `trim_start_matches(prefix)`: drop the prefix as often as it occurs. */
  function StripAll(s: string, prefix: string): (r: string)
    requires prefix != []
    ensures |r| <= |s| && (prefix <= s <==> |r| < |s|)
  {
    if prefix <= s then StripAll(s[|prefix|..], prefix) else s
  }

  /** Position of the first line break, or the length. */
  function Break(s: string): (i: nat)
    ensures i <= |s| && (forall k :: 0 <= k < i ==> s[k] != '\n') && (i < |s| ==> s[i] == '\n')
  {
    if s == [] || s[0] == '\n' then 0 else Break(s[1..]) + 1
  }

  function StripCr(s: string): string {
    if s != [] && s[|s| - 1] == '\r' then s[..|s| - 1] else s
  }

  /** `str::lines`: split at line breaks, which may be preceded by a carriage return. */
  function Lines(s: string): seq<string> {
    if s == [] then []
    else
      var i := Break(s);
      if i == |s| then [s] else [StripCr(s[..i])] + Lines(s[i + 1..])
  }

  /** Append one line to the text kept so far. */
  function AddLine(kept: string, line: string): string {
    if kept == [] then line else kept + "\n" + line
  }

  /** Nonempty lines joined by single line breaks. */
  function Join(ls: seq<string>): string {
    if ls == [] then [] else AddLine(Join(ls[..|ls| - 1]), ls[|ls| - 1])
  }

  // ---------------------------------------------------------------------------
  // What a file says
  // ---------------------------------------------------------------------------

  /** A line that is not blank, without the white space at its end. */
  function ShownLine(l: string): seq<string> {
    if TrimEnd(l) == [] then [] else [TrimEnd(l)]
  }

  function Shown(lines: seq<string>): seq<string> {
    if lines == [] then [] else ShownLine(lines[0]) + Shown(lines[1..])
  }

  function Content(s: string): seq<string> {
    Shown(Lines(s))
  }

  lemma {:induction false} ShownAppend(a: seq<string>, b: seq<string>)
    ensures Shown(a + b) == Shown(a) + Shown(b)
  {
    hide ShownLine;
    if a == [] {
      assert a + b == b;
    } else {
      ShownAppend(a[1..], b);
      assert (a + b)[1..] == a[1..] + b && (a + b)[0] == a[0];
      assert (ShownLine(a[0]) + Shown(a[1..])) + Shown(b) == ShownLine(a[0]) + (Shown(a[1..]) + Shown(b));
    }
  }

  lemma ShownOne(l: string)
    ensures Shown([l]) == ShownLine(l)
  {
    assert [l][1..] == [];
  }

  lemma TrimEndPush(s: string, c: char)
    requires IsWs(c)
    ensures TrimEnd(s + [c]) == TrimEnd(s)
  {
    assert (s + [c])[..|s|] == s;
  }

  lemma StripCrTrims(s: string)
    ensures TrimEnd(StripCr(s)) == TrimEnd(s)
  {
    if StripCr(s) != s {
      assert s == s[..|s| - 1] + ['\r'];
      TrimEndPush(s[..|s| - 1], '\r');
    }
  }

  lemma BreakUnique(s: string, i: nat)
    requires i < |s| && s[i] == '\n' && forall k :: 0 <= k < i ==> s[k] != '\n'
    ensures Break(s) == i
  {
    assert !(Break(s) < i) && !(i < Break(s));
  }

  /** The first line of a text that starts with a complete line. */
  lemma LinesStep(l: string, rest: string)
    requires '\n' !in l
    ensures Lines(l + "\n" + rest) == [StripCr(l)] + Lines(rest)
  {
    var s := l + "\n" + rest;
    BreakUnique(s, |l|);
    assert s[..|l|] == l && s[|l| + 1..] == rest;
  }

  lemma LinesOfLine(l: string)
    requires '\n' !in l
    ensures Lines(l) == if l == [] then [] else [l]
  {
  }

  /** A text with a break, taken apart at the first one. */
  lemma SplitAtBreak(s: string)
    requires '\n' in s
    ensures var i := Break(s); i < |s| && '\n' !in s[..i] && s == s[..i] + "\n" + s[i + 1..]
  {
    hide Break;
    var i := Break(s);
    var k := FirstIn(s);
    assert i <= k;
    CutAt(s, i);
  }

  lemma FirstIn(s: string) returns (k: nat)
    requires '\n' in s
    ensures k < |s| && s[k] == '\n'
  {
    k :| k < |s| && s[k] == '\n';
  }

  lemma CutAt(s: string, i: nat)
    requires i < |s| && s[i] == '\n' && forall k :: 0 <= k < i ==> s[k] != '\n'
    ensures '\n' !in s[..i] && s == s[..i] + "\n" + s[i + 1..]
  {
    var l := s[..i];
    assert forall k :: 0 <= k < |l| ==> l[k] == s[k];
  }

  /** What two texts say, one below the other, is what they say. */
  lemma {:induction false} ContentConcat(a: string, b: string)
    ensures Content(a + "\n" + b) == Content(a) + Content(b)
    decreases |a|
  {
    hide Lines, Shown, ShownLine, StripCr, Break;
    if '\n' !in a {
      ContentOfFirst(a, b);
      ContentOfLine(a);
    } else {
      SplitAtBreak(a);
      var l, rest := a[..Break(a)], a[Break(a) + 1..];
      ContentConcat(rest, b);
      ContentOfFirst(l, rest);
      ContentOfFirst(l, rest + "\n" + b);
      assert a + "\n" + b == l + "\n" + (rest + "\n" + b);
    }
  }

  lemma ContentOfLine(l: string)
    requires '\n' !in l
    ensures Content(l) == ShownLine(l)
  {
    LinesOfLine(l);
    ShownOne(l);
  }

  lemma ContentOfFirst(l: string, rest: string)
    requires '\n' !in l
    ensures Content(l + "\n" + rest) == ShownLine(l) + Content(rest)
  {
    LinesStep(l, rest);
    StripCrTrims(l);
    hide Lines, StripCr, TrimEnd;
    ShownAppend([StripCr(l)], Lines(rest));
    ShownOne(StripCr(l));
  }

  lemma {:induction false} ContentPush(s: string, c: char)
    requires IsWs(c)
    ensures Content(s + [c]) == Content(s)
    decreases |s|
  {
    hide Content, Break;
    if c == '\n' {
      ContentConcat(s, []);
      assert s + "\n" + [] == s + [c];
      ContentOfLine([]);
    } else if '\n' !in s {
      ContentOfLine(s);
      ContentOfLine(s + [c]);
      TrimEndPush(s, c);
    } else {
      SplitAtBreak(s);
      var l, rest := s[..Break(s)], s[Break(s) + 1..];
      ContentPush(rest, c);
      ContentConcat(l, rest);
      ContentConcat(l, rest + [c]);
      assert s + [c] == l + "\n" + (rest + [c]);
    }
  }

  /** White space at the end of a file says nothing. */
  lemma {:induction false} ContentTrimEnd(s: string)
    ensures Content(TrimEnd(s)) == Content(s)
  {
    hide Content;
    if s != [] && IsWs(s[|s| - 1]) {
      ContentTrimEnd(s[..|s| - 1]);
      ContentPush(s[..|s| - 1], s[|s| - 1]);
      assert s == s[..|s| - 1] + [s[|s| - 1]];
    }
  }

  ghost predicate NoBreaks(ls: seq<string>) {
    forall i :: 0 <= i < |ls| ==> '\n' !in ls[i]
  }

  lemma {:induction false} ContentOfJoin(ls: seq<string>)
    requires NoBreaks(ls)
    ensures Content(Join(ls)) == Shown(ls)
  {
    if ls != [] {
      var front, l := ls[..|ls| - 1], ls[|ls| - 1];
      ContentOfJoin(front);
      LinesOfLine(l);
      ShownOne(l);
      ShownAppend(front, [l]);
      assert ls == front + [l];
      ContentConcat(Join(front), l);
    }
  }

  /** A text that is empty or ends in something visible, as `trim_end` leaves it. */
  ghost predicate Trimmed(s: string) {
    s == [] || !IsWs(s[|s| - 1])
  }

  lemma {:induction false} TrimEndIsTrimmed(s: string)
    ensures Trimmed(TrimEnd(s)) && (Trimmed(s) ==> TrimEnd(s) == s)
  {
    if s != [] && IsWs(s[|s| - 1]) { TrimEndIsTrimmed(s[..|s| - 1]); }
  }

  lemma {:induction false} LinesConcat(a: string, b: string)
    requires a != [] && Trimmed(a)
    ensures Lines(a + "\n" + b) == Lines(a) + Lines(b)
    decreases |a|
  {
    hide Lines, Break;
    if '\n' !in a {
      LinesStep(a, b);
      LinesOfLine(a);
    } else {
      SplitAtBreak(a);
      var l, rest := a[..Break(a)], a[Break(a) + 1..];
      LinesConcat(rest, b);
      LinesStep(l, rest);
      LinesStep(l, rest + "\n" + b);
      assert a + "\n" + b == l + "\n" + (rest + "\n" + b);
    }
  }

  lemma {:induction false} LinesHaveNoBreaks(s: string)
    ensures NoBreaks(Lines(s))
    decreases |s|
  {
    if '\n' in s {
      SplitAtBreak(s);
      LinesHaveNoBreaks(s[Break(s) + 1..]);
      LinesStep(s[..Break(s)], s[Break(s) + 1..]);
    } else {
      LinesOfLine(s);
    }
  }

  /** The last line of a trimmed text shows something. */
  lemma {:induction false} LastLineShows(s: string)
    requires s != [] && Trimmed(s)
    ensures Lines(s) != [] && TrimEnd(Lines(s)[|Lines(s)| - 1]) != []
    decreases |s|
  {
    if '\n' !in s {
      LinesOfLine(s);
      TrimEndIsTrimmed(s);
    } else {
      SplitAtBreak(s);
      LastLineShows(s[Break(s) + 1..]);
      LinesStep(s[..Break(s)], s[Break(s) + 1..]);
    }
  }

  // ---------------------------------------------------------------------------
  // Ascending positions
  // ---------------------------------------------------------------------------

  ghost predicate Ascending(at: seq<nat>, n: nat) {
    (forall i, j :: 0 <= i < j < |at| ==> at[i] < at[j]) && forall i :: 0 <= i < |at| ==> at[i] < n
  }

  lemma OnePositionMore(at: seq<nat>, n: nat)
    requires Ascending(at, n)
    ensures Ascending(at, n + 1) && Ascending(at + [n], n + 1) && n !in at
    ensures forall k :: k in at + [n] <==> k in at || k == n
  {
  }
}
