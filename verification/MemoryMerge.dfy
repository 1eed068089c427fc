/**
 Merging extracted facts into a memory file (crates/heramind-agent/src/session.rs): parse tagged
 bullets, drop facts already present up to case and spacing, append the rest, cap the file, and
 hand it to a store with a limit of its own (crates/heramind-storage/src/system_memory.rs).
 Facts are compared after an arbitrary normalisation, except where `Norm` is named.
 */
module MemoryMerge {
  import opened Basics
  import opened MemoryText

  // ---------------------------------------------------------------------------
  // The merge
  // ---------------------------------------------------------------------------

  /** A file line as it is compared: trimmed, without its bullets. */
  function Stripped(line: string): string {
    StripAll(StripAll(Trim(line), "- "), BULLET)
  }

  /** The normalised lines of a file, blank ones left out. */
  function Norms(lines: seq<string>, norm: string -> string): set<string> {
    set i | 0 <= i < |lines| && Stripped(lines[i]) != [] :: norm(Stripped(lines[i]))
  }

  /** The facts whose normal form is not in the set, in order. */
  function Fresh(norms: set<string>, facts: seq<string>, norm: string -> string): seq<string> {
    if facts == [] then []
    else
      var rest, f := Fresh(norms, facts[..|facts| - 1], norm), facts[|facts| - 1];
      if norm(f) in norms then rest else rest + [f]
  }

  /** Append each fact as a bullet on a line of its own. */
  function Glue(text: string, facts: seq<string>): string {
    if facts == [] then text
    else AddLine(Glue(text, facts[..|facts| - 1]), "- " + facts[|facts| - 1])
  }

  /** Keep leading lines while each, with a line break, still fits the limit. */
  function Cap(kept: string, lines: seq<string>, limit: nat): string
    decreases |lines|
  {
    if lines == [] || |kept| + |lines[0]| + 1 > limit then kept
    else Cap(AddLine(kept, lines[0]), lines[1..], limit)
  }

  /** The new file contents, or None when every fact is already there. */
  function Merged(existing: string, facts: seq<string>, limit: nat, norm: string -> string): Option<string> {
    var added := Fresh(Norms(Lines(existing), norm), facts, norm);
    if added == [] then None
    else Some(CapText(Glue(TrimEnd(existing), added) + "\n", limit))
  }

  /** The text that is written for a draft. */
  function CapText(text: string, limit: nat): string {
    if |text| > limit then Cap([], Lines(text), limit) + "\n" else text
  }

  ghost predicate GoodFact(f: string) {
    f != [] && '\n' !in f && !IsWs(f[|f| - 1])
  }

  ghost predicate GoodFacts(facts: seq<string>) {
    forall i :: 0 <= i < |facts| ==> GoodFact(facts[i])
  }

  function Bullets(facts: seq<string>): (ls: seq<string>)
    ensures |ls| == |facts| && forall i :: 0 <= i < |facts| ==> ls[i] == "- " + facts[i]
  {
    seq(|facts|, i requires 0 <= i < |facts| => "- " + facts[i])
  }

  // ---------------------------------------------------------------------------
  // The text before the cap
  // ---------------------------------------------------------------------------

  lemma BulletEnds(f: string)
    requires GoodFact(f)
    ensures Trimmed("- " + f) && '\n' !in "- " + f && TrimEnd("- " + f) == "- " + f
  {
    var l := "- " + f;
    assert l[|l| - 1] == f[|f| - 1];
    TrimEndIsTrimmed(l);
  }

  /** Gluing facts to a trimmed text adds one line for each. */
  lemma {:induction false} GlueLines(base: string, facts: seq<string>)
    requires Trimmed(base) && GoodFacts(facts)
    ensures Trimmed(Glue(base, facts)) && (facts != [] ==> Glue(base, facts) != [])
    ensures Lines(Glue(base, facts)) == Lines(base) + Bullets(facts)
  {
    if facts == [] {
      assert Lines(base) + Bullets(facts) == Lines(base);
    } else {
      var front, f := facts[..|facts| - 1], facts[|facts| - 1];
      GlueLines(base, front);
      GlueLine(Glue(base, front), f);
      BulletsStep(front, f);
      assert facts == front + [f] && Glue(base, facts) == AddLine(Glue(base, front), "- " + f);
      hide *;
      assert Lines(base) + (Bullets(front) + ["- " + f]) == (Lines(base) + Bullets(front)) + ["- " + f];
    }
  }

  lemma BulletsStep(facts: seq<string>, f: string)
    ensures Bullets(facts + [f]) == Bullets(facts) + ["- " + f]
  {
  }

  lemma GlueLine(g: string, f: string)
    requires Trimmed(g) && GoodFact(f)
    ensures var all := AddLine(g, "- " + f);
            Trimmed(all) && all != [] && Lines(all) == Lines(g) + ["- " + f]
  {
    BulletEnds(f);
    LinesOfLine("- " + f);
    LinesOfLine([]);
    hide Lines;
    if g != [] {
      LinesConcat(g, "- " + f);
      var all := g + "\n" + ("- " + f);
      assert all[|all| - 1] == f[|f| - 1];
    }
  }

  /** The lines a merge would like to write. */
  function Wanted(s: string, added: seq<string>): seq<string> {
    Lines(TrimEnd(s)) + Bullets(added)
  }

  lemma DraftLines(s: string, added: seq<string>)
    requires GoodFacts(added) && added != []
    ensures Lines(Glue(TrimEnd(s), added) + "\n") == Wanted(s, added)
    ensures NoBreaks(Wanted(s, added))
  {
    TrimEndIsTrimmed(s);
    GlueLines(TrimEnd(s), added);
    var g := Glue(TrimEnd(s), added);
    LinesConcat(g, []);
    assert g + "\n" + [] == g + "\n";
    LinesHaveNoBreaks(g);
  }

  // ---------------------------------------------------------------------------
  // The cap
  // ---------------------------------------------------------------------------

  /** Line `i` fits, with a line break, after the lines before it. */
  predicate FitsAt(ls: seq<string>, i: nat, limit: nat)
    requires i < |ls|
  {
    |Join(ls[..i])| + |ls[i]| + 1 <= limit
  }

  ghost predicate AllFit(ls: seq<string>, limit: nat) {
    forall i :: 0 <= i < |ls| ==> FitsAt(ls, i, limit)
  }

  /** How many leading lines the cap keeps, given that `i` are kept already. */
  function CapCount(ls: seq<string>, limit: nat, i: nat): (n: nat)
    requires i <= |ls|
    ensures i <= n <= |ls|
    decreases |ls| - i
  {
    if i == |ls| || !FitsAt(ls, i, limit) then i else CapCount(ls, limit, i + 1)
  }

  lemma {:induction false} CapIsJoin(ls: seq<string>, limit: nat, i: nat)
    requires i <= |ls|
    ensures Cap(Join(ls[..i]), ls[i..], limit) == Join(ls[..CapCount(ls, limit, i)])
    decreases |ls| - i
  {
    if i < |ls| && FitsAt(ls, i, limit) {
      JoinStep(ls[..i], ls[i]);
      assert ls[..i + 1] == ls[..i] + [ls[i]] && ls[i..][1..] == ls[i + 1..];
      CapIsJoin(ls, limit, i + 1);
    }
  }

  lemma {:induction false} CapFits(ls: seq<string>, limit: nat, i: nat)
    requires i <= |ls| && AllFit(ls[..i], limit)
    ensures AllFit(ls[..CapCount(ls, limit, i)], limit)
    ensures CapCount(ls, limit, i) < |ls| ==> !AllFit(ls, limit)
    decreases |ls| - i
  {
    if i < |ls| && FitsAt(ls, i, limit) {
      var next := ls[..i + 1];
      forall j | 0 <= j < |next| ensures FitsAt(next, j, limit) {
        assert next[..j] == ls[..j];
        if j < i { assert ls[..i][..j] == ls[..j] && FitsAt(ls[..i], j, limit); }
      }
      CapFits(ls, limit, i + 1);
    }
  }

  lemma AllFitBound(ls: seq<string>, limit: nat)
    requires AllFit(ls, limit)
    ensures |Join(ls)| <= limit
  {
    if ls != [] {
      var m := |ls| - 1;
      JoinStep(ls[..m], ls[m]);
      assert ls == ls[..m] + [ls[m]];
      assert FitsAt(ls, m, limit);
    }
  }

  /** Lines that fit together with everything before them are never cut. */
  lemma {:induction false} CapKeepsFitting(ls: seq<string>, more: seq<string>, limit: nat, i: nat)
    requires AllFit(ls, limit) && i <= |ls|
    ensures CapCount(ls + more, limit, i) >= |ls|
    decreases |ls| - i
  {
    if i < |ls| {
      assert (ls + more)[..i] == ls[..i] && FitsAt(ls, i, limit);
      CapKeepsFitting(ls, more, limit, i + 1);
    }
  }

  lemma JoinStep(ls: seq<string>, l: string)
    ensures Join(ls + [l]) == AddLine(Join(ls), l)
  {
    assert (ls + [l])[..|ls|] == ls;
  }

  lemma {:induction false} JoinPrefix(ls: seq<string>, i: nat)
    requires i <= |ls|
    ensures |Join(ls[..i])| <= |Join(ls)|
  {
    if i < |ls| {
      var m := |ls| - 1;
      JoinPrefix(ls[..m], i);
      assert ls[..m][..i] == ls[..i];
    } else {
      assert ls[..i] == ls;
    }
  }

  /** Lines fit exactly when together they are within the limit and each is below it. */
  lemma AllFitIff(ls: seq<string>, limit: nat)
    ensures AllFit(ls, limit) <==> |Join(ls)| <= limit && forall i :: 0 <= i < |ls| ==> |ls[i]| < limit
  {
    hide Join;
    if AllFit(ls, limit) {
      AllFitBound(ls, limit);
      forall i | 0 <= i < |ls| ensures |ls[i]| < limit {
        assert FitsAt(ls, i, limit);
      }
    } else if |Join(ls)| <= limit && forall i :: 0 <= i < |ls| ==> |ls[i]| < limit {
      forall i | 0 <= i < |ls| ensures FitsAt(ls, i, limit) {
        ShortLineFits(ls, i, limit);
      }
    }
  }

  lemma ShortLineFits(ls: seq<string>, i: nat, limit: nat)
    requires i < |ls| && |Join(ls)| <= limit && |ls[i]| < limit
    ensures FitsAt(ls, i, limit)
  {
    hide Join;
    JoinStep(ls[..i], ls[i]);
    assert ls[..i + 1] == ls[..i] + [ls[i]];
    JoinPrefix(ls, i + 1);
  }

  lemma PrefixFits(ls: seq<string>, n: nat, limit: nat)
    requires n <= |ls| && AllFit(ls, limit)
    ensures AllFit(ls[..n], limit)
  {
    forall i | 0 <= i < n ensures FitsAt(ls[..n], i, limit) {
      assert FitsAt(ls, i, limit) && ls[..n][..i] == ls[..i];
    }
  }

  /** How many of the wanted lines the cap keeps: all that fit, from the front. */
  lemma CapCountIff(ls: seq<string>, n: nat, limit: nat)
    requires n <= |ls|
    ensures CapCount(ls, limit, 0) >= n <==> AllFit(ls[..n], limit)
  {
    assert ls[..0] == [];
    CapFits(ls, limit, 0);
    var c := CapCount(ls, limit, 0);
    assert ls[..n] + ls[n..] == ls;
    if AllFit(ls[..n], limit) {
      CapKeepsFitting(ls[..n], ls[n..], limit, 0);
    } else if c >= n {
      assert ls[..c][..n] == ls[..n];
      PrefixFits(ls[..c], n, limit);
    }
  }

  /** Characters of the lines, each with its line break. */
  function Weight(ls: seq<string>): nat {
    if ls == [] then 0 else |ls[0]| + 1 + Weight(ls[1..])
  }

  lemma {:induction false} WeightAppend(ls: seq<string>, l: string)
    ensures Weight(ls + [l]) == Weight(ls) + |l| + 1
  {
    if ls == [] {
      assert ls + [l] == [l] && [l][1..] == [];
    } else {
      WeightAppend(ls[1..], l);
      assert (ls + [l])[1..] == ls[1..] + [l];
    }
  }

  lemma {:induction false} JoinWeighs(ls: seq<string>)
    ensures ls != [] ==> |Join(ls)| + 1 <= Weight(ls)
  {
    if ls != [] {
      var front, l := ls[..|ls| - 1], ls[|ls| - 1];
      JoinWeighs(front);
      WeightAppend(front, l);
      assert ls == front + [l];
    }
  }

  lemma {:induction false} LinesWeigh(s: string)
    ensures Weight(Lines(s)) <= |s| + 1
    ensures forall i :: 0 <= i < |Lines(s)| ==> |Lines(s)[i]| <= |s| && (|Lines(s)[i]| == |s| ==> '\n' !in s)
    decreases |s|
  {
    if '\n' in s {
      SplitAtBreak(s);
      LinesWeigh(s[Break(s) + 1..]);
      LinesStep(s[..Break(s)], s[Break(s) + 1..]);
    } else {
      LinesOfLine(s);
      assert s != [] ==> Lines(s)[1..] == [];
    }
  }

  /** The lines of a text shorter than the limit fit. */
  lemma ShortTextFits(s: string, limit: nat)
    requires |s| < limit
    ensures AllFit(Lines(s), limit)
  {
    LinesWeigh(s);
    JoinWeighs(Lines(s));
    AllFitIff(Lines(s), limit);
  }

  // ---------------------------------------------------------------------------
  // One merge, into any file
  // ---------------------------------------------------------------------------

  lemma {:induction false} FreshIsGood(norms: set<string>, facts: seq<string>, norm: string -> string)
    requires GoodFacts(facts)
    ensures GoodFacts(Fresh(norms, facts, norm))
  {
    if facts != [] { FreshIsGood(norms, facts[..|facts| - 1], norm); }
  }

  /** The facts a merge adds. */
  function Added(s: string, facts: seq<string>, norm: string -> string): seq<string> {
    Fresh(Norms(Lines(s), norm), facts, norm)
  }

  /** The lines a merge writes. */
  function Written(s: string, added: seq<string>, limit: nat): seq<string> {
    Wanted(s, added)[..CapCount(Wanted(s, added), limit, 0)]
  }

  /** The text written: the draft if it fits, else the leading lines that fit. */
  lemma WrittenText(s: string, facts: seq<string>, limit: nat, norm: string -> string)
    requires GoodFacts(facts) && Added(s, facts, norm) != []
    ensures var added := Added(s, facts, norm);
            var draft := Glue(TrimEnd(s), added) + "\n";
            && Merged(s, facts, limit, norm)
               == Some(if |draft| <= limit then draft else Join(Written(s, added, limit)) + "\n")
            && (|draft| <= limit ==> Written(s, added, limit) == Wanted(s, added))
            && AllFit(Written(s, added, limit), limit)
  {
    var added := Added(s, facts, norm);
    FreshIsGood(Norms(Lines(s), norm), facts, norm);
    DraftLines(s, added);
    CappedText(s, added, limit);
  }

  lemma CappedText(s: string, added: seq<string>, limit: nat)
    requires GoodFacts(added) && added != []
    ensures Cap([], Wanted(s, added), limit) == Join(Written(s, added, limit))
    ensures |Glue(TrimEnd(s), added)| < limit ==> Written(s, added, limit) == Wanted(s, added)
    ensures AllFit(Written(s, added, limit), limit)
  {
    var all, g := Wanted(s, added), Glue(TrimEnd(s), added);
    assert all[..0] == [] && all[0..] == all && all[..|all|] == all;
    CapIsJoin(all, limit, 0);
    CapCountIff(all, CapCount(all, limit, 0), limit);
    TrimEndIsTrimmed(s);
    GlueLines(TrimEnd(s), added);
    if |g| < limit {
      ShortTextFits(g, limit);
      CapCountIff(all, |all|, limit);
    }
  }

  lemma ContentOfLines(ls: seq<string>)
    requires NoBreaks(ls)
    ensures Content(Join(ls) + "\n") == Shown(ls)
  {
    ContentOfJoin(ls);
    ContentPush(Join(ls), '\n');
  }

  /** After a merge into any file whatever, the file says what the lines it kept say. */
  lemma MergedContent(s: string, facts: seq<string>, limit: nat, norm: string -> string)
    requires GoodFacts(facts)
    ensures Merged(s, facts, limit, norm).None? <==> Added(s, facts, norm) == []
    ensures Merged(s, facts, limit, norm).Some? ==>
              Content(Merged(s, facts, limit, norm).value) == Shown(Written(s, Added(s, facts, norm), limit))
  {
    var added := Added(s, facts, norm);
    if added != [] {
      WrittenText(s, facts, limit, norm);
      FreshIsGood(Norms(Lines(s), norm), facts, norm);
      DraftLines(s, added);
      ContentOfLines(Written(s, added, limit));
    }
  }

  /** The lines of a file, white space at its end aside, all fit the limit. */
  ghost predicate Roomy(s: string, limit: nat) {
    AllFit(Lines(TrimEnd(s)), limit)
  }

  /**
   Into a file whose lines fit, a merge appends: the file says what it said before, then the first
   `n` fresh facts, all of them exactly when the wanted lines fit.
   */
  lemma MergeAppends(s: string, facts: seq<string>, limit: nat, norm: string -> string) returns (n: nat)
    requires GoodFacts(facts) && Roomy(s, limit) && Merged(s, facts, limit, norm).Some?
    ensures var added := Added(s, facts, norm);
            && n <= |added| && (n == |added| <==> AllFit(Wanted(s, added), limit))
            && Content(Merged(s, facts, limit, norm).value) == Content(s) + Bullets(added[..n])
  {
    hide *;
    var added, ls := Added(s, facts, norm), Lines(TrimEnd(s));
    AddedIsGood(s, facts, norm);
    MergedContent(s, facts, limit, norm);
    n := WrittenSplits(s, added, limit);
    ShownPrefix(added, n);
    ContentTrimmed(s);
    ShownAppend(ls, Bullets(added[..n]));
  }

  lemma AddedIsGood(s: string, facts: seq<string>, norm: string -> string)
    requires GoodFacts(facts)
    ensures GoodFacts(Added(s, facts, norm))
  {
    FreshIsGood(Norms(Lines(s), norm), facts, norm);
  }

  lemma ShownPrefix(facts: seq<string>, n: nat)
    requires n <= |facts| && GoodFacts(facts)
    ensures Shown(Bullets(facts[..n])) == Bullets(facts[..n])
  {
    ShownBullets(facts[..n]);
  }

  lemma ContentTrimmed(s: string)
    ensures Content(s) == Shown(Lines(TrimEnd(s)))
  {
    ContentTrimEnd(s);
  }

  lemma WrittenSplits(s: string, added: seq<string>, limit: nat) returns (n: nat)
    requires Roomy(s, limit)
    ensures n <= |added| && (n == |added| <==> AllFit(Wanted(s, added), limit))
    ensures Written(s, added, limit) == Lines(TrimEnd(s)) + Bullets(added[..n])
  {
    var ls, all := Lines(TrimEnd(s)), Wanted(s, added);
    assert all[..|ls|] == ls && all[..|all|] == all;
    CapCountIff(all, |ls|, limit);
    CapCountIff(all, |all|, limit);
    hide Lines, CapCount, AllFit, TrimEnd;
    n := CapCount(all, limit, 0) - |ls|;
    BulletPrefix(ls, added, n);
  }

  lemma BulletPrefix(ls: seq<string>, facts: seq<string>, n: nat)
    requires n <= |facts|
    ensures (ls + Bullets(facts))[..|ls| + n] == ls + Bullets(facts[..n])
  {
  }

  lemma {:induction false} ShownBullets(facts: seq<string>)
    requires GoodFacts(facts)
    ensures Shown(Bullets(facts)) == Bullets(facts)
  {
    if facts != [] {
      var front, f := facts[..|facts| - 1], facts[|facts| - 1];
      ShownBullets(front);
      assert Bullets(facts) == Bullets(front) + ["- " + f];
      ShownAppend(Bullets(front), ["- " + f]);
      BulletEnds(f);
      ShownOne("- " + f);
    }
  }

  /** A merge keeps everything the file said exactly when the file's own lines fit the limit. */
  lemma NothingLostIff(s: string, facts: seq<string>, limit: nat, norm: string -> string)
    requires GoodFacts(facts) && Merged(s, facts, limit, norm).Some?
    ensures Content(s) <= Content(Merged(s, facts, limit, norm).value) <==> Roomy(s, limit)
  {
    if Roomy(s, limit) {
      var n := MergeAppends(s, facts, limit, norm);
    } else {
      LinesAreLost(s, facts, limit, norm);
    }
  }

  lemma LinesAreLost(s: string, facts: seq<string>, limit: nat, norm: string -> string)
    requires GoodFacts(facts) && Merged(s, facts, limit, norm).Some? && !Roomy(s, limit)
    ensures |Content(Merged(s, facts, limit, norm).value)| < |Content(s)|
  {
    hide *;
    MergedContent(s, facts, limit, norm);
    var n := WrittenCut(s, Added(s, facts, norm), limit);
    ContentTrimmed(s);
    CutShowsLess(Lines(TrimEnd(s)), n);
  }

  lemma WrittenCut(s: string, added: seq<string>, limit: nat) returns (n: nat)
    requires !Roomy(s, limit)
    ensures var ls := Lines(TrimEnd(s));
            n < |ls| && Written(s, added, limit) == ls[..n] && ShownLine(ls[|ls| - 1]) != []
  {
    var ls, all := Lines(TrimEnd(s)), Wanted(s, added);
    assert all[..|ls|] == ls;
    CapCountIff(all, |ls|, limit);
    TrimEndIsTrimmed(s);
    LastLineShows(TrimEnd(s));
    hide Lines, CapCount, AllFit, TrimEnd;
    n := CapCount(all, limit, 0);
  }

  lemma CutShowsLess(ls: seq<string>, n: nat)
    requires n < |ls| && ShownLine(ls[|ls| - 1]) != []
    ensures |Shown(ls[..n])| < |Shown(ls)|
  {
    hide ShownLine, Shown;
    var m := |ls| - 1;
    assert ls == ls[..n] + ls[n..m] + [ls[m]];
    ShownAppend(ls[..n] + ls[n..m], [ls[m]]);
    ShownAppend(ls[..n], ls[n..m]);
    ShownOne(ls[m]);
  }

  // ---------------------------------------------------------------------------
  // Whatever a merge writes is roomy again
  // ---------------------------------------------------------------------------

  lemma {:induction false} JoinOfOneLine(ls: seq<string>) returns (j: nat)
    requires Join(ls) != [] && '\n' !in Join(ls)
    ensures j < |ls| && ls[j] == Join(ls)
  {
    var m := |ls| - 1;
    j := m;
  }

  /** Joining lines that fit gives a text whose lines fit, even at the limit itself. */
  lemma JoinedLinesFit(ls: seq<string>, limit: nat)
    requires AllFit(ls, limit)
    ensures Roomy(Join(ls) + "\n", limit)
  {
    var k := Join(ls);
    AllFitBound(ls, limit);
    TrimEndPush(k, '\n');
    TrimEndIsTrimmed(k);
    var u := TrimEnd(k);
    if |u| < limit {
      ShortTextFits(u, limit);
    } else if u != [] {
      WholeTextFits(ls, k, limit);
    }
  }

  lemma WholeTextFits(ls: seq<string>, k: string, limit: nat)
    requires AllFit(ls, limit) && k == Join(ls) && |TrimEnd(k)| == limit && k != [] && |k| == limit
    ensures AllFit(Lines(TrimEnd(k)), limit)
  {
    assert TrimEnd(k) == k by { TrimEndKeeps(k); }
    LinesWeigh(k);
    JoinWeighs(Lines(k));
    if '\n' !in k {
      var j := JoinOfOneLine(ls);
      assert FitsAt(ls, j, limit);
    }
    AllFitIff(Lines(k), limit);
  }

  lemma {:induction false} TrimEndKeeps(s: string)
    ensures TrimEnd(s) <= s
  {
    if s != [] && IsWs(s[|s| - 1]) {
      TrimEndKeeps(s[..|s| - 1]);
    }
  }

  lemma MergedIsRoomy(s: string, facts: seq<string>, limit: nat, norm: string -> string)
    requires GoodFacts(facts) && Merged(s, facts, limit, norm).Some?
    ensures Roomy(Merged(s, facts, limit, norm).value, limit)
  {
    MergedContent(s, facts, limit, norm);
    WrittenText(s, facts, limit, norm);
    var g := Glue(TrimEnd(s), Added(s, facts, norm));
    if |g| + 1 <= limit {
      TrimEndPush(g, '\n');
      TrimEndKeeps(g);
      ShortTextFits(TrimEnd(g), limit);
    } else {
      JoinedLinesFit(Written(s, Added(s, facts, norm), limit), limit);
    }
  }

  // ---------------------------------------------------------------------------
  // Size, and the limit of the store
  // ---------------------------------------------------------------------------

  lemma {:induction false} CapBound(kept: string, lines: seq<string>, limit: nat)
    requires |kept| <= limit
    ensures |Cap(kept, lines, limit)| <= limit
    decreases |lines|
  {
    if lines != [] && |kept| + |lines[0]| + 1 <= limit {
      CapBound(AddLine(kept, lines[0]), lines[1..], limit);
    }
  }

  /** Whatever the file and the facts, a merge writes at most one character more than its limit. */
  lemma MergedWithinLimit(s: string, facts: seq<string>, limit: nat, norm: string -> string)
    requires Merged(s, facts, limit, norm).Some?
    ensures |Merged(s, facts, limit, norm).value| <= limit + 1
  {
    CapBound([], Lines(Glue(TrimEnd(s), Added(s, facts, norm)) + "\n"), limit);
  }

  /**
   A store that refuses texts over its own limit refuses a merge exactly when the draft is within the
   merge's limit and over the store's, or the lines that fit the merge's limit fill the store's.
   */
  lemma RefusedIff(s: string, facts: seq<string>, limit: nat, store: nat, norm: string -> string)
    requires GoodFacts(facts) && Added(s, facts, norm) != []
    ensures Merged(s, facts, limit, norm).Some?
    ensures var added := Added(s, facts, norm);
            var draft := |Glue(TrimEnd(s), added)| + 1;
            |Merged(s, facts, limit, norm).value| > store <==>
            if draft <= limit then draft > store else |Join(Written(s, added, limit))| >= store
  {
    WrittenText(s, facts, limit, norm);
  }

  /** Two facts that together with their bullets fill the limit. */
  function FillingFacts(limit: nat): seq<string>
    requires limit >= 7
  {
    ["x", seq(limit - 6, _ => 'y')]
  }

  lemma FillingIsRefused(limit: nat, norm: string -> string)
    requires limit >= 7
    ensures Merged([], FillingFacts(limit), limit, norm).Some?
    ensures |Merged([], FillingFacts(limit), limit, norm).value| == limit + 1
  {
    var facts := FillingFacts(limit);
    AllFresh(facts, norm);
    WrittenText([], facts, limit, norm);
    FillingLines(limit);
    var all := Wanted([], facts);
    assert all[..|all|] == all;
    hide *;
    AllFitIff(all, limit);
    CapCountIff(all, |all|, limit);
  }

  /** Nothing is known to an empty file. */
  lemma {:induction false} AllFresh(facts: seq<string>, norm: string -> string)
    ensures Added([], facts, norm) == facts
  {
    if facts != [] {
      AllFresh(facts[..|facts| - 1], norm);
      assert facts == facts[..|facts| - 1] + [facts[|facts| - 1]];
    }
  }

  lemma FillingLines(limit: nat)
    requires limit >= 7
    ensures var all := Wanted([], FillingFacts(limit));
            |Join(all)| == limit == |Glue([], FillingFacts(limit))| && forall i :: 0 <= i < |all| ==> |all[i]| < limit
  {
    var facts := FillingFacts(limit);
    var x, y := "- " + facts[0], "- " + facts[1];
    assert facts[..1] == [facts[0]] && facts[..1][..0] == [];
    assert Glue([], facts[..1]) == x;
    assert Wanted([], facts) == [x] + [y] && [x] == [] + [x];
    JoinStep([], x);
    JoinStep([x], y);
  }

  /** So the store never refuses a merge exactly when its limit is above the merge's. */
  lemma NeverRefusedIff(limit: nat, store: nat, norm: string -> string)
    requires limit >= 7
    ensures (forall s, facts {:trigger Merged(s, facts, limit, norm)} :: Merged(s, facts, limit, norm).Some? ==>
               |Merged(s, facts, limit, norm).value| <= store)
       <==> store > limit
  {
    FillingIsRefused(limit, norm);
    forall s, facts | Merged(s, facts, limit, norm).Some?
      ensures |Merged(s, facts, limit, norm).value| <= limit + 1
    {
      MergedWithinLimit(s, facts, limit, norm);
    }
  }

  // ---------------------------------------------------------------------------
  // Runs of merges
  // ---------------------------------------------------------------------------

  /** One extraction's facts for a file, and whether the disk takes the write. */
  datatype Batch = Batch(facts: seq<string>, written: bool)

  function AfterMerge(s: string, b: Batch, limit: nat, store: nat, norm: string -> string): string {
    match Merged(s, b.facts, limit, norm)
    case None => s
    case Some(t) => if |t| <= store && b.written then t else s
  }

  /** The file after a run of extractions, from the file `s`. */
  function FileAfter(s: string, batches: seq<Batch>, limit: nat, store: nat, norm: string -> string): string {
    if batches == [] then s
    else
      var m := |batches| - 1;
      AfterMerge(FileAfter(s, batches[..m], limit, store, norm), batches[m], limit, store, norm)
  }

  ghost predicate GoodBatches(batches: seq<Batch>) {
    forall i :: 0 <= i < |batches| ==> GoodFacts(batches[i].facts)
  }

  /** From any file and with any facts, a file that changed is within the store's limit and the merge's plus one. */
  lemma {:induction false} FileStaysWithinLimit(s: string, batches: seq<Batch>, limit: nat, store: nat, norm: string -> string)
    ensures var t := FileAfter(s, batches, limit, store, norm);
            t == s || (|t| <= store && |t| <= limit + 1)
  {
    if batches != [] {
      var m := |batches| - 1;
      var before := FileAfter(s, batches[..m], limit, store, norm);
      FileStaysWithinLimit(s, batches[..m], limit, store, norm);
      if Merged(before, batches[m].facts, limit, norm).Some? {
        MergedWithinLimit(before, batches[m].facts, limit, norm);
      }
    }
  }

  lemma StepExtends(s: string, b: Batch, limit: nat, store: nat, norm: string -> string)
    requires GoodFacts(b.facts) && Roomy(s, limit)
    ensures var t := AfterMerge(s, b, limit, store, norm); Roomy(t, limit) && Content(s) <= Content(t)
  {
    if Merged(s, b.facts, limit, norm).Some? {
      MergedIsRoomy(s, b.facts, limit, norm);
      NothingLostIff(s, b.facts, limit, norm);
    }
  }

  /** From any file whose lines fit, over any run, what the file says only grows by extension. */
  lemma {:induction false} LinesOnlyExtend(s: string, batches: seq<Batch>, k: nat, limit: nat, store: nat, norm: string -> string)
    requires GoodBatches(batches) && Roomy(s, limit) && k <= |batches|
    ensures Roomy(FileAfter(s, batches, limit, store, norm), limit)
    ensures Content(FileAfter(s, batches[..k], limit, store, norm)) <= Content(FileAfter(s, batches, limit, store, norm))
  {
    hide Roomy, Content, AfterMerge, GoodFacts;
    if batches == [] {
      assert batches[..k] == batches;
    } else {
      var m := |batches| - 1;
      LinesOnlyExtend(s, batches[..m], if k < m then k else m, limit, store, norm);
      StepExtends(FileAfter(s, batches[..m], limit, store, norm), batches[m], limit, store, norm);
      if k <= m { assert batches[..m][..k] == batches[..k]; } else { assert batches[..k] == batches; }
    }
  }

  /** The files `init` creates before the first merge. */
  const USER_FILE: string := "# User Profile\n\n> Last updated: \n\n"

  const KNOWLEDGE_FILE: string :=
    "# System Knowledge\n\n" + "## System Resources\n\n<!-- auto-generated -->\n\n"
    + "## Domain Knowledge\n\n<!-- AI-managed -->\n\n" + "## Agent Experiences\n\n<!-- auto-generated -->\n\n"

  /** Any file shorter than the limit has room, and so do the files a run starts from. */
  lemma ShortFileIsRoomy(s: string, limit: nat)
    requires |s| < limit
    ensures Roomy(s, limit)
  {
    TrimEndKeeps(s);
    ShortTextFits(TrimEnd(s), limit);
  }

  lemma InitialFilesAreRoomy()
    ensures Roomy(USER_FILE, 2000) && Roomy(KNOWLEDGE_FILE, 3000)
  {
    ShortFileIsRoomy(USER_FILE, 2000);
    ShortFileIsRoomy(KNOWLEDGE_FILE, 3000);
  }

  // ---------------------------------------------------------------------------
  // Repeating a batch
  // ---------------------------------------------------------------------------

  predicate HasBullet(f: string) {
    "- " <= f || BULLET <= f
  }

  lemma StripNothing(s: string, prefix: string)
    requires prefix != []
    ensures StripAll(s, prefix) == s <==> !(prefix <= s)
  {
  }

  lemma StripBoth(f: string)
    ensures StripAll(StripAll(f, "- "), BULLET) == f <==> !HasBullet(f)
  {
    StripNothing(f, "- ");
    StripNothing(f, BULLET);
  }

  lemma StripOnce(f: string)
    ensures StripAll("- " + f, "- ") == StripAll(f, "- ")
  {
    var l := "- " + f;
    assert l[2..] == f && "- " <= l;
  }

  lemma StrippedBullet(f: string)
    requires GoodFact(f)
    ensures Stripped("- " + f) == StripAll(StripAll(f, "- "), BULLET)
    ensures Stripped("- " + f) == f <==> !HasBullet(f)
  {
    var l := "- " + f;
    BulletEnds(f);
    assert Trim(l) == l;
    StripOnce(f);
    StripBoth(f);
  }

  lemma {:induction false} FreshEmpty(norms: set<string>, facts: seq<string>, norm: string -> string)
    requires forall i :: 0 <= i < |facts| ==> norm(facts[i]) in norms
    ensures Fresh(norms, facts, norm) == []
  {
    if facts != [] { FreshEmpty(norms, facts[..|facts| - 1], norm); }
  }

  /** Every fact is known already or among the fresh ones. */
  lemma {:induction false} KnownOrFresh(norms: set<string>, facts: seq<string>, norm: string -> string, i: nat)
    requires i < |facts| && norm(facts[i]) !in norms
    ensures facts[i] in Fresh(norms, facts, norm)
  {
    if i < |facts| - 1 { KnownOrFresh(norms, facts[..|facts| - 1], norm, i); }
  }

  lemma LineIsNormed(ls: seq<string>, k: nat, norm: string -> string)
    requires k < |ls| && Stripped(ls[k]) != []
    ensures norm(Stripped(ls[k])) in Norms(ls, norm)
  {
  }

  lemma NormsAppend(a: seq<string>, b: seq<string>, norm: string -> string)
    ensures Norms(a + b, norm) == Norms(a, norm) + Norms(b, norm)
  {
    var all := a + b;
    forall n | n in Norms(a, norm) ensures n in Norms(all, norm) {
      var k :| 0 <= k < |a| && Stripped(a[k]) != [] && norm(Stripped(a[k])) == n;
      assert all[k] == a[k];
    }
    forall n | n in Norms(b, norm) ensures n in Norms(all, norm) {
      var k :| 0 <= k < |b| && Stripped(b[k]) != [] && norm(Stripped(b[k])) == n;
      assert all[|a| + k] == b[k];
    }
    forall n | n in Norms(all, norm) ensures n in Norms(a, norm) + Norms(b, norm) {
      var k :| 0 <= k < |all| && Stripped(all[k]) != [] && norm(Stripped(all[k])) == n;
      if k < |a| { assert all[k] == a[k]; } else { assert all[k] == b[k - |a|]; }
    }
  }

  lemma {:induction false} TrimStartPush(s: string, c: char)
    requires IsWs(c)
    ensures TrimStart(s + [c]) == if TrimStart(s) == [] then [] else TrimStart(s) + [c]
  {
    if s == [] {
      assert s + [c] == [c] && [c][1..] == [];
    } else if IsWs(s[0]) {
      TrimStartPush(s[1..], c);
      assert (s + [c])[1..] == s[1..] + [c];
    }
  }

  /** White space at the end of a line does not matter to the comparison. */
  lemma {:induction false} StrippedTrimEnd(l: string)
    ensures Stripped(TrimEnd(l)) == Stripped(l)
  {
    if l != [] && IsWs(l[|l| - 1]) {
      var front, c := l[..|l| - 1], l[|l| - 1];
      StrippedTrimEnd(front);
      assert l == front + [c];
      TrimStartPush(front, c);
      if TrimStart(front) != [] { TrimEndPush(TrimStart(front), c); }
    }
  }

  lemma NormsOfOne(l: string, norm: string -> string)
    ensures Norms([l], norm) == if Stripped(l) == [] then {} else {norm(Stripped(l))}
  {
    assert [l][0] == l;
  }

  /** What is compared depends only on what the file says. */
  lemma {:induction false} NormsOfShown(ls: seq<string>, norm: string -> string)
    ensures Norms(Shown(ls), norm) == Norms(ls, norm)
  {
    if ls != [] {
      var l, rest := ls[0], ls[1..];
      NormsOfShown(rest, norm);
      assert ls == [l] + rest;
      NormsAppend([l], rest, norm);
      ShownAppend([l], rest);
      ShownOne(l);
      NormsAppend(Shown([l]), Shown(rest), norm);
      StrippedTrimEnd(l);
      NormsOfOne(l, norm);
      NormsOfOne(TrimEnd(l), norm);
    }
  }

  /** After a merge all of whose lines fitted, the file knows its old lines and the new ones. */
  lemma NormsAfter(s: string, facts: seq<string>, limit: nat, norm: string -> string)
    requires GoodFacts(facts) && Merged(s, facts, limit, norm).Some?
    requires AllFit(Wanted(s, Added(s, facts, norm)), limit)
    ensures Norms(Lines(Merged(s, facts, limit, norm).value), norm)
         == Norms(Lines(s), norm) + Norms(Bullets(Added(s, facts, norm)), norm)
  {
    hide *;
    var added, t := Added(s, facts, norm), Merged(s, facts, limit, norm).value;
    MergedContent(s, facts, limit, norm);
    WrittenWhole(s, added, limit);
    NormsOfContent(t, norm);
    NormsOfShown(Wanted(s, added), norm);
    NormsOfWanted(s, added, norm);
  }

  lemma WrittenWhole(s: string, added: seq<string>, limit: nat)
    requires AllFit(Wanted(s, added), limit)
    ensures Written(s, added, limit) == Wanted(s, added)
  {
    var all := Wanted(s, added);
    assert all[..|all|] == all;
    CapCountIff(all, |all|, limit);
  }

  lemma NormsOfContent(s: string, norm: string -> string)
    ensures Norms(Content(s), norm) == Norms(Lines(s), norm)
  {
    NormsOfShown(Lines(s), norm);
  }

  lemma NormsOfWanted(s: string, added: seq<string>, norm: string -> string)
    ensures Norms(Wanted(s, added), norm) == Norms(Lines(s), norm) + Norms(Bullets(added), norm)
  {
    hide Lines, Norms, Shown, TrimEnd;
    NormsAppend(Lines(TrimEnd(s)), Bullets(added), norm);
    ContentTrimEnd(s);
    NormsOfContent(TrimEnd(s), norm);
    NormsOfContent(s, norm);
  }

  lemma FactIsKnown(added: seq<string>, j: nat, norm: string -> string)
    requires j < |added| && GoodFact(added[j]) && !HasBullet(added[j])
    ensures norm(added[j]) in Norms(Bullets(added), norm)
  {
    StrippedBullet(added[j]);
    LineIsNormed(Bullets(added), j, norm);
  }

  /** Once every wanted line is in the file, the batch has nothing fresh, if no fact starts with a bullet. */
  lemma NothingFreshAfter(s: string, facts: seq<string>, limit: nat, norm: string -> string)
    requires GoodFacts(facts) && Merged(s, facts, limit, norm).Some?
    requires forall i :: 0 <= i < |facts| ==> !HasBullet(facts[i])
    requires AllFit(Wanted(s, Added(s, facts, norm)), limit)
    ensures Merged(Merged(s, facts, limit, norm).value, facts, limit, norm) == None
  {
    var t, added := Merged(s, facts, limit, norm).value, Added(s, facts, norm);
    NormsAfter(s, facts, limit, norm);
    forall i | 0 <= i < |facts| ensures norm(facts[i]) in Norms(Lines(t), norm) {
      if norm(facts[i]) !in Norms(Lines(s), norm) {
        KnownOrFresh(Norms(Lines(s), norm), facts, norm, i);
        var j :| 0 <= j < |added| && added[j] == facts[i];
        FactIsKnown(added, j, norm);
      }
    }
    FreshEmpty(Norms(Lines(t), norm), facts, norm);
  }

  /**
   Repeating a batch whose lines all fitted, and none of whose facts starts with a bullet, changes
   nothing: whatever the file, and whether the store took the first write or refused it.
   */
  lemma RepeatChangesNothing(s: string, facts: seq<string>, again: bool, limit: nat, store: nat, norm: string -> string)
    requires GoodFacts(facts) && AllFit(Wanted(s, Added(s, facts, norm)), limit)
    requires forall i :: 0 <= i < |facts| ==> !HasBullet(facts[i])
    ensures var t := AfterMerge(s, Batch(facts, true), limit, store, norm);
            AfterMerge(t, Batch(facts, again), limit, store, norm) == t
  {
    if Merged(s, facts, limit, norm).Some? {
      NothingFreshAfter(s, facts, limit, norm);
    }
  }

  // ---------------------------------------------------------------------------
  // Duplicates
  // ---------------------------------------------------------------------------

  /** From position `k` on, no line compares equal to any line before it. */
  ghost predicate DistinctFrom(ls: seq<string>, k: nat, norm: string -> string) {
    forall i, j :: 0 <= i < j < |ls| && k <= j ==> norm(Stripped(ls[i])) != norm(Stripped(ls[j]))
  }

  ghost predicate DistinctFacts(facts: seq<string>, norm: string -> string) {
    forall i, j :: 0 <= i < j < |facts| ==> norm(facts[i]) != norm(facts[j])
  }

  ghost predicate NoBullets(facts: seq<string>) {
    forall i :: 0 <= i < |facts| ==> !HasBullet(facts[i])
  }

  /** Only facts are fresh, none of them known, and they keep their bullets off. */
  lemma {:induction false} FreshFrom(norms: set<string>, facts: seq<string>, norm: string -> string)
    ensures forall f :: f in Fresh(norms, facts, norm) ==> f in facts && norm(f) !in norms
    ensures NoBullets(facts) ==> NoBullets(Fresh(norms, facts, norm))
    ensures DistinctFacts(facts, norm) ==> DistinctFacts(Fresh(norms, facts, norm), norm)
  {
    if facts != [] {
      var front := facts[..|facts| - 1];
      FreshFrom(norms, front, norm);
      var rest := Fresh(norms, front, norm);
      forall i | 0 <= i < |rest| && DistinctFacts(facts, norm) ensures norm(rest[i]) != norm(facts[|facts| - 1]) {
        assert rest[i] in front;
      }
    }
  }

  /** The facts added are exactly those the file does not know, in the order of the batch. */
  lemma {:induction false} FreshKeepsOrder(norms: set<string>, facts: seq<string>, norm: string -> string) returns (at: seq<nat>)
    ensures |at| == |Fresh(norms, facts, norm)| && Ascending(at, |facts|)
    ensures forall i :: 0 <= i < |at| ==> Fresh(norms, facts, norm)[i] == facts[at[i]]
    ensures forall k :: 0 <= k < |facts| ==> (k in at <==> norm(facts[k]) !in norms)
  {
    at := [];
    if facts != [] {
      var m := |facts| - 1;
      var before := FreshKeepsOrder(norms, facts[..m], norm);
      assert forall k :: 0 <= k < m ==> facts[..m][k] == facts[k];
      OnePositionMore(before, m);
      at := if norm(facts[m]) in norms then before else before + [m];
    }
  }

  lemma {:induction false} ShownIsClean(ls: seq<string>)
    ensures forall l :: l in Shown(ls) ==> l != [] && Trimmed(l)
  {
    if ls != [] {
      ShownIsClean(ls[1..]);
      TrimEndIsTrimmed(ls[0]);
    }
  }

  lemma {:induction false} StripAllEnds(s: string, prefix: string)
    requires s != [] && Trimmed(s) && prefix != [] && IsWs(prefix[|prefix| - 1])
    ensures StripAll(s, prefix) != [] && Trimmed(StripAll(s, prefix))
  {
    if prefix <= s {
      assert |s| == |prefix| ==> s == prefix;
      StripAllEnds(s[|prefix|..], prefix);
    }
  }

  /** A shown line always compares by something. */
  lemma StrippedShows(l: string)
    requires l != [] && Trimmed(l)
    ensures Stripped(l) != []
  {
    TrimStartShows(l);
    TrimEndIsTrimmed(TrimStart(l));
    StripAllEnds(Trim(l), "- ");
    StripAllEnds(StripAll(Trim(l), "- "), BULLET);
  }

  lemma {:induction false} TrimStartShows(s: string)
    requires s != [] && Trimmed(s)
    ensures TrimStart(s) != [] && Trimmed(TrimStart(s))
  {
    if IsWs(s[0]) { TrimStartShows(s[1..]); }
  }

  /** An added line differs from everything the file said. */
  lemma AddedDiffers(s: string, facts: seq<string>, norm: string -> string, i: nat, j: nat)
    requires GoodFacts(facts) && NoBullets(facts) && i < |Content(s)| && j < |Added(s, facts, norm)|
    ensures norm(Stripped(Content(s)[i])) != norm(Stripped("- " + Added(s, facts, norm)[j]))
  {
    var added := Added(s, facts, norm);
    FreshFrom(Norms(Lines(s), norm), facts, norm);
    FreshIsGood(Norms(Lines(s), norm), facts, norm);
    StrippedBullet(added[j]);
    assert added[j] in added;
    ShownIsClean(Lines(s));
    assert Content(s)[i] in Content(s);
    StrippedShows(Content(s)[i]);
    LineIsNormed(Content(s), i, norm);
    NormsOfShown(Lines(s), norm);
  }

  /** Appending the first `n` added facts keeps the lines distinct exactly when those facts are. */
  lemma AppendDistinctIff(s: string, facts: seq<string>, norm: string -> string, n: nat, k: nat)
    requires GoodFacts(facts) && NoBullets(facts) && n <= |Added(s, facts, norm)|
    requires k <= |Content(s)| && DistinctFrom(Content(s), k, norm)
    ensures DistinctFrom(Content(s) + Bullets(Added(s, facts, norm)[..n]), k, norm)
       <==> DistinctFacts(Added(s, facts, norm)[..n], norm)
  {
    var before, added := Content(s), Added(s, facts, norm)[..n];
    FreshIsGood(Norms(Lines(s), norm), facts, norm);
    FreshFrom(Norms(Lines(s), norm), facts, norm);
    forall j | 0 <= j < n ensures Stripped("- " + added[j]) == added[j] {
      StrippedBullet(added[j]);
    }
    forall i, j | 0 <= i < |before| && 0 <= j < n
      ensures norm(Stripped(before[i])) != norm(Stripped("- " + added[j]))
    {
      AddedDiffers(s, facts, norm, i, j);
    }
    hide *;
    JoinedDistinctIff(before, added, k, norm);
  }

  lemma JoinedDistinctIff(before: seq<string>, added: seq<string>, k: nat, norm: string -> string)
    requires k <= |before| && DistinctFrom(before, k, norm)
    requires forall j :: 0 <= j < |added| ==> Stripped("- " + added[j]) == added[j]
    requires forall i, j :: 0 <= i < |before| && 0 <= j < |added| ==>
      norm(Stripped(before[i])) != norm(Stripped("- " + added[j]))
    ensures DistinctFrom(before + Bullets(added), k, norm) <==> DistinctFacts(added, norm)
  {
    hide Stripped;
    var all, m := before + Bullets(added), |before|;
    assert forall j :: m <= j < |all| ==> all[j] == "- " + added[j - m];
    if DistinctFrom(all, k, norm) {
      forall i, j | 0 <= i < j < |added| ensures norm(added[i]) != norm(added[j]) {
        assert norm(Stripped(all[m + i])) != norm(Stripped(all[m + j]));
      }
    }
    if DistinctFacts(added, norm) {
      forall i, j | 0 <= i < j < |all| && k <= j ensures norm(Stripped(all[i])) != norm(Stripped(all[j])) {
        if j >= m && i >= m { assert norm(added[i - m]) != norm(added[j - m]); }
      }
    }
  }

  /**
   Facts are compared with the file only, not with each other: after a merge whose lines all fitted
   the new lines are free of duplicates exactly when the facts it added differ pairwise.
   */
  lemma MergeDistinctIff(s: string, facts: seq<string>, limit: nat, norm: string -> string)
    requires GoodFacts(facts) && NoBullets(facts) && Roomy(s, limit) && Merged(s, facts, limit, norm).Some?
    requires AllFit(Wanted(s, Added(s, facts, norm)), limit)
    ensures DistinctFrom(Content(Merged(s, facts, limit, norm).value), |Content(s)|, norm)
       <==> DistinctFacts(Added(s, facts, norm), norm)
  {
    var n := MergeAppends(s, facts, limit, norm);
    var added := Added(s, facts, norm);
    assert added[..n] == added;
    AppendDistinctIff(s, facts, norm, n, |Content(s)|);
  }

  /** Over any run of batches of pairwise different facts, no remembered line ever repeats an earlier line. */
  lemma {:induction false} RunStaysDistinct(s: string, batches: seq<Batch>, limit: nat, store: nat, norm: string -> string)
    requires GoodBatches(batches) && Roomy(s, limit)
    requires forall i :: 0 <= i < |batches| ==> NoBullets(batches[i].facts) && DistinctFacts(batches[i].facts, norm)
    ensures var t := FileAfter(s, batches, limit, store, norm);
            Content(s) <= Content(t) && DistinctFrom(Content(t), |Content(s)|, norm)
  {
    if batches != [] {
      var m := |batches| - 1;
      var before, facts := FileAfter(s, batches[..m], limit, store, norm), batches[m].facts;
      RunStaysDistinct(s, batches[..m], limit, store, norm);
      LinesOnlyExtend(s, batches[..m], m, limit, store, norm);
      if Merged(before, facts, limit, norm).Some? {
        var n := MergeAppends(before, facts, limit, norm);
        FreshFrom(Norms(Lines(before), norm), facts, norm);
        AppendDistinctIff(before, facts, norm, n, |Content(s)|);
      }
    }
  }

  // ---------------------------------------------------------------------------
  // The normal form, and why the bullet matters
  // ---------------------------------------------------------------------------

  function NonWs(s: string): string {
    if s == [] then []
    else NonWs(s[..|s| - 1]) + if IsWs(s[|s| - 1]) then [] else [s[|s| - 1]]
  }

  /** Lower-cased, character by character, with all white space removed. */
  function Norm(s: string, lower: char -> string): string {
    if s == [] then [] else Norm(s[..|s| - 1], lower) + NonWs(lower(s[|s| - 1]))
  }

  lemma {:induction false} NormAppend(a: string, b: string, lower: char -> string)
    ensures Norm(a + b, lower) == Norm(a, lower) + Norm(b, lower)
  {
    if b == [] {
      assert a + b == a;
    } else {
      hide NonWs;
      assert (a + b)[..|a + b| - 1] == a + b[..|b| - 1];
      NormAppend(a, b[..|b| - 1], lower);
    }
  }

  lemma NormOfOne(c: char, lower: char -> string)
    ensures Norm([c], lower) == NonWs(lower(c))
  {
    assert [c][..0] == [];
  }

  /** Spacing and case do not matter: white space may be added anywhere, and letters of the same lower case exchanged. */
  lemma NormIgnoresSpaceAndCase(a: string, c: char, d: char, b: string, lower: char -> string)
    ensures lower(c) == lower(d) ==> Norm(a + [c] + b, lower) == Norm(a + [d] + b, lower)
    ensures IsWs(c) && lower(c) == [c] ==> Norm(a + [c] + b, lower) == Norm(a + b, lower)
  {
    NormAppend(a + [c], b, lower);
    NormAppend(a + [d], b, lower);
    NormAppend(a, [c], lower);
    NormAppend(a, [d], lower);
    NormAppend(a, b, lower);
    NormOfOne(c, lower);
    NormOfOne(d, lower);
    if IsWs(c) {
      assert [c][..0] == [] && NonWs([c]) == [];
    }
    hide Norm, NonWs;
  }

  /** Nothing else is dropped: a visible lower-case letter shows. */
  lemma NormKeepsVisible(a: string, c: char, b: string, lower: char -> string)
    requires !IsWs(c) && lower(c) == [c]
    ensures Norm(a + [c] + b, lower) == Norm(a, lower) + [c] + Norm(b, lower)
  {
    NormAppend(a + [c], b, lower);
    NormAppend(a, [c], lower);
    NormOfOne(c, lower);
    assert [c][..0] == [] && NonWs([c]) == [c];
  }

  lemma {:induction false} StripShortensNorm(s: string, prefix: string, lower: char -> string)
    requires prefix != [] && Norm(prefix, lower) != []
    ensures |Norm(StripAll(s, prefix), lower)| <= |Norm(s, lower)|
    ensures prefix <= s ==> |Norm(StripAll(s, prefix), lower)| < |Norm(s, lower)|
    decreases |s|
  {
    if prefix <= s {
      assert s == prefix + s[|prefix|..];
      NormAppend(prefix, s[|prefix|..], lower);
      StripShortensNorm(s[|prefix|..], prefix, lower);
    }
  }

  lemma BulletNorms(lower: char -> string)
    requires lower('-') == "-" && lower('\U{2022}') == "\U{2022}"
    ensures Norm("- ", lower) != [] && Norm(BULLET, lower) != []
  {
    assert "- "[..1] == "-" && BULLET[..1] == "\U{2022}";
    assert "-"[..0] == [] && "\U{2022}"[..0] == [];
    assert NonWs("-") == "-" && NonWs("\U{2022}") == "\U{2022}";
  }

  /** A stored fact compares equal to itself exactly when it does not start with a bullet. */
  lemma StoredFactRecognisedIff(f: string, lower: char -> string)
    requires GoodFact(f) && lower('-') == "-" && lower('\U{2022}') == "\U{2022}"
    ensures Norm(f, lower) in Norms(["- " + f], s => Norm(s, lower)) <==> !HasBullet(f)
  {
    var norm := s => Norm(s, lower);
    StrippedBullet(f);
    BulletNorms(lower);
    StripShortensNorm(f, "- ", lower);
    StripShortensNorm(StripAll(f, "- "), BULLET, lower);
    StripNothing(f, "- ");
    if !HasBullet(f) {
      LineIsNormed(["- " + f], 0, norm);
    } else {
      assert |Norm(Stripped("- " + f), lower)| < |Norm(f, lower)|;
      forall n | n in Norms(["- " + f], norm) ensures n != Norm(f, lower) {
        var k :| 0 <= k < 1 && Stripped(["- " + f][k]) != [] && norm(Stripped(["- " + f][k])) == n;
      }
    }
  }

  lemma OneFact(norms: set<string>, f: string, norm: string -> string)
    ensures Fresh(norms, [f], norm) == if norm(f) in norms then [] else [f]
  {
    assert [f][..0] == [];
    assert Fresh(norms, [f][..0], norm) == [];
  }

  /**
   Into any file that does not know it, a fact that fits is stored; extracting it once more changes
   nothing exactly when it does not start with a bullet.
   */
  lemma RepeatIsNoOpIff(s: string, f: string, limit: nat, lower: char -> string)
    requires GoodFact(f) && lower('-') == "-" && lower('\U{2022}') == "\U{2022}"
    requires Norm(f, lower) !in Norms(Lines(s), l => Norm(l, lower)) && AllFit(Wanted(s, [f]), limit)
    ensures var norm := l => Norm(l, lower);
            && Merged(s, [f], limit, norm).Some?
            && (Merged(Merged(s, [f], limit, norm).value, [f], limit, norm) == None <==> !HasBullet(f))
  {
    RepeatOneIff(s, f, limit, l => Norm(l, lower));
    StoredFactRecognisedIff(f, lower);
  }

  /** Under any normalisation, the repetition is a no-op exactly when the stored line is recognised. */
  lemma RepeatOneIff(s: string, f: string, limit: nat, norm: string -> string)
    requires GoodFact(f) && norm(f) !in Norms(Lines(s), norm) && AllFit(Wanted(s, [f]), limit)
    ensures Merged(s, [f], limit, norm).Some?
    ensures Merged(Merged(s, [f], limit, norm).value, [f], limit, norm) == None <==> norm(f) in Norms(["- " + f], norm)
  {
    OneFact(Norms(Lines(s), norm), f, norm);
    assert Added(s, [f], norm) == [f] && Bullets([f]) == ["- " + f];
    MergedContent(s, [f], limit, norm);
    NormsAfter(s, [f], limit, norm);
    var t := Merged(s, [f], limit, norm).value;
    OneFact(Norms(Lines(t), norm), f, norm);
    hide Lines, Norms, Fresh;
  }

  // ---------------------------------------------------------------------------
  // Parsing
  // ---------------------------------------------------------------------------

  /** Drop one leading separator, if present, and the space after it. */
  function DropSeparator(f: string, sep: string): string {
    match StripPrefix(f, sep) case None => f case Some(rest) => TrimStart(rest)
  }

  /** The fact after a tag: separators ":", "fact" and "-" are dropped, each at most once, in that order. */
  function StripTag(rest: string, tag: string): Option<string> {
    match StripPrefix(rest, tag)
    case None => None
    case Some(after) =>
      var f := DropSeparator(DropSeparator(DropSeparator(Trim(after), ":"), "fact"), "-");
      if f == [] then None else Some(f)
  }

  function AfterBullet(line: string): Option<string> {
    var l := Trim(line);
    match StripPrefix(l, "- ") case Some(rest) => Some(rest) case None => StripPrefix(l, BULLET)
  }

  datatype Tagged = UserFact(fact: string) | KnowledgeFact(fact: string)

  /** One line of the model's answer; a line that yields a user fact yields no knowledge fact. */
  function ParseLine(line: string): Option<Tagged> {
    match AfterBullet(line)
    case None => None
    case Some(rest) =>
      match StripTag(rest, "[user]")
      case Some(f) => Some(UserFact(f))
      case None =>
        match StripTag(rest, "[knowledge]")
        case Some(f) => Some(KnowledgeFact(f))
        case None => None
  }

  /** A line of the answer as the prompt asks for it. */
  function TaggedLine(tag: string, f: string): string {
    "- " + (tag + (" " + f))
  }

  /**
   Every fact that is trimmed and does not open with a separator can be extracted, in either kind;
   in particular one that opens with a round bullet.
   */
  lemma AnswerYieldsFact(f: string)
    requires GoodFact(f) && !IsWs(f[0]) && !(":" <= f) && !("fact" <= f) && !("-" <= f)
    ensures ParseLine(TaggedLine("[user]", f)) == Some(UserFact(f))
    ensures ParseLine(TaggedLine("[knowledge]", f)) == Some(KnowledgeFact(f))
  {
    hide AfterBullet, StripTag;
    TagYieldsFact("[user]", f);
    TagYieldsFact("[knowledge]", f);
    NoUserTag(" " + f);
  }

  /** The separators a model may put after the tag are not part of the fact. */
  lemma SeparatorIsDropped(tag: string, sep: string, f: string)
    requires GoodFact(f) && !IsWs(f[0]) && !(":" <= f) && !("fact" <= f) && !("-" <= f)
    requires sep == ":" || sep == "fact" || sep == "-"
    ensures StripTag(tag + (sep + (" " + f)), tag) == Some(f)
  {
    var after := sep + (" " + f);
    assert (tag + after)[|tag|..] == after;
    SeparatorStays(sep, f);
    DropsThis(sep, f);
    hide DropSeparator, Trim;
    DropsOther(f, ":");
    DropsOther(f, "fact");
    DropsOther(f, "-");
    if sep != ":" { DropsOther(after, ":"); }
    if sep == "-" { DropsOther(after, "fact"); }
  }

  lemma SeparatorStays(sep: string, f: string)
    requires GoodFact(f) && sep != [] && !IsWs(sep[0])
    ensures Trim(sep + (" " + f)) == sep + (" " + f)
  {
    var after := sep + (" " + f);
    assert after[|after| - 1] == f[|f| - 1];
    TrimEndIsTrimmed(after);
  }

  lemma DropsThis(sep: string, f: string)
    requires f != [] && !IsWs(f[0])
    ensures DropSeparator(sep + (" " + f), sep) == f
  {
    assert (sep + (" " + f))[|sep|..] == " " + f && (" " + f)[1..] == f;
    assert TrimStart(" " + f) == TrimStart(f) == f;
  }

  lemma DropsOther(f: string, sep: string)
    requires !(sep <= f) || (f != [] && sep != [] && f[0] != sep[0])
    ensures DropSeparator(f, sep) == f
  {
  }

  lemma NoUserTag(after: string)
    ensures StripTag("[knowledge]" + after, "[user]") == None
  {
    hide DropSeparator, Trim;
    var rest := "[knowledge]" + after;
    assert rest[1] == 'k' && "[user]"[1] == 'u';
  }

  lemma TagYieldsFact(tag: string, f: string)
    requires GoodFact(f) && !IsWs(f[0]) && !(":" <= f) && !("fact" <= f) && !("-" <= f)
    ensures var rest := tag + (" " + f);
            AfterBullet("- " + rest) == Some(rest) && StripTag(rest, tag) == Some(f)
  {
    var rest := tag + (" " + f);
    var line := "- " + rest;
    assert line[|line| - 1] == f[|f| - 1];
    TrimEndIsTrimmed(line);
    assert Trim(line) == line && line[2..] == rest;
    var after := " " + f;
    assert rest[|tag|..] == after;
    assert after[1..] == f && TrimStart(after) == TrimStart(f) == f;
    TrimEndIsTrimmed(f);
  }

  ghost predicate EndsWith(s: string, t: string) {
    |t| <= |s| && s[|s| - |t|..] == t
  }

  lemma {:induction false} TrimStartEnds(s: string)
    ensures EndsWith(s, TrimStart(s))
  {
    if s != [] && IsWs(s[0]) {
      TrimStartEnds(s[1..]);
    }
  }

  lemma EndsTrans(s: string, t: string, u: string)
    requires EndsWith(s, t) && EndsWith(t, u)
    ensures EndsWith(s, u)
  {
  }

  lemma DropSeparatorEnds(f: string, sep: string)
    ensures EndsWith(f, DropSeparator(f, sep))
  {
    if sep <= f {
      TrimStartEnds(f[|sep|..]);
      EndsTrans(f, f[|sep|..], TrimStart(f[|sep|..]));
    }
  }

  /** A fact is what remains at the end of a tagged line. */
  lemma TagIsStripped(rest: string, tag: string)
    requires Trimmed(rest) && StripTag(rest, tag).Some?
    ensures tag <= rest && EndsWith(rest, StripTag(rest, tag).value)
  {
    var after := rest[|tag|..];
    TrimStartEnds(after);
    var f := TrimStart(after);
    EndsTrans(rest, after, f);
    TrimEndIsTrimmed(f);
    assert f == [] || Trimmed(f);
    var g := DropSeparator(f, ":");
    DropSeparatorEnds(f, ":");
    DropSeparatorEnds(g, "fact");
    DropSeparatorEnds(DropSeparator(g, "fact"), "-");
    EndsTrans(rest, f, g);
    EndsTrans(rest, g, DropSeparator(g, "fact"));
    EndsTrans(rest, DropSeparator(g, "fact"), DropSeparator(DropSeparator(g, "fact"), "-"));
  }

  /** Only bulleted lines with a tag yield facts, of the tag's kind, and the fact ends the line. */
  lemma FactsComeFromTaggedLines(line: string)
    requires ParseLine(line).Some?
    ensures var l, tag := Trim(line), if ParseLine(line).value.UserFact? then "[user]" else "[knowledge]";
            && ("- " + tag <= l || BULLET + tag <= l)
            && EndsWith(l, ParseLine(line).value.fact)
  {
    hide StripTag, AfterBullet, Trim;
    AfterBulletIs(line);
    var l, rest := Trim(line), AfterBullet(line).value;
    var tag := if ParseLine(line).value.UserFact? then "[user]" else "[knowledge]";
    TagIsStripped(rest, tag);
    BulletThenTag(l, rest, tag);
    EndsTrans(l, rest, StripTag(rest, tag).value);
  }

  lemma AfterBulletIs(line: string)
    requires AfterBullet(line).Some?
    ensures var l, rest := Trim(line), AfterBullet(line).value;
            |l| >= 2 && rest == l[2..] && ("- " <= l || BULLET <= l) && Trimmed(rest)
  {
    TrimEndIsTrimmed(TrimStart(line));
  }

  lemma BulletThenTag(l: string, rest: string, tag: string)
    requires tag <= rest && |l| >= 2 && rest == l[2..] && ("- " <= l || BULLET <= l)
    ensures ("- " + tag <= l || BULLET + tag <= l) && EndsWith(l, rest)
  {
    assert l == l[..2] + rest && rest == tag + rest[|tag|..];
    assert l == (l[..2] + tag) + rest[|tag|..];
  }

  ghost predicate NoBreak(s: string) {
    '\n' !in s
  }

  /** No line break, and nothing to trim at the end. */
  ghost predicate Clean(s: string) {
    NoBreak(s) && Trimmed(s)
  }

  lemma {:induction false} TrimEndIsClean(s: string)
    requires NoBreak(s)
    ensures Clean(TrimEnd(s))
  {
    if s != [] && IsWs(s[|s| - 1]) { TrimEndIsClean(s[..|s| - 1]); }
  }

  lemma {:induction false} TrimStartKeeps(s: string)
    ensures NoBreak(s) ==> NoBreak(TrimStart(s))
    ensures Clean(s) ==> Clean(TrimStart(s))
  {
    if s != [] && IsWs(s[0]) { TrimStartKeeps(s[1..]); }
  }

  lemma DropKeepsClean(f: string, sep: string)
    requires Clean(f)
    ensures Clean(DropSeparator(f, sep))
  {
    if sep <= f { TrimStartKeeps(f[|sep|..]); }
  }

  lemma TaggedFactIsGood(rest: string, tag: string)
    requires NoBreak(rest)
    ensures StripTag(rest, tag).Some? ==> GoodFact(StripTag(rest, tag).value)
  {
    if tag <= rest {
      var after := rest[|tag|..];
      TrimStartKeeps(after);
      TrimEndIsClean(TrimStart(after));
      var f := Trim(after);
      DropKeepsClean(f, ":");
      DropKeepsClean(DropSeparator(f, ":"), "fact");
      DropKeepsClean(DropSeparator(DropSeparator(f, ":"), "fact"), "-");
    }
  }

  /** Whatever the model answers, every parsed fact is a good one, as the merge expects. */
  lemma ParsedFactsAreGood(text: string, i: nat)
    requires i < |Lines(text)|
    ensures ParseLine(Lines(text)[i]).Some? ==> GoodFact(ParseLine(Lines(text)[i]).value.fact)
  {
    LinesHaveNoBreaks(text);
    var line := Lines(text)[i];
    TrimStartKeeps(line);
    TrimEndIsClean(TrimStart(line));
    if AfterBullet(line).Some? {
      TaggedFactIsGood(AfterBullet(line).value, "[user]");
      TaggedFactIsGood(AfterBullet(line).value, "[knowledge]");
    }
  }

  // ---------------------------------------------------------------------------
  // The implementation
  // ---------------------------------------------------------------------------

  /** The parsing loop: user facts and knowledge facts, in the order of the answer. */
  method ParseAnswer(text: string) returns (user: seq<string>, knowledge: seq<string>)
    ensures GoodFacts(user) && GoodFacts(knowledge)
    ensures user == FactsOf(Lines(text), true) && knowledge == FactsOf(Lines(text), false)
  {
    hide ParseLine, Lines, GoodFact;
    user, knowledge := [], [];
    var lines := Lines(text);
    for i := 0 to |lines|
      invariant GoodFacts(user) && GoodFacts(knowledge)
      invariant user == FactsOf(lines[..i], true) && knowledge == FactsOf(lines[..i], false)
    {
      ParsedFactsAreGood(text, i);
      assert lines[..i + 1][..i] == lines[..i];
      match ParseLine(lines[i]) {
        case Some(UserFact(f)) => user := user + [f];
        case Some(KnowledgeFact(f)) => knowledge := knowledge + [f];
        case None =>
      }
    }
    assert lines[..|lines|] == lines;
  }

  /** The fact of one kind that a line yields, if any. */
  function FactOf(line: string, user: bool): Option<string> {
    match ParseLine(line)
    case Some(UserFact(f)) => if user then Some(f) else None
    case Some(KnowledgeFact(f)) => if user then None else Some(f)
    case None => None
  }

  function FactsOf(lines: seq<string>, user: bool): seq<string> {
    if lines == [] then []
    else
      var rest := FactsOf(lines[..|lines| - 1], user);
      match FactOf(lines[|lines| - 1], user) case Some(f) => rest + [f] case None => rest
  }

  /** The facts of a kind are those of the lines that yield one, in order. */
  lemma {:induction false} FactsKeepOrder(lines: seq<string>, user: bool) returns (at: seq<nat>)
    ensures |at| == |FactsOf(lines, user)| && Ascending(at, |lines|)
    ensures forall i :: 0 <= i < |at| ==> FactOf(lines[at[i]], user) == Some(FactsOf(lines, user)[i])
    ensures forall k :: 0 <= k < |lines| ==> (k in at <==> FactOf(lines[k], user).Some?)
  {
    hide FactOf;
    at := [];
    if lines != [] {
      var m := |lines| - 1;
      var before := FactsKeepOrder(lines[..m], user);
      assert forall k :: 0 <= k < m ==> lines[..m][k] == lines[k];
      OnePositionMore(before, m);
      var f, facts := FactOf(lines[m], user), FactsOf(lines[..m], user);
      assert FactsOf(lines, user) == if f.Some? then facts + [f.value] else facts;
      hide FactsOf;
      if f.Some? {
        at := before + [m];
        assert forall i :: 0 <= i < m && i < |before| ==> at[i] == before[i];
      } else {
        at := before;
      }
    }
  }

  /** The cap loop: copy lines while they fit. */
  method CapLoop(lines: seq<string>, limit: nat) returns (kept: string)
    ensures kept == Cap([], lines, limit)
  {
    kept := [];
    var j := 0;
    assert lines[0..] == lines;
    while j < |lines|
      invariant j <= |lines| && Cap(kept, lines[j..], limit) == Cap([], lines, limit)
    {
      if |kept| + |lines[j]| + 1 > limit {
        break;
      }
      ghost var before := kept;
      if kept != [] {
        kept := kept + "\n";
      }
      kept := kept + lines[j];
      assert kept == AddLine(before, lines[j]);
      assert lines[j..][1..] == lines[j + 1..];
      j := j + 1;
    }
  }

  /** The `merged` closure: filter, append, cap. */
  method MergeFacts(existing: string, facts: seq<string>, limit: nat, norm: string -> string) returns (r: Option<string>)
    ensures r == Merged(existing, facts, limit, norm)
  {
    var norms := Norms(Lines(existing), norm);
    var added: seq<string> := [];
    for i := 0 to |facts|
      invariant added == Fresh(norms, facts[..i], norm)
    {
      assert facts[..i + 1][..i] == facts[..i];
      if norm(facts[i]) !in norms {
        added := added + [facts[i]];
      }
    }
    assert facts[..|facts|] == facts;
    if added == [] {
      return None;
    }
    var base := TrimEnd(existing);
    var text := base;
    for i := 0 to |added|
      invariant text == Glue(base, added[..i])
    {
      assert added[..i + 1][..i] == added[..i];
      if text != [] {
        text := text + "\n";
      }
      text := text + "- " + added[i];
    }
    assert added[..|added|] == added;
    text := text + "\n";
    if |text| > limit {
      var kept := CapLoop(Lines(text), limit);
      text := kept + "\n";
    }
    r := Some(text);
  }
}
