/** The regular expressions the bot uses to pull identifiers out of links, written as
    scanners. Every one of them is a literal marker (possibly with alternatives) followed by
    a captured `([a-zA-Z0-9_-]+)`, except Terabox's `/s/1?([a-zA-Z0-9_-]+)`; `re.search`
    reports the capture of the leftmost position where the pattern matches. */
module Patterns {
  import opened Text

  /** The character class `[a-zA-Z0-9_-]`. */
  predicate IsIdChar(c: char) {
    ('a' <= c <= 'z') || ('A' <= c <= 'Z') || ('0' <= c <= '9') || c == '_' || c == '-'
  }

  /** A string `([a-zA-Z0-9_-]+)` can capture. */
  predicate IsIdRun(s: string) {
    |s| > 0 && forall k :: 0 <= k < |s| ==> IsIdChar(s[k])
  }

  /** Length of the greedy `[a-zA-Z0-9_-]*` run that starts at `i`. */
  function RunLength(s: string, i: nat): (n: nat)
    requires i <= |s|
    ensures i + n <= |s|
    ensures forall k :: i <= k < i + n ==> IsIdChar(s[k])
    ensures i + n == |s| || !IsIdChar(s[i + n])
    decreases |s| - i
  {
    if i < |s| && IsIdChar(s[i]) then 1 + RunLength(s, i + 1) else 0
  }

  /** `Literal(["?surl=", "&surl="])` stands for `[?&]surl=(...)`; `ShareLink` for `/s/1?(...)`. */
  datatype Pattern = Literal(alternatives: seq<string>) | ShareLink

  /** The first alternative that occurs at `i` and is followed by an identifier character
      gives the start of the capture. */
  function LiteralMatch(s: string, i: nat, alts: seq<string>): (r: Option<nat>)
    requires i <= |s|
    ensures r.Some? ==> i <= r.value < |s| && IsIdChar(s[r.value])
    ensures r.Some? <==> exists a :: a in alts && IsPrefix(a, s[i..]) && i + |a| < |s| && IsIdChar(s[i + |a|])
  {
    if alts == [] then None
    else
      var j := i + |alts[0]|;
      if IsPrefix(alts[0], s[i..]) && j < |s| && IsIdChar(s[j]) then Some(j)
      else
        var r := LiteralMatch(s, i, alts[1..]);
        assert forall a :: a in alts <==> a == alts[0] || a in alts[1..];
        r
  }

  /** Start of the captured group when the pattern matches at position `i`. For `/s/1?`
      the optional '1' is consumed only when an identifier character follows it; otherwise
      the regex engine backtracks and the '1' becomes part of the capture. */
  function MatchAt(s: string, i: nat, p: Pattern): (r: Option<nat>)
    requires i <= |s|
    ensures r.Some? ==> i <= r.value < |s| && IsIdChar(s[r.value])
  {
    match p
    case Literal(alts) => LiteralMatch(s, i, alts)
    case ShareLink =>
      if !IsPrefix("/s/", s[i..]) then None
      else if i + 4 < |s| && s[i + 3] == '1' && IsIdChar(s[i + 4]) then Some(i + 4)
      else if i + 3 < |s| && IsIdChar(s[i + 3]) then Some(i + 3)
      else None
  }

  /** The greedy capture that starts at `start`. */
  function Capture(s: string, start: nat): (r: string)
    requires start < |s| && IsIdChar(s[start])
    ensures IsIdRun(r)
    ensures IsPrefix(r, s[start..])
    ensures start + |r| == |s| || !IsIdChar(s[start + |r|])
  {
    s[start..start + RunLength(s, start)]
  }

  /** Leftmost position at or after `i` where `p` matches (the scan of `re.search`). */
  function SearchPos(s: string, p: Pattern, i: nat): (r: Option<nat>)
    requires i <= |s|
    ensures r.Some? ==> i <= r.value <= |s| && MatchAt(s, r.value, p).Some?
    ensures r.Some? ==> forall k :: i <= k < r.value ==> MatchAt(s, k, p).None?
    ensures r.None? <==> forall k :: i <= k <= |s| ==> MatchAt(s, k, p).None?
    decreases |s| - i
  {
    if MatchAt(s, i, p).Some? then Some(i)
    else if i == |s| then None
    else SearchPos(s, p, i + 1)
  }

  /** The search stops at the first position where the pattern matches. */
  lemma SearchPosIsFirst(s: string, p: Pattern, k: nat)
    requires k <= |s| && MatchAt(s, k, p).Some?
    requires forall j :: 0 <= j < k ==> MatchAt(s, j, p).None?
    ensures SearchPos(s, p, 0) == Some(k)
  {
  }

  /** `re.search(p, s).group(1)`, or `None` when there is no match. */
  function Search(s: string, p: Pattern): (r: Option<string>)
    ensures r.Some? ==> IsIdRun(r.value)
    ensures r.None? <==> forall k :: 0 <= k <= |s| ==> MatchAt(s, k, p).None?
  {
    if SearchPos(s, p, 0).None? then None
    else Some(Capture(s, MatchAt(s, SearchPos(s, p, 0).value, p).value))
  }

  /** The capture of the first pattern in the list that matches anywhere (the loop
      `for pattern in patterns: match = re.search(...); if match: return match.group(1)`). */
  function FirstMatch(s: string, ps: seq<Pattern>): (r: Option<string>)
    ensures r.Some? ==> IsIdRun(r.value)
    ensures r.None? <==> forall n :: 0 <= n < |ps| ==> Search(s, ps[n]).None?
  {
    if ps == [] then None
    else
      var r0 := Search(s, ps[0]);
      if r0.Some? then r0
      else
        var r := FirstMatch(s, ps[1..]);
        assert forall n :: 1 <= n < |ps| ==> ps[n] == ps[1..][n - 1];
        r
  }

  /** The loop `for pattern in patterns: match = re.search(pattern, s); if match: return
      match.group(1)` followed by `return None`. */
  method SearchInOrder(s: string, ps: seq<Pattern>) returns (r: Option<string>)
    ensures r == FirstMatch(s, ps)
  {
    for i := 0 to |ps|
      invariant FirstMatch(s, ps) == FirstMatch(s, ps[i..])
    {
      var m := Search(s, ps[i]);
      TailOfAppend(ps[i..], []);
      assert ps[i..][1..] == ps[i + 1..];
      if m.Some? {
        return m;
      }
    }
    return None;
  }

  /** Patterns that never match leave the first-match result alone, wherever they stand. */
  lemma {:induction false} FirstMatchSkipsDead(s: string, ps: seq<Pattern>, dead: seq<Pattern>)
    requires forall n :: 0 <= n < |dead| ==> Search(s, dead[n]).None?
    ensures FirstMatch(s, ps + dead) == FirstMatch(s, ps)
    decreases |ps|
  {
    if ps == [] {
      assert ps + dead == dead;
    } else {
      TailOfAppend(ps, dead);
      FirstMatchSkipsDead(s, ps[1..], dead);
    }
  }

  /** When a later pattern can only match where an earlier one also matches, the later one
      never decides the result: it can be dropped from the end of the list. */
  lemma FirstMatchDropsShadowed(s: string, ps: seq<Pattern>, last: Pattern, earlier: nat)
    requires earlier < |ps|
    requires Search(s, last).Some? ==> Search(s, ps[earlier]).Some?
    ensures FirstMatch(s, ps + [last]) == FirstMatch(s, ps)
  {
    if Search(s, last).None? {
      FirstMatchSkipsDead(s, ps, [last]);
    } else {
      FirstMatchDecidedEarly(s, ps, [last], earlier);
    }
  }

  lemma {:induction false} FirstMatchDecidedEarly(s: string, ps: seq<Pattern>, rest: seq<Pattern>, n: nat)
    requires n < |ps| && Search(s, ps[n]).Some?
    ensures FirstMatch(s, ps + rest) == FirstMatch(s, ps)
    decreases |ps|
  {
    var all := ps + rest;
    TailOfAppend(ps, rest);
    if Search(s, ps[0]).None? {
      assert n > 0 && ps[1..][n - 1] == ps[n];
      FirstMatchDecidedEarly(s, ps[1..], rest, n - 1);
      assert FirstMatch(s, all) == FirstMatch(s, all[1..]);
    } else {
      assert FirstMatch(s, all) == Search(s, ps[0]);
    }
  }

  lemma TailOfAppend<T>(a: seq<T>, b: seq<T>)
    requires a != []
    ensures (a + b)[0] == a[0] && (a + b)[1..] == a[1..] + b
  {
  }
}
