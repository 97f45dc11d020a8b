/** String and byte-string primitives that the bot's Python code gets from `str`, `bytes`
    and `os.path`: ASCII case folding, whitespace, substring search, strip, splitext,
    join and decimal formatting. Only the ASCII part of Python's Unicode tables is modelled. */
module Text {

  datatype Option<T> = None | Some(value: T)

  /** Python's `str.lower()` on one character, restricted to ASCII letters. */
  function LowerChar(c: char): char {
    if 'A' <= c <= 'Z' then (c as int + 32) as char else c
  }

  function Lower(s: string): (r: string)
    ensures |r| == |s|
    ensures forall i :: 0 <= i < |s| ==> r[i] == LowerChar(s[i])
  {
    seq(|s|, i requires 0 <= i < |s| => LowerChar(s[i]))
  }

  predicate IsLowerAscii(s: string) {
    forall i :: 0 <= i < |s| ==> !('A' <= s[i] <= 'Z')
  }

  lemma LowerIsLower(s: string)
    ensures IsLowerAscii(Lower(s))
    ensures Lower(Lower(s)) == Lower(s)
  {
  }

  lemma LowerOfLower(s: string)
    requires IsLowerAscii(s)
    ensures Lower(s) == s
  {
  }

  /** Lower-casing fixes every character that is not an upper-case ASCII letter. */
  lemma LowerKeeps(s: string, i: nat)
    requires i < |s| && !('A' <= s[i] <= 'Z')
    ensures Lower(s)[i] == s[i]
  {
  }

  lemma LowerAppend(a: string, b: string)
    ensures Lower(a + b) == Lower(a) + Lower(b)
  {
  }

  lemma LowerSlice(s: string, i: nat, j: nat)
    requires i <= j <= |s|
    ensures Lower(s[i..j]) == Lower(s)[i..j]
  {
  }

  /** The characters for which Python's `str.isspace()` holds, ASCII part. These are the
      characters `\s` matches and `str.strip()` removes. */
  const Whitespace: set<char> := {' ', '\t', '\n', '\r', '\U{B}', '\U{C}', '\U{1C}', '\U{1D}', '\U{1E}', '\U{1F}'}

  predicate IsPrefix<T(==)>(p: seq<T>, s: seq<T>) {
    |p| <= |s| && s[..|p|] == p
  }

  predicate IsSuffix<T(==)>(p: seq<T>, s: seq<T>) {
    |p| <= |s| && s[|s| - |p|..] == p
  }

  /** Python's `sub in s` for strings and byte strings. */
  predicate Contains<T(==)>(s: seq<T>, sub: seq<T>)
    decreases |s|
  {
    IsPrefix(sub, s) || (|s| > 0 && Contains(s[1..], sub))
  }

  lemma {:induction false} ContainsAt<T>(s: seq<T>, sub: seq<T>, i: nat)
    requires i <= |s| && IsPrefix(sub, s[i..])
    ensures Contains(s, sub)
  {
    if i > 0 {
      assert s[1..][i - 1..] == s[i..];
      ContainsAt(s[1..], sub, i - 1);
    }
  }

  /** An occurrence found by `Contains` sits at some position of `s`. */
  lemma {:induction false} ContainsWitness<T>(s: seq<T>, sub: seq<T>) returns (i: nat)
    requires Contains(s, sub)
    ensures i <= |s| && IsPrefix(sub, s[i..])
  {
    if IsPrefix(sub, s) {
      i := 0;
    } else {
      var j := ContainsWitness(s[1..], sub);
      assert s[1..][j..] == s[j + 1..];
      i := j + 1;
    }
  }

  lemma ContainsLonger<T>(s: seq<T>, sub: seq<T>, more: seq<T>)
    requires Contains(s, sub + more)
    ensures Contains(s, sub)
  {
    var i := ContainsWitness(s, sub + more);
    assert s[i..][..|sub|] == (sub + more)[..|sub|] == sub;
    ContainsAt(s, sub, i);
  }

  /** Index of the first occurrence of a character of `cs` at or after `i`, or `|s|`. */
  function FindAnyFrom(s: string, cs: set<char>, i: nat): (r: nat)
    requires i <= |s|
    ensures i <= r <= |s|
    ensures forall k :: i <= k < r ==> s[k] !in cs
    ensures r < |s| ==> s[r] in cs
    decreases |s| - i
  {
    if i == |s| || s[i] in cs then i else FindAnyFrom(s, cs, i + 1)
  }

  /** Index of the last occurrence of `c`, as Python's `str.rfind` (`None` for -1). */
  function RFind(s: string, c: char): (r: Option<nat>)
    ensures r.None? <==> c !in s
    ensures r.Some? ==> r.value < |s| && s[r.value] == c && c !in s[r.value + 1..]
    ensures r.Some? ==> forall k :: r.value < k < |s| ==> s[k] != c
  {
    if |s| == 0 then None
    else if s[|s| - 1] == c then Some(|s| - 1)
    else
      var r := RFind(s[..|s| - 1], c);
      assert forall k :: 0 <= k < |s| - 1 ==> s[..|s| - 1][k] == s[k];
      if r.Some? then
        assert s[r.value + 1..] == s[..|s| - 1][r.value + 1..] + [s[|s| - 1]];
        r
      else r
  }

  /** The last occurrence is the one `RFind` reports. */
  lemma RFindLast(s: string, c: char, i: nat)
    requires i < |s| && s[i] == c
    requires forall k :: i < k < |s| ==> s[k] != c
    ensures RFind(s, c) == Some(i)
  {
    assert c in s;
  }

  /** Python's `str.lstrip(chars)` / `str.rstrip(chars)` / `str.strip(chars)`. */
  function LStrip(s: string, cs: set<char>): (r: string)
    ensures IsSuffix(r, s)
    ensures r == [] || r[0] !in cs
    ensures forall k :: 0 <= k < |s| - |r| ==> s[k] in cs
  {
    if |s| > 0 && s[0] in cs then LStrip(s[1..], cs) else s
  }

  function RStrip(s: string, cs: set<char>): (r: string)
    ensures IsPrefix(r, s)
    ensures r == [] || r[|r| - 1] !in cs
    ensures forall k :: |r| <= k < |s| ==> s[k] in cs
  {
    if |s| > 0 && s[|s| - 1] in cs then RStrip(s[..|s| - 1], cs) else s
  }

  /** `r` is `s` with the characters of `cs` removed from both ends, and only those. */
  function Strip(s: string, cs: set<char>): (r: string)
    ensures r == [] || (r[0] !in cs && r[|r| - 1] !in cs)
    ensures |r| <= |s|
    ensures exists i, j ::
      && 0 <= i <= j <= |s| && r == s[i..j]
      && (forall k :: 0 <= k < i ==> s[k] in cs)
      && (forall k :: j <= k < |s| ==> s[k] in cs)
  {
    var l := LStrip(s, cs);
    var r := RStrip(l, cs);
    assert r != [] ==> r[0] == l[0];
    StripSlice(s, cs, l, r);
    r
  }

  /** `r` is `s` with a prefix and then a suffix of characters of `cs` taken off. */
  lemma StripSlice(s: string, cs: set<char>, l: string, r: string)
    requires IsSuffix(l, s) && forall k :: 0 <= k < |s| - |l| ==> s[k] in cs
    requires IsPrefix(r, l) && forall k :: |r| <= k < |l| ==> l[k] in cs
    ensures exists i, j ::
      && 0 <= i <= j <= |s| && r == s[i..j]
      && (forall k :: 0 <= k < i ==> s[k] in cs)
      && (forall k :: j <= k < |s| ==> s[k] in cs)
  {
    var i := |s| - |l|;
    var j := i + |r|;
    assert l == s[i..];
    assert r == l[..|r|];
    assert r == s[i..j];
    assert forall k :: 0 <= k < i ==> s[k] in cs;
    forall k | j <= k < |s| ensures s[k] in cs {
      var m := k - i;
      assert |r| <= m < |l|;
      assert l[m] in cs;
      assert s[i..][m] == s[k];
    }
  }

  /** A set of characters that holds no ASCII letter. */
  predicate NoLetters(cs: set<char>) {
    forall c :: c in cs ==> !('A' <= c <= 'Z') && !('a' <= c <= 'z')
  }

  lemma LowerCharIn(c: char, cs: set<char>)
    requires NoLetters(cs)
    ensures LowerChar(c) in cs <==> c in cs
  {
  }

  /** Stripping characters that are not letters commutes with lower-casing. */
  lemma {:induction false} LStripLower(s: string, cs: set<char>)
    requires NoLetters(cs)
    ensures LStrip(Lower(s), cs) == Lower(LStrip(s, cs))
    decreases |s|
  {
    if |s| > 0 {
      LowerCharIn(s[0], cs);
      assert Lower(s)[1..] == Lower(s[1..]);
      LStripLower(s[1..], cs);
    }
  }

  lemma {:induction false} RStripLower(s: string, cs: set<char>)
    requires NoLetters(cs)
    ensures RStrip(Lower(s), cs) == Lower(RStrip(s, cs))
    decreases |s|
  {
    if |s| > 0 {
      LowerCharIn(s[|s| - 1], cs);
      assert Lower(s)[..|s| - 1] == Lower(s[..|s| - 1]);
      RStripLower(s[..|s| - 1], cs);
    }
  }

  lemma StripLower(s: string, cs: set<char>)
    requires NoLetters(cs)
    ensures Strip(Lower(s), cs) == Lower(Strip(s, cs))
  {
    LStripLower(s, cs);
    RStripLower(LStrip(s, cs), cs);
  }

  /** Characters of `cs` around a string whose ends are not in `cs` are all stripped. */
  lemma StripPadded(pre: string, m: string, post: string, cs: set<char>)
    requires forall k :: 0 <= k < |pre| ==> pre[k] in cs
    requires forall k :: 0 <= k < |post| ==> post[k] in cs
    requires m != [] && m[0] !in cs && m[|m| - 1] !in cs
    ensures Strip(pre + m + post, cs) == m
  {
    LStripPadding(pre, m + post, cs);
    assert pre + m + post == pre + (m + post);
    RStripPadding(m, post, cs);
  }

  lemma {:induction false} LStripPadding(pre: string, t: string, cs: set<char>)
    requires forall k :: 0 <= k < |pre| ==> pre[k] in cs
    requires t != [] && t[0] !in cs
    ensures LStrip(pre + t, cs) == t
  {
    if pre != [] {
      assert (pre + t)[1..] == pre[1..] + t;
      LStripPadding(pre[1..], t, cs);
    }
  }

  lemma {:induction false} RStripPadding(t: string, post: string, cs: set<char>)
    requires forall k :: 0 <= k < |post| ==> post[k] in cs
    requires t != [] && t[|t| - 1] !in cs
    ensures RStrip(t + post, cs) == t
  {
    if post != [] {
      var p := post[..|post| - 1];
      assert (t + post)[..|t + post| - 1] == t + p;
      RStripPadding(t, p, cs);
    }
  }

  /** The first character of `cs` at or after `i` is the one `FindAnyFrom` reports. */
  lemma FindAnyFromFirst(s: string, cs: set<char>, i: nat, j: nat)
    requires i <= j <= |s|
    requires j < |s| ==> s[j] in cs
    requires forall k :: i <= k < j ==> s[k] !in cs
    ensures FindAnyFrom(s, cs, i) == j
  {
  }

  /** A string none of whose characters is in `cs` is left alone by `Strip`. */
  lemma StripNothing(s: string, cs: set<char>)
    requires forall k :: 0 <= k < |s| ==> s[k] !in cs
    ensures Strip(s, cs) == s
  {
  }

  /** Every character of `Strip(s, cs)` is a character of `s`. */
  lemma StripChars(s: string, cs: set<char>)
    ensures forall k :: 0 <= k < |Strip(s, cs)| ==> Strip(s, cs)[k] in s
  {
    var l := LStrip(s, cs);
    assert l == s[|s| - |l|..];
    var r := RStrip(l, cs);
    forall k | 0 <= k < |r| ensures r[k] in s {
      assert r[k] == l[k] == s[|s| - |l| + k];
    }
  }

  /** True when every character of `s` is a '.'. */
  predicate AllDots(s: string) {
    forall k :: 0 <= k < |s| ==> s[k] == '.'
  }

  /** Where the last path component starts: just after the last '/'. */
  function BaseStart(p: string): (r: nat)
    ensures r <= |p|
    ensures '/' !in p[r..]
  {
    match RFind(p, '/')
    case None => 0
    case Some(sep) => sep + 1
  }

  /** Python's `posixpath.splitext`: the extension starts at the last '.', provided that
      dot comes after the last '/' and the file name before it is not made of dots only. */
  function SplitExt(p: string): (r: (string, string))
    ensures r.0 + r.1 == p
    ensures r.1 == [] || (r.1[0] == '.' && '.' !in r.1[1..] && '/' !in r.1)
  {
    match RFind(p, '.')
    case None => (p, "")
    case Some(dot) =>
      var start := BaseStart(p);
      if start <= dot && !AllDots(p[start..dot]) then
        assert p[..dot] + p[dot..] == p;
        (p[..dot], p[dot..])
      else
        (p, "")
  }

  /** Where `SplitExt` puts the extension: a non-empty one starts at the last '.', which lies
      in the last path component, and there is none exactly when every '.' of the last
      component has only dots before it in that component. */
  lemma SplitExtRule(p: string)
    ensures var r := SplitExt(p);
      r.1 != [] ==> RFind(p, '.') == Some(|r.0|) && BaseStart(p) <= |r.0|
    ensures SplitExt(p).1 == [] <==>
      forall k :: BaseStart(p) <= k < |p| && p[k] == '.' ==> AllDots(p[BaseStart(p)..k])
  {
    match RFind(p, '.')
    case None =>
    case Some(dot) =>
      var start := BaseStart(p);
      if !(start <= dot && !AllDots(p[start..dot])) {
        DotsBeforeLastDot(p, start, dot);
      }
  }

  /** When the name before the last dot is made of dots only, so is the name before any
      earlier dot. */
  lemma DotsBeforeLastDot(p: string, start: nat, dot: nat)
    requires dot < |p| && forall k :: dot < k < |p| ==> p[k] != '.'
    requires start <= dot ==> AllDots(p[start..dot])
    ensures forall k :: start <= k < |p| && p[k] == '.' ==> AllDots(p[start..k])
  {
    forall k | start <= k < |p| && p[k] == '.' ensures AllDots(p[start..k]) {
      assert p[start..k] == p[start..dot][..k - start];
    }
  }

  /** A name that is only an extension has no extension for `SplitExt`: its file name
      before the dot is empty. */
  lemma SplitExtBareExtension(e: string)
    requires |e| >= 1 && e[0] == '.' && '.' !in e[1..] && '/' !in e
    ensures SplitExt(e) == (e, "")
  {
    forall k | 0 < k < |e| ensures e[k] != '.' {
      assert e[k] == e[1..][k - 1];
    }
    RFindLast(e, '.', 0);
  }

  /** Appending an extension to a name whose last component is not made of dots only is
      undone by `SplitExt`. */
  lemma SplitExtAppend(name: string, ext: string)
    requires |ext| > 0 && ext[0] == '.' && '.' !in ext[1..] && '/' !in ext
    requires !AllDots(name[BaseStart(name)..])
    ensures SplitExt(name + ext) == (name, ext)
  {
    var p := name + ext;
    forall k | |name| < k < |p| ensures p[k] != '.' {
      assert p[k] == ext[1..][k - |name| - 1];
    }
    RFindLast(p, '.', |name|);
    BaseStartAppend(name, ext);
    assert p[BaseStart(p)..|name|] == name[BaseStart(name)..];
    assert p[..|name|] == name && p[|name|..] == ext;
  }

  lemma BaseStartAppend(name: string, ext: string)
    requires '/' !in ext
    ensures BaseStart(name + ext) == BaseStart(name)
  {
    var p := name + ext;
    match RFind(name, '/')
    case None =>
      assert '/' !in p;
    case Some(sep) =>
      forall k | sep < k < |p| ensures p[k] != '/' {
        if k >= |name| {
          assert p[k] == ext[k - |name|];
        }
      }
      RFindLast(p, '/', sep);
  }

  /** Python's two-argument `posixpath.join`. */
  function Join(dir: string, name: string): (r: string)
    ensures IsSuffix(name, r)
  {
    if IsPrefix("/", name) then name
    else if dir == "" || IsSuffix("/", dir) then dir + name
    else dir + "/" + name
  }

  function DigitChar(d: nat): (c: char)
    requires d < 10
    ensures '0' <= c <= '9'
  {
    ('0' as int + d) as char
  }

  /** Decimal text of a natural number, as an f-string prints it. */
  function NatToString(n: nat): (r: string)
    ensures |r| >= 1
    ensures forall k :: 0 <= k < |r| ==> '0' <= r[k] <= '9'
  {
    if n < 10 then [DigitChar(n)] else NatToString(n / 10) + [DigitChar(n % 10)]
  }

  /** Different numbers have different decimal texts. */
  lemma {:induction false} NatToStringInjective(a: nat, b: nat)
    requires NatToString(a) == NatToString(b)
    ensures a == b
  {
    var sa, sb := NatToString(a), NatToString(b);
    if a >= 10 && b >= 10 {
      assert sa[..|sa| - 1] == NatToString(a / 10) && sb[..|sb| - 1] == NatToString(b / 10);
      NatToStringInjective(a / 10, b / 10);
      assert sa[|sa| - 1] == DigitChar(a % 10) && sb[|sb| - 1] == DigitChar(b % 10);
    }
  }

  function Pow10(k: nat): (r: nat)
    ensures r >= 1
  {
    if k == 0 then 1 else 10 * Pow10(k - 1)
  }

  /** A number is smaller than ten to the number of its digits. */
  lemma {:induction false} NatToStringBound(n: nat)
    ensures n < Pow10(|NatToString(n)|)
  {
    if n >= 10 {
      NatToStringBound(n / 10);
    }
  }

  lemma {:induction false} Pow10Monotonic(a: nat, b: nat)
    requires a <= b
    ensures Pow10(a) <= Pow10(b)
  {
    if a < b {
      Pow10Monotonic(a, b - 1);
    }
  }

  /** Python's `s[:n]`: a negative `n` counts from the end, and both ends are clamped. */
  function SliceTo(s: string, n: int): (r: string)
    ensures IsPrefix(r, s)
    ensures n >= 0 ==> |r| == if n <= |s| then n else |s|
    ensures n < 0 ==> |r| == if |s| + n >= 0 then |s| + n else 0
  {
    if n >= 0 then (if n <= |s| then s[..n] else s)
    else if |s| + n >= 0 then s[..|s| + n]
    else []
  }
}
