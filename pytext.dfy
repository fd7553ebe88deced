/**
 * The Python `str` operations that the appliance's command-output parsers rely
 * on, written out over `seq<char>`: `isspace`, `split()`, `strip()`,
 * `lstrip(chars)`, `splitlines()`, `split(sep)[0]`, `split(sep, 1)[1]`,
 * `sep.join(...)` and `replace(...)`.
 */
module PyText {
  import opened Wrappers

  /** `c.isspace()`: the ASCII and Unicode whitespace characters Python recognises. */
  predicate IsSpace(c: char) {
    || c == ' '
    || ('\t' <= c <= '\r')
    || ('\U{1C}' <= c <= '\U{1F}')
    || c == '\U{85}' || c == '\U{A0}' || c == '\U{1680}'
    || ('\U{2000}' <= c <= '\U{200A}')
    || c == '\U{2028}' || c == '\U{2029}' || c == '\U{202F}' || c == '\U{205F}' || c == '\U{3000}'
  }

  predicate NoSpace(s: string) {
    forall k :: 0 <= k < |s| ==> !IsSpace(s[k])
  }

  predicate AllSpace(s: string) {
    forall k :: 0 <= k < |s| ==> IsSpace(s[k])
  }

  /** A token that `str.split()` can return: non-empty and free of whitespace. */
  predicate IsWord(w: string) {
    w != [] && NoSpace(w)
  }

  /** `s.lstrip()`: drops the leading whitespace. */
  function SkipSpace(s: string): (r: string)
    ensures |r| <= |s| && r == s[|s| - |r|..]
    ensures AllSpace(s[..|s| - |r|])
    ensures r == [] || !IsSpace(r[0])
  {
    if s != [] && IsSpace(s[0]) then
      var r := SkipSpace(s[1..]);
      assert s[..|s| - |r|] == [s[0]] + s[1..][..|s| - 1 - |r|];
      AllSpaceCons(s[0], s[1..][..|s| - 1 - |r|]);
      r
    else s
  }

  /** The longest prefix of `s` that holds no whitespace. */
  function Word(s: string): (w: string)
    ensures |w| <= |s| && w == s[..|w|]
    ensures NoSpace(w)
    ensures |w| < |s| ==> IsSpace(s[|w|])
  {
    if s != [] && !IsSpace(s[0]) then [s[0]] + Word(s[1..]) else []
  }

  /** `s.split()` without a separator: the maximal runs of non-whitespace, in order. */
  function Split(s: string): (r: seq<string>)
    ensures forall k :: 0 <= k < |r| ==> IsWord(r[k])
    decreases |s|
  {
    var t := SkipSpace(s);
    if t == [] then []
    else
      var w := Word(t);
      assert w[0] == t[0];
      var rest := Split(t[|w|..]);
      WordThenWords(w, rest);
      [w] + rest
  }

  lemma WordThenWords(w: string, rest: seq<string>)
    requires IsWord(w)
    requires forall k :: 0 <= k < |rest| ==> IsWord(rest[k])
    ensures forall k :: 0 <= k < |[w] + rest| ==> IsWord(([w] + rest)[k])
  {
  }

  /** `sep.join(ws)`. */
  function Join(ws: seq<string>, sep: string): string
  {
    if |ws| == 0 then []
    else if |ws| == 1 then ws[0]
    else ws[0] + sep + Join(ws[1..], sep)
  }

  lemma JoinCons(ws: seq<string>, sep: string)
    requires |ws| > 1
    ensures Join(ws, sep) == ws[0] + (sep + Join(ws[1..], sep))
  {
    assert ws[0] + sep + Join(ws[1..], sep) == ws[0] + (sep + Join(ws[1..], sep));
  }

  /** Whitespace in front of a string does not change how it splits. */
  lemma {:induction false} SplitAfterSpace(a: string, t: string)
    requires AllSpace(a)
    ensures Split(a + t) == Split(t)
  {
    if a != [] {
      assert (a + t)[1..] == a[1..] + t;
      SplitAfterSpace(a[1..], t);
      assert SkipSpace(a + t) == SkipSpace(a[1..] + t);
    } else {
      assert a + t == t;
    }
  }

  /**
   * Whitespace-separated columns as a command prints them: `gaps[i]` comes before
   * `ws[i]`. The first gap may be empty, every later one must not be.
   */
  function Weave(ws: seq<string>, gaps: seq<string>): string
    requires |gaps| == |ws|
  {
    if ws == [] then [] else gaps[0] + ws[0] + Weave(ws[1..], gaps[1..])
  }

  /** Gaps that keep the columns apart: all whitespace, and non-empty after the first. */
  predicate Gaps(gaps: seq<string>) {
    && (forall i :: 0 <= i < |gaps| ==> AllSpace(gaps[i]))
    && (forall i :: 0 < i < |gaps| ==> gaps[i] != [])
  }

  /** A word followed by nothing or by whitespace splits off as the first token. */
  lemma WordThen(w: string, r: string)
    requires IsWord(w)
    requires r == [] || IsSpace(r[0])
    ensures Split(w + r) == [w] + Split(r)
  {
    var s := w + r;
    assert s[0] == w[0];
    assert SkipSpace(s) == s;
    WordOfWordThen(w, r);
    assert s[|w|..] == r;
  }

  /** The longest whitespace-free prefix of a word followed by whitespace is the word. */
  lemma WordOfWordThen(w: string, r: string)
    requires IsWord(w)
    requires r == [] || IsSpace(r[0])
    ensures Word(w + r) == w
  {
    var s := w + r;
    var v := Word(s);
    assert v == s[..|w|] == w;
  }

  lemma WeaveCons(ws: seq<string>, gaps: seq<string>, tail: string)
    requires |gaps| == |ws| > 0
    ensures Weave(ws, gaps) + tail == gaps[0] + (ws[0] + (Weave(ws[1..], gaps[1..]) + tail))
  {
  }

  /** One more column in front: its gap is skipped and its word splits off first. */
  lemma SplitWeaveStep(ws: seq<string>, gaps: seq<string>, tail: string)
    requires |gaps| == |ws| > 0 && Gaps(gaps) && AllSpace(tail) && IsWord(ws[0])
    requires Split(Weave(ws[1..], gaps[1..]) + tail) == ws[1..]
    ensures Split(Weave(ws, gaps) + tail) == ws
  {
    var rest := Weave(ws[1..], gaps[1..]) + tail;
    WeaveCons(ws, gaps, tail);
    assert AllSpace(gaps[0]);
    assert |ws| > 1 ==> gaps[1..][0] == gaps[1] != [] && AllSpace(gaps[1]);
    BlankStart(ws[1..], gaps[1..], tail);
    SplitColumn(gaps[0], ws[0], rest, ws[1..]);
    HeadTail(ws);
  }

  /** A non-empty sequence is its first element in front of the others. */
  lemma HeadTail<T>(s: seq<T>)
    requires s != []
    ensures [s[0]] + s[1..] == s
  {
  }

  /** A gap, a word, then text that starts with whitespace: the word is the first token. */
  lemma SplitColumn(g: string, w: string, rest: string, words: seq<string>)
    requires AllSpace(g) && IsWord(w) && (rest == [] || IsSpace(rest[0]))
    requires Split(rest) == words
    ensures Split(g + (w + rest)) == [w] + words
  {
    SplitAfterSpace(g, w + rest);
    WordThen(w, rest);
  }

  /** Columns after the first start with their non-empty gap, or else with the tail. */
  lemma BlankStart(ws: seq<string>, gaps: seq<string>, tail: string)
    requires |gaps| == |ws| && AllSpace(tail)
    requires |ws| > 0 ==> gaps[0] != [] && AllSpace(gaps[0])
    ensures var s := Weave(ws, gaps) + tail; s == [] || IsSpace(s[0])
  {
    if |ws| > 0 {
      WeaveCons(ws, gaps, tail);
      assert (Weave(ws, gaps) + tail)[0] == gaps[0][0];
    } else {
      assert Weave(ws, gaps) + tail == tail;
    }
  }

  /** Splitting padded columns, with any trailing whitespace, gives the words back. */
  lemma {:induction false} SplitWeave(ws: seq<string>, gaps: seq<string>, tail: string)
    requires |gaps| == |ws| && Gaps(gaps) && AllSpace(tail)
    requires forall k :: 0 <= k < |ws| ==> IsWord(ws[k])
    ensures Split(Weave(ws, gaps) + tail) == ws
  {
    if ws == [] {
      assert Weave(ws, gaps) + tail == tail + [];
      SplitAfterSpace(tail, []);
      assert Split([]) == [];
    } else {
      SplitWeave(ws[1..], gaps[1..], tail);
      SplitWeaveStep(ws, gaps, tail);
    }
  }

  /** Four words, the first one flush left, woven with the gaps between them. */
  lemma WeaveFour(a: string, b: string, c: string, d: string, g1: string, g2: string, g3: string)
    ensures Weave([a, b, c, d], ["", g1, g2, g3]) == a + g1 + b + g2 + c + g3 + d
  {
    var w3 := Weave([d], [g3]);
    assert [d][1..] == [] && [g3][1..] == [];
    assert w3 == g3 + d + Weave([], []) == g3 + d;
    var w2 := Weave([c, d], [g2, g3]);
    assert [c, d][1..] == [d] && [g2, g3][1..] == [g3];
    assert w2 == g2 + c + w3;
    var w1 := Weave([b, c, d], [g1, g2, g3]);
    assert [b, c, d][1..] == [c, d] && [g1, g2, g3][1..] == [g2, g3];
    assert w1 == g1 + b + w2;
    assert [a, b, c, d][1..] == [b, c, d] && ["", g1, g2, g3][1..] == [g1, g2, g3];
    assert Weave([a, b, c, d], ["", g1, g2, g3]) == a + w1;
    Associate(a + g1 + b, g2 + c, w3);
    Associate(a, g1 + b, w2);
    Associate(a, g1, b);
    Associate(a + g1 + b, g2, c);
    Associate(a + g1 + b + g2 + c, g3, d);
  }

  lemma Associate(x: string, y: string, z: string)
    ensures x + (y + z) == x + y + z
  {
  }

  /** Padded columns whose gaps break no line form one line. */
  lemma {:induction false} WeaveNoBreak(ws: seq<string>, gaps: seq<string>)
    requires |gaps| == |ws|
    requires forall k :: 0 <= k < |ws| ==> IsWord(ws[k])
    requires forall i :: 0 <= i < |gaps| ==> NoBreak(gaps[i])
    ensures NoBreak(Weave(ws, gaps))
  {
    if ws != [] {
      WeaveNoBreak(ws[1..], gaps[1..]);
      var g, w, r := gaps[0], ws[0], Weave(ws[1..], gaps[1..]);
      assert NoBreak(g) && NoSpace(w) && NoBreak(r);
      var line := g + w + r;
      forall k | 0 <= k < |line| ensures !IsLineBreak(line[k]) {
        if k < |g| {
          assert line[k] == g[k];
        } else if k < |g| + |w| {
          assert line[k] == w[k - |g|];
        } else {
          assert line[k] == r[k - |g| - |w|];
        }
      }
    }
  }

  /** `s.rstrip()`: drops the trailing whitespace. */
  function StripEnd(s: string): (r: string)
    ensures |r| <= |s| && r == s[..|r|]
    ensures AllSpace(s[|r|..])
    ensures r == [] || !IsSpace(r[|r| - 1])
  {
    if s != [] && IsSpace(s[|s| - 1]) then
      var r := StripEnd(s[..|s| - 1]);
      assert s[|r|..] == s[..|s| - 1][|r|..] + [s[|s| - 1]];
      AllSpaceSnoc(s[..|s| - 1][|r|..], s[|s| - 1]);
      r
    else s
  }

  lemma AllSpaceCons(c: char, a: string)
    requires IsSpace(c) && AllSpace(a)
    ensures AllSpace([c] + a)
  {
  }

  lemma AllSpaceSnoc(a: string, c: char)
    requires AllSpace(a) && IsSpace(c)
    ensures AllSpace(a + [c])
  {
  }

  /** `s.strip()`: drops the leading and the trailing whitespace. */
  function Strip(s: string): (r: string)
    ensures |r| <= |s|
    ensures r == [] || (!IsSpace(r[0]) && !IsSpace(r[|r| - 1]))
  {
    StripEnd(SkipSpace(s))
  }

  lemma {:induction false} SkipSpaceAfterSpace(a: string, t: string)
    requires AllSpace(a)
    ensures SkipSpace(a + t) == SkipSpace(t)
  {
    if a != [] {
      assert (a + t)[1..] == a[1..] + t;
      SkipSpaceAfterSpace(a[1..], t);
    } else {
      assert a + t == t;
    }
  }

  lemma {:induction false} StripEndBeforeSpace(t: string, b: string)
    requires AllSpace(b)
    ensures StripEnd(t + b) == StripEnd(t)
    decreases |b|
  {
    if b != [] {
      var b' := b[..|b| - 1];
      assert (t + b)[..|t + b| - 1] == t + b';
      StripEndBeforeSpace(t, b');
    } else {
      assert t + b == t;
    }
  }

  /** `strip()` recovers a text that starts and ends with non-whitespace from any padding. */
  lemma StripPadded(a: string, p: string, b: string)
    requires AllSpace(a) && AllSpace(b)
    requires p == [] || (!IsSpace(p[0]) && !IsSpace(p[|p| - 1]))
    ensures Strip(a + p + b) == p
  {
    assert a + p + b == a + (p + b);
    SkipSpaceAfterSpace(a, p + b);
    if p == [] {
      assert p + b == b && b + [] == b;
      SkipSpaceAfterSpace(b, []);
    } else {
      assert (p + b)[0] == p[0];
      assert SkipSpace(p + b) == p + b;
      StripEndBeforeSpace(p, b);
    }
  }

  /** `s.lstrip(chars)`: drops the leading characters that belong to `chars`. */
  function LStrip(s: string, chars: set<char>): (r: string)
    ensures |r| <= |s| && r == s[|s| - |r|..]
    ensures forall k :: 0 <= k < |s| - |r| ==> s[k] in chars
    ensures r == [] || r[0] !in chars
  {
    if s != [] && s[0] in chars then LStrip(s[1..], chars) else s
  }

  lemma {:induction false} LStripPrefix(p: string, t: string, chars: set<char>)
    requires forall k :: 0 <= k < |p| ==> p[k] in chars
    requires t == [] || t[0] !in chars
    ensures LStrip(p + t, chars) == t
  {
    if p != [] {
      assert (p + t)[1..] == p[1..] + t;
      LStripPrefix(p[1..], t, chars);
    } else {
      assert p + t == t;
    }
  }

  /** `s.split(sep)[0]` for a one-character separator: the text before the first `sep`. */
  function Before(s: string, sep: char): (r: string)
    ensures |r| <= |s| && r == s[..|r|]
    ensures sep !in r
    ensures |r| < |s| ==> s[|r|] == sep
  {
    if s == [] || s[0] == sep then [] else [s[0]] + Before(s[1..], sep)
  }

  /**
   * `s.split(sep, 1)[1]`: the text after the first `sep`, or `None` where Python
   * raises `IndexError` because `sep` does not occur.
   */
  function After(s: string, sep: char): (r: Option<string>)
    ensures r.Some? <==> sep in s
    ensures r.Some? ==> s == Before(s, sep) + [sep] + r.value
  {
    var b := Before(s, sep);
    if |b| < |s| then
      assert s == b + [sep] + s[|b| + 1..];
      Some(s[|b| + 1..])
    else
      assert b == s;
      None
  }

  /** Splitting at the first `sep` takes apart a text built around that `sep`. */
  lemma BeforeSep(a: string, sep: char, t: string)
    requires sep !in a
    ensures Before(a + [sep] + t, sep) == a
    ensures After(a + [sep] + t, sep) == Some(t)
  {
    var s := a + [sep] + t;
    var b := Before(s, sep);
    assert s[..|a|] == a && s[|a|] == sep;
    assert s[|a| + 1..] == t;
  }

  /** `s.endswith(t)`. */
  predicate EndsWith(s: string, t: string) {
    |t| <= |s| && s[|s| - |t|..] == t
  }

  /** The rest of `s` after the prefix `p`, if `s` starts with `p`. */
  function DropPrefix(p: string, s: string): (r: Option<string>)
    ensures r.Some? ==> s == p + r.value
  {
    if |p| <= |s| && s[..|p|] == p then
      assert s == s[..|p|] + s[|p|..];
      Some(s[|p|..])
    else None
  }

  /** The part of `s` before the suffix `p`, if `s` ends with `p`. */
  function DropSuffix(p: string, s: string): (r: Option<string>)
    ensures r.Some? ==> s == r.value + p
  {
    if |p| <= |s| && s[|s| - |p|..] == p then
      assert s == s[..|s| - |p|] + s[|s| - |p|..];
      Some(s[..|s| - |p|])
    else None
  }

  lemma DropPrefixOf(p: string, t: string)
    ensures DropPrefix(p, p + t) == Some(t)
  {
    assert (p + t)[..|p|] == p;
    assert (p + t)[|p|..] == t;
  }

  lemma DropSuffixOf(p: string, t: string)
    ensures DropSuffix(p, t + p) == Some(t)
  {
    assert (t + p)[|t|..] == p;
    assert (t + p)[..|t|] == t;
  }

  /** The characters at which `str.splitlines()` breaks a text. */
  predicate IsLineBreak(c: char) {
    || ('\n' <= c <= '\r')
    || ('\U{1C}' <= c <= '\U{1E}')
    || c == '\U{85}' || c == '\U{2028}' || c == '\U{2029}'
  }

  predicate NoBreak(s: string) {
    forall k :: 0 <= k < |s| ==> !IsLineBreak(s[k])
  }

  lemma NoBreakAppend(a: string, b: string)
    requires NoBreak(a) && NoBreak(b)
    ensures NoBreak(a + b)
  {
    forall k | |a| <= k < |a + b| ensures !IsLineBreak((a + b)[k]) {
      assert (a + b)[k] == b[k - |a|];
    }
  }

  /**
   * The pieces of `s` between line breaks, every break ending one piece. Unlike
   * `str.splitlines()` this keeps the empty pieces (a `"\r\n"` pair and a trailing
   * break each leave one), so a caller that skips blank lines sees the same lines.
   */
  function Lines(s: string): (r: seq<string>)
    ensures |r| >= 1
    ensures forall k :: 0 <= k < |r| ==> NoBreak(r[k])
  {
    if s == [] then [[]]
    else
      var rest := Lines(s[1..]);
      if IsLineBreak(s[0]) then [[]] + rest else [[s[0]] + rest[0]] + rest[1..]
  }

  lemma {:induction false} LinesAfterText(l: string, t: string)
    requires NoBreak(l)
    ensures Lines(l + t) == [l + Lines(t)[0]] + Lines(t)[1..]
  {
    if l != [] {
      assert (l + t)[1..] == l[1..] + t;
      LinesAfterText(l[1..], t);
      var rest := Lines((l + t)[1..]);
      assert Lines(l + t) == [[l[0]] + rest[0]] + rest[1..];
      assert [l[0]] + (l[1..] + Lines(t)[0]) == l + Lines(t)[0];
    } else {
      assert l + t == t;
      assert l + Lines(t)[0] == Lines(t)[0];
      assert Lines(t) == [Lines(t)[0]] + Lines(t)[1..];
    }
  }

  /** Breaking lines joined by `"\n"` gives the lines back. */
  lemma {:induction false} LinesJoin(ls: seq<string>)
    requires |ls| >= 1
    requires forall k :: 0 <= k < |ls| ==> NoBreak(ls[k])
    ensures Lines(Join(ls, "\n")) == ls
  {
    if |ls| == 1 {
      LinesAfterText(ls[0], []);
      assert ls[0] + [] == ls[0];
    } else {
      var rest := Join(ls[1..], "\n");
      LinesJoin(ls[1..]);
      assert Join(ls, "\n") == ls[0] + ("\n" + rest);
      LinesAfterText(ls[0], "\n" + rest);
      assert ("\n" + rest)[1..] == rest;
      assert Lines("\n" + rest) == [[]] + Lines(rest);
      assert ls[0] + [] == ls[0];
    }
  }

  /** The text of lines each ended by `"\n"`, as a program printing one record per line writes it. */
  function Unlines(ls: seq<string>): string
  {
    if ls == [] then [] else ls[0] + "\n" + Unlines(ls[1..])
  }

  /** Breaking newline-terminated lines gives the lines back, then the empty piece after the last break. */
  lemma {:induction false} LinesUnlines(ls: seq<string>)
    requires forall k :: 0 <= k < |ls| ==> NoBreak(ls[k])
    ensures Lines(Unlines(ls)) == ls + [[]]
  {
    if ls != [] {
      var rest := Unlines(ls[1..]);
      LinesUnlines(ls[1..]);
      assert Unlines(ls) == ls[0] + ("\n" + rest);
      LinesAfterText(ls[0], "\n" + rest);
      assert ("\n" + rest)[1..] == rest;
      assert Lines("\n" + rest) == [[]] + Lines(rest);
      assert ls[0] + [] == ls[0];
      assert ls + [[]] == [ls[0]] + (ls[1..] + [[]]);
    }
  }

  /**
   * `s.replace(pat, rep)`: every occurrence of `pat`, found scanning from the left
   * without overlaps, becomes `rep`.
   */
  function Replace(s: string, pat: string, rep: string): string
    requires pat != []
    decreases |s|
  {
    if |pat| <= |s| && s[..|pat|] == pat then rep + Replace(s[|pat|..], pat, rep)
    else if s == [] then []
    else [s[0]] + Replace(s[1..], pat, rep)
  }

  /** Whether `pat` occurs in `s` starting at position `k`. */
  predicate MatchAt(s: string, k: nat, pat: string) {
    k + |pat| <= |s| && s[k..k + |pat|] == pat
  }

  /** `pat not in s`. */
  predicate Absent(s: string, pat: string) {
    forall k :: 0 <= k <= |s| ==> !MatchAt(s, k, pat)
  }

  /** No proper, non-empty suffix of `pat` is also a prefix of it: two occurrences cannot overlap. */
  predicate Borderless(pat: string) {
    forall d :: 0 < d < |pat| ==> pat[d..] != pat[..|pat| - d]
  }

  /** Text in front of `t` in which no occurrence of `pat` starts is copied unchanged. */
  lemma {:induction false} ReplacePassesOver(p: string, t: string, pat: string, rep: string)
    requires pat != []
    requires forall k: nat :: k < |p| ==> !MatchAt(p + t, k, pat)
    ensures Replace(p + t, pat, rep) == p + Replace(t, pat, rep)
  {
    if p != [] {
      var s := p + t;
      assert !MatchAt(s, 0, pat);
      if |pat| <= |s| {
        assert s[..|pat|] == s[0..0 + |pat|];
      }
      assert s[0] == p[0];
      assert s[1..] == p[1..] + t;
      forall k: nat | k < |p[1..]| ensures !MatchAt(p[1..] + t, k, pat) {
        assert !MatchAt(s, k + 1, pat);
        if k + |pat| <= |p[1..] + t| {
          assert (p[1..] + t)[k..k + |pat|] == s[k + 1..k + 1 + |pat|];
        }
      }
      ReplacePassesOver(p[1..], t, pat, rep);
    } else {
      assert p + t == t;
    }
  }

  /**
   * No occurrence of a borderless `pat` starts inside a piece that does not
   * contain it when an occurrence of `pat` follows that piece.
   */
  lemma NoStraddle(p: string, pat: string, t: string)
    requires pat != [] && Borderless(pat) && Absent(p, pat)
    ensures forall k: nat :: k < |p| ==> !MatchAt(p + (pat + t), k, pat)
  {
    var s := p + (pat + t);
    forall k: nat | k < |p| ensures !MatchAt(s, k, pat) {
      if k + |pat| <= |p| {
        assert !MatchAt(p, k, pat);
        assert s[k..k + |pat|] == p[k..k + |pat|];
      } else {
        var d := |p| - k;
        assert pat[d..] != pat[..|pat| - d];
        assert s[|p|..k + |pat|] == pat[..|pat| - d];
        assert s[k..k + |pat|][d..] == s[|p|..k + |pat|];
      }
    }
  }

  /**
   * Filling a template: when the pattern cannot overlap itself and no piece
   * contains it, the `pat`-joined pieces become the `rep`-joined pieces.
   */
  lemma {:induction false} ReplaceJoin(pieces: seq<string>, pat: string, rep: string)
    requires pat != [] && Borderless(pat)
    requires forall i :: 0 <= i < |pieces| ==> Absent(pieces[i], pat)
    ensures Replace(Join(pieces, pat), pat, rep) == Join(pieces, rep)
  {
    if |pieces| == 1 {
      assert pieces[0] + [] == pieces[0];
      forall k: nat | k < |pieces[0]| ensures !MatchAt(pieces[0] + [], k, pat) {
        assert !MatchAt(pieces[0], k, pat);
      }
      ReplacePassesOver(pieces[0], [], pat, rep);
    } else if |pieces| > 1 {
      ReplaceJoin(pieces[1..], pat, rep);
      ReplaceJoinStep(pieces, pat, rep);
    }
  }

  /** One more piece in front: it is copied, its separator replaced, and the rest handled alike. */
  lemma ReplaceJoinStep(pieces: seq<string>, pat: string, rep: string)
    requires pat != [] && Borderless(pat) && |pieces| > 1
    requires Absent(pieces[0], pat)
    requires Replace(Join(pieces[1..], pat), pat, rep) == Join(pieces[1..], rep)
    ensures Replace(Join(pieces, pat), pat, rep) == Join(pieces, rep)
  {
    var p, t := pieces[0], Join(pieces[1..], pat);
    JoinCons(pieces, pat);
    NoStraddle(p, pat, t);
    ReplacePassesOver(p, pat + t, pat, rep);
    assert (pat + t)[..|pat|] == pat;
    assert (pat + t)[|pat|..] == t;
    JoinCons(pieces, rep);
  }
}
