/**
 * The string operations the dependency tools rely on: whitespace as
 * Python's `str.isspace` defines it, `str.strip()`, `str.split()` with no
 * separator, the first-occurrence search behind `str.split(":", 1)`, and
 * the substring test `sub in s`.
 *
 * Scanning is done by index (`SkipSpace`, `SkipWord`, `SkipSpaceBack`), so
 * that stripping and splitting are slices of the original string.
 */
module Text {

  /**
   * The characters for which Python's `str.isspace()` holds, by code point:
   * tab to carriage return, the four information separators, space, NEL,
   * no-break space, and the Unicode space separators and line/paragraph
   * separators.
   */
  predicate IsSpace(c: char)
  {
    var n := c as int;
    || 0x09 <= n <= 0x0D
    || 0x1C <= n <= 0x20
    || n == 0x85 || n == 0xA0 || n == 0x1680
    || 0x2000 <= n <= 0x200A
    || n == 0x2028 || n == 0x2029 || n == 0x202F || n == 0x205F || n == 0x3000
  }

  ghost predicate AllSpace(s: string)
  {
    forall i :: 0 <= i < |s| ==> IsSpace(s[i])
  }

  ghost predicate NoSpace(s: string)
  {
    forall i :: 0 <= i < |s| ==> !IsSpace(s[i])
  }

  /** The end of the run of whitespace that starts at index `i`. */
  function SkipSpace(s: string, i: nat): (j: nat)
    requires i <= |s|
    ensures i <= j <= |s|
    ensures forall k :: i <= k < j ==> IsSpace(s[k])
    ensures j == |s| || !IsSpace(s[j])
    decreases |s| - i
  {
    if i < |s| && IsSpace(s[i]) then SkipSpace(s, i + 1) else i
  }

  /** The end of the run of non-whitespace that starts at index `i`. */
  function SkipWord(s: string, i: nat): (j: nat)
    requires i <= |s|
    ensures i <= j <= |s|
    ensures forall k :: i <= k < j ==> !IsSpace(s[k])
    ensures j == |s| || IsSpace(s[j])
    decreases |s| - i
  {
    if i < |s| && !IsSpace(s[i]) then SkipWord(s, i + 1) else i
  }

  /** The start of the run of whitespace that ends just before index `j`. */
  function SkipSpaceBack(s: string, j: nat): (i: nat)
    requires j <= |s|
    ensures i <= j
    ensures forall k :: i <= k < j ==> IsSpace(s[k])
    ensures i == 0 || !IsSpace(s[i - 1])
  {
    if j > 0 && IsSpace(s[j - 1]) then SkipSpaceBack(s, j - 1) else j
  }

  /** Where `s.strip()` starts and ends in `s`; start >= end when `s` is all whitespace. */
  function StripBounds(s: string): (b: (nat, nat))
    ensures b.0 <= |s| && b.1 <= |s|
    ensures forall k :: 0 <= k < b.0 ==> IsSpace(s[k])
    ensures forall k :: b.1 <= k < |s| ==> IsSpace(s[k])
    ensures b.0 < b.1 ==> !IsSpace(s[b.0]) && !IsSpace(s[b.1 - 1])
    ensures b.0 >= b.1 ==> AllSpace(s)
  {
    var a := SkipSpace(s, 0);
    var e := SkipSpaceBack(s, |s|);
    (a, e)
  }

  /**
   * `s.strip()`: what is left of `s` after dropping whitespace at both ends.
   * The result neither starts nor ends with whitespace, and it is empty
   * exactly when `s` is all whitespace.
   */
  function Strip(s: string): (r: string)
    ensures |r| <= |s|
    ensures r == [] || (!IsSpace(r[0]) && !IsSpace(r[|r| - 1]))
    ensures r == [] <==> AllSpace(s)
  {
    var b := StripBounds(s);
    if b.0 < b.1 then s[b.0..b.1] else []
  }

  /** Stripping removes whitespace only, and only at the two ends: `s` is the result padded with whitespace. */
  lemma StripIsInfix(s: string)
    ensures exists a, c :: AllSpace(a) && AllSpace(c) && s == a + Strip(s) + c
  {
    var b := StripBounds(s);
    var r := Strip(s);
    var a: string, c: string;
    if b.0 >= b.1 {
      a, c := [], s;
      assert r == [];
    } else {
      a, c := s[..b.0], s[b.1..];
      assert r == s[b.0..b.1];
      forall k | 0 <= k < |a| ensures IsSpace(a[k]) {
        assert a[k] == s[k];
      }
      forall k | 0 <= k < |c| ensures IsSpace(c[k]) {
        assert c[k] == s[b.1 + k];
      }
    }
    assert s == a + r + c;
    assert AllSpace(a) && AllSpace(c);
  }

  /** Strip removes nothing from a string that has no outer whitespace. */
  lemma StripIdempotent(s: string)
    ensures Strip(Strip(s)) == Strip(s)
  {
    var r := Strip(s);
    if r != [] {
      assert SkipSpace(r, 0) == 0;
      assert SkipSpaceBack(r, |r|) == |r|;
      assert r[0..|r|] == r;
    }
  }

  /** Stripping never removes a character that is not whitespace. */
  lemma StripKeeps(s: string, c: char)
    requires !IsSpace(c)
    ensures c in Strip(s) <==> c in s
  {
    var b := StripBounds(s);
    if c in s {
      var k :| 0 <= k < |s| && s[k] == c;
      assert b.0 <= k < b.1;
      assert Strip(s)[k - b.0] == c;
    }
  }

  /**
   * `s.split()`: the maximal runs of non-whitespace characters of `s`, in
   * order. No word is empty and no word holds whitespace.
   */
  function Words(s: string): (ws: seq<string>)
    ensures forall k :: 0 <= k < |ws| ==> ws[k] != [] && NoSpace(ws[k])
    decreases |s|
  {
    var a := SkipSpace(s, 0);
    if a == |s| then []
    else
      var e := SkipWord(s, a);
      assert NoSpace(s[a..e]) by {
        forall k | 0 <= k < e - a ensures !IsSpace(s[a..e][k]) {
          assert s[a..e][k] == s[a + k];
        }
      }
      [s[a..e]] + Words(s[e..])
  }

  /** `gaps[0] + ws[0] + gaps[1] + ... + ws[n - 1] + gaps[n]`. */
  function Interleave(gaps: seq<string>, ws: seq<string>): string
    requires |gaps| == |ws| + 1
    decreases |ws|
  {
    if ws == [] then gaps[0] else gaps[0] + ws[0] + Interleave(gaps[1..], ws[1..])
  }

  /** Separators of words: all whitespace, and none empty between two words. */
  ghost predicate Separators(gaps: seq<string>)
  {
    && (forall i :: 0 <= i < |gaps| ==> AllSpace(gaps[i]))
    && (forall i :: 0 < i < |gaps| - 1 ==> gaps[i] != [])
  }

  /**
   * The split breaks `s` exactly at its whitespace runs: `s` is its words
   * with whitespace around and between them, and at least one whitespace
   * character between two words.
   */
  lemma {:induction false} WordsAreRuns(s: string)
    ensures exists gaps :: |gaps| == |Words(s)| + 1 && Separators(gaps) && s == Interleave(gaps, Words(s))
    decreases |s|
  {
    var a := SkipSpace(s, 0);
    if a == |s| {
      var gaps := [s];
      assert Separators(gaps);
      assert s == Interleave(gaps, Words(s));
    } else {
      var e := SkipWord(s, a);
      var pre, w, rest := s[..a], s[a..e], s[e..];
      assert Words(s) == [w] + Words(rest);
      assert s == pre + w + rest;
      WordsAreRuns(rest);
      var g :| |g| == |Words(rest)| + 1 && Separators(g) && rest == Interleave(g, Words(rest));
      assert AllSpace(pre) by {
        forall k | 0 <= k < a ensures IsSpace(pre[k]) {
          assert pre[k] == s[k];
        }
      }
      if Words(rest) != [] {
        GapBeforeWord(s, e, g, Words(rest));
      }
      RunsCons(pre, w, rest, g, Words(rest));
    }
  }

  /** Whitespace, then a word, then separated words: the separators grow by the leading whitespace. */
  lemma RunsCons(pre: string, w: string, rest: string, g: seq<string>, ws: seq<string>)
    requires AllSpace(pre) && |g| == |ws| + 1 && Separators(g) && rest == Interleave(g, ws)
    requires ws == [] || g[0] != []
    ensures var gaps := [pre] + g;
      |gaps| == |ws| + 2 && Separators(gaps) && pre + w + rest == Interleave(gaps, [w] + ws)
  {
    var gaps := [pre] + g;
    assert gaps[1..] == g && ([w] + ws)[1..] == ws;
    forall i | 0 < i < |gaps| - 1 ensures gaps[i] != [] {
      assert gaps[i] == g[i - 1];
    }
    forall i | 0 < i < |gaps| ensures AllSpace(gaps[i]) {
      assert gaps[i] == g[i - 1];
    }
  }

  /** After a word ends at `e`, the whitespace before the next word is not empty. */
  lemma GapBeforeWord(s: string, e: nat, g: seq<string>, ws: seq<string>)
    requires e <= |s| && (e == |s| || IsSpace(s[e]))
    requires ws != [] && |g| == |ws| + 1
    requires ws[0] != [] && NoSpace(ws[0])
    requires s[e..] == Interleave(g, ws)
    ensures g[0] != []
  {
  }

  /** `" ".join(ws)`: the words separated by single spaces. */
  function Unwords(ws: seq<string>): string
  {
    if |ws| == 0 then []
    else if |ws| == 1 then ws[0]
    else ws[0] + " " + Unwords(ws[1..])
  }

  /** Every character of `s` that is not whitespace, in order. */
  function NonSpace(s: string): string
  {
    NonSpaceIn(s, 0, |s|)
  }

  /** The characters of `s[i..j]` that are not whitespace, in order. */
  function NonSpaceIn(s: string, i: nat, j: nat): string
    requires i <= j <= |s|
    decreases j - i
  {
    if i == j then [] else Keep(s[i]) + NonSpaceIn(s, i + 1, j)
  }

  /** A character as NonSpace keeps it: dropped when it is whitespace. */
  function Keep(c: char): string
  {
    if IsSpace(c) then [] else [c]
  }

  function Concat(ws: seq<string>): string
  {
    if |ws| == 0 then [] else ws[0] + Concat(ws[1..])
  }

  /**
   * The index of the first `c` in `s`, or `|s|` when `s` has none; this is
   * where `s.split(c, 1)` cuts.
   */
  function IndexOf(s: string, c: char): (k: nat)
    ensures k <= |s|
    ensures k < |s| <==> c in s
    ensures k < |s| ==> s[k] == c
    ensures c !in s[..k]
    decreases |s|
  {
    if |s| == 0 then 0
    else if s[0] == c then 0
    else 1 + IndexOf(s[1..], c)
  }

  /** `sub in s`, Python's substring test: `sub` occurs at some position of `s`. */
  function Contains(s: string, sub: string): (r: bool)
    ensures r <==> exists k :: 0 <= k <= |s| - |sub| && sub <= s[k..]
    decreases |s|
  {
    if sub <= s then
      assert s[0..] == s;
      true
    else if |s| > 0 then
      OccursInTail(s, sub);
      Contains(s[1..], sub)
    else
      false
  }

  /** When `sub` does not start `s`, it occurs in `s` exactly when it occurs in `s[1..]`. */
  lemma OccursInTail(s: string, sub: string)
    requires |s| > 0 && !(sub <= s)
    ensures (exists k :: 0 <= k <= |s| - |sub| && sub <= s[k..])
        <==> (exists k :: 0 <= k <= |s| - 1 - |sub| && sub <= s[1..][k..])
  {
    if exists k :: 0 <= k <= |s| - 1 - |sub| && sub <= s[1..][k..] {
      var k :| 0 <= k <= |s| - 1 - |sub| && sub <= s[1..][k..];
      assert s[1..][k..] == s[k + 1..];
    }
    if exists k :: 0 <= k <= |s| - |sub| && sub <= s[k..] {
      var k :| 0 <= k <= |s| - |sub| && sub <= s[k..];
      assert s[0..] == s;
      assert k != 0;
      assert s[1..][k - 1..] == s[k..];
    }
  }

  lemma AppendAssoc(a: string, b: string, c: string)
    ensures a + (b + c) == (a + b) + c
  {
  }

  /** Splitting a range at j splits its non-whitespace at the same place. */
  lemma {:induction false} NonSpaceInSplit(s: string, i: nat, j: nat, k: nat)
    requires i <= j <= k <= |s|
    ensures NonSpaceIn(s, i, k) == NonSpaceIn(s, i, j) + NonSpaceIn(s, j, k)
    decreases j - i
  {
    if i == j {
      assert [] + NonSpaceIn(s, j, k) == NonSpaceIn(s, j, k);
    } else {
      var x, y, z := Keep(s[i]), NonSpaceIn(s, i + 1, j), NonSpaceIn(s, j, k);
      assert NonSpaceIn(s, i, k) == x + NonSpaceIn(s, i + 1, k);
      assert NonSpaceIn(s, i, j) == x + y;
      NonSpaceInSplit(s, i + 1, j, k);
      AppendAssoc(x, y, z);
    }
  }

  /** A range of `t` that lies at offset e inside `s` has the same non-whitespace there. */
  lemma {:induction false} NonSpaceInShift(t: string, s: string, e: nat, i: nat, j: nat)
    requires e + |t| <= |s|
    requires forall k :: 0 <= k < |t| ==> t[k] == s[e + k]
    requires i <= j <= |t|
    ensures NonSpaceIn(t, i, j) == NonSpaceIn(s, e + i, e + j)
    decreases j - i
  {
    if i < j {
      assert t[i] == s[e + i];
      NonSpaceInShift(t, s, e, i + 1, j);
      assert NonSpaceIn(t, i, j) == Keep(t[i]) + NonSpaceIn(t, i + 1, j);
      assert NonSpaceIn(s, e + i, e + j) == Keep(s[e + i]) + NonSpaceIn(s, e + i + 1, e + j);
    }
  }

  /** The slice `s[a..b]` has the non-whitespace of the range from a to b. */
  lemma NonSpaceSlice(s: string, a: nat, b: nat)
    requires a <= b <= |s|
    ensures NonSpace(s[a..b]) == NonSpaceIn(s, a, b)
  {
    var t := s[a..b];
    assert forall k :: 0 <= k < |t| ==> t[k] == s[a + k];
    NonSpaceInShift(t, s, a, 0, b - a);
  }

  /** A run of whitespace has no non-whitespace. */
  lemma {:induction false} NonSpaceInSpaces(s: string, i: nat, j: nat)
    requires i <= j <= |s|
    requires forall k :: i <= k < j ==> IsSpace(s[k])
    ensures NonSpaceIn(s, i, j) == []
    decreases j - i
  {
    if i < j {
      NonSpaceInSpaces(s, i + 1, j);
    }
  }

  /** A run without whitespace is its own non-whitespace. */
  lemma {:induction false} NonSpaceInWord(s: string, i: nat, j: nat)
    requires i <= j <= |s|
    requires forall k :: i <= k < j ==> !IsSpace(s[k])
    ensures NonSpaceIn(s, i, j) == s[i..j]
    decreases j - i
  {
    if i < j {
      NonSpaceInWord(s, i + 1, j);
      assert s[i..j] == [s[i]] + s[i + 1..j];
    }
  }

  lemma ConcatCons(w: string, ws: seq<string>)
    ensures Concat([w] + ws) == w + Concat(ws)
  {
    assert ([w] + ws)[0] == w && ([w] + ws)[1..] == ws;
  }

  /** Whitespace up to a, then a word up to e: the non-whitespace is that word and what follows. */
  lemma NonSpaceSpacesThenWord(s: string, a: nat, e: nat)
    requires a <= e <= |s|
    requires forall k :: 0 <= k < a ==> IsSpace(s[k])
    requires forall k :: a <= k < e ==> !IsSpace(s[k])
    ensures NonSpace(s) == s[a..e] + NonSpace(s[e..])
  {
    var n := |s|;
    var w, rest := NonSpaceIn(s, a, e), NonSpaceIn(s, e, n);
    assert NonSpaceIn(s, 0, n) == NonSpaceIn(s, 0, a) + NonSpaceIn(s, a, n) by {
      NonSpaceInSplit(s, 0, a, n);
    }
    assert NonSpaceIn(s, a, n) == w + rest by {
      NonSpaceInSplit(s, a, e, n);
    }
    assert NonSpaceIn(s, 0, a) == [] by {
      NonSpaceInSpaces(s, 0, a);
    }
    assert w == s[a..e] by {
      NonSpaceInWord(s, a, e);
    }
    assert NonSpace(s[e..]) == rest by {
      NonSpaceSlice(s, e, n);
      assert s[e..n] == s[e..];
    }
    assert [] + (w + rest) == w + rest;
  }

  /** Splitting loses exactly the whitespace: the words spell out the rest. */
  lemma {:induction false} WordsKeepNonSpace(s: string)
    ensures Concat(Words(s)) == NonSpace(s)
    decreases |s|
  {
    var a := SkipSpace(s, 0);
    if a < |s| {
      var e := SkipWord(s, a);
      NonSpaceSpacesThenWord(s, a, e);
      WordsKeepNonSpace(s[e..]);
      ConcatCons(s[a..e], Words(s[e..]));
    } else {
      NonSpaceInSpaces(s, 0, |s|);
    }
  }

  /** Stripping removes whitespace only: the non-whitespace characters stay, in order. */
  lemma NonSpaceStrip(s: string)
    ensures NonSpace(Strip(s)) == NonSpace(s)
  {
    var b := StripBounds(s);
    if b.0 < b.1 {
      NonSpaceInSplit(s, 0, b.0, |s|);
      NonSpaceInSplit(s, b.0, b.1, |s|);
      NonSpaceInSpaces(s, 0, b.0);
      NonSpaceInSpaces(s, b.1, |s|);
      assert [] + NonSpaceIn(s, b.0, |s|) == NonSpaceIn(s, b.0, |s|);
      assert NonSpaceIn(s, b.0, b.1) + [] == NonSpaceIn(s, b.0, b.1);
      NonSpaceSlice(s, b.0, b.1);
    } else {
      assert forall k :: 0 <= k < |s| ==> IsSpace(s[k]);
      NonSpaceInSpaces(s, 0, |s|);
    }
  }

  /** Scanning the tail of a string gives the same runs, one index earlier. */
  lemma {:induction false} SkipTail(s: string, i: nat)
    requires 1 <= i <= |s|
    ensures SkipSpace(s, i) == 1 + SkipSpace(s[1..], i - 1)
    ensures SkipWord(s, i) == 1 + SkipWord(s[1..], i - 1)
    decreases |s| - i
  {
    if i < |s| {
      assert s[1..][i - 1] == s[i];
      SkipTail(s, i + 1);
    }
  }

  lemma TailSlices(s: string, i: nat, j: nat)
    requires 1 <= i <= j <= |s|
    ensures s[1..][i - 1..j - 1] == s[i..j]
    ensures s[1..][j - 1..] == s[j..]
  {
    forall k | 0 <= k < j - i ensures s[1..][i - 1..j - 1][k] == s[i..j][k] {
      assert s[1..][i - 1..j - 1][k] == s[i + k];
    }
    forall k | 0 <= k < |s| - j ensures s[1..][j - 1..][k] == s[j..][k] {
      assert s[1..][j - 1..][k] == s[j + k];
    }
  }

  /** Leading whitespace does not change the split. */
  lemma WordsSkipSpace(s: string)
    requires |s| > 0 && IsSpace(s[0])
    ensures Words(s) == Words(s[1..])
  {
    var t := s[1..];
    SkipTail(s, 1);
    var a := SkipSpace(t, 0);
    assert SkipSpace(s, 0) == 1 + a;
    if a < |t| {
      var e := SkipWord(t, a);
      SkipTail(s, 1 + a);
      TailSlices(s, 1 + a, 1 + e);
    }
  }

  /** A run of non-whitespace ends where the whitespace or the string starts. */
  lemma {:induction false} SkipWordOver(w: string, rest: string, i: nat)
    requires i <= |w| && NoSpace(w)
    requires rest == [] || IsSpace(rest[0])
    ensures SkipWord(w + rest, i) == |w|
    decreases |w| - i
  {
    if i < |w| {
      assert (w + rest)[i] == w[i];
      SkipWordOver(w, rest, i + 1);
    } else if rest != [] {
      assert (w + rest)[i] == rest[0];
    }
  }

  /** A word followed by nothing or by whitespace is split off whole. */
  lemma WordsOfWordThen(w: string, rest: string)
    requires w != [] && NoSpace(w)
    requires rest == [] || IsSpace(rest[0])
    ensures Words(w + rest) == [w] + Words(rest)
  {
    assert (w + rest)[0] == w[0];
    assert SkipSpace(w + rest, 0) == 0;
    SkipWordOver(w, rest, 0);
    assert (w + rest)[0..|w|] == w;
    assert (w + rest)[|w|..] == rest;
  }

  lemma WordsOfWordSpaceThen(w: string, tail: string)
    requires w != [] && NoSpace(w)
    ensures Words(w + " " + tail) == [w] + Words(tail)
  {
    var rest := " " + tail;
    assert w + " " + tail == w + rest;
    assert IsSpace(rest[0]);
    WordsOfWordThen(w, rest);
    WordsSkipSpace(rest);
    assert rest[1..] == tail;
  }

  /** Splitting words joined by single spaces gives the words back. */
  lemma {:induction false} WordsUnwords(ws: seq<string>)
    requires forall i :: 0 <= i < |ws| ==> ws[i] != [] && NoSpace(ws[i])
    ensures Words(Unwords(ws)) == ws
    decreases |ws|
  {
    if |ws| == 1 {
      WordsOfWordThen(ws[0], []);
      assert ws[0] + [] == ws[0];
    } else if |ws| > 1 {
      WordsUnwords(ws[1..]);
      WordsOfWordSpaceThen(ws[0], Unwords(ws[1..]));
      assert ws == [ws[0]] + ws[1..];
    }
  }

  /** A run of whitespace from `i` to `j` followed by a non-whitespace character is skipped exactly. */
  lemma {:induction false} SkipSpaceTo(s: string, i: nat, j: nat)
    requires i <= j < |s| && !IsSpace(s[j])
    requires forall k :: i <= k < j ==> IsSpace(s[k])
    ensures SkipSpace(s, i) == j
    decreases j - i
  {
    if i < j {
      SkipSpaceTo(s, i + 1, j);
    }
  }

  /** The same, scanning backwards from `j` down to a non-whitespace character at `i - 1`. */
  lemma {:induction false} SkipSpaceBackTo(s: string, i: nat, j: nat)
    requires 0 < i <= j <= |s| && !IsSpace(s[i - 1])
    requires forall k :: i <= k < j ==> IsSpace(s[k])
    ensures SkipSpaceBack(s, j) == i
    decreases j - i
  {
    if i < j {
      SkipSpaceBackTo(s, i, j - 1);
    }
  }

  /** Stripping a string that is some text between two runs of whitespace gives the text. */
  lemma StripExact(a: string, b: string, c: string)
    requires AllSpace(a) && AllSpace(c)
    requires b != [] && !IsSpace(b[0]) && !IsSpace(b[|b| - 1])
    ensures Strip(a + b + c) == b
  {
    var s := a + b + c;
    assert s[|a|] == b[0] && s[|a| + |b| - 1] == b[|b| - 1];
    forall k | 0 <= k < |a| ensures IsSpace(s[k]) {
      assert s[k] == a[k];
    }
    forall k | |a| + |b| <= k < |s| ensures IsSpace(s[k]) {
      assert s[k] == c[k - |a| - |b|];
    }
    SkipSpaceTo(s, 0, |a|);
    SkipSpaceBackTo(s, |a| + |b|, |s|);
    assert s[|a|..|a| + |b|] == b;
  }

  /** The first `c` of `p + [c] + rest` is the one after `p` when `p` has none. */
  lemma {:induction false} IndexOfAfter(p: string, c: char, rest: string)
    requires c !in p
    ensures IndexOf(p + [c] + rest, c) == |p|
    decreases |p|
  {
    var s := p + [c] + rest;
    if |p| > 0 {
      assert s[0] == p[0] && s[1..] == p[1..] + [c] + rest;
      IndexOfAfter(p[1..], c, rest);
    } else {
      assert s[0] == c;
    }
  }

  /** Words joined by spaces start and end with a character of the words. */
  lemma {:induction false} UnwordsEnds(ws: seq<string>)
    requires ws != []
    requires forall i :: 0 <= i < |ws| ==> ws[i] != [] && NoSpace(ws[i])
    ensures var u := Unwords(ws); u != [] && !IsSpace(u[0]) && !IsSpace(u[|u| - 1])
    decreases |ws|
  {
    if |ws| > 1 {
      UnwordsEnds(ws[1..]);
      var u := Unwords(ws);
      var t := Unwords(ws[1..]);
      assert u == ws[0] + " " + t;
      assert u[0] == ws[0][0];
      assert u[|u| - 1] == t[|t| - 1];
    }
  }
}
