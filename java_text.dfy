/**
 * The handful of `java.lang.String` and Apache Commons `StringUtils` operations the
 * command-line driver relies on, with the Java semantics written out: `trim`,
 * `split` with a one-character pattern and with the pattern `\s+` (limit 0, so
 * trailing empty pieces are dropped and leading ones kept), `endsWith`,
 * `StringUtils.isBlank`, `StringUtils.chop`, `replace`, `toLowerCase`,
 * `equalsIgnoreCase` and `Integer.toString`.
 */
module JavaText {

  function Last<T>(s: seq<T>): T
    requires |s| > 0
  {
    s[|s| - 1]
  }

  /** `n` copies of `x`. */
  function Repeat<T>(x: T, n: nat): (r: seq<T>)
    ensures |r| == n
    ensures forall i :: 0 <= i < n ==> r[i] == x
  {
    if n == 0 then [] else Repeat(x, n - 1) + [x]
  }

  // ---------------------------------------------------------------------------
  // Character classes
  // ---------------------------------------------------------------------------

  /** `String.trim` removes every character whose code is at most U+0020 from both ends. */
  predicate IsTrimmable(c: char) {
    c <= ' '
  }

  /**
   * `Character.isWhitespace` of the Java 6 to 8 runtimes (Unicode up to 6.2):
   * the Unicode space, line and paragraph separators except the three no-break
   * spaces, plus the ASCII controls TAB, LF, VT, FF, CR and the four
   * information separators U+001C..U+001F. U+180E, the Mongolian vowel
   * separator, is still a space separator in those versions.
   */
  predicate IsWhitespace(c: char) {
    var n := c as int;
    (9 <= n <= 13) || (28 <= n <= 32)
    || n == 0x1680 || n == 0x180E || (0x2000 <= n <= 0x2006) || (0x2008 <= n <= 0x200A)
    || n == 0x2028 || n == 0x2029 || n == 0x205F || n == 0x3000
  }

  /** The regular-expression class `\s`: `[ \t\n\x0B\f\r]`. */
  predicate IsRegexSpace(c: char) {
    c == ' ' || c == '\t' || c == '\n' || c == '\r' || c as int == 11 || c as int == 12
  }

  lemma RegexSpaceIsTrimmable(c: char)
    ensures IsRegexSpace(c) ==> IsTrimmable(c)
  {
  }

  /** No character of `w` belongs to `\s`. */
  predicate NoSpace(w: string) {
    forall i :: 0 <= i < |w| ==> !IsRegexSpace(w[i])
  }

  /** `StringUtils.isBlank`: empty, or made only of `Character.isWhitespace` characters. */
  predicate IsBlank(s: string) {
    forall i :: 0 <= i < |s| ==> IsWhitespace(s[i])
  }

  // ---------------------------------------------------------------------------
  // Prefixes, suffixes, trimming
  // ---------------------------------------------------------------------------

  predicate StartsWith(s: string, prefix: string) {
    prefix <= s
  }

  predicate EndsWith(s: string, suffix: string) {
    |suffix| <= |s| && s[|s| - |suffix|..] == suffix
  }

  /** `StringUtils.contains(s, t)`, written as a search from the left. */
  predicate Contains(s: string, t: string)
    decreases |s|
  {
    StartsWith(s, t) || (|s| > 0 && Contains(s[1..], t))
  }

  function TrimLeft(s: string): (r: string)
    ensures |r| <= |s| && r == s[|s| - |r|..]
    ensures r == [] || !IsTrimmable(r[0])
    ensures forall i :: 0 <= i < |s| - |r| ==> IsTrimmable(s[i])
  {
    if s == [] || !IsTrimmable(s[0]) then s else TrimLeft(s[1..])
  }

  function TrimRight(s: string): (r: string)
    ensures r <= s
    ensures r == [] || !IsTrimmable(Last(r))
    ensures forall i :: |r| <= i < |s| ==> IsTrimmable(s[i])
  {
    if s == [] || !IsTrimmable(Last(s)) then s else TrimRight(s[..|s| - 1])
  }

  /** `String.trim`. */
  function Trim(s: string): (r: string)
    ensures r == [] || (!IsTrimmable(r[0]) && !IsTrimmable(Last(r)))
  {
    var t := TrimRight(s);
    var r := TrimLeft(t);
    assert r != [] ==> Last(r) == Last(t);
    r
  }

  /** Every character of `x` is one `trim` removes. */
  predicate AllTrimmable(x: string) {
    forall k :: 0 <= k < |x| ==> IsTrimmable(x[k])
  }

  /** `r` stands at offset `i` of `s`, with only trimmable characters before and after it. */
  predicate TrimmedAt(s: string, r: string, i: nat) {
    i + |r| <= |s| && s[i..i + |r|] == r && AllTrimmable(s[..i]) && AllTrimmable(s[i + |r|..])
  }

  /** `trim` removes characters up to U+0020 from the two ends of the text, and nothing else. */
  lemma TrimRemovesOnlyEnds(s: string)
    ensures exists i: nat :: TrimmedAt(s, Trim(s), i)
  {
    var t := TrimRight(s);
    var r := Trim(s);
    assert r == TrimLeft(t);
    var i := |t| - |r|;
    TrimmedBetween(s, t, r, i);
    assert TrimmedAt(s, Trim(s), i);
  }

  /** `r` is what is left of the start `t` of `s` after the first `i` characters, all of them trimmable. */
  lemma TrimmedBetween(s: string, t: string, r: string, i: nat)
    requires t <= s && i <= |t| && r == t[i..]
    requires forall k :: 0 <= k < i ==> IsTrimmable(t[k])
    requires forall k :: |t| <= k < |s| ==> IsTrimmable(s[k])
    ensures TrimmedAt(s, r, i)
  {
    assert t == s[..|t|];
    assert forall k :: 0 <= k < i ==> s[..i][k] == t[k];
    assert forall k :: 0 <= k < |s| - |t| ==> s[|t|..][k] == s[|t| + k];
  }

  /** Trimming stops at the first kept character: a trimmable tail goes, the rest stays. */
  lemma {:induction false} TrimRightDropsTail(p: string, tail: string)
    requires p == [] || !IsTrimmable(Last(p))
    requires forall k :: 0 <= k < |tail| ==> IsTrimmable(tail[k])
    ensures TrimRight(p + tail) == p
    decreases |tail|
  {
    if tail == [] {
      assert p + tail == p;
    } else {
      var s := p + tail;
      assert Last(s) == tail[|tail| - 1];
      assert s[..|s| - 1] == p + tail[..|tail| - 1];
      TrimRightDropsTail(p, tail[..|tail| - 1]);
    }
  }

  /** A trimmable lead goes, the rest stays. */
  lemma {:induction false} TrimLeftDropsLead(lead: string, q: string)
    requires q == [] || !IsTrimmable(q[0])
    requires forall k :: 0 <= k < |lead| ==> IsTrimmable(lead[k])
    ensures TrimLeft(lead + q) == q
    decreases |lead|
  {
    if lead == [] {
      assert lead + q == q;
    } else {
      var s := lead + q;
      assert s[0] == lead[0];
      assert s[1..] == lead[1..] + q;
      TrimLeftDropsLead(lead[1..], q);
    }
  }

  /** Trimming a text made of a core between trimmable ends gives the core. */
  lemma TrimEnds(lead: string, core: string, tail: string)
    requires forall k :: 0 <= k < |lead| ==> IsTrimmable(lead[k])
    requires forall k :: 0 <= k < |tail| ==> IsTrimmable(tail[k])
    requires core != [] && !IsTrimmable(core[0]) && !IsTrimmable(Last(core))
    ensures Trim(lead + core + tail) == core
  {
    var p := lead + core;
    assert Last(p) == Last(core);
    TrimRightDropsTail(p, tail);
    TrimLeftDropsLead(lead, core);
  }

  /** Trimming the right end of `p + l` only ever touches `l` when `l` has something left after trimming. */
  lemma TrimRightAppend(p: string, l: string)
    requires TrimRight(l) != []
    ensures TrimRight(p + l) == p + TrimRight(l)
    decreases |l|
  {
    if !IsTrimmable(Last(l)) {
      assert Last(p + l) == Last(l);
    } else {
      assert (p + l)[..|p + l| - 1] == p + l[..|l| - 1];
      TrimRightAppend(p, l[..|l| - 1]);
    }
  }

  /** `StringUtils.chop`: drop the last character, or the final CR LF pair. */
  function Chop(s: string): (r: string)
    ensures r <= s
  {
    if s == [] then s
    else if EndsWith(s, "\r\n") then s[..|s| - 2]
    else s[..|s| - 1]
  }

  // ---------------------------------------------------------------------------
  // Case
  // ---------------------------------------------------------------------------

  function LowerChar(c: char): char {
    if 'A' <= c <= 'Z' then (c as int + 32) as char else c
  }

  /** `String.toLowerCase`, restricted to the ASCII letters. */
  function Lower(s: string): (r: string)
    ensures |r| == |s|
    ensures forall i :: 0 <= i < |s| ==> r[i] == LowerChar(s[i])
  {
    seq(|s|, i requires 0 <= i < |s| => LowerChar(s[i]))
  }

  /**
   * What lower-casing does: no capital is left, every other character is kept,
   * each capital becomes the small letter 32 code points above it, and doing it
   * twice is doing it once.
   */
  lemma LowerMeaning(s: string)
    ensures var r := Lower(s);
            (forall i :: 0 <= i < |r| ==> !('A' <= r[i] <= 'Z')) &&
            (forall i :: 0 <= i < |s| && !('A' <= s[i] <= 'Z') ==> r[i] == s[i]) &&
            (forall i :: 0 <= i < |s| && 'A' <= s[i] <= 'Z' ==> r[i] as int == s[i] as int + 32 && 'a' <= r[i] <= 'z') &&
            Lower(r) == r
  {
    var r := Lower(s);
    assert forall i :: 0 <= i < |r| ==> Lower(r)[i] == r[i];
  }

  /** `String.equalsIgnoreCase`, restricted to the ASCII letters. */
  predicate EqualsIgnoreCase(a: string, b: string) {
    Lower(a) == Lower(b)
  }

  // ---------------------------------------------------------------------------
  // Joining and splitting on one character
  // ---------------------------------------------------------------------------

  /** `StringUtils.join(parts, sep)`. */
  function Join(parts: seq<string>, sep: string): string {
    if |parts| == 0 then []
    else if |parts| == 1 then parts[0]
    else Join(parts[..|parts| - 1], sep) + sep + Last(parts)
  }

  lemma {:induction false} JoinCons(f: string, rest: seq<string>, sep: string)
    requires |rest| > 0
    ensures Join([f] + rest, sep) == f + sep + Join(rest, sep)
    decreases |rest|
  {
    var p := [f] + rest;
    if |rest| == 1 {
      assert p == [f, rest[0]];
      assert p[..1] == [f];
    } else {
      var init := rest[..|rest| - 1];
      assert p[..|p| - 1] == [f] + init;
      assert Last(p) == Last(rest);
      assert Join(p, sep) == Join([f] + init, sep) + sep + Last(rest);
      JoinCons(f, init, sep);
      assert Join(rest, sep) == Join(init, sep) + sep + Last(rest);
      assert Join(p, sep) == f + sep + (Join(init, sep) + sep + Last(rest));
    }
  }

  /** The pieces with `t` added to the last one. */
  function Extend(parts: seq<string>, t: string): (r: seq<string>)
    requires |parts| > 0
    ensures |r| == |parts| && r[..|r| - 1] == parts[..|parts| - 1] && Last(r) == Last(parts) + t
  {
    parts[..|parts| - 1] + [Last(parts) + t]
  }

  lemma ExtendEmpty(parts: seq<string>)
    requires |parts| > 0
    ensures Extend(parts, []) == parts
  {
    var r := Extend(parts, []);
    assert Last(parts) + [] == Last(parts);
    assert r == r[..|r| - 1] + [Last(r)];
    assert parts == parts[..|parts| - 1] + [Last(parts)];
  }

  lemma ExtendTwice(parts: seq<string>, u: string, v: string)
    requires |parts| > 0
    ensures Extend(Extend(parts, u), v) == Extend(parts, u + v)
  {
    var q := Extend(parts, u);
    assert Last(q) + v == Last(parts) + (u + v);
  }

  lemma ExtendAppend(a: seq<string>, b: seq<string>, t: string)
    requires |b| > 0
    ensures Extend(a + b, t) == a + Extend(b, t)
  {
    assert (a + b)[..|a + b| - 1] == a + b[..|b| - 1];
    assert Last(a + b) == Last(b);
  }

  lemma {:induction false} JoinExtend(parts: seq<string>, t: string, sep: string)
    requires |parts| > 0
    ensures Join(Extend(parts, t), sep) == Join(parts, sep) + t
  {
    var r := Extend(parts, t);
    if |parts| > 1 {
      assert Join(r, sep) == Join(parts[..|parts| - 1], sep) + sep + (Last(parts) + t);
    }
  }

  /** The pieces of `s` between occurrences of `sep`, every piece kept (Java's `split` with a negative limit). */
  function SplitAll(s: string, sep: char): (r: seq<string>)
    ensures |r| >= 1
  {
    if s == [] then [[]]
    else
      var init := SplitAll(s[..|s| - 1], sep);
      if Last(s) == sep then init + [[]] else Extend(init, [Last(s)])
  }

  lemma {:induction false} SplitAllOmitsSep(s: string, sep: char)
    ensures forall i :: 0 <= i < |SplitAll(s, sep)| ==> sep !in SplitAll(s, sep)[i]
    decreases |s|
  {
    if s != [] {
      SplitAllOmitsSep(s[..|s| - 1], sep);
    }
  }

  lemma {:induction false} JoinSplitAll(s: string, sep: char)
    ensures Join(SplitAll(s, sep), [sep]) == s
    decreases |s|
  {
    if s != [] {
      var u := s[..|s| - 1];
      var init := SplitAll(u, sep);
      JoinSplitAll(u, sep);
      assert s == u + [Last(s)];
      if Last(s) == sep {
        var r := init + [[]];
        assert r[..|r| - 1] == init;
        assert Join(r, [sep]) == Join(init, [sep]) + [sep] + [];
      } else {
        JoinExtend(init, [Last(s)], [sep]);
      }
    }
  }

  lemma SplitAllSnoc(s: string, c: char, sep: char)
    ensures SplitAll(s + [c], sep) ==
            if c == sep then SplitAll(s, sep) + [[]] else Extend(SplitAll(s, sep), [c])
  {
    assert (s + [c])[..|s|] == s;
  }

  /** Appending text without a separator only lengthens the last piece. */
  lemma {:induction false} SplitAllAppendPlain(s: string, t: string, sep: char)
    requires sep !in t
    ensures SplitAll(s + t, sep) == Extend(SplitAll(s, sep), t)
    decreases |t|
  {
    if t == [] {
      assert s + t == s;
      ExtendEmpty(SplitAll(s, sep));
    } else {
      var u, c := t[..|t| - 1], Last(t);
      assert t == u + [c];
      assert c != sep by { assert c == t[|t| - 1]; }
      assert sep !in u by { assert forall i :: 0 <= i < |u| ==> u[i] == t[i]; }
      assert s + t == (s + u) + [c];
      SplitAllAppendPlain(s, u, sep);
      SplitAllSnoc(s + u, c, sep);
      ExtendTwice(SplitAll(s, sep), u, [c]);
    }
  }

  /** A text without the separator is one piece. */
  lemma SplitAllNoSep(s: string, sep: char)
    requires sep !in s
    ensures SplitAll(s, sep) == [s]
  {
    SplitAllAppendPlain([], s, sep);
    assert [] + s == s;
  }

  /** Splitting distributes over a separator: the pieces before it, then the pieces after it. */
  lemma {:induction false} SplitAllConcat(x: string, y: string, sep: char)
    ensures SplitAll(x + [sep] + y, sep) == SplitAll(x, sep) + SplitAll(y, sep)
    decreases |y|
  {
    if y == [] {
      assert x + [sep] + y == x + [sep];
      SplitAllSnoc(x, sep, sep);
    } else {
      var u, c := y[..|y| - 1], Last(y);
      var w := x + [sep] + u;
      assert y == u + [c];
      assert x + [sep] + y == w + [c];
      SplitAllConcat(x, u, sep);
      var a, b := SplitAll(x, sep), SplitAll(u, sep);
      SplitAllSnoc(w, c, sep);
      SplitAllSnoc(u, c, sep);
      if c == sep {
        assert (a + b) + [[]] == a + (b + [[]]);
      } else {
        ExtendAppend(a, b, [c]);
      }
    }
  }

  /** A last piece without the separator, joined on, splits off again. */
  lemma SplitAllJoinSnoc(parts: seq<string>, sep: char)
    requires |parts| > 1 && sep !in Last(parts)
    requires SplitAll(Join(parts[..|parts| - 1], [sep]), sep) == parts[..|parts| - 1]
    ensures SplitAll(Join(parts, [sep]), sep) == parts
  {
    var init, x := parts[..|parts| - 1], Last(parts);
    var j := Join(init, [sep]);
    assert Join(parts, [sep]) == j + [sep] + x;
    SplitAllNoSep(x, sep);
    SplitAllConcat(j, x, sep);
    assert parts == init + [x];
  }

  /** The other round trip: pieces without the separator, joined with it, split back into the same pieces. */
  lemma {:induction false} SplitAllJoin(parts: seq<string>, sep: char)
    requires |parts| > 0
    requires forall i :: 0 <= i < |parts| ==> sep !in parts[i]
    ensures SplitAll(Join(parts, [sep]), sep) == parts
    decreases |parts|
  {
    assert sep !in Last(parts) by { assert Last(parts) == parts[|parts| - 1]; }
    if |parts| == 1 {
      SplitAllNoSep(parts[0], sep);
    } else {
      var init := parts[..|parts| - 1];
      assert forall i :: 0 <= i < |init| ==> init[i] == parts[i];
      SplitAllJoin(init, sep);
      SplitAllJoinSnoc(parts, sep);
    }
  }

  /** Drop the empty pieces at the end, as `split` with limit 0 does. */
  function DropTrailingEmpty(parts: seq<string>): (r: seq<string>)
    ensures r <= parts
    ensures r == [] || Last(r) != []
    ensures forall i :: |r| <= i < |parts| ==> parts[i] == []
  {
    if parts == [] then []
    else if Last(parts) == [] then DropTrailingEmpty(parts[..|parts| - 1])
    else parts
  }

  /** Java's `s.split(p)` where the pattern `p` matches exactly the one character `sep`. */
  function SplitOn(s: string, sep: char): seq<string> {
    if sep !in s then [s] else DropTrailingEmpty(SplitAll(s, sep))
  }

  /** `s` without the run of `sep` characters at its end. */
  function StripTrailing(s: string, sep: char): (r: string)
    ensures r <= s
    ensures r == [] || Last(r) != sep
    ensures s == r + Repeat(sep, |s| - |r|)
  {
    if s == [] || Last(s) != sep then s
    else
      var r := StripTrailing(s[..|s| - 1], sep);
      assert s == s[..|s| - 1] + [sep];
      r
  }

  lemma SplitAllAppendSeps(t: string, sep: char, n: nat)
    ensures SplitAll(t + Repeat(sep, n), sep) == SplitAll(t, sep) + Repeat([], n)
  {
    if n > 0 {
      var s := t + Repeat(sep, n);
      assert s[..|s| - 1] == t + Repeat(sep, n - 1);
      SplitAllAppendSeps(t, sep, n - 1);
    } else {
      assert t + Repeat(sep, 0) == t;
    }
  }

  lemma DropTrailingEmptyAppend(p: seq<string>, n: nat)
    ensures DropTrailingEmpty(p + Repeat([], n)) == DropTrailingEmpty(p)
  {
    if n > 0 {
      var q := p + Repeat([], n);
      assert q[..|q| - 1] == p + Repeat([], n - 1);
      DropTrailingEmptyAppend(p, n - 1);
    } else {
      assert p + Repeat([], 0) == p;
    }
  }

  /**
   * Round trip of `split` on one character: no piece holds the separator, the
   * pieces joined back with the separator give the text without its trailing
   * separators, and when the separator occurs the last piece kept is not empty.
   */
  lemma {:induction false} SplitOnJoin(s: string, sep: char)
    ensures forall i :: 0 <= i < |SplitOn(s, sep)| ==> sep !in SplitOn(s, sep)[i]
    ensures Join(SplitOn(s, sep), [sep]) == StripTrailing(s, sep)
    ensures sep in s ==> SplitOn(s, sep) == [] || Last(SplitOn(s, sep)) != []
  {
    if sep in s {
      var t := StripTrailing(s, sep);
      SplitAllOmitsSep(s, sep);
      SplitOnShape(s, sep);
      if t != [] {
        JoinSplitAll(t, sep);
      }
    }
  }

  /** With the separator present, `split` gives the pieces of the text without its trailing separators. */
  lemma SplitOnShape(s: string, sep: char)
    requires sep in s
    ensures var t := StripTrailing(s, sep);
            SplitOn(s, sep) == (if t == [] then [] else SplitAll(t, sep)) &&
            SplitOn(s, sep) <= SplitAll(s, sep) &&
            (t != [] ==> Last(SplitAll(t, sep)) != [])
  {
    var t := StripTrailing(s, sep);
    var n := |s| - |t|;
    var p := SplitAll(t, sep);
    assert s == t + Repeat(sep, n);
    SplitAllAppendSeps(t, sep, n);
    var q := SplitAll(s, sep);
    assert q == p + Repeat([], n);
    DropTrailingEmptyAppend(p, n);
    assert SplitOn(s, sep) == DropTrailingEmpty(q);
    if t != [] {
      SplitAllLastNonEmpty(t, sep);
    }
  }

  /** A text that does not end in the separator does not end in an empty piece. */
  lemma SplitAllLastNonEmpty(t: string, sep: char)
    requires t != [] && Last(t) != sep
    ensures Last(SplitAll(t, sep)) != []
    ensures DropTrailingEmpty(SplitAll(t, sep)) == SplitAll(t, sep)
  {
    var p := SplitAll(t, sep);
    assert Last(p) == Last(SplitAll(t[..|t| - 1], sep)) + [Last(t)];
  }

  // ---------------------------------------------------------------------------
  // Splitting on runs of white space: `split("\\s+")`
  // ---------------------------------------------------------------------------

  /** The pieces of `s` between maximal runs of `\s`, every piece kept. */
  function SplitRunsAll(s: string): (r: seq<string>)
    ensures |r| >= 1
  {
    if s == [] then [[]]
    else
      var init := SplitRunsAll(s[..|s| - 1]);
      var c := Last(s);
      if IsRegexSpace(c) then
        if |s| >= 2 && IsRegexSpace(s[|s| - 2]) then init else init + [[]]
      else
        Extend(init, [c])
  }

  /** No piece holds a space. */
  lemma {:induction false} SplitRunsAllNoSpace(s: string)
    ensures forall i :: 0 <= i < |SplitRunsAll(s)| ==> NoSpace(SplitRunsAll(s)[i])
    decreases |s|
  {
    if s != [] {
      var u, c := s[..|s| - 1], Last(s);
      SplitRunsAllNoSpace(u);
      var init := SplitRunsAll(u);
      if !IsRegexSpace(c) {
        var r := Extend(init, [c]);
        var w := Last(init) + [c];
        assert NoSpace(init[|init| - 1]);
        assert forall k :: 0 <= k < |w| ==> w[k] == (if k < |Last(init)| then Last(init)[k] else c);
        assert forall i :: 0 <= i < |r| - 1 ==> r[i] == init[i];
      } else if !(|s| >= 2 && IsRegexSpace(s[|s| - 2])) {
        var r := init + [[]];
        assert forall i :: 0 <= i < |init| ==> r[i] == init[i];
      }
    }
  }

  /** The first piece starts the text, and a lone piece is the whole text. */
  lemma {:induction false} SplitRunsAllFirst(s: string)
    ensures var r := SplitRunsAll(s); r[0] <= s && (|r| == 1 ==> r[0] == s)
    decreases |s|
  {
    if s != [] {
      var u, c := s[..|s| - 1], Last(s);
      SplitRunsAllFirst(u);
      var init := SplitRunsAll(u);
      assert s == u + [c];
      if IsRegexSpace(c) && |s| >= 2 && IsRegexSpace(s[|s| - 2]) && |init| == 1 {
        SplitRunsAllNoSpace(u);
        assert false;
      }
      if !IsRegexSpace(c) {
        var r := Extend(init, [c]);
        if |init| == 1 {
          assert r[0] == init[0] + [c];
        } else {
          assert r[0] == init[0];
        }
      }
    }
  }

  /** A text that does not start with a space has a non-empty first piece. */
  lemma {:induction false} SplitRunsAllFirstNonEmpty(s: string)
    requires |s| > 0 && !IsRegexSpace(s[0])
    ensures SplitRunsAll(s)[0] != []
    decreases |s|
  {
    var u, c := s[..|s| - 1], Last(s);
    var init := SplitRunsAll(u);
    if u == [] {
      assert c == s[0];
      assert init == [[]];
      assert SplitRunsAll(s) == Extend(init, [c]);
    } else {
      assert u[0] == s[0];
      SplitRunsAllFirstNonEmpty(u);
      if !IsRegexSpace(c) {
        var r := Extend(init, [c]);
        if |init| == 1 {
          assert r[0] == init[0] + [c];
        } else {
          assert r[0] == init[0];
        }
      }
    }
  }

  /**
   * The longest start of `s` without a space: everything up to the first `\s`
   * character, or all of `s` when there is none.
   */
  function LeadingRun(s: string): (w: string)
    ensures w <= s && NoSpace(w)
    ensures |w| == |s| || IsRegexSpace(s[|w|])
  {
    if s == [] || IsRegexSpace(s[0]) then []
    else
      var w := [s[0]] + LeadingRun(s[1..]);
      assert forall k :: 1 <= k < |w| ==> w[k] == LeadingRun(s[1..])[k - 1];
      w
  }

  /** A text without spaces is its own leading run. */
  lemma LeadingRunNoSpace(s: string)
    requires NoSpace(s)
    ensures LeadingRun(s) == s
  {
    LeadingRunUnique(s, s);
  }

  /** One more character at the end lengthens the leading run only while there has been no space. */
  lemma LeadingRunSnoc(u: string, c: char)
    ensures LeadingRun(u + [c]) ==
            if !NoSpace(u) then LeadingRun(u) else if IsRegexSpace(c) then u else u + [c]
  {
    var s := u + [c];
    var w, v := LeadingRun(s), LeadingRun(u);
    assert forall k :: 0 <= k < |u| ==> s[k] == u[k];
    if !NoSpace(u) {
      var j :| 0 <= j < |u| && IsRegexSpace(u[j]);
      LeadingRunUnique(s, v);
    } else if IsRegexSpace(c) {
      LeadingRunUnique(s, u);
    } else {
      LeadingRunUnique(s, s);
    }
  }

  /** The leading run is the one start of `s` that has no space and is followed by a space or the end. */
  lemma {:induction false} LeadingRunUnique(s: string, v: string)
    requires v <= s && NoSpace(v) && (|v| == |s| || IsRegexSpace(s[|v|]))
    ensures LeadingRun(s) == v
    decreases |s|
  {
    if v != [] {
      assert v[0] == s[0];
      assert v[1..] <= s[1..];
      assert forall k :: 0 <= k < |v| - 1 ==> v[1..][k] == v[k + 1];
      assert |v| < |s| ==> s[1..][|v| - 1] == s[|v|];
      LeadingRunUnique(s[1..], v[1..]);
      assert v == [s[0]] + v[1..];
    }
  }

  lemma NoSpaceSnoc(u: string, c: char)
    ensures NoSpace(u + [c]) <==> NoSpace(u) && !IsRegexSpace(c)
  {
    var s := u + [c];
    assert forall k :: 0 <= k < |u| ==> s[k] == u[k];
    assert s[|u|] == c;
  }

  /** The text is one piece exactly when it has no space. */
  lemma {:induction false} SplitRunsAllSingle(s: string)
    ensures |SplitRunsAll(s)| == 1 <==> NoSpace(s)
    decreases |s|
  {
    if s != [] {
      var u, c := s[..|s| - 1], Last(s);
      assert s == u + [c];
      SplitRunsAllSingle(u);
      NoSpaceSnoc(u, c);
      if IsRegexSpace(c) && |s| >= 2 && IsRegexSpace(s[|s| - 2]) {
        assert u[|u| - 1] == s[|s| - 2];
        assert !NoSpace(u);
      }
    }
  }

  /** The first piece of the split is the leading run. */
  lemma {:induction false} SplitRunsAllFirstIsLeadingRun(s: string)
    ensures SplitRunsAll(s)[0] == LeadingRun(s)
    decreases |s|
  {
    if s != [] {
      var u, c := s[..|s| - 1], Last(s);
      assert s == u + [c];
      SplitRunsAllFirstIsLeadingRun(u);
      FirstIsLeadingRunStep(u, c);
    }
  }

  lemma FirstIsLeadingRunStep(u: string, c: char)
    requires SplitRunsAll(u)[0] == LeadingRun(u)
    ensures SplitRunsAll(u + [c])[0] == LeadingRun(u + [c])
  {
    var s := u + [c];
    assert s[..|s| - 1] == u && Last(s) == c;
    var init := SplitRunsAll(u);
    LeadingRunSnoc(u, c);
    SplitRunsAllSingle(u);
    if IsRegexSpace(c) {
      assert SplitRunsAll(s)[0] == init[0];
      if NoSpace(u) {
        LeadingRunNoSpace(u);
      }
    } else {
      var r := Extend(init, [c]);
      assert SplitRunsAll(s) == r;
      if |init| == 1 {
        SplitRunsAllFirst(u);
        assert r[0] == init[0] + [c];
      } else {
        assert r[0] == init[0];
      }
    }
  }

  /** Java's `s.split("\\s+")`. */
  function Words(s: string): (r: seq<string>)
    ensures forall i :: 0 <= i < |r| ==> NoSpace(r[i])
    ensures s == [] || !IsRegexSpace(s[0]) ==> |r| >= 1 && r[0] <= s && (s != [] ==> r[0] != [])
  {
    if NoSpace(s) then [s]
    else
      SplitRunsAllNoSpace(s);
      SplitRunsAllFirst(s);
      if !IsRegexSpace(s[0]) then SplitRunsAllFirstNonEmpty(s); DropTrailingEmpty(SplitRunsAll(s))
      else DropTrailingEmpty(SplitRunsAll(s))
  }

  /** The first word of a text that does not start with a space is its leading run. */
  lemma WordsFirstIsLeadingRun(s: string)
    requires s == [] || !IsRegexSpace(s[0])
    ensures Words(s)[0] == LeadingRun(s)
  {
    if NoSpace(s) {
      LeadingRunNoSpace(s);
    } else {
      SplitRunsAllFirstIsLeadingRun(s);
    }
  }

  // ---------------------------------------------------------------------------
  // Replacing and printing numbers
  // ---------------------------------------------------------------------------

  /** `s.replace(c, rep)` for a one-character target. */
  function ReplaceChar(s: string, c: char, rep: string): (r: string)
    ensures c !in rep ==> c !in r
  {
    if s == [] then []
    else (if s[0] == c then rep else [s[0]]) + ReplaceChar(s[1..], c, rep)
  }

  function DigitsOf(n: nat): (r: string)
    ensures |r| > 0
  {
    var d := ['0', '1', '2', '3', '4', '5', '6', '7', '8', '9'][n % 10];
    if n < 10 then [d] else DigitsOf(n / 10) + [d]
  }

  /** `Integer.toString`: decimal digits, with a leading minus sign for negative numbers. */
  function IntToString(n: int): string {
    if n < 0 then "-" + DigitsOf(-n) else DigitsOf(n)
  }
}
