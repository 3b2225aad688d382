/**
 * The console's tab completion as the driver configures it: the word list
 * (function names, with `(` after those made only of lower-case letters and
 * underscores, and keywords both as given and lower-cased), the characters that
 * separate words, and the clean-up of a unique completion that ends in `( `.
 * The matching done by the console library itself is not modelled: the list of
 * completions it produces is an input.
 */
module Completion {
  import opened JavaText

  /** `s.matches("[a-z_]+")`. */
  predicate IsFunctionWord(s: string) {
    |s| > 0 && forall i :: 0 <= i < |s| ==> ('a' <= s[i] <= 'z' || s[i] == '_')
  }

  /** The candidate added for one function name. */
  function FunctionCandidate(name: string): (c: string)
    ensures IsFunctionWord(name) ==> c == name + "("
    ensures !IsFunctionWord(name) ==> c == name
  {
    if IsFunctionWord(name) then name + "(" else name
  }

  /** The candidates offered for a list of function names. */
  ghost function FunctionWords(names: seq<string>): set<string> {
    set s | s in names :: FunctionCandidate(s)
  }

  /** The candidates offered for a list of keywords: each as given and lower-cased. */
  ghost function KeywordWords(keywords: seq<string>): set<string> {
    (set k | k in keywords) + (set k | k in keywords :: Lower(k))
  }

  /**
   * Builds the word list: every function name's candidate, then every keyword
   * as given and lower-cased.  The list is a set, so repeats collapse.
   */
  method BuildCandidates(functionNames: seq<string>, keywords: seq<string>) returns (candidates: set<string>)
    ensures forall c :: c in candidates <==>
              (exists s :: s in functionNames && c == FunctionCandidate(s)) ||
              (exists k :: k in keywords && (c == k || c == Lower(k)))
  {
    candidates := {};
    var i := 0;
    while i < |functionNames|
      invariant 0 <= i <= |functionNames|
      invariant candidates == FunctionWords(functionNames[..i])
    {
      var s := functionNames[i];
      assert functionNames[..i + 1] == functionNames[..i] + [s];
      FunctionWordsSnoc(functionNames[..i], s);
      if IsFunctionWord(s) {
        candidates := candidates + {s + "("};
      } else {
        candidates := candidates + {s};
      }
      i := i + 1;
    }
    assert functionNames[..i] == functionNames;
    var j := 0;
    while j < |keywords|
      invariant 0 <= j <= |keywords|
      invariant candidates == FunctionWords(functionNames) + KeywordWords(keywords[..j])
    {
      var k := keywords[j];
      assert keywords[..j + 1] == keywords[..j] + [k];
      KeywordWordsSnoc(keywords[..j], k);
      candidates := candidates + {k};
      candidates := candidates + {Lower(k)};
      j := j + 1;
    }
    assert keywords[..j] == keywords;
  }

  lemma FunctionWordsSnoc(names: seq<string>, s: string)
    ensures FunctionWords(names + [s]) == FunctionWords(names) + {FunctionCandidate(s)}
  {
    var a, b := FunctionWords(names + [s]), FunctionWords(names) + {FunctionCandidate(s)};
    forall c | c in a ensures c in b {
      var t :| t in names + [s] && c == FunctionCandidate(t);
      if t != s {
        assert t in names;
      }
    }
    forall c | c in b ensures c in a {
      if c != FunctionCandidate(s) {
        var t :| t in names && c == FunctionCandidate(t);
        assert t in names + [s];
      }
    }
  }

  lemma KeywordWordsSnoc(keywords: seq<string>, k: string)
    ensures KeywordWords(keywords + [k]) == KeywordWords(keywords) + {k, Lower(k)}
  {
    var a, b := KeywordWords(keywords + [k]), KeywordWords(keywords) + {k, Lower(k)};
    forall c | c in a ensures c in b {
      var t :| t in keywords + [k] && (c == t || c == Lower(t));
      if t != k {
        assert t in keywords;
      }
    }
    forall c | c in b ensures c in a {
      if c != k && c != Lower(k) {
        var t :| t in keywords && (c == t || c == Lower(t));
        assert t in keywords + [k];
      }
    }
  }

  /** Each function name is offered with `(` exactly when it consists of lower-case letters and underscores. */
  lemma FunctionNamesOffered(functionNames: seq<string>, keywords: seq<string>, candidates: set<string>, s: string)
    requires forall c :: c in candidates <==>
               (exists s :: s in functionNames && c == FunctionCandidate(s)) ||
               (exists k :: k in keywords && (c == k || c == Lower(k)))
    requires s in functionNames
    ensures IsFunctionWord(s) ==> s + "(" in candidates
    ensures !IsFunctionWord(s) ==> s in candidates
  {
    assert FunctionCandidate(s) in candidates;
  }

  /** Each keyword is offered in both spellings. */
  lemma KeywordsOffered(functionNames: seq<string>, keywords: seq<string>, candidates: set<string>, k: string)
    requires forall c :: c in candidates <==>
               (exists s :: s in functionNames && c == FunctionCandidate(s)) ||
               (exists k :: k in keywords && (c == k || c == Lower(k)))
    requires k in keywords
    ensures k in candidates && Lower(k) in candidates
  {
  }

  /** A function word read back from its candidate: drop the final `(`. */
  lemma FunctionCandidateRoundTrip(name: string)
    requires IsFunctionWord(name)
    ensures var c := FunctionCandidate(name);
            EndsWith(c, "(") && c[..|c| - 1] == name && !IsFunctionWord(c)
  {
    var c := FunctionCandidate(name);
    assert c[|c| - 1] == '(';
    assert c[|c| - 1..] == "(";
  }

  // ---------------------------------------------------------------------------
  // Word boundaries
  // ---------------------------------------------------------------------------

  /** The delimiter test: whitespace, or one of the four brackets `(`, `)`, `[` and `]`. */
  predicate IsDelimiterChar(buffer: string, pos: nat)
    requires pos < |buffer|
  {
    var c := buffer[pos];
    IsWhitespace(c) || c == '(' || c == ')' || c == '[' || c == ']'
  }

  /**
   * In a completed function candidate no character of the name separates
   * words and the closing `(` does, so the name is one word and what is
   * typed after the parenthesis starts the next.
   */
  lemma FunctionCandidateIsOneWord(name: string)
    requires IsFunctionWord(name)
    ensures var c := FunctionCandidate(name);
            (forall i :: 0 <= i < |name| ==> !IsDelimiterChar(c, i)) && IsDelimiterChar(c, |name|)
  {
    var c := FunctionCandidate(name);
    assert forall i :: 0 <= i < |name| ==> c[i] == name[i];
  }

  // ---------------------------------------------------------------------------
  // Fixing a unique completion
  // ---------------------------------------------------------------------------

  /**
   * The completions after the fix: a single completion ending in `( ` is
   * trimmed; any other list is left alone.
   */
  function Fixed(completions: seq<string>): (r: seq<string>)
    ensures |r| == |completions|
  {
    if |completions| == 1 && EndsWith(completions[0], "( ") then [Trim(completions[0])] else completions
  }

  /** The fix applied to the list the console gave, in place. */
  method FixCompletions(completions: array<string>)
    modifies completions
    ensures completions[..] == Fixed(old(completions[..]))
  {
    if completions.Length == 1 {
      var first := completions[0];
      if EndsWith(first, "( ") {
        completions[0] := Trim(first);
        assert completions[..] == [Trim(first)];
      }
    }
  }

  /** The space the completer adds after a function candidate is removed again. */
  lemma FixRestoresFunctionCandidate(name: string)
    requires IsFunctionWord(name)
    ensures Fixed([FunctionCandidate(name) + " "]) == [FunctionCandidate(name)]
  {
    var c := FunctionCandidate(name);
    var d := c + " ";
    assert d[|d| - 2..] == "( ";
    assert TrimRight(d) == c by {
      assert d[..|d| - 1] == c;
      assert TrimRight(c) == c;
    }
    assert TrimLeft(c) == c;
  }

  /** Only a lone completion can change, and when several are offered none does. */
  lemma FixLeavesOthers(completions: seq<string>)
    requires |completions| != 1 || !EndsWith(completions[0], "( ")
    ensures Fixed(completions) == completions
  {
  }

  /** A fixed unique completion ends in `(`, so fixing it again changes nothing. */
  lemma FixIdempotent(completions: seq<string>)
    ensures Fixed(Fixed(completions)) == Fixed(completions)
  {
    if |completions| == 1 && EndsWith(completions[0], "( ") {
      var s := completions[0];
      var t := Trim(s);
      TrimEndsBeforeSpace(s);
      assert Last(t) == '(';
      assert !EndsWith(t, "( ") by {
        if |t| >= 2 {
          assert t[|t| - 1] == '(';
        }
      }
    }
  }

  /** Trimming a text ending in `( ` leaves it ending in `(`. */
  lemma TrimEndsBeforeSpace(s: string)
    requires EndsWith(s, "( ")
    ensures Trim(s) != [] && Last(Trim(s)) == '('
  {
    var u := s[..|s| - 1];
    assert s == u + [' '];
    assert s[|s| - 2] == '(';
    assert TrimRight(s) == TrimRight(u);
    assert Last(u) == '(';
    assert TrimRight(u) == u;
    var t := TrimLeft(u);
    assert t != [] && Last(t) == Last(u);
  }
}
