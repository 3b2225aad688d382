/**
 * The string side of the sampling extension of `processCmd`: the per-key
 * `WHERE` clause and sample-table name built for each key line, and
 * `santizeTableName`.
 */
module Sampling {
  import opened Core
  import opened JavaText

  // ---------------------------------------------------------------------------
  // santizeTableName
  // ---------------------------------------------------------------------------

  /** How many times `c` occurs in `s`. */
  function Count(s: string, c: char): nat {
    if s == [] then 0 else (if s[0] == c then 1 else 0) + Count(s[1..], c)
  }

  lemma ReplaceCharKeepsAbsent(s: string, c: char, rep: string, d: char)
    requires d != c && d !in s && d !in rep
    ensures d !in ReplaceChar(s, c, rep)
  {
    if s != [] {
      ReplaceCharKeepsAbsent(s[1..], c, rep, d);
    }
  }

  lemma ReplaceCharAbsent(s: string, c: char, rep: string)
    requires c !in s
    ensures ReplaceChar(s, c, rep) == s
  {
    if s != [] {
      ReplaceCharAbsent(s[1..], c, rep);
    }
  }

  lemma {:induction false} ReplaceCharLength(s: string, c: char, rep: string)
    ensures |ReplaceChar(s, c, rep)| == |s| + Count(s, c) * (|rep| - 1)
  {
    if s != [] {
      var k, m := Count(s[1..], c), |rep| - 1;
      ReplaceCharLength(s[1..], c, rep);
      var head := if s[0] == c then rep else [s[0]];
      assert |ReplaceChar(s, c, rep)| == |head| + (|s| - 1 + k * m);
      if s[0] == c {
        assert (1 + k) * m == m + k * m;
      }
    }
  }

  lemma ReplaceCharCount(s: string, c: char, rep: string, d: char)
    requires d != c && d !in rep
    ensures Count(ReplaceChar(s, c, rep), d) == Count(s, d)
  {
    if s != [] {
      ReplaceCharCount(s[1..], c, rep, d);
      CountAppend(if s[0] == c then rep else [s[0]], ReplaceChar(s[1..], c, rep), d);
      if s[0] == c {
        CountAbsent(rep, d);
      }
    }
  }

  lemma CountAppend(a: string, b: string, d: char)
    ensures Count(a + b, d) == Count(a, d) + Count(b, d)
  {
    if a != [] {
      assert (a + b)[1..] == a[1..] + b;
      CountAppend(a[1..], b, d);
    } else {
      assert a + b == b;
    }
  }

  lemma CountAbsent(s: string, d: char)
    requires d !in s
    ensures Count(s, d) == 0
  {
    if s != [] {
      CountAbsent(s[1..], d);
    }
  }

  /** `santizeTableName`: every `.` becomes `POINT`, every `"` is dropped. */
  function SanitizeTableName(name: string): (r: string)
    ensures '.' !in r && '"' !in r
  {
    var noDots := ReplaceChar(name, '.', "POINT");
    ReplaceCharKeepsAbsent(noDots, '"', "", '.');
    ReplaceChar(noDots, '"', "")
  }

  /** Sanitizing twice is sanitizing once. */
  lemma SanitizeIdempotent(name: string)
    ensures SanitizeTableName(SanitizeTableName(name)) == SanitizeTableName(name)
  {
    SanitizeLeavesCleanNames(SanitizeTableName(name));
  }

  /** A name is left as it is exactly when it has neither `.` nor `"`. */
  lemma SanitizeLeavesCleanNames(name: string)
    ensures SanitizeTableName(name) == name <==> '.' !in name && '"' !in name
  {
    if '.' !in name && '"' !in name {
      ReplaceCharAbsent(name, '.', "POINT");
      ReplaceCharAbsent(name, '"', "");
    }
  }

  /** Each `.` adds four characters, each `"` removes one. */
  lemma SanitizeLength(name: string)
    ensures |SanitizeTableName(name)| == |name| + 4 * Count(name, '.') - Count(name, '"')
  {
    var noDots := ReplaceChar(name, '.', "POINT");
    ReplaceCharLength(name, '.', "POINT");
    assert |noDots| == |name| + Count(name, '.') * 4;
    ReplaceCharCount(name, '.', "POINT", '"');
    ReplaceCharLength(noDots, '"', "");
    assert |SanitizeTableName(name)| == |noDots| + Count(name, '"') * -1;
  }

  // ---------------------------------------------------------------------------
  // One key line of the rewrite
  // ---------------------------------------------------------------------------

  /** The condition for one key column: `cols_split[i].trim() + " = " + key_split[i].trim()`. */
  function Condition(col: string, key: string): string {
    Trim(col) + " = " + Trim(key)
  }

  /** The name piece for one key column: `"_" + cols_split[i].trim() + "_" + key_split[i].trim()`. */
  function Piece(col: string, key: string): string {
    "_" + Trim(col) + "_" + Trim(key)
  }

  /** The conditions for every key column. */
  function Conditions(cols: seq<string>, keys: seq<string>): (r: seq<string>)
    requires |keys| >= |cols|
    ensures |r| == |cols|
  {
    if cols == [] then []
    else Conditions(cols[..|cols| - 1], keys) + [Condition(Last(cols), keys[|cols| - 1])]
  }

  /** `head` followed by the condition and ` AND ` of every key column: the query as the loop leaves it. */
  function WithConditions(head: string, cols: seq<string>, keys: seq<string>): string
    requires |keys| >= |cols|
  {
    if cols == [] then head
    else WithConditions(head, cols[..|cols| - 1], keys) + Condition(Last(cols), keys[|cols| - 1]) + " AND "
  }

  /** `head` followed by the name piece of every key column. */
  function WithPieces(head: string, cols: seq<string>, keys: seq<string>): string
    requires |keys| >= |cols|
  {
    if cols == [] then head
    else WithPieces(head, cols[..|cols| - 1], keys) + Piece(Last(cols), keys[|cols| - 1])
  }

  /** One more key column. */
  lemma SampleStep(head: string, start: string, cols: seq<string>, keys: seq<string>, i: nat)
    requires i < |cols| && i < |keys|
    ensures WithConditions(head, cols[..i + 1], keys) ==
            WithConditions(head, cols[..i], keys) + Condition(cols[i], keys[i]) + " AND "
    ensures WithPieces(start, cols[..i + 1], keys) == WithPieces(start, cols[..i], keys) + Piece(cols[i], keys[i])
  {
    assert cols[..i + 1][..i] == cols[..i];
  }

  /** `replaceAll(" AND $", "")` on a text ending as the loop leaves it: the final ` AND ` goes. */
  function DropFinalAnd(s: string): (r: string)
    ensures r <= s
  {
    if EndsWith(s, " AND ") then s[..|s| - 5] else s
  }

  lemma {:induction false} WithConditionsJoin(head: string, cols: seq<string>, keys: seq<string>)
    requires |keys| >= |cols| && cols != []
    ensures WithConditions(head, cols, keys) == head + Join(Conditions(cols, keys), " AND ") + " AND "
    decreases |cols|
  {
    var init := cols[..|cols| - 1];
    var c := Condition(Last(cols), keys[|cols| - 1]);
    var conds := Conditions(cols, keys);
    var ci := Conditions(init, keys);
    var w := WithConditions(head, init, keys);
    assert conds == ci + [c];
    assert WithConditions(head, cols, keys) == w + c + " AND ";
    if init != [] {
      WithConditionsJoin(head, init, keys);
      assert conds[..|conds| - 1] == ci && Last(conds) == c;
      assert Join(conds, " AND ") == Join(ci, " AND ") + " AND " + c;
      Regroup(head, Join(ci, " AND "), " AND ", c);
    } else {
      assert conds == [c];
    }
  }

  /** `h + j + s`, then `c + s`, regrouped around `j + s + c`; kept apart because the proof above runs out of resource with it inline. */
  lemma Regroup(h: string, j: string, s: string, c: string)
    ensures h + j + s + c + s == h + (j + s + c) + s
  {
  }

  /** What `replaceAll(" AND $", "")` makes of the text the loop built. */
  lemma DropFinalAndOfLoop(base: string, cols: seq<string>, keys: seq<string>)
    requires |keys| >= |cols|
    ensures DropFinalAnd(WithConditions(base + " where ", cols, keys)) == base + " where " + Join(Conditions(cols, keys), " AND ")
  {
    var head := base + " where ";
    var q := WithConditions(head, cols, keys);
    if cols != [] {
      WithConditionsJoin(head, cols, keys);
      assert q == (head + Join(Conditions(cols, keys), " AND ")) + " AND ";
    } else {
      assert q == head;
      assert q[|q| - 2] == 'e';
    }
  }

  /** `santizeTableName("blinkdb_metadata_" + table_name + "_" + limit)`, the start of every sample-table name. */
  function SampleTableBase(tableName: string, limit: int): string {
    SanitizeTableName("blinkdb_metadata_" + tableName + "_" + IntToString(limit))
  }

  /**
   * The sample query and table name for one key line: the conditions after
   * ` where ` with the final ` AND ` dropped, and the `_column_key` pieces after
   * the sanitized `blinkdb_metadata_<table>_<limit>`. `None` when the key line
   * is too short: reading `key_split` at the column count (the frequency) or
   * before it fails.
   */
  function KeyLineTarget(base: string, tableName: string, limit: int, cols: seq<string>, keys: seq<string>): Option<(string, string)> {
    if |keys| <= |cols| then None
    else Some((DropFinalAnd(WithConditions(base + " where ", cols, keys)),
               WithPieces(SampleTableBase(tableName, limit), cols, keys)))
  }

  /** The query of a key line is the conditions joined by ` AND ` after ` where `. */
  lemma KeyLineTargetShape(base: string, tableName: string, limit: int, cols: seq<string>, keys: seq<string>)
    ensures KeyLineTarget(base, tableName, limit, cols, keys).Some? <==> |keys| > |cols|
    ensures KeyLineTarget(base, tableName, limit, cols, keys).Some? ==>
              KeyLineTarget(base, tableName, limit, cols, keys).value.0 ==
              base + " where " + Join(Conditions(cols, keys), " AND ")
  {
    if |keys| > |cols| {
      DropFinalAndOfLoop(base, cols, keys);
    }
  }

  /** The loop over the key columns of one key line, as the driver runs it. */
  method SampleTarget(base: string, tableName: string, limit: int, cols: seq<string>, keys: seq<string>)
    returns (r: Option<(string, string)>)
    ensures r == KeyLineTarget(base, tableName, limit, cols, keys)
  {
    var sampleTable := SampleTableBase(tableName, limit);
    var query := base + " where ";
    ghost var start, head := sampleTable, query;
    var i := 0;
    while i < |cols|
      invariant 0 <= i <= |cols|
      invariant i <= |keys|
      invariant query == WithConditions(head, cols[..i], keys)
      invariant sampleTable == WithPieces(start, cols[..i], keys)
    {
      if i >= |keys| {
        return None;
      }
      SampleStep(head, start, cols, keys, i);
      query := query + Condition(cols[i], keys[i]) + " AND ";
      sampleTable := sampleTable + Piece(cols[i], keys[i]);
      i := i + 1;
    }
    assert cols[..i] == cols;
    if i >= |keys| {
      return None;
    }
    query := DropFinalAnd(query);
    r := Some((query, sampleTable));
  }
}
