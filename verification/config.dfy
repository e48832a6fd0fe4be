/** Layout constants of the three binary files and the `.env` reader for the
    API token (src/Core/Config.php). */
module Config {
  import opened Types
  import opened ByteString

  // vector.bin: one row per vector
  const DIMENSION: nat := 1536
  const VECTOR_ROW_SIZE: nat := 6181
  const VECTOR_FLAG_SIZE: nat := 1
  const VECTOR_ID_SIZE: nat := 36
  const VECTOR_DATA_SIZE: nat := 6144

  // graph.bin: a header, then one fixed-size row per node
  const GRAPH_HEADER_SIZE: nat := 8
  const GRAPH_NODE_SIZE: nat := 324

  // HNSW shape
  const M: nat := 16
  const M0: nat := 32
  const L: nat := 4

  // meta.bin: one binary-search-tree node per row
  const META_ROW_SIZE: nat := 48

  /** Width of one packed integer ('l' and 'i' in `pack`). */
  const INT_SIZE: nat := 4

  /** A vector row is the flag byte, the NUL-padded external id and the
      single-precision vector, and the vector part is four bytes per
      dimension. */
  lemma {:induction false} VectorRowLayout()
    ensures VECTOR_ROW_SIZE == VECTOR_FLAG_SIZE + VECTOR_ID_SIZE + VECTOR_DATA_SIZE
    ensures VECTOR_DATA_SIZE == INT_SIZE * DIMENSION
  {
  }

  /** MetaFile writes the value at byte 36 and the left and right links at
      bytes 40 and 44 of a row; each four-byte field lies after the 36-byte key,
      the fields do not overlap, and all of them end inside the 48-byte row. */
  lemma {:induction false} MetaRowLayout()
    ensures META_ROW_SIZE == VECTOR_ID_SIZE + 3 * INT_SIZE
    ensures VECTOR_ID_SIZE <= 36 && 36 + INT_SIZE <= 40 && 40 + INT_SIZE <= 44
    ensures 44 + INT_SIZE <= META_ROW_SIZE
  {
  }

  // ---------------------------------------------------------------------
  // getApiToken: the `.env` line parser

  /** "VEKTOR_API_TOKEN" in ASCII. */
  const TOKEN_KEY: Bytes := [86, 69, 75, 84, 79, 82, 95, 65, 80, 73, 95, 84, 79, 75, 69, 78]

  const HASH: Byte := 35
  const EQUALS: Byte := 61

  /** The characters `trim($value, '"\'')` strips. */
  const QUOTES: set<Byte> := {34, 39}

  /** A line whose trimmed text starts with '#'. */
  predicate IsComment(line: Bytes) {
    var t := Trim(line, WHITESPACE);
    |t| > 0 && t[0] == HASH
  }

  /** The token a line sets, if any: the line is not a comment, the trimmed
      text before its first '=' is exactly VEKTOR_API_TOKEN, and the token is
      the trimmed text after that '=' with quote characters stripped from both
      ends. */
  function LineToken(line: Bytes): Option<Bytes> {
    if IsComment(line) then None
    else match IndexOf(line, EQUALS)
      case None => None
      case Some(i) =>
        if Trim(line[..i], WHITESPACE) == TOKEN_KEY
        then Some(Trim(Trim(line[i + 1..], WHITESPACE), QUOTES))
        else None
  }

  /** The first value f gives along lines, if any. */
  function FirstSome(lines: seq<Bytes>, f: Bytes -> Option<Bytes>): Option<Bytes> {
    if |lines| == 0 then None
    else if f(lines[0]).Some? then f(lines[0])
    else FirstSome(lines[1..], f)
  }

  /** Reference definition: the token of the first line that sets one. */
  function FirstToken(lines: seq<Bytes>): Option<Bytes> {
    FirstSome(lines, LineToken)
  }

  /** `getApiToken`: `env` is the `.env` file split into lines as `file()`
      returns them, or None when the file does not exist. */
  method GetApiToken(env: Option<seq<Bytes>>) returns (token: Option<Bytes>)
    ensures env.None? ==> token.None?
    ensures env.Some? ==> token == FirstToken(env.value)
  {
    if env.None? {
      return None;
    }
    var lines := env.value;
    var n := 0;
    while n < |lines|
      invariant 0 <= n <= |lines|
      invariant FirstToken(lines) == FirstSome(lines[n..], LineToken)
    {
      FirstSomeStep(lines, n, LineToken);
      var t := LineToken(lines[n]);
      if t.Some? {
        return t;
      }
      n := n + 1;
    }
    return None;
  }

  /** One step of FirstSome along a suffix. */
  lemma {:induction false} FirstSomeStep(lines: seq<Bytes>, n: nat, f: Bytes -> Option<Bytes>)
    requires n < |lines|
    ensures FirstSome(lines[n..], f) ==
      if f(lines[n]).Some? then f(lines[n]) else FirstSome(lines[n + 1..], f)
  {
    assert lines[n..][1..] == lines[n + 1..];
  }

  /** First match wins: FirstSome gives v exactly when some line i maps to v
      and no earlier line maps to anything. */
  lemma {:induction false} FirstSomeIsFirstMatch(lines: seq<Bytes>, f: Bytes -> Option<Bytes>, v: Bytes)
    ensures FirstSome(lines, f) == Some(v) <==>
      exists i :: 0 <= i < |lines| && f(lines[i]) == Some(v)
        && forall j :: 0 <= j < i ==> f(lines[j]).None?
  {
    if |lines| > 0 {
      var tail := lines[1..];
      FirstSomeIsFirstMatch(tail, f, v);
      if FirstSome(lines, f) == Some(v) && f(lines[0]).None? {
        var i :| 0 <= i < |tail| && f(tail[i]) == Some(v)
          && forall j :: 0 <= j < i ==> f(tail[j]).None?;
        assert f(lines[i + 1]) == Some(v);
        forall j | 1 <= j < i + 1
          ensures f(lines[j]).None?
        {
          assert lines[j] == tail[j - 1];
        }
      }
      if exists i :: 0 <= i < |lines| && f(lines[i]) == Some(v)
          && forall j :: 0 <= j < i ==> f(lines[j]).None? {
        var i :| 0 <= i < |lines| && f(lines[i]) == Some(v)
          && forall j :: 0 <= j < i ==> f(lines[j]).None?;
        if i > 0 {
          assert f(tail[i - 1]) == Some(v);
          forall j | 0 <= j < i - 1
            ensures f(tail[j]).None?
          {
            assert tail[j] == lines[j + 1];
          }
        }
      }
    }
  }

  /** The first line that sets the token wins. */
  lemma {:induction false} FirstTokenIsFirstMatch(lines: seq<Bytes>, v: Bytes)
    ensures FirstToken(lines) == Some(v) <==>
      exists i :: 0 <= i < |lines| && LineToken(lines[i]) == Some(v)
        && forall j :: 0 <= j < i ==> LineToken(lines[j]).None?
  {
    FirstSomeIsFirstMatch(lines, LineToken, v);
  }

  /** FirstSome is None exactly when f maps no line to anything. */
  lemma {:induction false} FirstSomeNone(lines: seq<Bytes>, f: Bytes -> Option<Bytes>)
    ensures FirstSome(lines, f).None? <==> forall i :: 0 <= i < |lines| ==> f(lines[i]).None?
  {
    if |lines| > 0 {
      FirstSomeNone(lines[1..], f);
      assert forall i :: 1 <= i < |lines| ==> lines[i] == lines[1..][i - 1];
    }
  }

  /** Without a line that sets the token, getApiToken returns null. */
  lemma {:induction false} NoTokenLineGivesNone(lines: seq<Bytes>)
    ensures FirstToken(lines).None? <==> forall i :: 0 <= i < |lines| ==> LineToken(lines[i]).None?
  {
    FirstSomeNone(lines, LineToken);
  }

  /** A line f maps to nothing can be removed anywhere without effect. */
  lemma {:induction false} FirstSomeSkips(before: seq<Bytes>, line: Bytes, after: seq<Bytes>, f: Bytes -> Option<Bytes>)
    requires f(line).None?
    ensures FirstSome(before + [line] + after, f) == FirstSome(before + after, f)
  {
    if |before| == 0 {
      assert (before + [line] + after)[1..] == after;
      assert before + after == after;
    } else {
      FirstSomeSkips(before[1..], line, after, f);
      assert (before + [line] + after)[1..] == before[1..] + [line] + after;
      assert (before + after)[1..] == before[1..] + after;
    }
  }

  /** Comment lines are ignored, wherever they stand. */
  lemma {:induction false} CommentLineIgnored(before: seq<Bytes>, comment: Bytes, after: seq<Bytes>)
    requires IsComment(comment)
    ensures FirstToken(before + [comment] + after) == FirstToken(before + after)
  {
    FirstSomeSkips(before, comment, after, LineToken);
  }

  /** Lines without '=' are ignored, wherever they stand. */
  lemma {:induction false} LineWithoutEqualsIgnored(before: seq<Bytes>, line: Bytes, after: seq<Bytes>)
    requires EQUALS !in line
    ensures FirstToken(before + [line] + after) == FirstToken(before + after)
  {
    FirstSomeSkips(before, line, after, LineToken);
  }

  /** Trimming a string whose end bytes are not strippable leaves it as is. */
  lemma {:induction false} TrimKeeps(s: Bytes, cs: set<Byte>)
    requires |s| == 0 || (s[0] !in cs && s[|s| - 1] !in cs)
    ensures Trim(s, cs) == s
  {
    assert TrimLeft(s, cs) == s;
  }

  /** Trimming keeps a first byte that is not strippable. */
  lemma {:induction false} TrimKeepsFirst(s: Bytes, cs: set<Byte>)
    requires |s| > 0 && s[0] !in cs
    ensures var t := Trim(s, cs); |t| > 0 && t[0] == s[0]
  {
    assert TrimLeft(s, cs) == s;
  }

  lemma {:induction false} TokenKeyFacts()
    ensures |TOKEN_KEY| == 16
    ensures EQUALS !in TOKEN_KEY
    ensures TOKEN_KEY[0] !in WHITESPACE && TOKEN_KEY[15] !in WHITESPACE
    ensures TOKEN_KEY[0] != HASH
  {
  }

  lemma {:induction false} IndexOfFirst(s: Bytes, b: Byte, i: nat)
    requires i < |s| && s[i] == b && b !in s[..i]
    ensures IndexOf(s, b) == Some(i)
  {
    var r := IndexOf(s, b);
    assert r.Some?;
    assert forall j :: 0 <= j < i ==> s[..i][j] == s[j];
    assert forall j :: 0 <= j < r.value ==> s[..r.value][j] == s[j];
  }

  lemma {:induction false} AssignmentNotComment(rest: Bytes)
    ensures !IsComment(TOKEN_KEY + [EQUALS] + rest)
  {
    var line := TOKEN_KEY + [EQUALS] + rest;
    TokenKeyFacts();
    assert line[0] == TOKEN_KEY[0];
    TrimKeepsFirst(line, WHITESPACE);
  }

  lemma {:induction false} AssignmentSplit(rest: Bytes)
    ensures IndexOf(TOKEN_KEY + [EQUALS] + rest, EQUALS) == Some(16)
    ensures Trim((TOKEN_KEY + [EQUALS] + rest)[..16], WHITESPACE) == TOKEN_KEY
    ensures (TOKEN_KEY + [EQUALS] + rest)[17..] == rest
  {
    var line := TOKEN_KEY + [EQUALS] + rest;
    TokenKeyFacts();
    assert line[..16] == TOKEN_KEY;
    IndexOfFirst(line, EQUALS, 16);
    TrimKeeps(TOKEN_KEY, WHITESPACE);
  }

  /** A line `VEKTOR_API_TOKEN=<rest>` sets the token to `<rest>` trimmed of
      blanks and then of quotes. */
  lemma {:induction false} AssignmentLine(rest: Bytes)
    ensures LineToken(TOKEN_KEY + [EQUALS] + rest) == Some(Trim(Trim(rest, WHITESPACE), QUOTES))
  {
    AssignmentNotComment(rest);
    AssignmentSplit(rest);
  }

  /** `VEKTOR_API_TOKEN=<v>` yields v when v does not start or end with
      blanks or quotes. */
  lemma {:induction false} PlainTokenLine(v: Bytes)
    requires |v| == 0 || (v[0] !in WHITESPACE + QUOTES && v[|v| - 1] !in WHITESPACE + QUOTES)
    ensures FirstToken([TOKEN_KEY + [EQUALS] + v]) == Some(v)
  {
    AssignmentLine(v);
    TrimKeeps(v, WHITESPACE);
    TrimKeeps(v, QUOTES);
  }

  /** Quotes around a value are stripped, blanks outside them are not
      reached because a quote comes first. */
  lemma {:induction false} StripQuotes(v: Bytes)
    requires |v| > 0 && v[0] !in QUOTES && v[|v| - 1] !in QUOTES
    ensures Trim(Trim([34] + v + [34], WHITESPACE), QUOTES) == v
  {
    var q := [34 as Byte] + v + [34];
    assert q[0] == 34 && q[|q| - 1] == 34;
    TrimKeeps(q, WHITESPACE);
    QuoteLeft(v);
    QuoteRight(v);
  }

  /** The opening quote is the only byte trimmed from the left. */
  lemma {:induction false} QuoteLeft(v: Bytes)
    requires |v| > 0 && v[0] !in QUOTES
    ensures TrimLeft([34 as Byte] + v + [34], QUOTES) == v + [34]
  {
    var q := [34 as Byte] + v + [34];
    assert q[0] in QUOTES && q[1..] == v + [34];
    assert (v + [34])[0] == v[0];
    assert TrimLeft(v + [34], QUOTES) == v + [34];
  }

  /** The closing quote is the only byte trimmed from the right. */
  lemma {:induction false} QuoteRight(v: Bytes)
    requires |v| > 0 && v[|v| - 1] !in QUOTES
    ensures TrimRight(v + [34], QUOTES) == v
  {
    var s := v + [34 as Byte];
    assert s[|s| - 1] in QUOTES && s[..|s| - 1] == v;
    assert TrimRight(v, QUOTES) == v;
  }

  /** `VEKTOR_API_TOKEN="<v>"` yields v with the quotes removed. */
  lemma {:induction false} QuotedTokenLine(v: Bytes)
    requires |v| > 0 && v[0] !in QUOTES && v[|v| - 1] !in QUOTES
    ensures FirstToken([TOKEN_KEY + [EQUALS] + ([34] + v + [34])]) == Some(v)
  {
    AssignmentLine([34] + v + [34]);
    StripQuotes(v);
  }
}
