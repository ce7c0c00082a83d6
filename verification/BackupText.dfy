/** The two text formats a backup relies on: object paths and the COPY format. */
module BackupText {
  import opened Lists
  import opened OrderedMaps

  // ---------------------------------------------------------------------------------------------
  // Object paths
  // ---------------------------------------------------------------------------------------------

  const PREFIX := "objects/"

  function ObjectPath(bucket: string, key: string): string {
    PREFIX + bucket + "/" + key
  }

  /** Where the first slash is, or the length of the text without one. */
  function SlashAt(s: string): (n: nat)
    ensures n <= |s|
    ensures forall k :: 0 <= k < n ==> s[k] != '/'
    ensures n < |s| ==> s[n] == '/'
  {
    if s == "" || s[0] == '/' then 0 else 1 + SlashAt(s[1..])
  }

  predicate IsLineBreak(c: char) {
    c == '\n' || c == '\r' || c == '\U{2028}' || c == '\U{2029}'
  }

  predicate OneLine(s: string) {
    forall k :: 0 <= k < |s| ==> !IsLineBreak(s[k])
  }

  /** `objects/<bucket>/<key>`: a bucket without a slash, and a key on a single line. */
  function ParseObjectPath(path: string): Option<(string, string)> {
    if !(PREFIX <= path) then None
    else
      var rest := path[|PREFIX|..];
      var n := SlashAt(rest);
      if n == 0 || n == |rest| || n + 1 == |rest| || !OneLine(rest[n + 1..]) then None
      else Some((rest[..n], rest[n + 1..]))
  }

  predicate PlainBucket(bucket: string) {
    bucket != "" && forall k :: 0 <= k < |bucket| ==> bucket[k] != '/'
  }

  predicate PlainKey(key: string) {
    key != "" && '\n' !in key && '\r' !in key && '\U{2028}' !in key && '\U{2029}' !in key
  }

  lemma {:induction false} SlashAfter(bucket: string, key: string)
    ensures SlashAt(bucket + "/" + key) <= |bucket|
    ensures SlashAt(bucket + "/" + key) == |bucket| <==> forall k :: 0 <= k < |bucket| ==> bucket[k] != '/'
  {
    var s := bucket + "/" + key;
    assert s[|bucket|] == '/';
    assert forall k :: 0 <= k < |bucket| ==> s[k] == bucket[k];
  }

  /** An object's path leads back to it exactly when its bucket and key are plain. */
  lemma PathsComeBack(bucket: string, key: string)
    ensures ParseObjectPath(ObjectPath(bucket, key)) == Some((bucket, key)) <==> PlainBucket(bucket) && PlainKey(key)
  {
    var path := ObjectPath(bucket, key);
    var rest := bucket + "/" + key;
    assert path == PREFIX + rest;
    assert path[|PREFIX|..] == rest;
    SlashAfter(bucket, key);
    if SlashAt(rest) == |bucket| {
      assert rest[..|bucket|] == bucket && rest[|bucket| + 1..] == key;
    } else {
      assert |rest[..SlashAt(rest)]| < |bucket|;
    }
  }

  lemma PathsAreDistinct(b1: string, k1: string, b2: string, k2: string)
    requires PlainBucket(b1) && PlainBucket(b2) && ObjectPath(b1, k1) == ObjectPath(b2, k2)
    ensures b1 == b2 && k1 == k2
  {
    var r1, r2 := b1 + "/" + k1, b2 + "/" + k2;
    assert ObjectPath(b1, k1) == PREFIX + r1 && ObjectPath(b2, k2) == PREFIX + r2;
    assert ObjectPath(b1, k1)[|PREFIX|..] == r1 && ObjectPath(b2, k2)[|PREFIX|..] == r2;
    SlashAfter(b1, k1);
    SlashAfter(b2, k2);
    assert r1[..|b1|] == b1 && r2[..|b2|] == b2;
    assert r1[|b1| + 1..] == k1 && r2[|b2| + 1..] == k2;
  }

  // ---------------------------------------------------------------------------------------------
  // COPY text
  // ---------------------------------------------------------------------------------------------

  /** How COPY prints the characters that have a meaning in its text. */
  function EscapeChar(c: char): string {
    if c == '\\' then "\\\\"
    else if c == '\n' then "\\n"
    else if c == '\r' then "\\r"
    else if c == '\t' then "\\t"
    else if c == '\U{8}' then "\\b"
    else if c == '\U{B}' then "\\v"
    else if c == '\U{C}' then "\\f"
    else [c]
  }

  function Escape(s: string): string {
    if s == "" then "" else EscapeChar(s[0]) + Escape(s[1..])
  }

  predicate Unescaped(s: string) {
    forall k :: 0 <= k < |s| ==> EscapeChar(s[k]) == [s[k]]
  }

  lemma {:induction false} EscapeIsClean(s: string)
    ensures '\t' !in Escape(s) && '\n' !in Escape(s) && '\r' !in Escape(s)
    ensures '\U{8}' !in Escape(s) && '\U{B}' !in Escape(s) && '\U{C}' !in Escape(s)
    ensures |Escape(s)| >= |s|
    ensures Escape(s) == s <==> Unescaped(s)
  {
    if s != "" {
      EscapeIsClean(s[1..]);
      assert s == [s[0]] + s[1..];
      assert '\t' !in EscapeChar(s[0]) && '\n' !in EscapeChar(s[0]) && '\r' !in EscapeChar(s[0]);
      if EscapeChar(s[0]) != [s[0]] {
        assert |Escape(s)| > |s|;
      } else {
        assert Escape(s)[1..] == Escape(s[1..]);
        assert Unescaped(s) <==> Unescaped(s[1..]) by {
          assert forall k :: 0 <= k < |s| - 1 ==> s[1..][k] == s[k + 1];
        }
      }
    }
  }

  /** `text.split(sep)`. */
  function Split(s: string, sep: char): (parts: seq<string>)
    ensures parts != []
  {
    if s == "" then [""]
    else
      var rest := Split(s[1..], sep);
      if s[0] == sep then [""] + rest else [[s[0]] + rest[0]] + rest[1..]
  }

  /** Each part followed by the mark, except the last. */
  function Join(parts: seq<string>, sep: char): string {
    if parts == [] then ""
    else if |parts| == 1 then parts[0]
    else parts[0] + [sep] + Join(parts[1..], sep)
  }

  lemma {:induction false} SplitHead(head: string, tail: string, sep: char)
    requires sep !in head
    ensures Split(head + [sep] + tail, sep) == [head] + Split(tail, sep)
  {
    var s := head + [sep] + tail;
    if head == "" {
      assert s[1..] == tail;
    } else {
      assert s[1..] == head[1..] + [sep] + tail;
      SplitHead(head[1..], tail, sep);
      assert [s[0]] + head[1..] == head;
    }
  }

  lemma {:induction false} SplitAlone(s: string, sep: char)
    requires sep !in s
    ensures Split(s, sep) == [s]
  {
    if s != "" {
      SplitAlone(s[1..], sep);
      assert [s[0]] + s[1..] == s;
    }
  }

  /** Splitting what was joined gives the parts back, if none of them holds the mark. */
  lemma {:induction false} SplitOfJoin(parts: seq<string>, sep: char)
    requires parts != [] && forall k :: 0 <= k < |parts| ==> sep !in parts[k]
    ensures Split(Join(parts, sep), sep) == parts
  {
    if |parts| == 1 {
      SplitAlone(parts[0], sep);
    } else {
      SplitOfJoin(parts[1..], sep);
      SplitHead(parts[0], Join(parts[1..], sep), sep);
    }
  }

  lemma {:induction false} JoinIsClean(parts: seq<string>, sep: char, c: char)
    requires c != sep && forall k :: 0 <= k < |parts| ==> c !in parts[k]
    ensures c !in Join(parts, sep)
    ensures |parts| >= 2 ==> Join(parts, sep) != ""
  {
    if |parts| > 1 {
      JoinIsClean(parts[1..], sep, c);
    }
  }

  // ---------------------------------------------------------------------------------------------
  // Rows
  // ---------------------------------------------------------------------------------------------

  /** A row: when it was inserted, and its columns in dump order. */
  datatype Row = Row(createdAt: int, columns: seq<string>)

  const SCENE_JSON_KEY_INDEX := 5
  const SNAPSHOT_COLUMNS := 10

  function EscapedColumns(row: Row): seq<string> {
    seq(|row.columns|, k requires 0 <= k < |row.columns| => Escape(row.columns[k]))
  }

  function Line(row: Row): string {
    Join(EscapedColumns(row), '\t')
  }

  /** The output of COPY: one line per row, each ended by a newline. */
  function CopyText(rows: seq<Row>): string {
    if rows == [] then "" else Line(rows[0]) + ['\n'] + CopyText(rows[1..])
  }

  ghost predicate SnapshotRows(rows: seq<Row>) {
    forall k :: 0 <= k < |rows| ==> |rows[k].columns| == SNAPSHOT_COLUMNS
  }

  function Lines(rows: seq<Row>): seq<string> {
    seq(|rows|, k requires 0 <= k < |rows| => Line(rows[k]))
  }

  lemma LineIsClean(row: Row)
    requires |row.columns| == SNAPSHOT_COLUMNS
    ensures Line(row) != "" && '\n' !in Line(row)
    ensures Split(Line(row), '\t') == EscapedColumns(row)
  {
    var columns := EscapedColumns(row);
    forall k | 0 <= k < |columns|
      ensures '\t' !in columns[k] && '\n' !in columns[k]
    {
      EscapeIsClean(row.columns[k]);
    }
    SplitOfJoin(columns, '\t');
    JoinIsClean(columns, '\t', '\n');
  }

  lemma {:induction false} CopyTextSplits(rows: seq<Row>)
    requires SnapshotRows(rows)
    ensures Split(CopyText(rows), '\n') == Lines(rows) + [""]
  {
    if rows != [] {
      CopyTextSplits(rows[1..]);
      LineIsClean(rows[0]);
      SplitHead(Line(rows[0]), CopyText(rows[1..]), '\n');
      assert Lines(rows) == [Line(rows[0])] + Lines(rows[1..]);
    }
  }

  /** The key column of a line, if the line has one. */
  function KeyOf(line: string): Option<string> {
    if line == "" then None
    else
      var columns := Split(line, '\t');
      if SCENE_JSON_KEY_INDEX < |columns| && columns[SCENE_JSON_KEY_INDEX] != ""
      then Some(columns[SCENE_JSON_KEY_INDEX])
      else None
  }

  ghost predicate MentionedIn(lines: seq<string>, key: string) {
    exists k :: 0 <= k < |lines| && KeyOf(lines[k]) == Some(key)
  }

  /** Every mention of a key, line by line. */
  ghost function Mentions(lines: seq<string>): seq<string> {
    if lines == [] then []
    else
      var before := Mentions(lines[..|lines| - 1]);
      match KeyOf(lines[|lines| - 1]) case None => before case Some(key) => before + [key]
  }

  lemma {:induction false} MentionsAreMentioned(lines: seq<string>, key: string)
    ensures key in Mentions(lines) <==> MentionedIn(lines, key)
  {
    if lines != [] {
      var n := |lines| - 1;
      MentionsAreMentioned(lines[..n], key);
      MentionedNext(lines, n);
      assert lines[..n + 1] == lines;
    }
  }

  lemma KeyIsMentioned(lines: seq<string>, i: nat, keys: seq<string>)
    requires i < |lines| && InOrderOf(keys, Mentions(lines[..i]))
    requires forall key :: key in keys <==> MentionedIn(lines[..i], key)
    ensures var key := KeyOf(lines[i]);
            InOrderOf(if key.Some? && key.value !in keys then keys + [key.value] else keys, Mentions(lines[..i + 1]))
  {
    var mentions := Mentions(lines[..i]);
    assert lines[..i + 1][..i] == lines[..i];
    forall key
      ensures key in mentions <==> key in keys
    {
      MentionsAreMentioned(lines[..i], key);
    }
    match KeyOf(lines[i])
    case None =>
    case Some(key) =>
      InOrderStill(keys, mentions, [key]);
      if key !in keys {
        InOrderNew(keys, mentions, key);
      }
  }

  /** Collects the distinct object keys of a snapshot dump from its text, in the order of their first mention. */
  method ExtractSceneJsonKeys(copyText: string) returns (keys: seq<string>)
    ensures Distinct(keys)
    ensures forall key :: key in keys <==> MentionedIn(Split(copyText, '\n'), key)
    ensures InOrderOf(keys, Mentions(Split(copyText, '\n')))
  {
    keys := [];
    var lines := Split(copyText, '\n');
    for i := 0 to |lines|
      invariant Distinct(keys)
      invariant forall key :: key in keys <==> MentionedIn(lines[..i], key)
      invariant InOrderOf(keys, Mentions(lines[..i]))
    {
      var line := lines[i];
      KeyIsMentioned(lines, i, keys);
      MentionedNext(lines, i);
      if |line| == 0 { continue; }
      var columns := Split(line, '\t');
      if SCENE_JSON_KEY_INDEX < |columns| && columns[SCENE_JSON_KEY_INDEX] != "" {
        var key := columns[SCENE_JSON_KEY_INDEX];
        if key !in keys {
          keys := keys + [key];
        }
      }
    }
    assert lines[..|lines|] == lines;
  }

  lemma MentionedNext(lines: seq<string>, i: nat)
    requires i < |lines|
    ensures forall key ::
              MentionedIn(lines[..i + 1], key) <==> MentionedIn(lines[..i], key) || KeyOf(lines[i]) == Some(key)
  {
    forall key
      ensures MentionedIn(lines[..i + 1], key) <==> MentionedIn(lines[..i], key) || KeyOf(lines[i]) == Some(key)
    {
      if k :| 0 <= k < i && KeyOf(lines[..i][k]) == Some(key) {
        assert KeyOf(lines[..i + 1][k]) == Some(key);
      }
      if KeyOf(lines[i]) == Some(key) {
        assert lines[..i + 1][i] == lines[i];
      }
      var next := lines[..i + 1];
      if k :| 0 <= k < |next| && KeyOf(next[k]) == Some(key) {
        if k < i {
          assert KeyOf(lines[..i][k]) == Some(key);
        }
      }
    }
  }

  /** The key column of a row as COPY prints it. */
  function PrintedKey(row: Row): string
    requires |row.columns| == SNAPSHOT_COLUMNS
  {
    Escape(row.columns[5])
  }

  lemma KeyOfLine(row: Row)
    requires |row.columns| == SNAPSHOT_COLUMNS
    ensures KeyOf(Line(row)) == if PrintedKey(row) == "" then None else Some(PrintedKey(row))
  {
    LineIsClean(row);
    assert EscapedColumns(row)[SCENE_JSON_KEY_INDEX] == PrintedKey(row);
  }

  lemma KeysOfLines(rows: seq<Row>, key: string)
    requires SnapshotRows(rows)
    ensures MentionedIn(Lines(rows) + [""], key) <==>
            key != "" && exists k :: 0 <= k < |rows| && PrintedKey(rows[k]) == key
  {
    var lines := Lines(rows) + [""];
    if k :| 0 <= k < |lines| && KeyOf(lines[k]) == Some(key) {
      if k < |rows| {
        KeyOfLine(rows[k]);
        assert PrintedKey(rows[k]) == key;
      }
    }
    if key != "" && exists k :: 0 <= k < |rows| && PrintedKey(rows[k]) == key {
      var k :| 0 <= k < |rows| && PrintedKey(rows[k]) == key;
      KeyOfLine(rows[k]);
      assert KeyOf(lines[k]) == Some(key);
    }
  }

  /** From a dump of snapshots come exactly their keys, in the form COPY prints them. */
  lemma {:induction false} KeysOfADump(rows: seq<Row>, key: string)
    requires SnapshotRows(rows)
    ensures MentionedIn(Split(CopyText(rows), '\n'), key) <==>
            key != "" && exists k :: 0 <= k < |rows| && PrintedKey(rows[k]) == key
  {
    CopyTextSplits(rows);
    KeysOfLines(rows, key);
  }

  // ---------------------------------------------------------------------------------------------
  // Reading COPY text back
  // ---------------------------------------------------------------------------------------------

  /** The character a backslash and this letter stand for in COPY text. */
  ghost function Meant(c: char): char {
    if c == 'n' then '\n' else if c == 'r' then '\r' else if c == 't' then '\t' else if c == 'b' then '\U{8}'
    else if c == 'v' then '\U{B}' else if c == 'f' then '\U{C}' else c
  }

  /** How COPY reads a column. */
  ghost function Unescape(s: string): string
    decreases |s|
  {
    if |s| >= 2 && s[0] == '\\' then [Meant(s[1])] + Unescape(s[2..])
    else if s == "" then "" else [s[0]] + Unescape(s[1..])
  }

  /** A column is printed so that reading it gives it back; so different columns are printed differently. */
  lemma {:induction false} ColumnsReadBack(s: string)
    ensures Unescape(Escape(s)) == s
  {
    if s != "" {
      ColumnsReadBack(s[1..]);
      var head, tail := EscapeChar(s[0]), Escape(s[1..]);
      assert (head + tail)[|head|..] == tail;
      assert s == [s[0]] + s[1..];
    }
  }
}
