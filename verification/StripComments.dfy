/** Blanking out the comments of a source text without moving anything else. */
module StripComments {

  // ---------------------------------------------------------------------------------------------
  // Tokens
  // ---------------------------------------------------------------------------------------------

  predicate IsQuote(c: char) {
    c == '\'' || c == '"' || c == '`'
  }

  predicate LineStart(s: string) {
    |s| >= 2 && s[0] == '/' && s[1] == '/'
  }

  predicate BlockStart(s: string) {
    |s| >= 2 && s[0] == '/' && s[1] == '*'
  }

  predicate IsComment(s: string) {
    LineStart(s) || BlockStart(s)
  }

  /** How far a line comment reaches: up to the end of the line or of the text. */
  function LineEnd(s: string): (n: nat)
    ensures n <= |s|
    ensures forall k :: 0 <= k < n ==> s[k] != '\n'
    ensures n < |s| ==> s[n] == '\n'
  {
    if s == "" || s[0] == '\n' then 0 else 1 + LineEnd(s[1..])
  }

  predicate CloserAt(s: string, k: int)
    requires 0 <= k < |s|
  {
    s[k] == '*' && k + 1 < |s| && s[k + 1] == '/'
  }

  /** Where the first closing mark of a block comment is, or the length of the text without one. */
  function BlockEnd(s: string): (n: nat)
    ensures n <= |s|
    ensures forall k :: 0 <= k < n ==> !CloserAt(s, k)
    ensures n < |s| ==> CloserAt(s, n)
  {
    if s == "" || CloserAt(s, 0) then 0
    else
      assert forall k :: 1 <= k < |s| ==> CloserAt(s, k) == CloserAt(s[1..], k - 1);
      1 + BlockEnd(s[1..])
  }

  /** From position `i` inside a quoted text to its closing quote, stepping over escapes. */
  function QuoteSkip(s: string, i: nat, quote: char): (n: nat)
    ensures n >= i
    ensures n < |s| ==> s[n] == quote
    decreases |s| - i
  {
    if i >= |s| || s[i] == quote then i
    else QuoteSkip(s, if s[i] == '\\' then i + 2 else i + 1, quote)
  }

  function Clip(i: nat, n: nat): nat { if i <= n then i else n }

  /** A block comment that is never closed. */
  predicate Unclosed(s: string) {
    !LineStart(s) && BlockStart(s) && BlockEnd(s) == |s|
  }

  /** The length of the first token: a comment, a quoted text, or a single character. */
  function TokenEnd(s: string): (n: nat)
    requires s != ""
    ensures 1 <= n <= |s|
  {
    if LineStart(s) then LineEnd(s)
    else if BlockStart(s) then Clip(BlockEnd(s) + 2, |s|)
    else if IsQuote(s[0]) then Clip(QuoteSkip(s, 1, s[0]) + 1, |s|)
    else 1
  }

  function Blanked(c: char): char { if c == '\n' then '\n' else ' ' }

  function Blank(s: string): (b: string)
    ensures |b| == |s|
    ensures forall k :: 0 <= k < |s| ==> b[k] == Blanked(s[k])
  {
    seq(|s|, k requires 0 <= k < |s| => Blanked(s[k]))
  }

  /** What becomes of the first token. An unclosed block comment gets two blanks longer. */
  function TokenText(s: string): string
    requires s != ""
  {
    var token := s[..TokenEnd(s)];
    if !IsComment(s) then token else if Unclosed(s) then Blank(token) + "  " else Blank(token)
  }

  /** The text after stripping. */
  function Strip(s: string): string
    decreases |s|
  {
    if s == "" then "" else TokenText(s) + Strip(s[TokenEnd(s)..])
  }

  // ---------------------------------------------------------------------------------------------
  // The scanner
  // ---------------------------------------------------------------------------------------------

  lemma LineEndIs(s: string, i: nat, n: nat)
    requires i <= n <= |s| && (forall k :: i <= k < n ==> s[k] != '\n') && (n < |s| ==> s[n] == '\n')
    ensures LineEnd(s[i..]) == n - i
  {
    var rest := s[i..];
    assert forall k :: 0 <= k < |rest| ==> rest[k] == s[i + k];
  }

  lemma BlockEndIs(s: string, i: nat, n: nat)
    requires i <= n <= |s| && (forall k :: i <= k < n ==> !CloserAt(s, k)) && (n < |s| ==> CloserAt(s, n))
    ensures BlockEnd(s[i..]) == n - i
  {
    var m := BlockEnd(s[i..]);
    if m < n - i {
      assert CloserAt(s[i..], m);
      assert CloserAt(s, i + m);
    } else if m > n - i {
      assert CloserAt(s[i..], n - i);
    }
  }

  lemma {:induction false} QuoteSkipFrom(s: string, i: nat, j: nat, quote: char)
    requires i <= |s|
    ensures QuoteSkip(s, i + j, quote) == i + QuoteSkip(s[i..], j, quote)
    decreases |s| - i - j
  {
    if i + j < |s| && s[i + j] != quote {
      QuoteSkipFrom(s, i, if s[i + j] == '\\' then j + 2 else j + 1, quote);
    }
  }

  /** From position `i` on, the stripped text `goal` is the rest of the text, stripped. */
  ghost predicate Aligned(source: string, goal: string, i: nat) {
    i <= |source| && i <= |goal| && goal[i..] == Strip(source[i..])
  }

  /** The token at `i`, up to `j`, is to become `text`, which stands in its place in `goal`. */
  ghost predicate TokenAt(source: string, goal: string, i: nat, j: nat, text: string)
    requires i < |source|
  {
    && j == i + TokenEnd(source[i..]) && text == TokenText(source[i..])
    && i + |text| <= |goal| && goal[i..i + |text|] == text
  }

  lemma PassToken(source: string, goal: string, i: nat)
    requires Aligned(source, goal, i) && i < |source|
    ensures var rest := source[i..];
            && TokenAt(source, goal, i, i + TokenEnd(rest), TokenText(rest))
            && (if Unclosed(rest) then |goal| == |source| + 2 else Aligned(source, goal, i + TokenEnd(rest)))
  {
    var rest := source[i..];
    var text, tail := TokenText(rest), Strip(rest[TokenEnd(rest)..]);
    assert rest[TokenEnd(rest)..] == source[i + TokenEnd(rest)..];
    Cut(goal, i, text, tail);
  }

  lemma Cut(goal: string, i: nat, text: string, tail: string)
    requires i <= |goal| && goal[i..] == text + tail
    ensures |goal| == i + |text| + |tail|
    ensures goal[i..i + |text|] == text && goal[i + |text|..] == tail
  {
    assert goal[i..i + |text|] == goal[i..][..|text|];
    assert goal[i + |text|..] == goal[i..][|text|..];
  }

  /** The scanner has turned the text into `goal` before `i`, and not touched it from `i` on. */
  ghost predicate DoneUpTo(source: string, goal: string, out: array<char>, i: nat)
    reads out
  {
    && i <= |source| <= out.Length && i <= |goal|
    && (forall k :: 0 <= k < i ==> out[k] == goal[k])
    && (forall k :: i <= k < |source| ==> out[k] == source[k])
  }

  /** Blanks a line comment that starts at `start`; returns where it ends. */
  method BlankLine(source: string, out: array<char>, start: nat, ghost goal: string) returns (index: nat)
    requires start < |source| && LineStart(source[start..]) && DoneUpTo(source, goal, out, start)
    requires TokenAt(source, goal, start, start + TokenEnd(source[start..]), TokenText(source[start..]))
    modifies out
    ensures index == start + TokenEnd(source[start..]) && DoneUpTo(source, goal, out, index)
  {
    index := start;
    while index < |source| && source[index] != '\n'
      invariant start <= index <= |source|
      invariant forall k :: start <= k < index ==> source[k] != '\n' && out[k] == ' '
      invariant forall k :: 0 <= k < start || index <= k < out.Length ==> out[k] == old(out[k])
    {
      out[index] := ' ';
      index := index + 1;
    }
    LineEndIs(source, start, index);
    BlanksStandThere(source, goal, start, index);
  }

  lemma BlanksStandThere(source: string, goal: string, i: nat, j: nat)
    requires i < |source| && j <= |source| && IsComment(source[i..])
    requires TokenAt(source, goal, i, j, TokenText(source[i..]))
    ensures j <= |goal| && forall k :: i <= k < j ==> goal[k] == Blanked(source[k])
    ensures Unclosed(source[i..]) ==> j == |source| && j + 2 <= |goal| && goal[j] == goal[j + 1] == ' '
  {
    var rest, text := source[i..], TokenText(source[i..]);
    forall k | i <= k < j
      ensures goal[k] == Blanked(source[k])
    {
      assert goal[i..i + |text|][k - i] == text[k - i];
      assert rest[..j - i][k - i] == source[k];
    }
    if Unclosed(rest) {
      assert text[j - i] == text[j - i + 1] == ' ';
      assert goal[j] == goal[i..i + |text|][j - i] && goal[j + 1] == goal[i..i + |text|][j - i + 1];
    }
  }

  /** The blanking loop of a block comment: everything before the closing mark. */
  method BlankInside(source: string, out: array<char>, start: nat) returns (index: nat)
    requires start < |source| <= out.Length && forall k :: start <= k < |source| ==> out[k] == source[k]
    modifies out
    ensures index == start + BlockEnd(source[start..]) <= |source|
    ensures forall k :: start <= k < index ==> out[k] == Blanked(source[k])
    ensures forall k :: 0 <= k < start || index <= k < out.Length ==> out[k] == old(out[k])
  {
    index := start;
    while index < |source| && !(source[index] == '*' && index + 1 < |source| && source[index + 1] == '/')
      invariant start <= index <= |source|
      invariant forall k :: start <= k < index ==> !CloserAt(source, k) && out[k] == Blanked(source[k])
      invariant forall k :: 0 <= k < start || index <= k < out.Length ==> out[k] == old(out[k])
    {
      if source[index] != '\n' {
        out[index] := ' ';
      }
      index := index + 1;
    }
    BlockEndIs(source, start, index);
  }

  /**
   * Blanks a block comment that starts at `start`, closing mark included. Without a closing mark
   * the two closing blanks land behind the text, and it grows.
   */
  method BlankBlock(source: string, out: array<char>, start: nat, ghost goal: string) returns (index: nat)
    requires start < |source| && !LineStart(source[start..]) && BlockStart(source[start..])
    requires out.Length == |source| + 2 && DoneUpTo(source, goal, out, start)
    requires TokenAt(source, goal, start, start + TokenEnd(source[start..]), TokenText(source[start..]))
    modifies out
    ensures start < index
    ensures if Unclosed(source[start..])
            then index == |source| + 2 <= |goal| && forall k :: 0 <= k < index ==> out[k] == goal[k]
            else index == start + TokenEnd(source[start..]) && DoneUpTo(source, goal, out, index)
  {
    index := BlankInside(source, out, start);
    BlanksStandThere(source, goal, start, start + TokenEnd(source[start..]));
    out[index] := ' ';
    out[index + 1] := ' ';
    index := index + 2;
  }

  /** Steps over a quoted text that starts at `start`. */
  method SkipQuoted(source: string, start: nat) returns (index: nat)
    requires start < |source| && !IsComment(source[start..]) && IsQuote(source[start])
    ensures index > start && Clip(index, |source|) == start + TokenEnd(source[start..])
  {
    var quote := source[start];
    index := start + 1;
    while index < |source| && source[index] != quote
      invariant start < index
      invariant QuoteSkip(source, index, quote) == QuoteSkip(source, start + 1, quote)
    {
      index := index + if source[index] == '\\' then 2 else 1;
    }
    QuoteSkipFrom(source, start, 1, quote);
    index := index + 1;
  }

  lemma CodeStandsThere(source: string, goal: string, i: nat, j: nat)
    requires i < |source| && j <= |source| && !IsComment(source[i..])
    requires TokenAt(source, goal, i, j, TokenText(source[i..]))
    ensures j <= |goal| && forall k :: i <= k < j ==> goal[k] == source[k]
  {
    var rest, text := source[i..], TokenText(source[i..]);
    forall k | i <= k < j
      ensures goal[k] == source[k]
    {
      assert goal[i..i + |text|][k - i] == text[k - i];
      assert rest[..j - i][k - i] == source[k];
    }
  }

  /**
   * One turn of the scanner: blanks the comment at `start`, or steps over what is none. The buffer
   * grows if it had to write behind the text.
   */
  method PassOne(source: string, out: array<char>, start: nat, ghost goal: string) returns (index: nat, length: nat)
    requires start < |source| && out.Length == |source| + 2 && DoneUpTo(source, goal, out, start)
    requires TokenAt(source, goal, start, start + TokenEnd(source[start..]), TokenText(source[start..]))
    modifies out
    ensures start < index
    ensures if Unclosed(source[start..])
            then index == length == |source| + 2 <= |goal| && forall k :: 0 <= k < length ==> out[k] == goal[k]
            else length == |source| && Clip(index, length) == start + TokenEnd(source[start..])
                 && DoneUpTo(source, goal, out, Clip(index, length))
  {
    length := |source|;
    if LineStart(source[start..]) {
      index := BlankLine(source, out, start, goal);
    } else if BlockStart(source[start..]) {
      index := BlankBlock(source, out, start, goal);
      length := if index <= length then length else index;
    } else {
      CodeStandsThere(source, goal, start, start + TokenEnd(source[start..]));
      if IsQuote(source[start]) {
        index := SkipQuoted(source, start);
      } else {
        index := start + 1;
      }
    }
  }

  /** Where the scanner stands: `length` is what its buffer holds, more than the text if it grew. */
  ghost predicate Scanned(source: string, goal: string, out: array<char>, index: nat, length: nat)
    reads out
  {
    && out.Length == |source| + 2
    && if length == |source|
       then Aligned(source, goal, Clip(index, length)) && DoneUpTo(source, goal, out, Clip(index, length))
       else index >= |source| && length == |goal| == out.Length && forall k :: 0 <= k < length ==> out[k] == goal[k]
  }

  lemma ScanEnds(source: string, goal: string, out: array<char>, index: nat, length: nat)
    requires Scanned(source, goal, out, index, length) && index >= |source|
    ensures length <= out.Length && out[..length] == goal
  {
    if length == |source| {
      assert source[length..] == "";
      assert |goal| == length;
    }
  }

  lemma StandsAt(source: string, goal: string, out: array<char>, start: nat)
    requires start < |source| && Scanned(source, goal, out, start, |source|)
    ensures out.Length == |source| + 2 && Aligned(source, goal, start) && DoneUpTo(source, goal, out, start)
  {
    assert Clip(start, |source|) == start;
  }

  method ScanOne(source: string, out: array<char>, start: nat, ghost goal: string)
    returns (index: nat, length: nat)
    requires start < |source| && Scanned(source, goal, out, start, |source|)
    modifies out
    ensures start < index && Scanned(source, goal, out, index, length)
  {
    StandsAt(source, goal, out, start);
    PassToken(source, goal, start);
    index, length := PassOne(source, out, start, goal);
    ScansOn(source, goal, out, start, index, length);
  }

  lemma StillScanning(source: string, goal: string, out: array<char>, index: nat, next: nat)
    requires out.Length == |source| + 2 && next == Clip(index, |source|)
    requires Aligned(source, goal, next) && DoneUpTo(source, goal, out, next)
    ensures Scanned(source, goal, out, index, |source|)
  {
  }

  lemma ScansOn(source: string, goal: string, out: array<char>, start: nat, index: nat, length: nat)
    requires start < |source| && out.Length == |source| + 2
    requires if Unclosed(source[start..])
             then |goal| == |source| + 2 && index == length == |source| + 2
                  && forall k :: 0 <= k < length ==> out[k] == goal[k]
             else length == |source| && Clip(index, length) == start + TokenEnd(source[start..])
                  && Aligned(source, goal, Clip(index, length)) && DoneUpTo(source, goal, out, Clip(index, length))
    ensures Scanned(source, goal, out, index, length)
  {
    if !Unclosed(source[start..]) {
      StillScanning(source, goal, out, index, start + TokenEnd(source[start..]));
    }
  }

  method StripComments(source: string) returns (result: string)
    ensures result == Strip(source)
  {
    var n := |source|;
    var out := new char[n + 2](k requires 0 <= k => if k < n then source[k] else ' ');
    var length: nat, index: nat := n, 0;
    ghost var goal := Strip(source);
    assert source[0..] == source && goal[0..] == goal;
    while index < n
      invariant Scanned(source, goal, out, index, length)
    {
      index, length := ScanOne(source, out, index, goal);
    }
    ScanEnds(source, goal, out, index, length);
    result := out[..length];
  }

  /**
   * Reads a quoted text. The reader and the scanner agree on where it ends: what it returns is the
   * very token the scanner steps over, and stripping leaves it as it is.
   */
  method ReadQuoted(source: string, start: nat) returns (raw: string)
    requires start < |source| && IsQuote(source[start])
    ensures raw == source[start..][..TokenEnd(source[start..])] == TokenText(source[start..])
  {
    var quote := source[start];
    var index := start + 1;
    QuoteSkipFrom(source, start, 1, quote);
    while index < |source|
      invariant start < index
      invariant QuoteSkip(source, index, quote) == QuoteSkip(source, start + 1, quote)
    {
      if source[index] == '\\' {
        index := index + 2;
      } else if source[index] == quote {
        return source[start..index + 1];
      } else {
        index := index + 1;
      }
    }
    return source[start..];
  }

  // ---------------------------------------------------------------------------------------------
  // What stripping keeps
  // ---------------------------------------------------------------------------------------------

  /** Every block comment of the text has a closing mark. */
  predicate Terminated(s: string)
    decreases |s|
  {
    s == "" || (!Unclosed(s) && Terminated(s[TokenEnd(s)..]))
  }

  /** `t` has the text's characters in their places, some of them, never a newline, turned blank. */
  ghost predicate BlankedCopy(s: string, t: string) {
    |s| <= |t| && forall k :: 0 <= k < |s| ==> t[k] == s[k] || (t[k] == ' ' && s[k] != '\n')
  }

  lemma TokenIsCopied(s: string)
    requires s != ""
    ensures BlankedCopy(s[..TokenEnd(s)], TokenText(s))
    ensures |TokenText(s)| == TokenEnd(s) + if Unclosed(s) then 2 else 0
    ensures Unclosed(s) ==> TokenEnd(s) == |s|
  {
  }

  lemma CopyInParts(s: string, n: nat, head: string, tail: string)
    requires n <= |s| && BlankedCopy(s[..n], head) && BlankedCopy(s[n..], tail)
    requires |head| == n || n == |s|
    ensures BlankedCopy(s, head + tail)
  {
    forall k | 0 <= k < |s|
      ensures (head + tail)[k] == s[k] || ((head + tail)[k] == ' ' && s[k] != '\n')
    {
      if k < n {
        assert s[..n][k] == s[k];
      } else {
        assert s[n..][k - n] == s[k];
      }
    }
  }

  /**
   * Stripping moves nothing: every character stays in its place or turns into a space, newlines
   * stay, and the length changes, by two, exactly when a block comment never ends.
   */
  lemma {:induction false} StrippingMovesNothing(s: string)
    ensures BlankedCopy(s, Strip(s))
    ensures |Strip(s)| == |s| + if Terminated(s) then 0 else 2
    decreases |s|
  {
    if s != "" {
      var n := TokenEnd(s);
      TokenIsCopied(s);
      StrippingMovesNothing(s[n..]);
      CopyInParts(s, n, TokenText(s), Strip(s[n..]));
    }
  }

  /** Newlines keep their places, so line numbers do not change either. */
  lemma {:induction false} NewlinesStay(s: string, k: nat)
    requires k < |s|
    ensures k < |Strip(s)| && (Strip(s)[k] == '\n' <==> s[k] == '\n')
  {
    StrippingMovesNothing(s);
  }

  // ---------------------------------------------------------------------------------------------
  // What stripping removes
  // ---------------------------------------------------------------------------------------------

  /** The scanner finds no comment in the text. */
  predicate CommentFree(s: string)
    decreases |s|
  {
    s == "" || (!IsComment(s) && CommentFree(s[TokenEnd(s)..]))
  }

  lemma {:induction false} BlanksAreNotScanned(b: string, t: string)
    requires forall k :: 0 <= k < |b| ==> b[k] == ' ' || b[k] == '\n'
    ensures CommentFree(b + t) == CommentFree(t)
  {
    if b == "" {
      assert b + t == t;
    } else {
      assert (b + t)[1..] == b[1..] + t;
      BlanksAreNotScanned(b[1..], t);
    }
  }

  /** Where a quoted text closes does not depend on what follows it. */
  lemma {:induction false} QuoteSkipIsLocal(s: string, t: string, i: nat, quote: char)
    requires i <= QuoteSkip(s, i, quote) < |s| && QuoteSkip(s, i, quote) < |t|
    requires s[..QuoteSkip(s, i, quote) + 1] == t[..QuoteSkip(s, i, quote) + 1]
    ensures QuoteSkip(t, i, quote) == QuoteSkip(s, i, quote)
    decreases |s| - i
  {
    var n := QuoteSkip(s, i, quote);
    assert s[..n + 1][i] == t[..n + 1][i];
    if s[i] != quote {
      QuoteSkipIsLocal(s, t, if s[i] == '\\' then i + 2 else i + 1, quote);
    }
  }

  /** A token that is no comment stays the token it was, once the comments behind it are blank. */
  lemma CodeStaysCode(s: string, tail: string)
    requires s != "" && !IsComment(s)
    requires BlankedCopy(s[TokenEnd(s)..], tail) && (TokenEnd(s) == |s| ==> tail == "")
    ensures var t := s[..TokenEnd(s)] + tail;
            !IsComment(t) && TokenEnd(t) == TokenEnd(s) && t[TokenEnd(s)..] == tail
  {
    var n := TokenEnd(s);
    var t := s[..n] + tail;
    if IsQuote(s[0]) {
      var m := QuoteSkip(s, 1, s[0]);
      if m < |s| {
        assert s[..m + 1] == t[..m + 1];
        QuoteSkipIsLocal(s, t, 1, s[0]);
      } else {
        assert t == s;
      }
    } else if |s| > 1 {
      assert tail[0] == s[1..][0] || tail[0] == ' ';
    }
  }

  /** After stripping no comment is left, neither an old one nor one made by closing up. */
  lemma {:induction false} NoCommentIsLeft(s: string)
    ensures CommentFree(Strip(s))
    decreases |s|
  {
    if s != "" {
      var n := TokenEnd(s);
      NoCommentIsLeft(s[n..]);
      if IsComment(s) {
        BlanksAreNotScanned(TokenText(s), Strip(s[n..]));
      } else {
        StrippingMovesNothing(s[n..]);
        CodeStaysCode(s, Strip(s[n..]));
      }
    }
  }

  lemma PrefixCancels(s: string, n: nat, tail: string)
    requires n <= |s|
    ensures s[..n] + tail == s <==> tail == s[n..]
  {
    assert (s[..n] + tail)[n..] == tail;
    assert s[..n] + s[n..] == s;
  }

  /** Stripping leaves a text alone exactly when it has no comment. */
  lemma {:induction false} UnchangedExactlyWithoutComments(s: string)
    ensures Strip(s) == s <==> CommentFree(s)
    decreases |s|
  {
    if s != "" {
      if IsComment(s) {
        assert Strip(s)[0] == ' ';
      } else {
        var n := TokenEnd(s);
        UnchangedExactlyWithoutComments(s[n..]);
        PrefixCancels(s, n, Strip(s[n..]));
      }
    }
  }

  /** Stripping twice is the same as stripping once, for every text. */
  lemma {:induction false} StrippingIsIdempotent(s: string)
    ensures Strip(Strip(s)) == Strip(s)
  {
    NoCommentIsLeft(s);
    UnchangedExactlyWithoutComments(Strip(s));
  }

  /** The shortest text that grows: a block comment that is opened and never closed. */
  lemma UnclosedCommentGrows()
    ensures Strip("/*") == "    "
  {
    StrippingMovesNothing("/*");
    NoCommentIsLeft("/*");
  }

  // ---------------------------------------------------------------------------------------------
  // What stripping does, construct by construct
  // ---------------------------------------------------------------------------------------------

  /** The text with everything but its newlines turned into spaces. */
  ghost function Spaced(s: string): string {
    seq(|s|, k requires 0 <= k < |s| => if s[k] == '\n' then '\n' else ' ')
  }

  lemma {:induction false} LineReachesTo(body: string, rest: string)
    requires '\n' !in body && (rest == "" || rest[0] == '\n')
    ensures LineEnd("//" + body + rest) == |body| + 2
  {
    var s, n := "//" + body + rest, |body| + 2;
    assert s[0] == '/' && s[1] == '/';
    assert forall k :: 2 <= k < n ==> s[k] == body[k - 2];
    assert n < |s| ==> s[n] == rest[0];
    LineEndIs(s, 0, n);
    assert s[0..] == s;
  }

  /** A line comment, up to the end of its line, turns into spaces. */
  lemma {:induction false} LineCommentIsBlanked(body: string, rest: string)
    requires '\n' !in body && (rest == "" || rest[0] == '\n')
    ensures Strip("//" + body + rest) == Spaced("//" + body) + Strip(rest)
  {
    var token := "//" + body;
    var s := token + rest;
    LineReachesTo(body, rest);
    assert LineStart(s) && TokenEnd(s) == |token| && s[..|token|] == token && s[|token|..] == rest;
    assert Blank(token) == Spaced(token);
  }

  /** The mark that closes a block comment stands at `k`. */
  ghost predicate ClosesAt(s: string, k: int) {
    0 <= k < |s| - 1 && s[k] == '*' && s[k + 1] == '/'
  }

  lemma {:induction false} FirstCloser(t: string, rest: string)
    requires |t| >= 3 && ClosesAt(t, |t| - 2) && forall k :: 0 <= k < |t| - 2 ==> !ClosesAt(t, k)
    ensures BlockEnd(t + rest) == |t| - 2
  {
    var s, n := t + rest, |t| - 2;
    assert forall k :: 0 <= k < |t| ==> s[k] == t[k];
    forall k | 0 <= k < n
      ensures !CloserAt(s, k)
    {
      assert !ClosesAt(t, k);
    }
    BlockEndIs(s, 0, n);
    assert s[0..] == s;
  }

  /** A block comment, up to and with its first closing mark, turns into spaces and its newlines. */
  lemma {:induction false} BlockCommentIsBlanked(t: string, rest: string)
    requires |t| >= 3 && t[0] == '/' && t[1] == '*' && ClosesAt(t, |t| - 2)
    requires forall k :: 0 <= k < |t| - 2 ==> !ClosesAt(t, k)
    ensures Strip(t + rest) == Spaced(t) + Strip(rest)
  {
    var s := t + rest;
    FirstCloser(t, rest);
    assert TokenEnd(s) == |t| && s[..|t|] == t && s[|t|..] == rest;
    assert Blank(t) == Spaced(t);
  }

  /** A block comment that is never closed turns into spaces, and two more follow. */
  lemma {:induction false} OpenCommentIsBlanked(t: string)
    requires |t| >= 2 && t[0] == '/' && t[1] == '*' && forall k :: !ClosesAt(t, k)
    ensures Strip(t) == Spaced(t) + "  "
  {
    forall k | 0 <= k < |t|
      ensures !CloserAt(t, k)
    {
      assert !ClosesAt(t, k);
    }
    BlockEndIs(t, 0, |t|);
    assert t[0..] == t && t[..|t|] == t && t[|t|..] == "" && Strip("") == "";
  }

  /** The text can stand between two quotes: each of them, and of the backslashes, is escaped. */
  ghost predicate FitsQuotes(body: string, quote: char)
    decreases |body|
  {
    || body == ""
    || (body[0] == '\\' && |body| > 1 && FitsQuotes(body[2..], quote))
    || (body[0] != '\\' && body[0] != quote && FitsQuotes(body[1..], quote))
  }

  lemma {:induction false} SkipsBody(s: string, i: nat, body: string, quote: char)
    requires quote != '\\' && FitsQuotes(body, quote)
    requires i + |body| < |s| && s[i..i + |body|] == body && s[i + |body|] == quote
    ensures QuoteSkip(s, i, quote) == i + |body|
    decreases |body|
  {
    if body != "" {
      assert s[i] == s[i..i + |body|][0] == body[0];
      var step := if body[0] == '\\' then 2 else 1;
      assert s[i + step..i + |body|] == s[i..i + |body|][step..];
      SkipsBody(s, i + step, body[step..], quote);
    }
  }

  /** A quoted text stays as it is, whatever it holds, comment marks and escaped quotes included. */
  lemma {:induction false} QuotedTextStays(quote: char, body: string, rest: string)
    requires (quote == '\'' || quote == '"' || quote == '`') && FitsQuotes(body, quote)
    ensures Strip([quote] + body + [quote] + rest) == [quote] + body + [quote] + Strip(rest)
  {
    var token := [quote] + body + [quote];
    var s := token + rest;
    assert s[0] == quote && s[1..1 + |body|] == body && s[1 + |body|] == quote;
    SkipsBody(s, 1, body, quote);
    assert TokenEnd(s) == |token|;
    assert s[..|token|] == token && s[|token|..] == rest;
  }

  /** In particular a line comment mark in quotes stays, in each of the three quotes. */
  lemma SlashesInQuotesStay(quote: char)
    requires quote == '\'' || quote == '"' || quote == '`'
    ensures Strip([quote] + "//" + [quote]) == [quote] + "//" + [quote]
  {
    assert "//"[1..] == "/" && "/"[1..] == "";
    assert FitsQuotes("", quote) && FitsQuotes("/", quote) && FitsQuotes("//", quote);
    QuotedTextStays(quote, "//", "");
    assert [quote] + "//" + [quote] + "" == [quote] + "//" + [quote];
  }

  /** What follows a quote never closes it. */
  ghost predicate NeverCloses(body: string, quote: char)
    decreases |body|
  {
    || body == ""
    || (body[0] == '\\' && (|body| == 1 || NeverCloses(body[2..], quote)))
    || (body[0] != '\\' && body[0] != quote && NeverCloses(body[1..], quote))
  }

  lemma {:induction false} SkipsToTheEnd(s: string, i: nat, quote: char)
    requires quote != '\\' && i <= |s| && NeverCloses(s[i..], quote)
    ensures QuoteSkip(s, i, quote) >= |s|
    decreases |s| - i
  {
    if i < |s| {
      var step := if s[i] == '\\' then 2 else 1;
      if i + step <= |s| {
        assert s[i..][step..] == s[i + step..];
        SkipsToTheEnd(s, i + step, quote);
      }
    }
  }

  /** A quote that is never closed keeps all that follows it. */
  lemma {:induction false} OpenQuoteStays(quote: char, body: string)
    requires (quote == '\'' || quote == '"' || quote == '`') && NeverCloses(body, quote)
    ensures Strip([quote] + body) == [quote] + body
  {
    var s := [quote] + body;
    assert s[1..] == body;
    SkipsToTheEnd(s, 1, quote);
    assert TokenEnd(s) == |s| && s[..|s|] == s && s[|s|..] == "" && Strip("") == "";
  }

  /** Any other character stays, and what follows it is stripped on its own. */
  /** Any other character stays, and what follows it is stripped on its own. */
  lemma {:induction false} CodeStays(c: char, rest: string)
    requires c != '\'' && c != '"' && c != '`'
    requires c == '/' ==> rest == "" || (rest[0] != '/' && rest[0] != '*')
    ensures Strip([c] + rest) == [c] + Strip(rest)
  {
    var s := [c] + rest;
    assert s[..1] == [c] && s[1..] == rest;
  }
}
