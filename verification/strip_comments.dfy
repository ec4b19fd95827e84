/** The comment stripper: a left-to-right scanner that, at each position,
    tries the four alternatives of the pattern
      line comment | block comment | character literal | string literal
    (in that order, with `.` matching newlines and `$` matching before every
    newline), deletes the comments it finds, keeps the literals verbatim, and
    copies every character at which nothing matches. */
module StripComments {
  import opened Common

  type Text = seq<char>

  datatype TokenKind = LineComment | BlockComment | CharLiteral | StringLiteral

  /** A match found at the start of the remaining text: its alternative and length. */
  datatype Token = Token(kind: TokenKind, len: nat)

  // ---------------------------------------------------------------------
  // The grammar of each alternative, stated as predicates on the matched
  // text. These are the reference definitions the scanner is proved against.
  // ---------------------------------------------------------------------

  /** `//.*?$`: two slashes, then the shortest run that ends at a newline
      (not included) or at the end of the text. */
  predicate IsLineCommentMatch(s: Text, len: nat)
  {
    && 2 <= len <= |s|
    && s[0] == '/' && s[1] == '/'
    && (len == |s| || s[len] == '\n')
    && forall k :: 2 <= k < len ==> s[k] != '\n'
  }

  // A closing star-slash starts at index `k` of `t`.
  predicate CloseAt(t: Text, k: int)
  {
    0 <= k && k + 1 < |t| && t[k] == '*' && t[k + 1] == '/'
  }

  // The block-comment alternative: an opening slash-star, then the first
  // star-slash that starts two or more characters later.
  predicate IsBlockComment(t: Text)
  {
    && |t| >= 4
    && t[0] == '/' && t[1] == '*'
    && CloseAt(t, |t| - 2)
    && forall k :: 2 <= k < |t| - 2 ==> !CloseAt(t, k)
  }

  /** One unit between quotes: a backslash and any character, or one
      character that is neither a backslash nor the closing quote. */
  predicate IsUnit(u: Text, quote: char)
  {
    || (|u| == 1 && u[0] != '\\' && u[0] != quote)
    || (|u| == 2 && u[0] == '\\')
  }

  /** Zero or more units. */
  predicate IsUnits(t: Text, quote: char)
    decreases |t|
  {
    || |t| == 0
    || (t[0] == '\\' && |t| >= 2 && IsUnits(t[2..], quote))
    || (t[0] != '\\' && t[0] != quote && IsUnits(t[1..], quote))
  }

  /** `'(?:\\.|[^\\'])'`: exactly one unit between single quotes. */
  predicate IsCharLiteral(t: Text)
  {
    |t| >= 2 && t[0] == '\'' && t[|t| - 1] == '\'' && IsUnit(t[1..|t| - 1], '\'')
  }

  /** `"(?:\\.|[^\\"])*"`: any number of units between double quotes. */
  predicate IsStringLiteral(t: Text)
  {
    |t| >= 2 && t[0] == '"' && t[|t| - 1] == '"' && IsUnits(t[1..|t| - 1], '"')
  }

  /** The alternative `tok.kind` matches the first `tok.len` characters of `s`. */
  predicate Matches(s: Text, tok: Token)
  {
    match tok.kind
    case LineComment => IsLineCommentMatch(s, tok.len)
    case BlockComment => tok.len <= |s| && IsBlockComment(s[..tok.len])
    case CharLiteral => tok.len <= |s| && IsCharLiteral(s[..tok.len])
    case StringLiteral => tok.len <= |s| && IsStringLiteral(s[..tok.len])
  }

  // ---------------------------------------------------------------------
  // The scanner
  // ---------------------------------------------------------------------

  // The lazy middle of a block comment: the index just past the first
  // star-slash that starts at or after `i`, if there is one.
  function BlockClose(s: Text, i: nat): (r: Option<nat>)
    requires i <= |s|
    ensures r.Some? ==> && i + 2 <= r.value <= |s|
                        && CloseAt(s, r.value - 2)
                        && forall k :: i <= k < r.value - 2 ==> !CloseAt(s, k)
    ensures r.None? ==> forall k :: i <= k ==> !CloseAt(s, k)
    decreases |s| - i
  {
    if i + 1 >= |s| then None
    else if s[i] == '*' && s[i + 1] == '/' then Some(i + 2)
    else BlockClose(s, i + 1)
  }

  /** The units of a string literal read from `i`: the index of the first
      double quote that is not part of an escape, if the text has one. */
  function StringClose(s: Text, i: nat): (r: Option<nat>)
    requires i <= |s|
    ensures r.Some? ==> i <= r.value < |s| && s[r.value] == '"' && IsUnits(s[i..r.value], '"')
    decreases |s| - i
  {
    if i == |s| then None
    else if s[i] == '"' then Some(i)
    else if s[i] == '\\' then
      if i + 1 < |s| then
        var r := StringClose(s, i + 2);
        if r.Some? then
          assert s[i..r.value][2..] == s[i + 2..r.value];
          r
        else r
      else None
    else
      var r := StringClose(s, i + 1);
      if r.Some? then
        assert s[i..r.value][1..] == s[i + 1..r.value];
        r
      else r
  }

  /** The length of the character literal at the start of `s`, if there is one. */
  function CharLiteralLen(s: Text): (r: Option<nat>)
    requires |s| > 0 && s[0] == '\''
    ensures r.Some? ==> r.value <= |s| && IsCharLiteral(s[..r.value])
  {
    if |s| >= 4 && s[1] == '\\' && s[3] == '\'' then Some(4)
    else if |s| >= 3 && s[1] != '\\' && s[1] != '\'' && s[2] == '\'' then Some(3)
    else None
  }

  /** The alternation tried at the start of `s`, first alternative first. */
  function Match(s: Text): (r: Option<Token>)
    ensures r.Some? ==> 0 < r.value.len <= |s| && Matches(s, r.value)
  {
    if |s| >= 2 && s[0] == '/' && s[1] == '/' then
      Some(Token(LineComment, NextNewline(s, 2)))
    else if |s| >= 2 && s[0] == '/' && s[1] == '*' then
      match BlockClose(s, 2)
      case Some(e) => BlockPrefix(s, e); Some(Token(BlockComment, e))
      case None => None
    else if |s| >= 1 && s[0] == '\'' then
      match CharLiteralLen(s)
      case Some(n) => Some(Token(CharLiteral, n))
      case None => None
    else if |s| >= 1 && s[0] == '"' then
      match StringClose(s, 1)
      case Some(j) => StringPrefix(s, j); Some(Token(StringLiteral, j + 1))
      case None => None
    else
      None
  }

  // Helpers restating a scan result as the grammar of the prefix it delimits.
  lemma BlockPrefix(s: Text, e: nat)
    requires 4 <= e <= |s| && s[0] == '/' && s[1] == '*' && CloseAt(s, e - 2)
    requires forall k :: 2 <= k < e - 2 ==> !CloseAt(s, k)
    ensures IsBlockComment(s[..e])
  {
    var t := s[..e];
    forall k | 2 <= k < e - 2
      ensures !CloseAt(t, k)
    {
      assert !CloseAt(s, k);
    }
  }

  lemma StringPrefix(s: Text, j: nat)
    requires 1 <= j < |s| && s[0] == '"' && s[j] == '"' && IsUnits(s[1..j], '"')
    ensures IsStringLiteral(s[..j + 1])
  {
    assert s[..j + 1][1..j] == s[1..j];
  }

  /** The replacement callback: a match that starts with `/` is a comment
      and becomes empty; a quote-initiated match is returned unchanged. */
  function Replace(m: Text): (r: Text)
    requires |m| > 0
    ensures r == [] || r == m
    ensures r == [] <==> m[0] == '/'
  {
    if m[0] == '/' then [] else m
  }

  /** The whole substitution: every match is replaced, every character at
      which nothing matches is copied, and scanning resumes after each. */
  function Strip(s: Text): (r: Text)
    ensures |r| <= |s|
    decreases |s|
  {
    if |s| == 0 then []
    else
      match Match(s)
      case Some(tok) => Replace(s[..tok.len]) + Strip(s[tok.len..])
      case None => [s[0]] + Strip(s[1..])
  }

  // ---------------------------------------------------------------------
  // The scanner finds exactly what the grammar describes
  // ---------------------------------------------------------------------

  lemma {:induction false} StringCloseComplete(s: Text, i: nat, j: nat)
    requires i <= j < |s| && s[j] == '"' && IsUnits(s[i..j], '"')
    ensures StringClose(s, i) == Some(j)
    decreases j - i
  {
    if i < j {
      var t := s[i..j];
      if t[0] == '\\' {
        assert t[2..] == s[i + 2..j];
        StringCloseComplete(s, i + 2, j);
      } else {
        assert t[0] != '"';
        assert t[1..] == s[i + 1..j];
        StringCloseComplete(s, i + 1, j);
      }
    }
  }

  /** Whatever the grammar says matches at the start of `s` is what the
      scanner returns; with `Match`'s own postcondition this makes `Match`
      exact, and shows that at most one alternative can match. */
  lemma MatchComplete(s: Text, tok: Token)
    requires Matches(s, tok)
    ensures Match(s) == Some(tok)
  {
    match tok.kind
    case LineComment =>
      var k := NextNewline(s, 2);
    case BlockComment =>
      var t := s[..tok.len];
      assert CloseAt(s, tok.len - 2) by { assert CloseAt(t, tok.len - 2); }
      assert forall k :: 2 <= k < tok.len - 2 ==> !CloseAt(s, k) by {
        forall k | 2 <= k < tok.len - 2
          ensures !CloseAt(s, k)
        {
          assert !CloseAt(t, k);
        }
      }
      var r := BlockClose(s, 2);
    case CharLiteral =>
      CharLiteralFound(s, tok.len);
    case StringLiteral =>
      StringLiteralFound(s, tok.len);
  }

  lemma CharLiteralFound(s: Text, n: nat)
    requires n <= |s| && IsCharLiteral(s[..n])
    ensures Match(s) == Some(Token(CharLiteral, n))
  {
    var t := s[..n];
    var u := t[1..n - 1];
    assert s[0] == t[0] && s[n - 1] == t[n - 1];
    if |u| == 2 {
      assert s[1] == u[0];
    } else {
      assert s[1] == u[0];
    }
  }

  lemma StringLiteralFound(s: Text, n: nat)
    requires n <= |s| && IsStringLiteral(s[..n])
    ensures Match(s) == Some(Token(StringLiteral, n))
  {
    var t := s[..n];
    assert s[0] == t[0] && s[n - 1] == t[n - 1];
    assert t[1..n - 1] == s[1..n - 1];
    StringCloseComplete(s, 1, n - 1);
  }

  // ---------------------------------------------------------------------
  // What stripping does to each kind of span
  // ---------------------------------------------------------------------

  /** A line comment runs to just before the next newline (or to the end of
      the text) and is deleted; the newline and what follows are scanned on. */
  lemma LineCommentDeleted(body: Text, rest: Text)
    requires forall k :: 0 <= k < |body| ==> body[k] != '\n'
    requires rest == [] || rest[0] == '\n'
    ensures Strip("//" + body + rest) == Strip(rest)
  {
    var s := "//" + body + rest;
    var tok := Token(LineComment, 2 + |body|);
    assert forall k :: 2 <= k < tok.len ==> s[k] == body[k - 2];
    MatchComplete(s, tok);
    assert s[tok.len..] == rest;
  }

  /** A terminated block comment is deleted, newlines and all. */
  lemma BlockCommentDeleted(s: Text, len: nat)
    requires len <= |s| && IsBlockComment(s[..len])
    ensures Strip(s) == Strip(s[len..])
  {
    MatchComplete(s, Token(BlockComment, len));
  }

  // With no closing star-slash two or more characters after the opening
  // slash-star, the slash is copied as ordinary text and scanning resumes
  // at the star.
  lemma UnterminatedBlockCopied(s: Text)
    requires |s| >= 2 && s[0] == '/' && s[1] == '*'
    requires forall k :: 2 <= k ==> !CloseAt(s, k)
    ensures Strip(s) == ['/'] + Strip(s[1..])
  {
    var r := BlockClose(s, 2);
  }

  /** A string literal at the start of the text is copied byte for byte,
      whatever comment-like sequences it contains. */
  lemma StringLiteralKept(s: Text, len: nat)
    requires len <= |s| && IsStringLiteral(s[..len])
    ensures Strip(s) == s[..len] + Strip(s[len..])
  {
    MatchComplete(s, Token(StringLiteral, len));
  }

  /** A character literal at the start of the text is copied byte for byte. */
  lemma CharLiteralKept(s: Text, len: nat)
    requires len <= |s| && IsCharLiteral(s[..len])
    ensures Strip(s) == s[..len] + Strip(s[len..])
  {
    MatchComplete(s, Token(CharLiteral, len));
  }

  /** A double quote with no closing quote after it is copied as plain text. */
  lemma UnterminatedStringCopied(s: Text)
    requires |s| > 0 && s[0] == '"'
    requires forall j :: 1 <= j < |s| && s[j] == '"' ==> !IsUnits(s[1..j], '"')
    ensures Strip(s) == ['"'] + Strip(s[1..])
  {
  }

  /** `'\''` is a character literal; `''` and `'ab'` are not (the pattern
      allows exactly one unit), so their quotes are copied as plain text. */
  lemma CharLiteralExamples()
    ensures IsCharLiteral("'\\''")
    ensures Match("'\\''") == Some(Token(CharLiteral, 4))
    ensures Match("''") == None
    ensures Match("'ab'") == None
  {
    assert "'\\''"[1..3] == "\\'";
  }

  /** A run of characters none of which can open a match is copied as is. */
  lemma {:induction false} PlainRunCopied(p: Text, rest: Text)
    requires forall k :: 0 <= k < |p| ==> p[k] != '/' && p[k] != '\'' && p[k] != '"'
    ensures Strip(p + rest) == p + Strip(rest)
    decreases |p|
  {
    if |p| > 0 {
      assert (p + rest)[1..] == p[1..] + rest;
      PlainRunCopied(p[1..], rest);
      assert [p[0]] + p[1..] == p;
    } else {
      assert p + rest == rest;
    }
  }

  /** A character position at which no alternative of the grammar matches
      is copied, and scanning moves on by one. */
  lemma UnmatchedCopied(s: Text)
    requires |s| > 0 && forall tok :: !Matches(s, tok)
    ensures Strip(s) == [s[0]] + Strip(s[1..])
  {
    if Match(s).Some? {
      assert false;
    }
  }

  /** A literal in front of the rest of the text is kept verbatim. */
  lemma LiteralThenRest(lit: Text, rest: Text)
    requires IsCharLiteral(lit) || IsStringLiteral(lit)
    ensures Strip(lit + rest) == lit + Strip(rest)
  {
    var s := lit + rest;
    assert s[..|lit|] == lit && s[|lit|..] == rest;
    if IsCharLiteral(lit) {
      CharLiteralKept(s, |lit|);
    } else {
      StringLiteralKept(s, |lit|);
    }
  }

  /** A block comment in front of the rest of the text is deleted. */
  lemma BlockThenRest(c: Text, rest: Text)
    requires IsBlockComment(c)
    ensures Strip(c + rest) == Strip(rest)
  {
    var s := c + rest;
    assert s[..|c|] == c && s[|c|..] == rest;
    BlockCommentDeleted(s, |c|);
  }

  /** Text without a slash holds no comment, so stripping leaves it as it is. */
  lemma {:induction false} NoSlashUnchanged(s: Text)
    requires forall k :: 0 <= k < |s| ==> s[k] != '/'
    ensures Strip(s) == s
    decreases |s|
  {
    if |s| > 0 {
      match Match(s)
      case Some(tok) =>
        NoSlashUnchanged(s[tok.len..]);
        assert s[..tok.len] + s[tok.len..] == s;
      case None =>
        NoSlashUnchanged(s[1..]);
        assert [s[0]] + s[1..] == s;
    }
  }

  // ---------------------------------------------------------------------
  // Output is a subsequence of the input
  // ---------------------------------------------------------------------

  /** `a` can be obtained from `b` by deleting characters. */
  ghost predicate IsSubsequence(a: Text, b: Text)
    decreases |b|
  {
    if |a| == 0 then true
    else if |b| == 0 then false
    else (a[0] == b[0] && IsSubsequence(a[1..], b[1..])) || IsSubsequence(a, b[1..])
  }

  lemma {:induction false} SubsequenceRefl(a: Text)
    ensures IsSubsequence(a, a)
    decreases |a|
  {
    if |a| > 0 {
      SubsequenceRefl(a[1..]);
    }
  }

  lemma {:induction false} SubsequenceSkip(a: Text, p: Text, b: Text)
    requires IsSubsequence(a, b)
    ensures IsSubsequence(a, p + b)
    decreases |p|
  {
    if |p| > 0 && |a| > 0 {
      SubsequenceSkip(a, p[1..], b);
      assert (p + b)[1..] == p[1..] + b;
    } else if |p| > 0 {
    } else {
      assert p + b == b;
    }
  }

  lemma {:induction false} SubsequenceConcat(x: Text, p: Text, y: Text, q: Text)
    requires IsSubsequence(x, p) && IsSubsequence(y, q)
    ensures IsSubsequence(x + y, p + q)
    decreases |p|
  {
    if |x| == 0 {
      assert x + y == y;
      SubsequenceSkip(y, p, q);
    } else {
      assert (p + q)[1..] == p[1..] + q;
      if x[0] == p[0] && IsSubsequence(x[1..], p[1..]) {
        assert (x + y)[1..] == x[1..] + y;
        SubsequenceConcat(x[1..], p[1..], y, q);
      } else {
        SubsequenceConcat(x, p[1..], y, q);
      }
    }
  }

  /** The output is the input with characters deleted: order is kept and
      nothing is added. */
  lemma {:induction false} StripIsSubsequence(s: Text)
    ensures IsSubsequence(Strip(s), s)
    decreases |s|
  {
    if |s| > 0 {
      match Match(s)
      case Some(tok) =>
        var m := s[..tok.len];
        StripIsSubsequence(s[tok.len..]);
        if m[0] == '/' {
          assert IsSubsequence([], m);
        } else {
          SubsequenceRefl(m);
        }
        SubsequenceConcat(Replace(m), m, Strip(s[tok.len..]), s[tok.len..]);
        assert m + s[tok.len..] == s;
      case None =>
        StripIsSubsequence(s[1..]);
        SubsequenceRefl([s[0]]);
        SubsequenceConcat([s[0]], [s[0]], Strip(s[1..]), s[1..]);
        assert [s[0]] + s[1..] == s;
    }
  }

  // ---------------------------------------------------------------------
  // The same scan seen as a partition of the text into classified spans
  // ---------------------------------------------------------------------

  datatype SpanKind = Comment | Literal | Plain
  datatype Span = Span(kind: SpanKind, text: Text)

  function KindOf(k: TokenKind): SpanKind
  {
    if k == LineComment || k == BlockComment then Comment else Literal
  }

  /** A span is what its kind says it is: a comment is a line comment up
      to its newline or a terminated block comment, a literal is a
      character or string literal, plain text is one character. */
  predicate WellFormedSpan(sp: Span)
  {
    match sp.kind
    case Comment => IsLineCommentMatch(sp.text, |sp.text|) || IsBlockComment(sp.text)
    case Literal => IsCharLiteral(sp.text) || IsStringLiteral(sp.text)
    case Plain => |sp.text| == 1
  }

  /** The spans of `s`, left to right, as the scanner classifies them. */
  function Spans(s: Text): (spans: seq<Span>)
    ensures forall i :: 0 <= i < |spans| ==> WellFormedSpan(spans[i])
    decreases |s|
  {
    if |s| == 0 then []
    else
      match Match(s)
      case Some(tok) => [Span(KindOf(tok.kind), s[..tok.len])] + Spans(s[tok.len..])
      case None => [Span(Plain, [s[0]])] + Spans(s[1..])
  }

  function Flatten(spans: seq<Span>): Text
  {
    if |spans| == 0 then [] else spans[0].text + Flatten(spans[1..])
  }

  /** The text of the spans that are not comments, in order. */
  function KeptText(spans: seq<Span>): Text
  {
    if |spans| == 0 then []
    else (if spans[0].kind == Comment then [] else spans[0].text) + KeptText(spans[1..])
  }

  function CommentLength(spans: seq<Span>): nat
  {
    if |spans| == 0 then 0
    else (if spans[0].kind == Comment then |spans[0].text| else 0) + CommentLength(spans[1..])
  }

  /** The spans cover the text with no gap and no overlap. */
  lemma {:induction false} SpansPartition(s: Text)
    ensures Flatten(Spans(s)) == s
    decreases |s|
  {
    if |s| > 0 {
      match Match(s)
      case Some(tok) =>
        SpansPartition(s[tok.len..]);
        assert s[..tok.len] + s[tok.len..] == s;
      case None =>
        SpansPartition(s[1..]);
        assert [s[0]] + s[1..] == s;
    }
  }

  /** Stripping deletes exactly the comment spans and keeps every other
      span unchanged and in order. */
  lemma {:induction false} StripKeepsNonComments(s: Text)
    ensures Strip(s) == KeptText(Spans(s))
    decreases |s|
  {
    if |s| > 0 {
      match Match(s)
      case Some(tok) =>
        StripKeepsNonComments(s[tok.len..]);
      case None =>
        StripKeepsNonComments(s[1..]);
    }
  }

  /** The length removed is the total length of the comment spans. */
  lemma {:induction false} RemovedLength(s: Text)
    ensures |s| == |Strip(s)| + CommentLength(Spans(s))
    decreases |s|
  {
    if |s| > 0 {
      match Match(s)
      case Some(tok) =>
        RemovedLength(s[tok.len..]);
      case None =>
        RemovedLength(s[1..]);
    }
  }

  /** With no comment among the spans, keeping the non-comments keeps everything. */
  lemma {:induction false} KeptAllWithoutComments(spans: seq<Span>)
    requires forall i :: 0 <= i < |spans| ==> spans[i].kind != Comment
    ensures KeptText(spans) == Flatten(spans)
    decreases |spans|
  {
    if |spans| > 0 {
      KeptAllWithoutComments(spans[1..]);
    }
  }

  /** Text whose scan finds no comment is a fixed point of `Strip`, slashes
      in it or not. */
  lemma NoCommentUnchanged(s: Text)
    requires forall i :: 0 <= i < |Spans(s)| ==> Spans(s)[i].kind != Comment
    ensures Strip(s) == s
  {
    StripKeepsNonComments(s);
    KeptAllWithoutComments(Spans(s));
    SpansPartition(s);
  }
}
