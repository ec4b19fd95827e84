/** What happens to the text of one source file: comments are stripped,
    then the lines are normalised. The directory walk, decoding and file
    writes around it are not modelled. */
module CleanFile {
  import opened Common
  import opened StripComments
  import opened Lines

  /** One file's clean-up: strip the comments, then normalise the lines.
      Neither step lengthens the text. */
  function Clean(text: seq<char>): (r: seq<char>)
    ensures |r| <= |text|
  {
    Normalize(Strip(text))
  }

  /** Text in which the scan finds no comment (a division sign is fine)
      only has its lines normalised. */
  lemma NoCommentsOnlyNormalized(text: seq<char>)
    requires forall i :: 0 <= i < |Spans(text)| ==> Spans(text)[i].kind != Comment
    ensures Clean(text) == Normalize(text)
  {
    NoCommentUnchanged(text);
  }

  // ---------------------------------------------------------------------
  // Helpers for working through concrete texts
  // ---------------------------------------------------------------------

  /** A run of characters that are neither backslashes nor the quote is a
      run of units. */
  lemma {:induction false} PlainUnits(t: seq<char>, quote: char)
    requires forall k :: 0 <= k < |t| ==> t[k] != '\\' && t[k] != quote
    ensures IsUnits(t, quote)
    decreases |t|
  {
    if |t| > 0 {
      PlainUnits(t[1..], quote);
    }
  }

  // ---------------------------------------------------------------------
  // Worked examples. Each text is written as the concatenation of its
  // pieces, and each is proved piece by piece with the scanner lemmas.
  // The pieces are parameters pinned by `requires p == "..."` rather than
  // literals in the `ensures`: that keeps the verifier from unfolding the
  // scanner over a whole literal text at once, which it cannot afford.
  // ---------------------------------------------------------------------

  /** A trailing line comment goes, and so does the space before it. */
  lemma LineCommentExample(code: seq<char>, body: seq<char>)
    requires code == "int x; " && body == " comment"
    ensures Strip(code + "//" + body + "\n") == code + "\n"
    ensures Clean(code + "//" + body + "\n") == "int x;"
  {
    LineCommentStrip(code, body);
    LineCommentLines(code);
  }

  lemma LineCommentStrip(code: seq<char>, body: seq<char>)
    requires code == "int x; " && body == " comment"
    ensures Strip(code + "//" + body + "\n") == code + "\n"
  {
    assert code + "//" + body + "\n" == code + ("//" + body + "\n");
    LineCommentDeleted(body, "\n");
    PlainRunCopied(code, "//" + body + "\n");
    PlainRunCopied("\n", "");
    assert "\n" + "" == "\n";
  }

  lemma LineCommentLines(code: seq<char>)
    requires code == "int x; "
    ensures Normalize(code + "\n") == "int x;"
  {
    NormalizeOneLine(code);
    RStripOf("int x;", " ");
    assert "int x;" + " " == code;
  }

  /** A block comment spanning two lines is removed with its newline,
      leaving an empty first line. */
  lemma BlockCommentExample(c: seq<char>, line: seq<char>)
    requires c == "/* block\ncomment */" && line == "int y;"
    ensures Strip(c + "\n" + line) == "\n" + line
    ensures Clean(c + "\n" + line) == "\n" + line
  {
    BlockCommentStrip(c, line);
    LeadingBlankLine(line);
  }

  lemma BlockCommentStrip(c: seq<char>, line: seq<char>)
    requires c == "/* block\ncomment */" && line == "int y;"
    ensures Strip(c + "\n" + line) == "\n" + line
  {
    assert c + "\n" + line == c + ("\n" + line);
    assert IsBlockComment(c) by {
      assert CloseAt(c, |c| - 2);
      forall k | 2 <= k < |c| - 2
        ensures !CloseAt(c, k)
      {
        assert c[k + 1] != '/';
      }
    }
    BlockThenRest(c, "\n" + line);
    NoSlashUnchanged("\n" + line);
  }

  /** An empty line before a clean line is kept. */
  lemma LeadingBlankLine(line: seq<char>)
    requires |line| > 0 && HasNoNewline(line) && !IsSpace(line[|line| - 1])
    ensures Normalize("\n" + line) == "\n" + line
  {
    var t := "\n" + line;
    assert NextNewline(t, 0) == 0;
    assert t[..0] == [] && t[1..] == line;
    assert NextNewline(line, 0) == |line|;
    assert SplitLines(t) == [[]] + [line];
    assert RStrip(line) == line;
    assert RStripAll([[], line]) == [[], line];
    assert CollapsePrefix([[], line], 1) == [[]];
    assert Collapse([[], line]) == [[], line];
    assert Join([[], line]) == [] + "\n" + line;
  }

  /** A `//` inside a string literal is not a comment. */
  lemma UrlInStringExample(code: seq<char>, lit: seq<char>, end: seq<char>)
    requires code == "const char* s = " && lit == "\"http://example.com\"" && end == ";"
    ensures Strip(code + lit + end) == code + lit + end
    ensures Clean(code + lit + end) == code + lit + end
  {
    UrlInStringStrip(code, lit, end);
    UrlInStringLines(code, lit, end);
  }

  lemma UrlInStringLines(code: seq<char>, lit: seq<char>, end: seq<char>)
    requires code == "const char* s = " && lit == "\"http://example.com\"" && end == ";"
    ensures Normalize(code + lit + end) == code + lit + end
  {
    PiecesOneLine(code, lit, end);
  }

  lemma UrlInStringStrip(code: seq<char>, lit: seq<char>, end: seq<char>)
    requires code == "const char* s = " && lit == "\"http://example.com\"" && end == ";"
    ensures Strip(code + lit + end) == code + lit + end
  {
    assert code + lit + end == code + (lit + end);
    PlainUnits(lit[1..|lit| - 1], '"');
    assert IsStringLiteral(lit);
    LiteralThenRest(lit, end);
    NoSlashUnchanged(end);
    PlainRunCopied(code, lit + end);
  }

  /** Four blank lines between two statements become one. */
  lemma BlankRunExample(first: seq<char>, last: seq<char>)
    requires first == "a;" && last == "b;"
    ensures Clean(first + "\n\n\n\n\n" + last) == first + "\n\n" + last
  {
    var t := first + "\n\n\n\n\n" + last;
    assert forall k :: 0 <= k < |t| ==> t[k] != '/';
    NoSlashUnchanged(t);
    assert t == first + "\n" + ("\n\n\n\n" + last);
    BlankRunLines(t, first, last);
    BlankRunNormalize(t, first, last);
  }

  lemma BlankRunLines(t: seq<char>, first: seq<char>, last: seq<char>)
    requires first == "a;" && last == "b;" && t == first + "\n" + ("\n\n\n\n" + last)
    ensures SplitLines(t) == [first] + (Blanks(4) + [last])
  {
    NewlinesThenLine(4, last);
    assert Newlines(4) == "\n\n\n\n";
    assert NextNewline(t, 0) == |first| by { assert t[|first|] == '\n'; }
    assert t[..|first|] == first && t[|first| + 1..] == Newlines(4) + last;
  }

  lemma BlankRunNormalize(t: seq<char>, first: seq<char>, last: seq<char>)
    requires first == "a;" && last == "b;"
    requires SplitLines(t) == [first] + (Blanks(4) + [last])
    ensures Normalize(t) == first + "\n\n" + last
  {
    var lines := [first] + (Blanks(4) + [last]);
    assert lines == [first, [], [], [], [], last];
    BlankRunCollapse(lines, first, last);
    assert [first, [], last][1..] == [[], last] && [[], last][1..] == [last];
    assert Join([[], last]) == [] + "\n" + last;
    assert Join([first, [], last]) == first + "\n" + ([] + "\n" + last);
  }

  lemma BlankRunCollapse(lines: seq<Line>, first: seq<char>, last: seq<char>)
    requires first == "a;" && last == "b;" && lines == [first, [], [], [], [], last]
    ensures Collapse(RStripAll(lines)) == [first, [], last]
  {
    assert RStrip(first) == first && RStrip(last) == last;
    assert RStripAll(lines) == lines;
    assert CollapsePrefix(lines, 1) == [first];
    assert CollapsePrefix(lines, 2) == [first, []];
    assert Dropped(lines, 2) && Dropped(lines, 3) && Dropped(lines, 4) && !Dropped(lines, 5);
    assert CollapsePrefix(lines, 3) == [first, []];
    assert CollapsePrefix(lines, 4) == [first, []];
    assert CollapsePrefix(lines, 5) == [first, []];
  }

  /** `n` newlines and then a line split into `n` empty lines and that line. */
  lemma {:induction false} NewlinesThenLine(n: nat, line: seq<char>)
    requires |line| > 0 && HasNoNewline(line)
    ensures SplitLines(Newlines(n) + line) == Blanks(n) + [line]
  {
    if n == 0 {
      assert Newlines(0) + line == line;
      assert NextNewline(line, 0) == |line|;
    } else {
      var t := Newlines(n) + line;
      assert t == "\n" + (Newlines(n - 1) + line);
      assert NextNewline(t, 0) == 0;
      assert t[1..] == Newlines(n - 1) + line;
      NewlinesThenLine(n - 1, line);
    }
  }

  function Newlines(n: nat): seq<char>
  {
    if n == 0 then [] else "\n" + Newlines(n - 1)
  }

  function Blanks(n: nat): seq<seq<char>>
  {
    if n == 0 then [] else [[]] + Blanks(n - 1)
  }

  /** An escaped quote in a character literal does not open a string, and
      the line comment after it goes. */
  lemma QuotedQuoteExample(code: seq<char>, lit: seq<char>, body: seq<char>)
    requires code == "char c = " && lit == "'\\''" && body == " quoted quote"
    ensures Strip(code + lit + ";  //" + body) == code + lit + ";  "
    ensures Clean(code + lit + ";  //" + body) == code + lit + ";"
  {
    QuotedQuoteStrip(code, lit, ";  ", body);
    QuotedQuoteLines(code, lit);
  }

  lemma QuotedQuoteStrip(code: seq<char>, lit: seq<char>, q: seq<char>, body: seq<char>)
    requires code == "char c = " && lit == "'\\''" && q == ";  " && body == " quoted quote"
    ensures Strip(code + lit + ";  //" + body) == code + lit + ";  "
  {
    var tail := q + ("//" + body + "");
    assert code + lit + ";  //" + body == code + (lit + tail);
    QuotedQuoteTail(q, body);
    CharLiteralExamples();
    LiteralThenRest(lit, tail);
    PlainRunCopied(code, lit + tail);
    assert code + (lit + q) == code + lit + ";  ";
  }

  /** The spaces before the comment stay and the comment goes. */
  lemma QuotedQuoteTail(q: seq<char>, body: seq<char>)
    requires q == ";  " && body == " quoted quote"
    ensures Strip(q + ("//" + body + "")) == q
  {
    LineCommentDeleted(body, "");
    PlainRunCopied(q, "//" + body + "");
    assert Strip([]) == [];
    assert q + [] == q;
  }

  lemma QuotedQuoteLines(code: seq<char>, lit: seq<char>)
    requires code == "char c = " && lit == "'\\''"
    ensures Normalize(code + lit + ";  ") == code + lit + ";"
  {
    var kept := code + lit + ";";
    assert code + lit + ";  " == kept + "  ";
    QuotedQuoteNoNewline(code, lit);
    TrailingBlanksDropped(kept, "  ");
  }

  lemma QuotedQuoteNoNewline(code: seq<char>, lit: seq<char>)
    requires code == "char c = " && lit == "'\\''"
    ensures HasNoNewline(code + lit + ";")
  {
    NoNewlineAppend(code, lit);
    NoNewlineAppend(code + lit, ";");
  }

  /** Three pieces of one line, the last ending in a non-space, are
      written as they are. */
  lemma PiecesOneLine(a: seq<char>, b: seq<char>, c: seq<char>)
    requires HasNoNewline(a) && HasNoNewline(b) && HasNoNewline(c)
    requires |c| > 0 && !IsSpace(c[|c| - 1])
    ensures Normalize(a + b + c) == a + b + c
  {
    NoNewlineAppend(a, b);
    NoNewlineAppend(a + b, c);
    assert (a + b + c)[|a + b + c| - 1] == c[|c| - 1];
    OneLineFixed(a + b + c);
  }

  /** A line with no newline and no trailing whitespace is written as is. */
  lemma OneLineFixed(line: seq<char>)
    requires |line| > 0 && HasNoNewline(line) && !IsSpace(line[|line| - 1])
    ensures Normalize(line) == line
  {
    NormalizeOneLine(line);
    RStripOf(line, []);
    assert line + [] == line;
  }

  // ---------------------------------------------------------------------
  // Cleaning is not idempotent
  // ---------------------------------------------------------------------

  /** Deleting a comment can make a quote that matched nothing close a
      character literal; the scan then pairs the remaining quotes
      differently and exposes a `//` that used to sit inside a string. */
  lemma StripNotIdempotent(p: seq<char>, c: seq<char>, chr: seq<char>, str: seq<char>)
    requires p == "'a" && c == "/*x*/" && chr == "'\"'" && str == "\"//\""
    ensures Strip(p + c + chr + str) == p + chr + str
    ensures Strip(p + chr + str) == "'a'" + "\"'\""
  {
    FirstStrip(p, c, chr, str);
    SecondStrip(p, chr, str);
  }

  lemma FirstStrip(p: seq<char>, c: seq<char>, chr: seq<char>, str: seq<char>)
    requires p == "'a" && c == "/*x*/" && chr == "'\"'" && str == "\"//\""
    ensures Strip(p + c + chr + str) == p + chr + str
  {
    assert p + c + chr + str == p + (c + (chr + str));
    FirstPass(p + c + chr + str, p, c, chr, str);
  }

  lemma SecondStrip(p: seq<char>, chr: seq<char>, str: seq<char>)
    requires p == "'a" && chr == "'\"'" && str == "\"//\""
    ensures Strip(p + chr + str) == "'a'" + "\"'\""
  {
    var chr2, str2, body := "'a'", "\"'\"", "\"";
    assert p + chr + str == chr2 + (str2 + ("//" + body + ""));
    SecondPass(p + chr + str, chr2, str2, body);
  }

  lemma FirstPass(s: seq<char>, p: seq<char>, c: seq<char>, chr: seq<char>, str: seq<char>)
    requires p == "'a" && c == "/*x*/" && chr == "'\"'" && str == "\"//\""
    requires s == p + (c + (chr + str))
    ensures Strip(s) == p + (chr + str)
  {
    // `'` and `a` match nothing, the block comment goes, then the
    // literals `'"'` and `"//"` are kept
    var rest := c + (chr + str);
    FirstPassTail(rest, c, chr, str);
    assert s == "'a" + rest;
    LoneQuoteCopied(s, rest);
  }

  /** A quote followed by a letter and a slash opens no literal: both are
      copied and the scan resumes at the slash. */
  lemma LoneQuoteCopied(s: seq<char>, rest: seq<char>)
    requires |rest| > 0 && rest[0] == '/' && s == "'a" + rest
    ensures Strip(s) == "'a" + Strip(rest)
  {
    assert s[0] == '\'' && s[1] == 'a' && s[2] == '/';
    assert CharLiteralLen(s).None?;
    forall tok | Matches(s, tok)
      ensures false
    {
      MatchComplete(s, tok);
    }
    UnmatchedCopied(s);
    assert s[1..] == "a" + rest;
    PlainRunCopied("a", rest);
  }

  lemma FirstPassTail(s: seq<char>, c: seq<char>, chr: seq<char>, str: seq<char>)
    requires c == "/*x*/" && chr == "'\"'" && str == "\"//\""
    requires s == c + (chr + str)
    ensures Strip(s) == chr + str
  {
    assert IsCharLiteral(chr) by { assert chr[1..2] == "\""; }
    assert IsStringLiteral(str) by { PlainUnits("//", '"'); assert str[1..3] == "//"; }
    LiteralThenRest(str, "");
    assert str + "" == str;
    assert Strip([]) == [];
    LiteralThenRest(chr, str);
    assert IsBlockComment(c) by {
      assert CloseAt(c, 3);
      assert !CloseAt(c, 2);
    }
    BlockThenRest(c, chr + str);
  }

  lemma SecondPass(s: seq<char>, chr: seq<char>, str: seq<char>, body: seq<char>)
    requires chr == "'a'" && str == "\"'\"" && body == "\""
    requires s == chr + (str + ("//" + body + ""))
    ensures Strip(s) == chr + str
  {
    // `'a'` and `"'"` are literals, then `//"` is a line comment
    assert IsCharLiteral(chr) by { assert chr[1..2] == "a"; }
    assert IsStringLiteral(str) by { PlainUnits("'", '"'); assert str[1..2] == "'"; }
    LineCommentDeleted(body, "");
    assert Strip([]) == [];
    LiteralThenRest(str, "//" + body + "");
    assert str + [] == str;
    LiteralThenRest(chr, str + ("//" + body + ""));
  }

  /** So the full clean-up is not idempotent either, both because of the
      scan above and because a blank last line is read back as a
      terminator. */
  lemma CleanNotIdempotent(p: seq<char>, c: seq<char>, chr: seq<char>, str: seq<char>, line: seq<char>)
    requires p == "'a" && c == "/*x*/" && chr == "'\"'" && str == "\"//\""
    requires line == "a"
    ensures Clean(Clean(p + c + chr + str)) != Clean(p + c + chr + str)
    ensures Clean(Clean(line + "\n\n")) != Clean(line + "\n\n")
  {
    ScanNotIdempotent(p, c, chr, str);
    BlankLastLine(line);
  }

  lemma ScanNotIdempotent(p: seq<char>, c: seq<char>, chr: seq<char>, str: seq<char>)
    requires p == "'a" && c == "/*x*/" && chr == "'\"'" && str == "\"//\""
    ensures Clean(p + c + chr + str) == p + chr + str
    ensures Clean(p + chr + str) == "'a'" + "\"'\""
  {
    CleanedOnce(p, c, chr, str);
    CleanedTwice(p, chr, str);
  }

  lemma CleanedOnce(p: seq<char>, c: seq<char>, chr: seq<char>, str: seq<char>)
    requires p == "'a" && c == "/*x*/" && chr == "'\"'" && str == "\"//\""
    ensures Clean(p + c + chr + str) == p + chr + str
  {
    FirstStrip(p, c, chr, str);
    ScanLines(p, chr, str);
  }

  lemma CleanedTwice(p: seq<char>, chr: seq<char>, str: seq<char>)
    requires p == "'a" && chr == "'\"'" && str == "\"//\""
    ensures Clean(p + chr + str) == "'a'" + "\"'\""
  {
    SecondStrip(p, chr, str);
    ScanLines(p, chr, str);
  }

  /** Both texts of the scan above are single clean lines. */
  lemma ScanLines(p: seq<char>, chr: seq<char>, str: seq<char>)
    requires p == "'a" && chr == "'\"'" && str == "\"//\""
    ensures Normalize(p + chr + str) == p + chr + str
    ensures Normalize("'a'" + "\"'\"") == "'a'" + "\"'\""
  {
    PiecesOneLine(p, chr, str);
    RescanLines("'a'", "\"'\"");
  }

  lemma RescanLines(chr: seq<char>, str: seq<char>)
    requires chr == "'a'" && str == "\"'\""
    ensures Normalize(chr + str) == chr + str
  {
    NoNewlineAppend(chr, str);
    assert (chr + str)[|chr + str| - 1] == '"';
    OneLineFixed(chr + str);
  }

  lemma BlankLastLine(line: seq<char>)
    requires line == "a"
    ensures Clean(line + "\n\n") == line + "\n"
    ensures Clean(line + "\n") == line
  {
    NoSlashUnchanged(line + "\n\n");
    NoSlashUnchanged(line + "\n");
    NormalizeTrailingBlank(line);
  }
}
