/**
 * Proposal files: the text that a new proposal is printed to, and the parser that reads it
 * back from the repository.
 */
module ProposalFile {
  import opened Wrappers
  import opened Text

  datatype FileContent = FileContent(title: string, description: string, content: string, proposer: string)

  datatype Failure = TooShort | AllBlank

  // ----- Trimming and replacing -----

  /** White space and line ends in the sense of ECMAScript. */
  predicate IsBlankChar(c: char) {
    var n := c as int;
    || 0x09 <= n <= 0x0D || n == 0x20 || n == 0xA0 || n == 0x1680 || 0x2000 <= n <= 0x200A
    || n == 0x2028 || n == 0x2029 || n == 0x202F || n == 0x205F || n == 0x3000 || n == 0xFEFF
  }

  /** Spaces, tabs and line ends are blank, and no visible ASCII character is. */
  lemma BlanksAre(c: char)
    ensures c in {' ', '\t', '\n', '\r', 0xA0 as char, 0xFEFF as char} ==> IsBlankChar(c)
    ensures '!' <= c <= '~' ==> !IsBlankChar(c)
  {
  }

  function TrimStart(s: string): string {
    if s != "" && IsBlankChar(s[0]) then TrimStart(s[1..]) else s
  }

  function TrimEnd(s: string): string {
    if s != "" && IsBlankChar(s[|s| - 1]) then TrimEnd(s[..|s| - 1]) else s
  }

  function Trim(s: string): string {
    TrimEnd(TrimStart(s))
  }

  predicate IsPrefix(p: string, s: string) {
    |p| <= |s| && s[..|p|] == p
  }

  predicate Contains(s: string, p: string) {
    IsPrefix(p, s) || (s != "" && Contains(s[1..], p))
  }

  /** The first occurrence of the pattern is replaced; a string without it stays. */
  function ReplaceFirst(s: string, p: string, r: string): string {
    if IsPrefix(p, s) then r + s[|p|..]
    else if s == "" then s
    else [s[0]] + ReplaceFirst(s[1..], p, r)
  }

  /** The pattern stands at this place. */
  predicate OccursAt(s: string, p: string, i: nat) {
    i + |p| <= |s| && s[i..i + |p|] == p
  }

  lemma {:induction false} ContainsIs(s: string, p: string)
    ensures Contains(s, p) <==> exists i: nat :: OccursAt(s, p, i)
  {
    if IsPrefix(p, s) {
      assert OccursAt(s, p, 0);
    } else if s != "" {
      ContainsIs(s[1..], p);
      if i: nat :| OccursAt(s[1..], p, i) {
        assert s[i + 1..i + 1 + |p|] == s[1..][i..i + |p|];
        assert OccursAt(s, p, i + 1);
      }
      forall i: nat | OccursAt(s, p, i)
        ensures i > 0 && OccursAt(s[1..], p, i - 1)
      {
        assert i > 0 ==> s[1..][i - 1..i - 1 + |p|] == s[i..i + |p|];
      }
    }
  }

  ghost predicate FirstAt(s: string, p: string, i: nat) {
    forall j: nat | j < i :: !OccursAt(s, p, j)
  }

  predicate ReplacedAt(s: string, p: string, r: string, t: string, i: nat) {
    OccursAt(s, p, i) && t == s[..i] + r + s[i + |p|..]
  }

  /** The string with the pattern replaced where it first stands. */
  ghost predicate IsReplaced(s: string, p: string, r: string, t: string) {
    || (t == s && forall i: nat :: !OccursAt(s, p, i))
    || exists i: nat :: ReplacedAt(s, p, r, t, i) && FirstAt(s, p, i)
  }

  lemma OccursLater(s: string, p: string, i: nat)
    requires s != ""
    ensures OccursAt(s, p, i + 1) <==> OccursAt(s[1..], p, i)
  {
    if i + 1 + |p| <= |s| {
      assert s[i + 1..i + 1 + |p|] == s[1..][i..i + |p|];
    }
  }

  lemma {:induction false} ReplaceFirstIs(s: string, p: string, r: string)
    ensures IsReplaced(s, p, r, ReplaceFirst(s, p, r))
  {
    if IsPrefix(p, s) {
      assert ReplacedAt(s, p, r, r + s[|p|..], 0);
    } else if s != "" {
      ReplaceFirstIs(s[1..], p, r);
      var t := ReplaceFirst(s[1..], p, r);
      if k: nat :| ReplacedAt(s[1..], p, r, t, k) && FirstAt(s[1..], p, k) {
        ReplacedLater(s, p, r, t, k);
        FirstLater(s, p, k);
      } else {
        NoneLater(s, p);
      }
    }
  }

  lemma ReplacedLater(s: string, p: string, r: string, t: string, k: nat)
    requires s != "" && ReplacedAt(s[1..], p, r, t, k)
    ensures ReplacedAt(s, p, r, [s[0]] + t, k + 1)
  {
    var rest, m := s[1..], k + |p|;
    OccursLater(s, p, k);
    assert s[k + 1 + |p|..] == rest[m..];
    assert s[..k + 1] == [s[0]] + rest[..k];
    assert [s[0]] + t == [s[0]] + rest[..k] + r + rest[m..];
  }

  lemma FirstLater(s: string, p: string, k: nat)
    requires s != "" && !IsPrefix(p, s) && FirstAt(s[1..], p, k)
    ensures FirstAt(s, p, k + 1)
  {
    forall j: nat | j < k + 1
      ensures !OccursAt(s, p, j)
    {
      if j > 0 {
        OccursLater(s, p, j - 1);
      }
    }
  }

  lemma NoneLater(s: string, p: string)
    requires s != "" && !IsPrefix(p, s) && forall i: nat :: !OccursAt(s[1..], p, i)
    ensures forall i: nat :: !OccursAt(s, p, i)
  {
    forall i: nat
      ensures !OccursAt(s, p, i)
    {
      if i > 0 {
        OccursLater(s, p, i - 1);
      }
    }
  }

  /** The string without its blank margins. */
  predicate IsTrimmed(s: string, i: nat, j: nat) {
    && i <= j <= |s|
    && (forall k | 0 <= k < i :: IsBlankChar(s[k]))
    && (forall k | j <= k < |s| :: IsBlankChar(s[k]))
    && (i < j ==> !IsBlankChar(s[i]) && !IsBlankChar(s[j - 1]))
  }

  lemma {:induction false} TrimStartIs(s: string) returns (i: nat)
    ensures i <= |s| && TrimStart(s) == s[i..]
    ensures forall k | 0 <= k < i :: IsBlankChar(s[k])
    ensures i < |s| ==> !IsBlankChar(s[i])
  {
    i := 0;
    if s != "" && IsBlankChar(s[0]) {
      var k := TrimStartIs(s[1..]);
      i := k + 1;
    }
  }

  lemma {:induction false} TrimEndIs(s: string) returns (j: nat)
    ensures j <= |s| && TrimEnd(s) == s[..j]
    ensures forall k | j <= k < |s| :: IsBlankChar(s[k])
    ensures j > 0 ==> !IsBlankChar(s[j - 1])
  {
    j := |s|;
    if s != "" && IsBlankChar(s[|s| - 1]) {
      j := TrimEndIs(s[..|s| - 1]);
    }
  }

  lemma TrimIs(s: string)
    ensures exists i: nat, j: nat :: IsTrimmed(s, i, j) && Trim(s) == s[i..j]
  {
    var i := TrimStartIs(s);
    var j := TrimEndIs(s[i..]);
    assert s[i..][..j] == s[i..i + j];
    assert IsTrimmed(s, i, i + j);
  }

  const OPEN: string := "<!---"
  const CLOSE: string := "--->"

  const DOCUMENTS: string := "https://github.com/" + "multiversx/" + "multiversx-improvement-documents/" + "blob/"
  const OLD_URL: string := DOCUMENTS + "extended/economicsV2.md"
  const NEW_URL: string := DOCUMENTS + "main/" + "extended/economicsV2.md"

  /** A header line loses its margins and its comment markers. */
  function Clean(line: string): string {
    ReplaceFirst(ReplaceFirst(Trim(line), OPEN, ""), CLOSE, "")
  }

  function FixUrl(content: string): string {
    ReplaceFirst(content, OLD_URL, NEW_URL)
  }

  predicate Blank(line: string) {
    Trim(line) == ""
  }

  lemma PrefixOfClosing(t: string)
    requires t != ""
    ensures IsPrefix("--->", t + "--->") ==> IsPrefix("--->", t)
  {
    var s := t + "--->";
    if |t| < 4 {
      assert s[3] == "--->"[3 - |t|];
    } else {
      assert s[..4] == t[..4];
    }
  }

  lemma {:induction false} ClosingStripped(t: string)
    requires !Contains(t, "--->")
    ensures ReplaceFirst(t + "--->", "--->", "") == t
  {
    var s := t + "--->";
    if t == "" {
      assert s == "--->";
    } else {
      PrefixOfClosing(t);
      assert s[1..] == t[1..] + "--->";
      ClosingStripped(t[1..]);
    }
  }

  /** A header line in a comment is read as what the comment holds. */
  lemma CommentStripped(t: string)
    requires !Contains(t, "--->")
    ensures Clean("<!---" + t + "--->") == t
  {
    var s := "<!---" + t + "--->";
    assert s[0] == '<' && s[|s| - 1] == '>';
    assert TrimStart(s) == s && TrimEnd(s) == s;
    assert s[..5] == "<!---" && s[5..] == t + "--->";
    assert IsPrefix("<!---", s);
    assert ReplaceFirst(s, "<!---", "") == t + "--->";
    ClosingStripped(t);
  }

  /** The old address of the document is read as the new one. */
  lemma AddressRewritten()
    ensures FixUrl("https://github.com/" + "multiversx/" + "multiversx-improvement-documents/" + "blob/" +
                   "extended/economicsV2.md") ==
            "https://github.com/" + "multiversx/" + "multiversx-improvement-documents/" + "blob/" + "main/" +
            "extended/economicsV2.md"
  {
    assert OLD_URL[|OLD_URL|..] == "";
  }

  // ----- Printing -----

  function Print(f: FileContent): string {
    f.title + "\n" + f.description + "\n" + f.content + "\n" + f.proposer
  }

  // ----- Parsing -----

  function BlankTail(lines: seq<string>): (n: nat)
    ensures n <= |lines|
    ensures forall i | |lines| - n <= i < |lines| :: Blank(lines[i])
    ensures n < |lines| ==> !Blank(lines[|lines| - 1 - n])
  {
    if lines == [] || !Blank(lines[|lines| - 1]) then 0
    else 1 + BlankTail(lines[..|lines| - 1])
  }

  /** The parts, when the last line that is not blank is known; -1 if all are. */
  function ReadParts(lines: seq<string>, end: int): Result<FileContent, Failure>
    requires |lines| >= 4 && -1 <= end < |lines|
  {
    if end == -1 then Err(AllBlank)
    else
      Ok(FileContent(Clean(lines[0]), Clean(lines[1]),
                     FixUrl(Join(if end < 2 then [] else lines[2..end], '\n')),
                     Clean(lines[end])))
  }

  function ParseLines(lines: seq<string>): Result<FileContent, Failure> {
    if |lines| < 4 then Err(TooShort) else ReadParts(lines, |lines| - 1 - BlankTail(lines))
  }

  function Parse(text: string): Result<FileContent, Failure> {
    ParseLines(Split(text, '\n'))
  }

  /** The parser counts the blank lines at the end, then takes the parts out by position. */
  method ParseFileContent(text: string) returns (r: Result<FileContent, Failure>)
    ensures r == Parse(text)
  {
    var lines := Split(text, '\n');
    if |lines| < 4 {
      return Err(TooShort);
    }
    var title := Clean(lines[0]);
    var description := Clean(lines[1]);
    var emptyLines := CountEmptyLines(lines);
    if emptyLines == |lines| {
      return Err(AllBlank);
    }
    var end := |lines| - 1 - emptyLines;
    var proposer := Clean(lines[end]);
    var content := FixUrl(Join(if end < 2 then [] else lines[2..end], '\n'));
    return Ok(FileContent(title, description, content, proposer));
  }

  lemma BlankTailIs(lines: seq<string>, n: nat)
    requires n <= |lines| && forall j | |lines| - n <= j < |lines| :: Blank(lines[j])
    requires n < |lines| ==> !Blank(lines[|lines| - 1 - n])
    ensures BlankTail(lines) == n
  {
  }

  method CountEmptyLines(lines: seq<string>) returns (n: nat)
    ensures n == BlankTail(lines)
  {
    var i := |lines|;
    n := 0;
    while i > 0 && Blank(lines[i - 1])
      invariant 0 <= i <= |lines| && n == |lines| - i
      invariant forall j | i <= j < |lines| :: Blank(lines[j])
    {
      n, i := n + 1, i - 1;
    }
    BlankTailIs(lines, n);
  }

  // ----- What cleaning leaves alone -----

  lemma {:induction false} ReplaceLength(s: string, p: string, r: string)
    ensures |ReplaceFirst(s, p, r)| == |s| + if Contains(s, p) then |r| - |p| else 0
    ensures !Contains(s, p) ==> ReplaceFirst(s, p, r) == s
  {
    if !IsPrefix(p, s) && s != "" {
      ReplaceLength(s[1..], p, r);
      assert s == [s[0]] + s[1..];
    }
  }

  lemma {:induction false} TrimStartLength(s: string)
    ensures |TrimStart(s)| <= |s|
    ensures |TrimStart(s)| == |s| ==> TrimStart(s) == s
  {
    if s != "" && IsBlankChar(s[0]) {
      TrimStartLength(s[1..]);
    }
  }

  lemma {:induction false} TrimEndLength(s: string)
    ensures |TrimEnd(s)| <= |s|
    ensures |TrimEnd(s)| == |s| ==> TrimEnd(s) == s
  {
    if s != "" && IsBlankChar(s[|s| - 1]) {
      TrimEndLength(s[..|s| - 1]);
    }
  }

  lemma TrimLength(s: string)
    ensures |Trim(s)| <= |s|
    ensures |Trim(s)| == |s| ==> Trim(s) == s
  {
    TrimStartLength(s);
    TrimEndLength(TrimStart(s));
  }

  /** A line that printing and parsing may carry: one line, with no margins and no comment markers. */
  predicate PlainLine(line: string) {
    '\n' !in line && Trim(line) == line && !Contains(line, OPEN) && !Contains(line, CLOSE)
  }

  lemma CleanFixesPlainLines(line: string)
    ensures Clean(line) == line <==> Trim(line) == line && !Contains(line, OPEN) && !Contains(line, CLOSE)
  {
    var trimmed := Trim(line);
    var stripped := ReplaceFirst(trimmed, OPEN, "");
    TrimLength(line);
    ReplaceLength(trimmed, OPEN, "");
    ReplaceLength(stripped, CLOSE, "");
  }

  lemma FixUrlFixes(content: string)
    ensures FixUrl(content) == content <==> !Contains(content, OLD_URL)
  {
    ReplaceLength(content, OLD_URL, NEW_URL);
  }

  // ----- Line ends -----

  lemma {:induction false} ReplaceKeepsFree(s: string, p: string, r: string, c: char)
    requires c !in s && c !in r
    ensures c !in ReplaceFirst(s, p, r)
  {
    if !IsPrefix(p, s) && s != "" {
      ReplaceKeepsFree(s[1..], p, r, c);
    }
  }

  lemma {:induction false} TrimStartKeepsFree(s: string, c: char)
    requires c !in s
    ensures c !in TrimStart(s)
  {
    if s != "" && IsBlankChar(s[0]) {
      TrimStartKeepsFree(s[1..], c);
    }
  }

  lemma {:induction false} TrimEndKeepsFree(s: string, c: char)
    requires c !in s
    ensures c !in TrimEnd(s)
  {
    if s != "" && IsBlankChar(s[|s| - 1]) {
      TrimEndKeepsFree(s[..|s| - 1], c);
    }
  }

  lemma CleanStaysOneLine(line: string)
    requires '\n' !in line
    ensures '\n' !in Clean(line)
  {
    TrimStartKeepsFree(line, '\n');
    TrimEndKeepsFree(TrimStart(line), '\n');
    ReplaceKeepsFree(Trim(line), OPEN, "", '\n');
    ReplaceKeepsFree(ReplaceFirst(Trim(line), OPEN, ""), CLOSE, "", '\n');
  }

  lemma {:induction false} LinesAfterPrefix(p: string, s: string)
    requires '\n' !in p
    ensures |Split(p + s, '\n')| == |Split(s, '\n')|
  {
    if p == "" {
      assert p + s == s;
    } else {
      LinesAfterPrefix(p[1..], s);
      assert (p + s)[1..] == p[1..] + s;
    }
  }

  lemma {:induction false} ReplaceKeepsLines(s: string, p: string, r: string)
    requires '\n' !in p && '\n' !in r
    ensures |Split(ReplaceFirst(s, p, r), '\n')| == |Split(s, '\n')|
  {
    if IsPrefix(p, s) {
      LinesAfterPrefix(p, s[|p|..]);
      LinesAfterPrefix(r, s[|p|..]);
      assert s == p + s[|p|..];
    } else if s != "" {
      ReplaceKeepsLines(s[1..], p, r);
      assert ReplaceFirst(s, p, r)[1..] == ReplaceFirst(s[1..], p, r);
    }
  }

  lemma UrlsHaveOneLine()
    ensures '\n' !in OLD_URL && '\n' !in NEW_URL
  {
  }

  // ----- Reading back what was printed -----

  /** What a file's fields must be for the parser to read them back. */
  predicate Printable(f: FileContent) {
    && PlainLine(f.title) && PlainLine(f.description) && PlainLine(f.proposer)
    && f.proposer != "" && !Contains(f.content, OLD_URL)
  }

  lemma LinesOfTitle(f: FileContent)
    ensures Split(Print(f), '\n') ==
            Split(f.title, '\n') + Split(f.description + "\n" + f.content + "\n" + f.proposer, '\n')
  {
    var rest := f.description + "\n" + f.content + "\n" + f.proposer;
    SplitConcat(f.title, '\n', rest);
    assert Print(f) == f.title + ['\n'] + rest;
  }

  lemma LinesOfDescription(f: FileContent)
    ensures Split(f.description + "\n" + f.content + "\n" + f.proposer, '\n') ==
            Split(f.description, '\n') + (Split(f.content, '\n') + Split(f.proposer, '\n'))
  {
    var rest := f.content + "\n" + f.proposer;
    SplitConcat(f.description, '\n', rest);
    assert f.description + "\n" + f.content + "\n" + f.proposer == f.description + ['\n'] + rest;
    SplitConcat(f.content, '\n', f.proposer);
    assert rest == f.content + ['\n'] + f.proposer;
  }

  lemma LinesOfPrint(f: FileContent)
    requires '\n' !in f.title && '\n' !in f.description && '\n' !in f.proposer
    ensures Split(Print(f), '\n') == [f.title, f.description] + Split(f.content, '\n') + [f.proposer]
  {
    LinesOfTitle(f);
    LinesOfDescription(f);
    SplitFree(f.title, '\n');
    SplitFree(f.description, '\n');
    SplitFree(f.proposer, '\n');
  }

  lemma BlankIfTrimmed(line: string)
    requires Trim(line) == line
    ensures Blank(line) <==> line == ""
  {
  }

  lemma ParsePrintable(f: FileContent)
    requires Printable(f)
    ensures Parse(Print(f)) == Ok(f)
  {
    var body := Split(f.content, '\n');
    var lines := Split(Print(f), '\n');
    LinesOfPrint(f);
    BlankIfTrimmed(f.proposer);
    assert lines[|lines| - 1] == f.proposer && lines[2..|lines| - 1] == body;
    JoinSplit(f.content, '\n');
    FixUrlFixes(f.content);
    CleanFixesPlainLines(f.title);
    CleanFixesPlainLines(f.description);
    CleanFixesPlainLines(f.proposer);
  }

  lemma PrintedPartsAreLines(f: FileContent)
    requires Parse(Print(f)) == Ok(f)
    ensures '\n' !in f.title && '\n' !in f.description && '\n' !in f.proposer
  {
    var lines := Split(Print(f), '\n');
    SplitPiecesFree(Print(f), '\n');
    CleanStaysOneLine(lines[0]);
    CleanStaysOneLine(lines[1]);
    CleanStaysOneLine(lines[|lines| - 1 - BlankTail(lines)]);
  }

  lemma {:induction false} JoinedLines(parts: seq<string>)
    requires AllFree(parts, '\n')
    ensures |Split(Join(parts, '\n'), '\n')| == if parts == [] then 1 else |parts|
  {
    if parts != [] {
      SplitJoin(parts, '\n');
    }
  }

  /**
   * A blank proposer is never read back: the parser takes an earlier line instead, and the
   * content comes out too short.
   */
  lemma BlankProposerIsLost(f: FileContent)
    requires '\n' !in f.title && '\n' !in f.description && '\n' !in f.proposer && Blank(f.proposer)
    ensures Parse(Print(f)) != Ok(f)
  {
    var body := Split(f.content, '\n');
    var lines := Split(Print(f), '\n');
    LinesOfPrint(f);
    SplitPiecesFree(Print(f), '\n');
    assert lines[|lines| - 1] == f.proposer;
    var n := BlankTail(lines);
    if n < |lines| {
      var end := |lines| - 1 - n;
      var parts := if end < 2 then [] else lines[2..end];
      JoinedLines(parts);
      UrlsHaveOneLine();
      ReplaceKeepsLines(Join(parts, '\n'), OLD_URL, NEW_URL);
    }
  }

  /**
   * Parsing what was printed returns the same file exactly when it is printable: title,
   * description and proposer are single trimmed lines without comment markers, the proposer
   * is not empty, and the content does not hold the address that the parser rewrites.
   */
  lemma RoundTrip(f: FileContent)
    ensures Parse(Print(f)) == Ok(f) <==> Printable(f)
  {
    if Printable(f) {
      ParsePrintable(f);
    } else if Parse(Print(f)) == Ok(f) {
      PrintedPartsAreLines(f);
      if Blank(f.proposer) {
        BlankProposerIsLost(f);
      } else {
        var lines := Split(Print(f), '\n');
        LinesOfPrint(f);
        assert lines[|lines| - 1] == f.proposer && lines[2..|lines| - 1] == Split(f.content, '\n');
        JoinSplit(f.content, '\n');
        FixUrlFixes(f.content);
        CleanFixesPlainLines(f.title);
        CleanFixesPlainLines(f.description);
        CleanFixesPlainLines(f.proposer);
      }
    }
  }

  /** A file whose header lines and proposer are in comments is read as the one without. */
  lemma CommentsAreRead(f: FileContent)
    requires PlainLine(f.title) && PlainLine(f.description) && PlainLine(f.proposer) && !Contains(f.content, OLD_URL)
    ensures Parse("<!---" + f.title + "--->" + "\n" + "<!---" + f.description + "--->" + "\n" + f.content + "\n" +
                  "<!---" + f.proposer + "--->") == Ok(f)
  {
    var g := FileContent("<!---" + f.title + "--->", "<!---" + f.description + "--->", f.content,
                         "<!---" + f.proposer + "--->");
    assert Print(g) == "<!---" + f.title + "--->" + "\n" + "<!---" + f.description + "--->" + "\n" + f.content + "\n" +
                       "<!---" + f.proposer + "--->";
    var lines := Split(Print(g), '\n');
    LinesOfPrint(g);
    assert lines[|lines| - 1] == g.proposer && lines[2..|lines| - 1] == Split(f.content, '\n');
    CommentStripped(f.title);
    CommentStripped(f.description);
    CommentStripped(f.proposer);
    NotBlankComment(f.proposer);
    JoinSplit(f.content, '\n');
    FixUrlFixes(f.content);
  }

  lemma NotBlankComment(t: string)
    ensures !Blank("<!---" + t + "--->")
  {
    var s := "<!---" + t + "--->";
    assert s[0] == '<' && s[|s| - 1] == '>';
    assert Trim(s) == s;
  }

  /**
   * The parts of a line as the parser reads it: the margins cut off, then the first opening and
   * the first closing mark.
   */
  ghost predicate IsCleaned(line: string, result: string) {
    exists i: nat, j: nat, inner: string ::
      IsTrimmed(line, i, j) && IsReplaced(line[i..j], "<!---", "", inner) && IsReplaced(inner, "--->", "", result)
  }

  lemma CleanIs(line: string)
    ensures IsCleaned(line, Clean(line))
  {
    TrimIs(line);
    var i: nat, j: nat :| IsTrimmed(line, i, j) && Trim(line) == line[i..j];
    ReplaceFirstIs(Trim(line), OPEN, "");
    ReplaceFirstIs(ReplaceFirst(Trim(line), OPEN, ""), CLOSE, "");
  }

  /**
   * What is read of a text: title and description from its first two lines, the proposer from the
   * last line that is not blank, the content from those between.
   */
  lemma ParseIs(text: string, lines: seq<string>, end: nat)
    requires lines == Split(text, '\n') && |lines| >= 4 && end < |lines|
    requires !Blank(lines[end]) && forall k | end < k < |lines| :: Blank(lines[k])
    ensures Parse(text).Ok?
    ensures var f := Parse(text).value;
      && IsCleaned(lines[0], f.title) && IsCleaned(lines[1], f.description) && IsCleaned(lines[end], f.proposer)
      && IsReplaced(Join(if end < 2 then [] else lines[2..end], '\n'), OLD_URL, NEW_URL, f.content)
  {
    BlankTailIs(lines, |lines| - 1 - end);
    PartsAre(lines, end);
  }

  /** A text of fewer than four lines, or of blank lines only, is refused. */
  lemma ParseFails(text: string)
    ensures var lines := Split(text, '\n');
      && (|lines| < 4 ==> Parse(text) == Err(TooShort))
      && (|lines| >= 4 && (forall k | 0 <= k < |lines| :: Blank(lines[k])) ==> Parse(text) == Err(AllBlank))
      && (Parse(text).Err? ==> |lines| < 4 || forall k | 0 <= k < |lines| :: Blank(lines[k]))
  {
  }

  lemma PartsAre(lines: seq<string>, end: nat)
    requires |lines| >= 4 && end < |lines|
    ensures ReadParts(lines, end).Ok?
    ensures var f := ReadParts(lines, end).value;
      && IsCleaned(lines[0], f.title) && IsCleaned(lines[1], f.description) && IsCleaned(lines[end], f.proposer)
      && IsReplaced(Join(if end < 2 then [] else lines[2..end], '\n'), OLD_URL, NEW_URL, f.content)
  {
    CleanIs(lines[0]);
    CleanIs(lines[1]);
    CleanIs(lines[end]);
    ReplaceFirstIs(Join(if end < 2 then [] else lines[2..end], '\n'), OLD_URL, NEW_URL);
  }

  // ----- Blank lines at the end -----

  lemma BlankTailSnoc(lines: seq<string>, line: string)
    requires Blank(line)
    ensures BlankTail(lines + [line]) == BlankTail(lines) + 1
  {
    assert (lines + [line])[..|lines|] == lines;
  }

  lemma BlankLineAtEnd(lines: seq<string>, line: string)
    requires Blank(line) && |lines| >= 4
    ensures ParseLines(lines + [line]) == ParseLines(lines)
  {
    BlankTailSnoc(lines, line);
    SamePartsRead(lines, line, |lines| - 1 - BlankTail(lines));
  }

  /** More lines after the last that is not blank do not change the parts. */
  lemma SamePartsRead(lines: seq<string>, line: string, end: int)
    requires |lines| >= 4 && -1 <= end < |lines|
    ensures ReadParts(lines + [line], end) == ReadParts(lines, end)
  {
    var more := lines + [line];
    assert more[0] == lines[0] && more[1] == lines[1];
    if end >= 0 {
      assert more[end] == lines[end];
    }
    if end >= 2 {
      assert more[2..end] == lines[2..end];
    }
  }

  lemma LinesWithOneMore(text: string, line: string)
    requires '\n' !in line
    ensures Split(text + "\n" + line, '\n') == Split(text, '\n') + [line]
  {
    SplitConcat(text, '\n', line);
    assert text + "\n" + line == text + ['\n'] + line;
    SplitFree(line, '\n');
  }

  /** One more blank line changes the outcome exactly when it makes a three-line text long enough. */
  lemma BlankLineAppended(text: string, line: string)
    requires '\n' !in line && Blank(line)
    ensures Parse(text + "\n" + line) == Parse(text) <==> |Split(text, '\n')| != 3
  {
    LinesWithOneMore(text, line);
    if |Split(text, '\n')| >= 4 {
      BlankLineAtEnd(Split(text, '\n'), line);
    }
  }

  function AppendLines(text: string, blanks: seq<string>): string {
    if blanks == [] then text else AppendLines(text, blanks[..|blanks| - 1]) + "\n" + blanks[|blanks| - 1]
  }

  /** Any number of blank lines after a text of at least four lines changes nothing. */
  lemma {:induction false} BlankLinesChangeNothing(text: string, blanks: seq<string>)
    requires |Split(text, '\n')| >= 4
    requires forall b | b in blanks :: '\n' !in b && Blank(b)
    ensures Parse(AppendLines(text, blanks)) == Parse(text)
    ensures |Split(AppendLines(text, blanks), '\n')| == |Split(text, '\n')| + |blanks|
  {
    if blanks != [] {
      var most, last := blanks[..|blanks| - 1], blanks[|blanks| - 1];
      BlankLinesChangeNothing(text, most);
      BlankLineAppended(AppendLines(text, most), last);
      LinesWithOneMore(AppendLines(text, most), last);
    }
  }
}
