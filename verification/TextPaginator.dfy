/**
 Setting plain text in a PDF: lines of at most 96 characters, 50 to a page, within a byte budget that is kept
 up to date as the text is set.
 */
module TextPaginator {
  import opened Wrappers

  const PDF_FIXED_RESERVE: nat := 4096
  const PDF_PAGE_RESERVE: nat := 1024
  const PDF_OBJECT_RESERVE: nat := 32
  const PDF_LINE_RESERVE: nat := 32
  const PDF_MAX_CONTENT_STREAM_BYTES: nat := 16 * 1024
  const PDF_MAX_LINE_BYTES: nat := 96
  const PDF_LINES_PER_PAGE: nat := 50

  datatype PdfError = Oversized | Empty

  // ---------------------------------------------------------------- text as lines

  /** The byte set for a character, written as an ASCII character. */
  function SafePdfByte(c: char): (byte: char)
    ensures ' ' <= byte <= '~'
  {
    if c == '\t' then ' ' else if ' ' <= c <= '~' then c else '?'
  }

  function Mapped(raw: string): (bytes: string)
    ensures |bytes| == |raw|
    ensures forall i :: 0 <= i < |raw| ==> bytes[i] == SafePdfByte(raw[i])
  {
    seq(|raw|, i requires 0 <= i < |raw| => SafePdfByte(raw[i]))
  }

  /** A text cut every 96 characters; even an empty text makes a line. */
  function Split(s: string): (lines: seq<string>)
    ensures lines != []
  {
    if |s| <= PDF_MAX_LINE_BYTES then [s] else [s[..PDF_MAX_LINE_BYTES]] + Split(s[PDF_MAX_LINE_BYTES..])
  }

  function Concat(lines: seq<string>): string {
    if lines == [] then "" else lines[0] + Concat(lines[1..])
  }

  /** A raw line gives max(1, ceil(n / 96)) lines, full but for the last, that together are its characters. */
  lemma {:induction false} SplitIsCeiling(s: string)
    ensures |Split(s)| == if s == "" then 1 else (|s| + 95) / 96
    ensures Concat(Split(s)) == s
    ensures forall k :: 0 <= k < |Split(s)| - 1 ==> |Split(s)[k]| == 96
    ensures |Split(s)[|Split(s)| - 1]| <= 96
  {
    if |s| > PDF_MAX_LINE_BYTES {
      SplitIsCeiling(s[PDF_MAX_LINE_BYTES..]);
      assert Split(s)[1..] == Split(s[PDF_MAX_LINE_BYTES..]);
    } else {
      assert Concat([s]) == s + Concat([]);
    }
  }

  /**
   What a raw line is set as, in codes of characters: printable ASCII stays, a tab becomes a blank and anything else
   a question mark, each in its place.
   */
  lemma SetAsIs(raw: string, i: nat)
    requires i < |raw|
    ensures |Concat(Split(Mapped(raw)))| == |raw|
    ensures Concat(Split(Mapped(raw)))[i] as int ==
            if 32 <= raw[i] as int <= 126 then raw[i] as int else if raw[i] as int == 9 then 32 else 63
  {
    SplitIsCeiling(Mapped(raw));
  }

  /** The lines of the first `n` raw lines. */
  function AllLines(raws: seq<string>, n: nat): seq<string>
    requires n <= |raws|
  {
    if n == 0 then [] else AllLines(raws, n - 1) + Split(Mapped(raws[n - 1]))
  }

  lemma {:induction false} AllLinesPrefix(raws: seq<string>, n: nat, m: nat)
    requires n <= m <= |raws|
    ensures AllLines(raws, n) <= AllLines(raws, m)
    decreases m
  {
    if n < m {
      AllLinesPrefix(raws, n, m - 1);
    }
  }

  // ---------------------------------------------------------------- a line as PDF operators

  function EscapePdfText(text: string): string {
    if text == "" then ""
    else EscapePdfText(text[..|text| - 1]) + EscapeByte(text[|text| - 1])
  }

  function EscapeByte(c: char): string {
    if c == '(' || c == ')' || c == '\\' then ['\\', c] else [c]
  }

  function Decimal(n: nat): string {
    if n < 10 then ["0123456789"[n]] else Decimal(n / 10) + ["0123456789"[n % 10]]
  }

  /** The line at a place on its page, 14 points below the one before. */
  function Rendered(line: string, lineIndex: nat): string
    requires lineIndex < PDF_LINES_PER_PAGE
  {
    "BT /F1 10 Tf 36 " + Decimal(756 - lineIndex * 14) + " Td (" + EscapePdfText(line) + ") Tj ET\n"
  }

  /** Every line of a page stands between 70 and 756 points above its bottom. */
  lemma LinesOnPaper(lineIndex: nat)
    requires lineIndex < PDF_LINES_PER_PAGE
    ensures 70 <= 756 - lineIndex * 14 <= 756 && 2 <= |Decimal(756 - lineIndex * 14)| <= 3
  {
    var y := 756 - lineIndex * 14;
    assert Decimal(y) == Decimal(y / 10) + ["0123456789"[y % 10]];
    if y >= 100 {
      assert |Decimal(y / 10)| == 2;
    }
  }

  lemma {:induction false} EscapedLength(text: string)
    ensures |text| <= |EscapePdfText(text)| <= 2 * |text|
  {
    if text != "" {
      EscapedLength(text[..|text| - 1]);
    }
  }

  lemma RenderedLength(line: string, lineIndex: nat)
    requires lineIndex < PDF_LINES_PER_PAGE && |line| <= PDF_MAX_LINE_BYTES
    ensures 31 <= |Rendered(line, lineIndex)| <= 224
  {
    LinesOnPaper(lineIndex);
    EscapedLength(line);
  }

  // ---------------------------------------------------------------- literal strings, section 7.3.4.2 of ISO 32000-1

  function OctalDigits(s: string, i: nat, most: nat): (n: nat)
    requires i <= |s|
    ensures n <= most && i + n <= |s|
    decreases most
  {
    if most > 0 && i < |s| && '0' <= s[i] <= '7' then 1 + OctalDigits(s, i + 1, most - 1) else 0
  }

  function OctalValue(s: string, i: nat, n: nat): nat
    requires i + n <= |s| && forall k :: i <= k < i + n ==> '0' <= s[k] <= '7'
  {
    if n == 0 then 0 else 8 * OctalValue(s, i, n - 1) + (s[i + n - 1] as int - '0' as int)
  }

  lemma {:induction false} OctalDigitsAre(s: string, i: nat, most: nat)
    requires i <= |s|
    ensures forall k :: i <= k < i + OctalDigits(s, i, most) ==> '0' <= s[k] <= '7'
    decreases most
  {
    if most > 0 && i < |s| && '0' <= s[i] <= '7' {
      OctalDigitsAre(s, i + 1, most - 1);
    }
  }

  /** What one unit of a literal string stands for, and where the next begins: an escape, an end of line, or itself. */
  function LiteralUnit(s: string, i: nat): (unit: (string, nat))
    requires i < |s|
    ensures i < unit.1 <= |s|
  {
    if s[i] == '\r' then ("\n", if i + 1 < |s| && s[i + 1] == '\n' then i + 2 else i + 1)
    else if s[i] != '\\' then ([s[i]], i + 1)
    else if i + 1 == |s| then ("", i + 1)
    else
      var c := s[i + 1];
      if c == 'n' then ("\n", i + 2) else if c == 'r' then ("\r", i + 2) else if c == 't' then ("\t", i + 2)
      else if c == 'b' then ([8 as char], i + 2) else if c == 'f' then ([12 as char], i + 2)
      else if c == '\n' then ("", i + 2)
      else if c == '\r' then ("", if i + 2 < |s| && s[i + 2] == '\n' then i + 3 else i + 2)
      else if '0' <= c <= '7' then
        OctalDigitsAre(s, i + 1, 3);
        var n := OctalDigits(s, i + 1, 3);
        ([(OctalValue(s, i + 1, n) % 256) as char], i + 1 + n)
      else ([c], i + 2)
  }

  /**
   Reads a literal string behind its opening parenthesis: parentheses may nest, and the one that closes it ends
   it.  The result is the string and the place behind that parenthesis.
   */
  function ReadLiteral(s: string, i: nat, depth: nat): Option<(string, nat)>
    requires i <= |s|
    decreases |s| - i
  {
    if i == |s| then None
    else if s[i] == ')' && depth == 0 then Some(("", i + 1))
    else
      var (text, next) := LiteralUnit(s, i);
      var rest := ReadLiteral(s, next, if s[i] == '(' then depth + 1 else if s[i] == ')' then depth - 1 else depth);
      if rest.None? then None else Some((text + rest.value.0, rest.value.1))
  }

  lemma {:induction false} ReadEscaped(text: string, before: string, rest: string)
    requires forall i :: 0 <= i < |text| ==> ' ' <= text[i] <= '~'
    ensures var s := before + EscapePdfText(text) + ")" + rest;
            |before| <= |s| && ReadLiteral(s, |before|, 0) == Some((text, |before| + |EscapePdfText(text)| + 1))
  {
    hide LiteralUnit, EscapePdfText, EscapeByte, ReadLiteral;
    var s := before + EscapePdfText(text) + ")" + rest;
    if text == "" {
      ReadEnd(s, before, rest);
    } else {
      var c, tail := text[0], text[1..];
      var longer := before + EscapeByte(c);
      EscapeFirst(text);
      ReadEscaped(tail, longer, rest);
      assert s == longer + EscapePdfText(tail) + ")" + rest;
      assert s == before + EscapeByte(c) + (EscapePdfText(tail) + ")" + rest);
      UnitOfEscape(s, before, c, EscapePdfText(tail) + ")" + rest);
      ReadUnit(s, |before|);
      assert text == [c] + tail;
    }
  }

  lemma ReadEnd(s: string, before: string, rest: string)
    requires s == before + EscapePdfText("") + ")" + rest
    ensures |before| <= |s| && ReadLiteral(s, |before|, 0) == Some(("", |before| + |EscapePdfText("")| + 1))
  {
    hide LiteralUnit;
    assert EscapePdfText("") == "";
    assert s[|before|] == ')';
  }

  lemma ReadUnit(s: string, i: nat)
    requires i < |s| && s[i] != '(' && s[i] != ')'
    ensures var (text, next) := LiteralUnit(s, i);
            var rest := ReadLiteral(s, next, 0);
            ReadLiteral(s, i, 0) == if rest.None? then None else Some((text + rest.value.0, rest.value.1))
  {
    hide LiteralUnit;
  }

  lemma UnitOfEscape(s: string, before: string, c: char, after: string)
    requires s == before + EscapeByte(c) + after && ' ' <= c <= '~'
    ensures |before| < |s| && s[|before|] != '(' && s[|before|] != ')'
    ensures LiteralUnit(s, |before|) == ([c], |before| + |EscapeByte(c)|)
  {
    assert s[|before|] == EscapeByte(c)[0];
    if |EscapeByte(c)| == 2 {
      assert s[|before| + 1] == c;
    }
  }

  lemma {:induction false} EscapeFirst(text: string)
    requires text != ""
    ensures EscapePdfText(text) == EscapeByte(text[0]) + EscapePdfText(text[1..])
  {
    if |text| > 1 {
      var init := text[..|text| - 1];
      EscapeFirst(init);
      assert init[1..] == text[1..][..|text| - 2];
    } else {
      assert text[..0] == "" && text[1..] == "";
    }
  }

  /** A PDF reader gets back every line that was set. */
  lemma LineReadsBack(raw: string, k: nat, rest: string)
    requires k < |Split(Mapped(raw))|
    ensures var line := Split(Mapped(raw))[k];
            ReadLiteral(EscapePdfText(line) + ")" + rest, 0, 0) == Some((line, |EscapePdfText(line)| + 1))
  {
    var line := Split(Mapped(raw))[k];
    SplitKeepsCharacters(Mapped(raw), k);
    ReadEscaped(line, "", rest);
    assert "" + EscapePdfText(line) + ")" + rest == EscapePdfText(line) + ")" + rest;
  }

  lemma {:induction false} SplitKeepsCharacters(s: string, k: nat)
    requires k < |Split(s)| && forall i :: 0 <= i < |s| ==> ' ' <= s[i] <= '~'
    ensures forall i :: 0 <= i < |Split(s)[k]| ==> ' ' <= Split(s)[k][i] <= '~'
  {
    if |s| > PDF_MAX_LINE_BYTES && k > 0 {
      SplitKeepsCharacters(s[PDF_MAX_LINE_BYTES..], k - 1);
    }
  }

  /** Reads a decimal number: its value, going on from `value`, and the place behind its digits. */
  function ReadNumber(s: string, i: nat, value: nat): (nat, nat)
    requires i <= |s|
    decreases |s| - i
  {
    if i < |s| && '0' <= s[i] <= '9' then ReadNumber(s, i + 1, 10 * value + (s[i] as int - 48)) else (value, i)
  }

  lemma DigitIs(n: nat)
    requires n < 10
    ensures '0' <= "0123456789"[n] <= '9' && "0123456789"[n] as int == 48 + n
  {
    var digits := "0123456789";
    assert digits[0] == '0' && digits[1] == '1' && digits[2] == '2' && digits[3] == '3' && digits[4] == '4';
    assert digits[5] == '5' && digits[6] == '6' && digits[7] == '7' && digits[8] == '8' && digits[9] == '9';
  }

  lemma {:induction false} ReadDecimal(n: nat, before: string, rest: string)
    ensures var s := before + Decimal(n) + rest; var end := |before| + |Decimal(n)|;
            |before| < end <= |s| && ReadNumber(s, |before|, 0) == ReadNumber(s, end, n)
  {
    var s := before + Decimal(n) + rest;
    var digit := "0123456789"[n % 10];
    DigitIs(n % 10);
    if n < 10 {
      assert s[|before|] == digit;
    } else {
      var high := Decimal(n / 10);
      ReadDecimal(n / 10, before, [digit] + rest);
      assert s == before + high + ([digit] + rest);
      assert s[|before| + |high|] == digit;
    }
  }

  /**
   What a PDF reader makes of a line: it moves 36 points to the right and to 756 points less 14 for each line above
   it, and shows the text of the line.
   */
  lemma LineStands(line: string, lineIndex: nat)
    requires lineIndex < PDF_LINES_PER_PAGE && forall i :: 0 <= i < |line| ==> ' ' <= line[i] <= '~'
    ensures var s := Rendered(line, lineIndex);
            && |s| > 16 && s[..16] == "BT /F1 10 Tf 36 "
            && var (y, next) := ReadNumber(s, 16, 0);
               && y + 14 * lineIndex == 756 && next + 5 <= |s| && s[next..next + 5] == " Td ("
               && var shown := ReadLiteral(s, next + 5, 0);
                  shown.Some? && shown.value.0 == line && shown.value.1 <= |s| && s[shown.value.1..] == " Tj ET\n"
  {
    hide ReadLiteral, EscapePdfText, Decimal, ReadNumber;
    var s, y := Rendered(line, lineIndex), 756 - lineIndex * 14;
    var escaped := EscapePdfText(line);
    assert |"BT /F1 10 Tf 36 "| == 16 && |" Td ("| == 5;
    assert s == "BT /F1 10 Tf 36 " + Decimal(y) + (" Td (" + escaped + ") Tj ET\n");
    ReadDecimal(y, "BT /F1 10 Tf 36 ", " Td (" + escaped + ") Tj ET\n");
    NumberEnds(s, 16 + |Decimal(y)|, y);
    ReadEscaped(line, "BT /F1 10 Tf 36 " + Decimal(y) + " Td (", " Tj ET\n");
    assert s == "BT /F1 10 Tf 36 " + Decimal(y) + " Td (" + escaped + ")" + " Tj ET\n";
  }

  lemma NumberEnds(s: string, i: nat, value: nat)
    requires i < |s| && s[i] == ' '
    ensures ReadNumber(s, i, value) == (value, i)
  {
  }

  // ---------------------------------------------------------------- pages and bytes

  /** The content of a page: `n` lines from `from` on. */
  function RenderLines(lines: seq<string>, from: nat, n: nat): string
    requires from + n <= |lines| && n <= PDF_LINES_PER_PAGE
  {
    if n == 0 then "" else RenderLines(lines, from, n - 1) + Rendered(lines[from + n - 1], n - 1)
  }

  /** The bytes of the first `n` lines as they are set. */
  function RenderedBytes(lines: seq<string>, n: nat): nat
    requires n <= |lines|
  {
    if n == 0 then 0 else RenderedBytes(lines, n - 1) + |Rendered(lines[n - 1], (n - 1) % PDF_LINES_PER_PAGE)|
  }

  function PagesFor(n: nat): nat {
    (n + PDF_LINES_PER_PAGE - 1) / PDF_LINES_PER_PAGE
  }

  /** The pages of a text: 50 lines on each, the rest on the last. */
  ghost predicate ArePages(pages: seq<string>, lines: seq<string>) {
    && |pages| == PagesFor(|lines|)
    && forall p :: 0 <= p < |pages| ==> IsPage(pages[p], lines, p * PDF_LINES_PER_PAGE)
  }

  ghost predicate IsPage(page: string, lines: seq<string>, from: nat) {
    from < |lines| &&
    var n := if from + PDF_LINES_PER_PAGE <= |lines| then PDF_LINES_PER_PAGE else |lines| - from;
    page == RenderLines(lines, from, n)
  }

  /** What the budget comes to in the end: a fixed part, a part for each page, and the content. */
  function Estimate(lines: seq<string>): nat {
    PDF_FIXED_RESERVE + PDF_PAGE_RESERVE * PagesFor(|lines|) + RenderedBytes(lines, |lines|)
  }

  /** The bytes of the content of the first `n` pages. */
  function ContentOf(pages: seq<string>, n: nat): nat
    requires n <= |pages|
  {
    if n == 0 then 0 else ContentOf(pages, n - 1) + |pages[n - 1]|
  }

  lemma {:induction false} PageBytes(lines: seq<string>, from: nat, n: nat)
    requires from + n <= |lines| && n <= PDF_LINES_PER_PAGE && from % PDF_LINES_PER_PAGE == 0
    ensures RenderedBytes(lines, from) + |RenderLines(lines, from, n)| == RenderedBytes(lines, from + n)
  {
    hide Rendered;
    if n > 0 {
      PageBytes(lines, from, n - 1);
      PlaceOnPage(from, n - 1);
    }
  }

  lemma PlaceOnPage(from: nat, n: nat)
    requires from % PDF_LINES_PER_PAGE == 0 && n < PDF_LINES_PER_PAGE
    ensures (from + n) % PDF_LINES_PER_PAGE == n
  {
  }

  lemma {:induction false} PagesHoldBytes(pages: seq<string>, lines: seq<string>, n: nat)
    requires ArePages(pages, lines) && n <= |pages|
    ensures var done := n * PDF_LINES_PER_PAGE;
            ContentOf(pages, n) == RenderedBytes(lines, if done <= |lines| then done else |lines|)
  {
    hide RenderLines, RenderedBytes;
    if n == 0 {
      assert RenderedBytes(lines, 0) == 0 by { NoBytes(lines); }
    } else {
      var from := (n - 1) * PDF_LINES_PER_PAGE;
      PagesHoldBytes(pages, lines, n - 1);
      assert IsPage(pages[n - 1], lines, from);
      PageBytes(lines, from, if from + PDF_LINES_PER_PAGE <= |lines| then PDF_LINES_PER_PAGE else |lines| - from);
    }
  }

  lemma NoBytes(lines: seq<string>)
    ensures RenderedBytes(lines, 0) == 0
  {
  }

  /** The estimate in numbers: 4096 bytes, 1024 for each page, and what is on the pages. */
  lemma EstimateCountsPages(pages: seq<string>, lines: seq<string>)
    requires ArePages(pages, lines)
    ensures Estimate(lines) == 4096 + 1024 * |pages| + ContentOf(pages, |pages|)
    ensures |pages| == (|lines| + 49) / 50
  {
    hide RenderLines, RenderedBytes;
    PagesHoldBytes(pages, lines, |pages|);
  }

  lemma {:induction false} RenderedPrefix(a: seq<string>, b: seq<string>, from: nat, n: nat)
    requires a <= b && from + n <= |a| && n <= PDF_LINES_PER_PAGE
    ensures RenderLines(a, from, n) == RenderLines(b, from, n)
  {
    hide Rendered;
    if n > 0 {
      RenderedPrefix(a, b, from, n - 1);
    }
  }

  lemma {:induction false} BytesPrefix(a: seq<string>, b: seq<string>, n: nat, m: nat)
    requires a <= b && n <= |a| && n <= m <= |b|
    ensures RenderedBytes(a, n) == RenderedBytes(b, n) <= RenderedBytes(b, m)
    decreases n + m
  {
    hide Rendered;
    if n < m {
      BytesPrefix(a, b, n, m - 1);
    } else if n > 0 {
      BytesPrefix(a, b, n - 1, n - 1);
    }
  }

  /** The estimate of a text is at least that of any part of it from its beginning. */
  lemma EstimateGrows(a: seq<string>, b: seq<string>)
    requires a <= b
    ensures Estimate(a) <= Estimate(b)
  {
    hide RenderedBytes;
    BytesPrefix(a, b, |a|, |b|);
  }

  ghost predicate Short(lines: seq<string>) {
    forall k :: 0 <= k < |lines| ==> |lines[k]| <= PDF_MAX_LINE_BYTES
  }

  lemma {:induction false} BytesAtLeast(lines: seq<string>, n: nat)
    requires n <= |lines| && Short(lines)
    ensures RenderedBytes(lines, n) >= 31 * n
  {
    hide Rendered;
    if n > 0 {
      BytesAtLeast(lines, n - 1);
      RenderedLength(lines[n - 1], (n - 1) % PDF_LINES_PER_PAGE);
    }
  }

  lemma {:induction false} PageAtMost(lines: seq<string>, from: nat, n: nat)
    requires from + n <= |lines| && n <= PDF_LINES_PER_PAGE && Short(lines)
    ensures |RenderLines(lines, from, n)| <= 224 * n
  {
    hide Rendered;
    if n > 0 {
      PageAtMost(lines, from, n - 1);
      RenderedLength(lines[from + n - 1], n - 1);
    }
  }

  // ---------------------------------------------------------------- the budget

  class PdfBudget {
    const outputCap: nat
    const maxPages: nat
    const maxLines: nat
    const maxObjects: nat
    var estimatedBytes: nat
    var contentBytes: nat
    var pageCount: nat
    var lineCount: nat
    var objectCount: nat

    /** The estimate is what has been set, and it stays within the cap. */
    ghost predicate Valid()
      reads this
    {
      && maxPages == (outputCap - PDF_FIXED_RESERVE) / PDF_PAGE_RESERVE > 0
      && maxLines == outputCap / PDF_LINE_RESERVE && maxObjects == outputCap / PDF_OBJECT_RESERVE
      && estimatedBytes == PDF_FIXED_RESERVE + PDF_PAGE_RESERVE * pageCount + contentBytes <= outputCap
    }

    constructor (outputCap: nat)
      requires outputCap >= PDF_FIXED_RESERVE && (outputCap - PDF_FIXED_RESERVE) / PDF_PAGE_RESERVE > 0
      ensures Valid() && this.outputCap == outputCap && pageCount == lineCount == contentBytes == objectCount == 0
    {
      this.outputCap := outputCap;
      maxPages, maxLines := (outputCap - PDF_FIXED_RESERVE) / PDF_PAGE_RESERVE, outputCap / PDF_LINE_RESERVE;
      maxObjects, estimatedBytes := outputCap / PDF_OBJECT_RESERVE, PDF_FIXED_RESERVE;
      contentBytes, pageCount, lineCount, objectCount := 0, 0, 0, 0;
    }

    method Reserve(bytes: nat) returns (ok: bool)
      modifies this`estimatedBytes
      ensures ok == (old(estimatedBytes) + bytes <= outputCap)
      ensures estimatedBytes == if ok then old(estimatedBytes) + bytes else old(estimatedBytes)
    {
      ok := estimatedBytes + bytes <= outputCap;
      if ok {
        estimatedBytes := estimatedBytes + bytes;
      }
    }

    method ReserveObjects(count: nat) returns (ok: bool)
      modifies this`objectCount
      ensures ok == (old(objectCount) + count <= maxObjects)
      ensures objectCount == if ok then old(objectCount) + count else old(objectCount)
    {
      ok := objectCount + count <= maxObjects;
      if ok {
        objectCount := objectCount + count;
      }
    }

    /** Of its three checks, the one on the content is implied by the one on the estimate. */
    method ReserveLine(bytes: nat) returns (ok: bool)
      requires Valid()
      modifies this`lineCount, this`contentBytes, this`estimatedBytes
      ensures Valid()
      ensures ok == (old(lineCount) < maxLines && old(estimatedBytes) + bytes <= outputCap)
      ensures lineCount == old(lineCount) + (if ok then 1 else 0)
          && contentBytes == old(contentBytes) + (if ok then bytes else 0)
    {
      if lineCount + 1 > maxLines {
        return false;
      }
      var content := contentBytes + bytes;
      if content > outputCap - PDF_FIXED_RESERVE {
        return false;
      }
      ok := Reserve(bytes);
      if ok {
        contentBytes, lineCount := content, lineCount + 1;
      }
    }

    /** The limits on pages and objects never refuse a page that fits, and a page that is refused leaves no trace. */
    method ReservePage() returns (ok: bool)
      requires Valid() && objectCount == 2 + 2 * pageCount
      modifies this`pageCount, this`estimatedBytes, this`objectCount
      ensures Valid() && objectCount == 2 + 2 * pageCount
      ensures ok == (old(estimatedBytes) + PDF_PAGE_RESERVE <= outputCap)
      ensures pageCount == old(pageCount) + if ok then 1 else 0
    {
      if pageCount >= maxPages {
        return false;
      }
      var fits := Reserve(PDF_PAGE_RESERVE);
      if !fits {
        return false;
      }
      var room := ReserveObjects(2);
      if !room {
        return false;
      }
      pageCount := pageCount + 1;
      ok := true;
    }
  }

  // ---------------------------------------------------------------- setting the text

  /** The lines set so far are on the full pages and on the current one, and the budget counts exactly them. */
  ghost predicate Laid(budget: PdfBudget, done: seq<string>, kids: seq<string>, content: string, linesOnPage: nat)
    reads budget
  {
    && budget.Valid() && budget.objectCount == 2 + 2 * budget.pageCount
    && linesOnPage == |done| % PDF_LINES_PER_PAGE && |kids| == budget.pageCount == |done| / PDF_LINES_PER_PAGE
    && budget.lineCount == |done| && budget.contentBytes == RenderedBytes(done, |done|) && Short(done)
    && PagesLaid(done, kids, content, linesOnPage)
  }

  ghost predicate PagesLaid(done: seq<string>, kids: seq<string>, content: string, linesOnPage: nat) {
    && |kids| * PDF_LINES_PER_PAGE + linesOnPage == |done| && linesOnPage <= PDF_LINES_PER_PAGE
    && (forall p :: 0 <= p < |kids| ==> IsPage(kids[p], done, p * PDF_LINES_PER_PAGE))
    && content == RenderLines(done, |kids| * PDF_LINES_PER_PAGE, linesOnPage)
  }

  method AppendPdfLine(content: string, line: string, lineIndex: nat, budget: PdfBudget) returns (r: Option<string>)
    requires budget.Valid() && lineIndex < PDF_LINES_PER_PAGE && |line| <= PDF_MAX_LINE_BYTES
    requires |content| <= 224 * lineIndex
    modifies budget
    ensures budget.Valid() && budget.pageCount == old(budget.pageCount) && budget.objectCount == old(budget.objectCount)
    ensures var bytes := |Rendered(line, lineIndex)|;
            && (r.Some? <==>
                old(budget.lineCount) < budget.maxLines && old(budget.estimatedBytes) + bytes <= budget.outputCap)
            && (r.Some? ==>
                budget.lineCount == old(budget.lineCount) + 1
                && budget.contentBytes == old(budget.contentBytes) + bytes)
    ensures r.Some? ==> r.value == content + Rendered(line, lineIndex)
  {
    var rendered := Rendered(line, lineIndex);
    RenderedLength(line, lineIndex);
    if |content| + |rendered| > PDF_MAX_CONTENT_STREAM_BYTES {
      return None;
    }
    var ok := budget.ReserveLine(|rendered|);
    r := if ok then Some(content + rendered) else None;
  }

  lemma LineLaid(done: seq<string>, kids: seq<string>, content: string, linesOnPage: nat, line: string)
    requires PagesLaid(done, kids, content, linesOnPage) && linesOnPage < PDF_LINES_PER_PAGE
    requires |done| % PDF_LINES_PER_PAGE == linesOnPage
    ensures PagesLaid(done + [line], kids, content + Rendered(line, linesOnPage), linesOnPage + 1)
    ensures RenderedBytes(done + [line], |done| + 1) == RenderedBytes(done, |done|) + |Rendered(line, linesOnPage)|
  {
    hide Rendered, RenderLines, RenderedBytes, IsPage;
    var from := |kids| * PDF_LINES_PER_PAGE;
    RenderedPrefix(done, done + [line], from, linesOnPage);
    RenderedStep(done, from, linesOnPage, line);
    BytesStep(done, linesOnPage, line);
    forall p | 0 <= p < |kids| ensures IsPage(kids[p], done + [line], p * PDF_LINES_PER_PAGE) {
      FullPageStays(kids[p], done, line, p * PDF_LINES_PER_PAGE);
    }
  }

  lemma RenderedStep(done: seq<string>, from: nat, n: nat, line: string)
    requires from + n == |done| && n < PDF_LINES_PER_PAGE
    ensures RenderLines(done + [line], from, n + 1) == RenderLines(done + [line], from, n) + Rendered(line, n)
  {
    hide Rendered;
  }

  lemma BytesStep(done: seq<string>, linesOnPage: nat, line: string)
    requires |done| % PDF_LINES_PER_PAGE == linesOnPage
    ensures RenderedBytes(done + [line], |done| + 1) == RenderedBytes(done, |done|) + |Rendered(line, linesOnPage)|
  {
    hide Rendered;
    BytesPrefix(done, done + [line], |done|, |done|);
  }

  lemma FullPageStays(page: string, done: seq<string>, line: string, from: nat)
    requires IsPage(page, done, from) && from + PDF_LINES_PER_PAGE <= |done|
    ensures IsPage(page, done + [line], from)
  {
    hide RenderLines;
    RenderedPrefix(done, done + [line], from, PDF_LINES_PER_PAGE);
  }

  lemma PageLaid(done: seq<string>, kids: seq<string>, content: string)
    requires PagesLaid(done, kids, content, PDF_LINES_PER_PAGE)
    ensures PagesLaid(done, kids + [content], "", 0)
  {
    assert forall p :: 0 <= p < |kids| ==> IsPage(kids[p], done, p * PDF_LINES_PER_PAGE);
  }

  /** There is always room for the count of one more line, because lines and pages cost more than it allows for. */
  lemma LinesNeverLimit(done: seq<string>, pages: nat, cap: nat)
    requires Short(done) && pages == |done| / PDF_LINES_PER_PAGE
    requires PDF_FIXED_RESERVE + PDF_PAGE_RESERVE * pages + RenderedBytes(done, |done|) <= cap
    ensures |done| < cap / PDF_LINE_RESERVE
  {
    BytesAtLeast(done, |done|);
  }

  datatype Setting = Setting(kids: seq<string>, content: string, linesOnPage: nat)

  /** Sets a line and finishes the page when it is full; it fails exactly when the budget would be exceeded. */
  method PutLine(budget: PdfBudget, ghost done: seq<string>, s: Setting, line: string) returns (r: Option<Setting>)
    requires Laid(budget, done, s.kids, s.content, s.linesOnPage) && |line| <= PDF_MAX_LINE_BYTES
    modifies budget
    ensures r.Some? ==> Laid(budget, done + [line], r.value.kids, r.value.content, r.value.linesOnPage)
    ensures r.None? ==> Estimate(done + [line]) > budget.outputCap
  {
    hide Rendered, RenderLines, RenderedBytes, PagesLaid;
    LinesNeverLimit(done, budget.pageCount, budget.outputCap);
    ContentShort(done, s);
    LineLaid(done, s.kids, s.content, s.linesOnPage, line);
    var content := AppendPdfLine(s.content, line, s.linesOnPage, budget);
    if content.None? {
      return None;
    }
    if s.linesOnPage + 1 < PDF_LINES_PER_PAGE {
      return Some(Setting(s.kids, content.value, s.linesOnPage + 1));
    }
    var paged := budget.ReservePage();
    if !paged {
      return None;
    }
    PageLaid(done + [line], s.kids, content.value);
    r := Some(Setting(s.kids + [content.value], "", 0));
  }

  lemma ContentShort(done: seq<string>, s: Setting)
    requires PagesLaid(done, s.kids, s.content, s.linesOnPage) && Short(done)
    ensures |s.content| <= 224 * s.linesOnPage
  {
    PageAtMost(done, |s.kids| * PDF_LINES_PER_PAGE, s.linesOnPage);
  }

  lemma SplitStep(line: string, rest: string)
    requires |line| == PDF_MAX_LINE_BYTES && rest != ""
    ensures Split(line + rest) == [line] + Split(rest)
  {
    assert (line + rest)[..PDF_MAX_LINE_BYTES] == line && (line + rest)[PDF_MAX_LINE_BYTES..] == rest;
  }

  /**
   Sets one raw line.  The test before its last piece always succeeds: a piece that was set has a character
   behind it.
   */
  method PutRaw(budget: PdfBudget, ghost done: seq<string>, s: Setting, raw: string) returns (r: Option<Setting>)
    requires Laid(budget, done, s.kids, s.content, s.linesOnPage)
    modifies budget
    ensures r.Some? ==> Laid(budget, done + Split(Mapped(raw)), r.value.kids, r.value.content, r.value.linesOnPage)
    ensures r.None? ==> Estimate(done + Split(Mapped(raw))) > budget.outputCap
  {
    hide Laid, Estimate, Split, Mapped;
    var now, line, wroteForRaw := s, "", false;
    ghost var laid, all := done, done + Split(Mapped(raw));
    MappedFrom(raw, 0);
    for k := 0 to |raw|
      invariant Laid(budget, laid, now.kids, now.content, now.linesOnPage)
      invariant |line| <= PDF_MAX_LINE_BYTES && (line == "" ==> !wroteForRaw)
      invariant all == laid + Split(line + MappedRest(raw, k))
    {
      MappedFrom(raw, k);
      if |line| == PDF_MAX_LINE_BYTES {
        PieceStep(all, laid, line, MappedRest(raw, k));
        var put := PutLine(budget, laid, now, line);
        if put.None? {
          EstimateGrows(laid + [line], all);
          return None;
        }
        now, wroteForRaw, laid := put.value, true, laid + [line];
        line := "";
      }
      OneMore(line, raw, k);
      line := line + [SafePdfByte(raw[k])];
    }
    LastPiece(all, laid, line, raw);
    r := Some(now);
    if line != "" || !wroteForRaw {
      r := PutLine(budget, laid, now, line);
    }
  }

  function MappedRest(raw: string, k: nat): string
    requires k <= |raw|
  {
    Mapped(raw)[k..]
  }

  lemma MappedFrom(raw: string, k: nat)
    requires k <= |raw|
    ensures k == 0 ==> "" + MappedRest(raw, k) == Mapped(raw)
    ensures k < |raw| ==> MappedRest(raw, k) == [SafePdfByte(raw[k])] + MappedRest(raw, k + 1)
  {
  }

  lemma PieceStep(all: seq<string>, laid: seq<string>, line: string, rest: string)
    requires all == laid + Split(line + rest) && |line| == PDF_MAX_LINE_BYTES && rest != ""
    ensures laid + [line] <= all && all == laid + [line] + Split("" + rest)
  {
    hide Split;
    SplitStep(line, rest);
    assert "" + rest == rest;
    assert laid + ([line] + Split(rest)) == laid + [line] + Split(rest);
  }

  lemma OneMore(line: string, raw: string, k: nat)
    requires k < |raw|
    ensures line + MappedRest(raw, k) == line + [SafePdfByte(raw[k])] + MappedRest(raw, k + 1)
  {
    MappedFrom(raw, k);
    assert line + ([SafePdfByte(raw[k])] + MappedRest(raw, k + 1)) ==
        line + [SafePdfByte(raw[k])] + MappedRest(raw, k + 1);
  }

  lemma LastPiece(all: seq<string>, laid: seq<string>, line: string, raw: string)
    requires |line| <= PDF_MAX_LINE_BYTES && all == laid + Split(line + MappedRest(raw, |raw|))
    ensures all == laid + [line]
  {
    assert line + MappedRest(raw, |raw|) == line;
    SplitLast(line);
  }

  lemma SplitLast(line: string)
    requires |line| <= PDF_MAX_LINE_BYTES
    ensures Split(line) == [line]
  {
  }

  /**
   Sets a text.  It succeeds exactly when there is a line to pieces and the estimate fits the cap; none of the other
   limits ever decides.  The pages then hold all lines in order.
   */
  method MarkdownToPdf(raws: seq<string>, outputCap: nat) returns (r: Result<seq<string>, PdfError>)
    ensures r.Ok? <==> raws != [] && Estimate(AllLines(raws, |raws|)) <= outputCap
    ensures r.Ok? ==> ArePages(r.value, AllLines(raws, |raws|))
    ensures r == Err(Empty) <==> raws == [] && outputCap >= PDF_FIXED_RESERVE + PDF_PAGE_RESERVE
  {
    hide Laid, Split, RenderedBytes, AllLines, Estimate, ArePages;
    EstimateAtLeast(raws);
    if outputCap < PDF_FIXED_RESERVE || (outputCap - PDF_FIXED_RESERVE) / PDF_PAGE_RESERVE == 0 {
      return Err(Oversized);
    }
    var budget := new PdfBudget(outputCap);
    var ok := budget.ReserveObjects(1);
    if ok {
      ok := budget.ReserveObjects(1);
    }
    if !ok {
      return Err(Oversized);
    }
    var now := Setting([], "", 0);
    NothingLaid(budget);
    assert AllLines(raws, 0) == [] by { NoLines(raws); }
    for i := 0 to |raws|
      invariant fresh(budget) && budget.outputCap == outputCap
      invariant Laid(budget, AllLines(raws, i), now.kids, now.content, now.linesOnPage)
    {
      RawStep(raws, i);
      var put := PutRaw(budget, AllLines(raws, i), now, raws[i]);
      if put.None? {
        AllLinesPrefix(raws, i + 1, |raws|);
        EstimateGrows(AllLines(raws, i + 1), AllLines(raws, |raws|));
        return Err(Oversized);
      }
      now := put.value;
    }
    LinesForRaws(raws, |raws|);
    r := Finish(budget, AllLines(raws, |raws|), now, raws != []);
  }

  lemma NoLines(raws: seq<string>)
    ensures AllLines(raws, 0) == []
  {
  }

  lemma RawStep(raws: seq<string>, i: nat)
    requires i < |raws|
    ensures AllLines(raws, i + 1) == AllLines(raws, i) + Split(Mapped(raws[i]))
  {
  }

  lemma {:induction false} LinesForRaws(raws: seq<string>, n: nat)
    requires n <= |raws|
    ensures |AllLines(raws, n)| >= n && (n == 0 ==> AllLines(raws, n) == [])
  {
    if n > 0 {
      LinesForRaws(raws, n - 1);
    }
  }

  lemma EstimateAtLeast(raws: seq<string>)
    ensures raws != [] ==> Estimate(AllLines(raws, |raws|)) >= PDF_FIXED_RESERVE + PDF_PAGE_RESERVE
  {
    hide RenderedBytes, AllLines;
    LinesForRaws(raws, |raws|);
  }

  lemma NothingLaid(budget: PdfBudget)
    requires budget.Valid() && budget.objectCount == 2
    requires budget.pageCount == budget.lineCount == budget.contentBytes == 0
    ensures Laid(budget, [], [], "", 0)
  {
  }

  /** The last page, and the catalog. */
  method Finish(budget: PdfBudget, ghost done: seq<string>, s: Setting, wroteLine: bool)
    returns (r: Result<seq<string>, PdfError>)
    requires Laid(budget, done, s.kids, s.content, s.linesOnPage) && wroteLine == (done != [])
    modifies budget
    ensures r.Ok? <==> done != [] && Estimate(done) <= budget.outputCap
    ensures r.Ok? ==> ArePages(r.value, done)
    ensures r == Err(Empty) <==> done == []
  {
    hide RenderLines, RenderedBytes;
    var kids := s.kids;
    if s.linesOnPage > 0 {
      var paged := budget.ReservePage();
      if !paged {
        return Err(Oversized);
      }
      kids := kids + [s.content];
    }
    if !wroteLine {
      return Err(Empty);
    }
    var ok := budget.ReserveObjects(1);
    if !ok {
      return Err(Oversized);
    }
    r := Ok(kids);
  }
}
