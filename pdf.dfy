/** PDF page normalisation: the post-processing `parsePDF` applies to the text
    pdf-parse extracted, and the classification of its failures into error codes. */
module PdfIngestion {
  import opened Wrappers
  import opened Text

  datatype PdfErrorCode = InvalidPdf | EncryptedPdf | EmptyText

  /** A thrown PDFParseError. */
  datatype PdfParseError = PdfParseError(message: string, code: PdfErrorCode)

  /** What pdf-parse did with the buffer: extracted text (`data.text || ''`), or threw. */
  datatype PdfExtraction = Extracted(text: string) | ExtractThrew(thrown: Thrown)

  datatype ParsedPage = ParsedPage(pageNumber: nat, text: string)

  datatype ParsedPdf = ParsedPdf(pages: seq<ParsedPage>)

  const NoTextMessage: string := "PDF contains no extractable text"

  // ---------------------------------------------------------------- whitespace

  /** `replace(/\s+/g, ' ')`: every maximal run of white space becomes one space. Read
      one character at a time: a visible character is kept, a white-space character
      followed by another one is dropped, and the last one of a run becomes a space. */
  function CollapseSpaces(s: string): string
    decreases |s|
  {
    if s == [] then []
    else if !IsSpace(s[0]) then [s[0]] + CollapseSpaces(s[1..])
    else if |s| > 1 && IsSpace(s[1]) then CollapseSpaces(s[1..])
    else [' '] + CollapseSpaces(s[1..])
  }

  /** The collapse is empty only for the empty text; otherwise it starts with the first
      character, or with a space where the text starts with white space. */
  lemma {:induction false} CollapseSpacesHead(s: string)
    ensures s == [] <==> CollapseSpaces(s) == []
    ensures s != [] && !IsSpace(s[0]) ==> CollapseSpaces(s)[0] == s[0]
    ensures s != [] && IsSpace(s[0]) ==> CollapseSpaces(s)[0] == ' '
    decreases |s|
  {
    if s != [] && IsSpace(s[0]) && |s| > 1 && IsSpace(s[1]) {
      CollapseSpacesHead(s[1..]);
    }
  }

  /** No two white-space characters stand side by side. */
  predicate NoDoubleSpace(s: string) {
    forall i :: 0 <= i < |s| - 1 ==> !(IsSpace(s[i]) && IsSpace(s[i + 1]))
  }

  /** Every white-space character of `s` is a plain space. */
  predicate OnlyBlanks(s: string) {
    forall i :: 0 <= i < |s| && IsSpace(s[i]) ==> s[i] == ' '
  }

  /** The non-white-space characters of `s`, in order. */
  function Visible(s: string): (r: string)
    ensures forall i :: 0 <= i < |r| ==> !IsSpace(r[i])
  {
    if s == [] then [] else (if IsSpace(s[0]) then [] else [s[0]]) + Visible(s[1..])
  }

  lemma {:induction false} VisibleOfSpaces(s: string)
    requires AllSpace(s)
    ensures Visible(s) == []
  {
    if s != [] {
      VisibleOfSpaces(s[1..]);
    }
  }

  lemma {:induction false} VisibleAppend(a: string, b: string)
    ensures Visible(a + b) == Visible(a) + Visible(b)
    decreases |a|
  {
    if a == [] {
      assert a + b == b;
    } else {
      assert (a + b)[1..] == a[1..] + b;
      VisibleAppend(a[1..], b);
    }
  }

  lemma NoDoubleSpaceCons(c: char, r: string)
    requires NoDoubleSpace(r)
    requires !IsSpace(c) || r == [] || !IsSpace(r[0])
    ensures NoDoubleSpace([c] + r)
  {
    var s := [c] + r;
    forall i | 0 <= i < |s| - 1 ensures !(IsSpace(s[i]) && IsSpace(s[i + 1])) {
      assert s[i + 1] == r[i];
      if i > 0 {
        assert s[i] == r[i - 1];
      }
    }
  }

  lemma OnlyBlanksCons(c: char, r: string)
    requires OnlyBlanks(r)
    requires !IsSpace(c) || c == ' '
    ensures OnlyBlanks([c] + r)
  {
    var s := [c] + r;
    forall i | 0 < i < |s| ensures s[i] == r[i - 1] {
    }
  }

  /** Collapsing keeps every visible character, in order, leaves no doubled white space,
      and the only white space it leaves is the plain space. */
  lemma {:induction false} CollapseSpacesSpec(s: string)
    ensures Visible(CollapseSpaces(s)) == Visible(s)
    ensures NoDoubleSpace(CollapseSpaces(s))
    ensures OnlyBlanks(CollapseSpaces(s))
    decreases |s|
  {
    if s != [] {
      var u := s[1..];
      var r := CollapseSpaces(u);
      CollapseSpacesSpec(u);
      assert s == [s[0]] + u;
      VisibleAppend([s[0]], u);
      if !IsSpace(s[0]) {
        VisibleAppend([s[0]], r);
        CollapseSpacesHead(u);
        NoDoubleSpaceCons(s[0], r);
        OnlyBlanksCons(s[0], r);
      } else if |s| > 1 && IsSpace(s[1]) {
      } else {
        VisibleAppend([' '], r);
        CollapseSpacesHead(u);
        NoDoubleSpaceCons(' ', r);
        OnlyBlanksCons(' ', r);
      }
    }
  }

  /** Text with no white space comes out of the collapse unchanged. */
  lemma {:induction false} CollapseSpacesVisibleOnly(s: string)
    requires forall i :: 0 <= i < |s| ==> !IsSpace(s[i])
    ensures CollapseSpaces(s) == s
    decreases |s|
  {
    if s != [] {
      CollapseSpacesVisibleOnly(s[1..]);
    }
  }

  /** A white-space run in front of text that does not start with white space becomes
      exactly one space. */
  lemma {:induction false} CollapseSpacesLeadingRun(w: string, b: string)
    requires w != [] && AllSpace(w)
    requires b == [] || !IsSpace(b[0])
    ensures CollapseSpaces(w + b) == [' '] + CollapseSpaces(b)
    decreases |w|
  {
    var u := w[1..];
    var ub := u + b;
    assert w == [w[0]] + u;
    ConcatAssoc([w[0]], u, b);
    ConsTail(w[0], ub);
    if u == [] {
      assert ub == b;
    } else {
      assert ub[0] == u[0];
      CollapseSpacesLeadingRun(u, b);
    }
  }

  /** One step of `CollapseSpacesConcat`: the first character, when it is visible or the
      last of a run. */
  lemma CollapseSpacesConcatKeep(c: char, u: string, t: string)
    requires u != []
    requires !IsSpace(c) || !IsSpace(u[0])
    requires CollapseSpaces(u + t) == CollapseSpaces(u) + CollapseSpaces(t)
    ensures CollapseSpaces([c] + u + t) == CollapseSpaces([c] + u) + CollapseSpaces(t)
  {
    var ut := u + t;
    var cu, ct := CollapseSpaces(u), CollapseSpaces(t);
    var h := if IsSpace(c) then ' ' else c;
    ConcatAssoc([c], u, t);
    ConsTail(c, ut);
    ConsTail(c, u);
    assert ut[0] == u[0];
    ConcatAssoc([h], cu, ct);
  }

  /** One step of `CollapseSpacesConcat`: a white-space character that another one follows. */
  lemma CollapseSpacesConcatDrop(c: char, u: string, t: string)
    requires u != [] && IsSpace(c) && IsSpace(u[0])
    requires CollapseSpaces(u + t) == CollapseSpaces(u) + CollapseSpaces(t)
    ensures CollapseSpaces([c] + u + t) == CollapseSpaces([c] + u) + CollapseSpaces(t)
  {
    var ut := u + t;
    ConcatAssoc([c], u, t);
    ConsTail(c, ut);
    ConsTail(c, u);
    assert ut[0] == u[0];
  }

  /** Text that ends in a visible character collapses independently of what follows. */
  lemma {:induction false} CollapseSpacesConcat(a: string, t: string)
    requires a == [] || !IsSpace(a[|a| - 1])
    ensures CollapseSpaces(a + t) == CollapseSpaces(a) + CollapseSpaces(t)
    decreases |a|
  {
    if a == [] {
      assert a + t == t;
    } else if |a| == 1 {
      assert a == [a[0]] + [];
      ConsTail(a[0], t);
      ConsTail(a[0], []);
    } else {
      var u := a[1..];
      assert a == [a[0]] + u;
      assert u[|u| - 1] == a[|a| - 1];
      CollapseSpacesConcat(u, t);
      if IsSpace(a[0]) && IsSpace(u[0]) {
        CollapseSpacesConcatDrop(a[0], u, t);
      } else {
        CollapseSpacesConcatKeep(a[0], u, t);
      }
    }
  }

  /** Between two visible characters, a white-space run of any length and kind becomes one
      plain space, and the text on either side collapses on its own. */
  lemma CollapseSpacesRun(a: string, w: string, b: string)
    requires w != [] && AllSpace(w)
    requires a == [] || !IsSpace(a[|a| - 1])
    requires b == [] || !IsSpace(b[0])
    ensures CollapseSpaces(a + w + b) == CollapseSpaces(a) + " " + CollapseSpaces(b)
  {
    var wb := w + b;
    var ca, cb := CollapseSpaces(a), CollapseSpaces(b);
    ConcatAssoc(a, w, b);
    CollapseSpacesConcat(a, wb);
    CollapseSpacesLeadingRun(w, b);
    ConcatAssoc(ca, [' '], cb);
  }

  /** A text ending in a visible character collapses to one ending in that character. */
  lemma {:induction false} CollapseSpacesLast(s: string)
    requires s != [] && !IsSpace(s[|s| - 1])
    ensures CollapseSpaces(s) != [] && CollapseSpaces(s)[|CollapseSpaces(s)| - 1] == s[|s| - 1]
    decreases |s|
  {
    if |s| > 1 {
      var u := s[1..];
      assert u[|u| - 1] == s[|s| - 1];
      CollapseSpacesLast(u);
    }
  }

  /** The text `parsePDF` keeps for one page: runs of white space collapsed, then trimmed. */
  function NormalizePageText(raw: string): string {
    Trim(CollapseSpaces(raw))
  }

  lemma {:induction false} VisibleEmptyIsSpace(s: string)
    ensures Visible(s) == [] <==> AllSpace(s)
    decreases |s|
  {
    if s != [] {
      VisibleEmptyIsSpace(s[1..]);
      assert Visible(s) == (if IsSpace(s[0]) then [] else [s[0]]) + Visible(s[1..]);
      if AllSpace(s[1..]) && IsSpace(s[0]) {
        assert AllSpace(s);
      }
    }
  }

  lemma {:induction false} NoDoubleSpaceInfix(s: string, i: nat, j: nat)
    requires NoDoubleSpace(s) && i <= j <= |s|
    ensures NoDoubleSpace(s[i..j])
  {
    var t := s[i..j];
    forall k | 0 <= k < |t| - 1 ensures !(IsSpace(t[k]) && IsSpace(t[k + 1])) {
      assert t[k] == s[i + k] && t[k + 1] == s[i + k + 1];
    }
  }

  /** Trimming only removes white space, so it keeps the visible characters. */
  lemma TrimVisible(c: string)
    ensures Visible(Trim(c)) == Visible(c)
  {
    TrimSpec(c);
    var i, j := TrimFrom(c), TrimTo(c);
    var pre, r, post := c[..i], Trim(c), c[j..];
    assert c == pre + r + post;
    VisibleAppend(pre + r, post);
    VisibleAppend(pre, r);
    VisibleOfSpaces(pre);
    VisibleOfSpaces(post);
  }

  /** Skipping from the start of a white-space run stops exactly where the run ends. */
  lemma {:induction false} SkipSpacesOverRun(s: string, i: nat, j: nat)
    requires i <= j <= |s|
    requires forall k :: i <= k < j ==> IsSpace(s[k])
    requires j == |s| || !IsSpace(s[j])
    ensures SkipSpacesFrom(s, i) == j
    decreases j - i
  {
    if i < j {
      SkipSpacesOverRun(s, i + 1, j);
    }
  }

  /** Skipping backwards over a white-space run at the end stops exactly where it starts. */
  lemma {:induction false} SkipSpacesBackOverRun(s: string, lo: nat, i: nat, j: nat)
    requires lo <= i <= j <= |s|
    requires forall k :: i <= k < j ==> IsSpace(s[k])
    requires i == lo || !IsSpace(s[i - 1])
    ensures SkipSpacesBack(s, lo, j) == i
    decreases j - i
  {
    if i < j {
      SkipSpacesBackOverRun(s, lo, i, j - 1);
    }
  }

  /** Trimming white space around a trimmed text gives that text back. */
  lemma TrimAround(p: string, x: string, q: string)
    requires AllSpace(p) && AllSpace(q) && IsTrimmed(x)
    ensures Trim(p + x + q) == x
  {
    var s := p + x + q;
    if x == [] {
      assert AllSpace(s) by {
        forall k | 0 <= k < |s| ensures IsSpace(s[k]) {
          if k < |p| { assert s[k] == p[k]; } else { assert s[k] == q[k - |p|]; }
        }
      }
      TrimSpec(s);
    } else {
      var i, j := |p|, |p| + |x|;
      forall k | 0 <= k < i ensures IsSpace(s[k]) {
        assert s[k] == p[k];
      }
      assert s[i] == x[0] && s[j - 1] == x[|x| - 1];
      SkipSpacesOverRun(s, 0, i);
      forall k | j <= k < |s| ensures IsSpace(s[k]) {
        assert s[k] == q[k - j];
      }
      SkipSpacesBackOverRun(s, i, j, |s|);
      assert s[i..j] == x;
    }
  }

  /** White space alone collapses to at most one space. */
  lemma CollapseAllSpace(w: string)
    requires AllSpace(w)
    ensures AllSpace(CollapseSpaces(w))
  {
    if w != [] {
      assert w + [] == w;
      CollapseSpacesLeadingRun(w, []);
    }
  }

  /** A text with visible characters at both ends collapses to one with visible
      characters at both ends. */
  lemma CollapsedTrimmed(x: string)
    requires x != [] && IsTrimmed(x)
    ensures CollapseSpaces(x) != [] && IsTrimmed(CollapseSpaces(x))
  {
    CollapseSpacesHead(x);
    CollapseSpacesLast(x);
  }

  /** White space around a trimmed text collapses on its own, to at most one space. */
  lemma CollapseAroundTrimmed(p: string, x: string, q: string)
    requires AllSpace(p) && AllSpace(q) && x != [] && IsTrimmed(x)
    ensures CollapseSpaces(p + x + q) == (if p == [] then [] else [' ']) + CollapseSpaces(x) + CollapseSpaces(q)
  {
    var xq := x + q;
    var cx, cq := CollapseSpaces(x), CollapseSpaces(q);
    CollapseSpacesConcat(x, q);
    ConcatAssoc(p, x, q);
    if p == [] {
      assert p + xq == xq;
      assert [] + cx == cx;
    } else {
      assert xq[0] == x[0];
      CollapseSpacesLeadingRun(p, xq);
      ConcatAssoc([' '], cx, cq);
    }
  }

  /** Collapsing and trimming commute on a page that is all white space. */
  lemma NormalizeBlankPage(raw: string)
    requires AllSpace(raw)
    ensures NormalizePageText(raw) == [] && CollapseSpaces(Trim(raw)) == []
  {
    TrimSpec(raw);
    CollapseAllSpace(raw);
    TrimSpec(CollapseSpaces(raw));
  }

  /** Collapsing and trimming commute: a normalized page is the trimmed page with its
      inner white-space runs collapsed. */
  lemma NormalizePageTextTrimFirst(raw: string)
    ensures NormalizePageText(raw) == CollapseSpaces(Trim(raw))
  {
    TrimSpec(raw);
    if AllSpace(raw) {
      NormalizeBlankPage(raw);
    } else {
      var p, x, q := raw[..TrimFrom(raw)], Trim(raw), raw[TrimTo(raw)..];
      assert raw == p + x + q;
      CollapseAroundTrimmed(p, x, q);
      CollapsedTrimmed(x);
      CollapseAllSpace(q);
      var pre := if p == [] then [] else [' '];
      assert AllSpace(pre);
      TrimAround(pre, CollapseSpaces(x), CollapseSpaces(q));
    }
  }

  /** A normalized page has no leading or trailing white space, no two adjacent
      white-space characters and no white space other than the plain space, keeps the
      visible characters of the raw page, is the trimmed page with its runs collapsed,
      and is empty exactly when the raw page is all white space. */
  lemma NormalizePageTextSpec(raw: string)
    ensures IsTrimmed(NormalizePageText(raw))
    ensures NoDoubleSpace(NormalizePageText(raw))
    ensures OnlyBlanks(NormalizePageText(raw))
    ensures Visible(NormalizePageText(raw)) == Visible(raw)
    ensures NormalizePageText(raw) == CollapseSpaces(Trim(raw))
    ensures NormalizePageText(raw) == [] <==> AllSpace(raw)
  {
    var c := CollapseSpaces(raw);
    CollapseSpacesSpec(raw);
    TrimSpec(c);
    NoDoubleSpaceInfix(c, TrimFrom(c), TrimTo(c));
    TrimVisible(c);
    VisibleEmptyIsSpace(Trim(c));
    VisibleEmptyIsSpace(raw);
    CollapseSpacesSpec(Trim(raw));
    NormalizePageTextTrimFirst(raw);
  }

  // ---------------------------------------------------------------- pages

  /** The `map` step of `parsePDF`: piece `i` of the form-feed split becomes page `i + 1`
      with its normalized text. */
  function NumberPages(pieces: seq<string>): seq<ParsedPage> {
    seq(|pieces|, i requires 0 <= i < |pieces| => ParsedPage(i + 1, NormalizePageText(pieces[i])))
  }

  /** The `filter` step of `parsePDF`: the pages whose text is not empty, in order. */
  function KeepNonEmpty(pages: seq<ParsedPage>): seq<ParsedPage>
    decreases |pages|
  {
    if pages == [] then []
    else (if |pages[0].text| > 0 then [pages[0]] else []) + KeepNonEmpty(pages[1..])
  }

  /** A page survives the filter exactly when it was there and its text is not empty. */
  lemma {:induction false} KeepNonEmptyMembers(pages: seq<ParsedPage>)
    ensures forall p :: p in KeepNonEmpty(pages) <==> p in pages && p.text != []
    decreases |pages|
  {
    if pages != [] {
      KeepNonEmptyMembers(pages[1..]);
      assert pages == [pages[0]] + pages[1..];
    }
  }

  predicate IncreasingNumbers(pages: seq<ParsedPage>) {
    forall k, l :: 0 <= k < l < |pages| ==> pages[k].pageNumber < pages[l].pageNumber
  }

  /** The filter keeps the pages in their order. */
  lemma {:induction false} KeepNonEmptyIncreasing(pages: seq<ParsedPage>)
    requires IncreasingNumbers(pages)
    ensures IncreasingNumbers(KeepNonEmpty(pages))
    decreases |pages|
  {
    if pages != [] {
      var rest := KeepNonEmpty(pages[1..]);
      KeepNonEmptyIncreasing(pages[1..]);
      KeepNonEmptyMembers(pages[1..]);
      forall p | p in rest ensures pages[0].pageNumber < p.pageNumber {
        var j :| 0 <= j < |pages[1..]| && pages[1..][j] == p;
        assert pages[1 + j] == p;
      }
    }
  }

  /** A numbered page carries the normalized text of the piece its number names. */
  lemma NumberedPage(pieces: seq<string>, p: ParsedPage)
    requires p in NumberPages(pieces)
    ensures 1 <= p.pageNumber <= |pieces|
    ensures p.text == NormalizePageText(pieces[p.pageNumber - 1])
  {
    var j :| 0 <= j < |pieces| && NumberPages(pieces)[j] == p;
  }

  lemma NumberPagesIncreasing(pieces: seq<string>)
    ensures IncreasingNumbers(NumberPages(pieces))
  {
  }

  /** The pages of `rawText`: split on form feed, numbered from 1, normalized, non-empty kept. */
  function PagesOf(rawText: string): seq<ParsedPage> {
    KeepNonEmpty(NumberPages(Split(rawText, FormFeed)))
  }

  /** Every kept page is the normalized piece its number names, and the numbers increase. */
  lemma KeptPagesSound(pieces: seq<string>)
    ensures var pages := KeepNonEmpty(NumberPages(pieces));
      && IncreasingNumbers(pages)
      && (forall k :: 0 <= k < |pages| ==>
           1 <= pages[k].pageNumber <= |pieces| && pages[k].text != []
           && pages[k].text == NormalizePageText(pieces[pages[k].pageNumber - 1]))
  {
    var numbered := NumberPages(pieces);
    KeepNonEmptyMembers(numbered);
    NumberPagesIncreasing(pieces);
    KeepNonEmptyIncreasing(numbered);
    var pages := KeepNonEmpty(numbered);
    forall k | 0 <= k < |pages|
      ensures 1 <= pages[k].pageNumber <= |pieces| && pages[k].text != []
      ensures pages[k].text == NormalizePageText(pieces[pages[k].pageNumber - 1])
    {
      assert pages[k] in pages;
      NumberedPage(pieces, pages[k]);
    }
  }

  /** Every piece whose normalized text is not empty is kept, numbered one past its index. */
  lemma KeptPagesComplete(pieces: seq<string>)
    ensures forall i :: 0 <= i < |pieces| && NormalizePageText(pieces[i]) != [] ==>
              ParsedPage(i + 1, NormalizePageText(pieces[i])) in KeepNonEmpty(NumberPages(pieces))
  {
    var numbered := NumberPages(pieces);
    KeepNonEmptyMembers(numbered);
    forall i | 0 <= i < |pieces| && NormalizePageText(pieces[i]) != []
      ensures ParsedPage(i + 1, NormalizePageText(pieces[i])) in KeepNonEmpty(numbered)
    {
      assert numbered[i] in numbered;
    }
  }

  /** Every page of `rawText` is the normalized form-feed piece its number names, the
      numbers strictly increase, and every piece whose normalized text is not empty is
      there as the page numbered one past its index. */
  lemma PagesOfSpec(rawText: string)
    ensures var pieces, pages := Split(rawText, FormFeed), PagesOf(rawText);
      && IncreasingNumbers(pages)
      && (forall k :: 0 <= k < |pages| ==>
           1 <= pages[k].pageNumber <= |pieces| && pages[k].text != []
           && pages[k].text == NormalizePageText(pieces[pages[k].pageNumber - 1]))
      && (forall i :: 0 <= i < |pieces| && NormalizePageText(pieces[i]) != [] ==>
           ParsedPage(i + 1, NormalizePageText(pieces[i])) in pages)
  {
    var pieces := Split(rawText, FormFeed);
    assert PagesOf(rawText) == KeepNonEmpty(NumberPages(pieces));
    KeptPagesSound(pieces);
    KeptPagesComplete(pieces);
  }

  /** Text with any visible character yields at least one page, so the second
      EMPTY_TEXT check of `parsePDF` never fires. */
  lemma PagesOfVisibleText(rawText: string)
    requires !AllSpace(rawText)
    ensures PagesOf(rawText) != []
  {
    var pieces := Split(rawText, FormFeed);
    if forall k :: 0 <= k < |pieces| ==> AllSpace(pieces[k]) {
      JoinAllSpace(pieces, [FormFeed]);
      JoinSplit(rawText, FormFeed);
      assert false;
    }
    var k :| 0 <= k < |pieces| && !AllSpace(pieces[k]);
    var numbered := NumberPages(pieces);
    NormalizePageTextSpec(pieces[k]);
    KeepNonEmptyMembers(numbered);
    assert numbered[k] in PagesOf(rawText);
  }

  // ---------------------------------------------------------------- errors

  /** The message of an encryption failure, as `parsePDF` recognises it. */
  predicate MentionsEncryption(m: string) {
    Contains(m, "encrypted") || Contains(m, "password") || Contains(m, "Encrypted")
  }

  /** The PDFParseError the catch block of `parsePDF` builds from an error pdf-parse threw. */
  function ClassifyExtractError(thrown: Thrown): (e: PdfParseError)
    ensures e.code == EncryptedPdf <==> thrown.ErrorObject? && MentionsEncryption(thrown.message)
    ensures e.code != EmptyText
  {
    match thrown
    case ErrorObject(m) =>
      if MentionsEncryption(m) then
        PdfParseError("PDF is encrypted and cannot be parsed", EncryptedPdf)
      else if Contains(m, "Invalid PDF") || Contains(m, "corrupt") || Contains(m, "Invalid") || Contains(m, "parse") then
        PdfParseError("Invalid or corrupted PDF file", InvalidPdf)
      else PdfParseError("Failed to parse PDF: " + m, InvalidPdf)
    case NonError => PdfParseError("Failed to parse PDF: Unknown error", InvalidPdf)
  }

  /** `parsePDF`, given what pdf-parse did with the buffer. A PDFParseError raised inside
      the try block is rethrown unchanged, so it is returned as is. */
  function ParsePdf(extraction: PdfExtraction): (r: Fallible<ParsedPdf, PdfParseError>)
    ensures extraction.Extracted? && AllSpace(extraction.text) ==>
              r == Failure(PdfParseError(NoTextMessage, EmptyText))
    ensures r.Success? <==> extraction.Extracted? && !AllSpace(extraction.text)
    ensures r.Success? ==> r.value.pages == PagesOf(extraction.text) && r.value.pages != []
    ensures r.Failure? && r.error.code == EmptyText ==> extraction.Extracted? && AllSpace(extraction.text)
  {
    match extraction
    case ExtractThrew(t) => Failure(ClassifyExtractError(t))
    case Extracted(rawText) =>
      TrimSpec(rawText);
      if Trim(rawText) == [] then Failure(PdfParseError(NoTextMessage, EmptyText))
      else
        var pages := PagesOf(rawText);
        PagesOfVisibleText(rawText);
        if pages == [] then Failure(PdfParseError(NoTextMessage, EmptyText))
        else Success(ParsedPdf(pages))
  }

  /** A numbered page's text is trimmed, free of doubled white space, and its only
      white space is the plain space. */
  lemma NumberedPageShape(pieces: seq<string>, p: ParsedPage)
    requires p in NumberPages(pieces)
    ensures IsTrimmed(p.text) && NoDoubleSpace(p.text) && OnlyBlanks(p.text)
  {
    NumberedPage(pieces, p);
    NormalizePageTextSpec(pieces[p.pageNumber - 1]);
  }

  /** A successful parse has at least one page; page numbers are at least 1 (a blank
      first page leaves its number unused) and strictly increase, and every page text is
      non-empty, trimmed, free of doubled white space and holds no white space other than
      the plain space. */
  lemma ParsePdfPages(extraction: PdfExtraction)
    requires ParsePdf(extraction).Success?
    ensures var pages := ParsePdf(extraction).value.pages;
      && pages != []
      && IncreasingNumbers(pages)
      && (forall k :: 0 <= k < |pages| ==>
            1 <= pages[k].pageNumber && pages[k].text != [] && IsTrimmed(pages[k].text)
            && NoDoubleSpace(pages[k].text) && OnlyBlanks(pages[k].text))
  {
    var pieces := Split(extraction.text, FormFeed);
    var numbered := NumberPages(pieces);
    PagesOfSpec(extraction.text);
    KeepNonEmptyMembers(numbered);
    var pages := ParsePdf(extraction).value.pages;
    forall k | 0 <= k < |pages|
      ensures IsTrimmed(pages[k].text) && NoDoubleSpace(pages[k].text) && OnlyBlanks(pages[k].text)
    {
      assert pages[k] in pages;
      NumberedPageShape(pieces, pages[k]);
    }
  }

  /** Every parse error carries a non-empty message. */
  lemma ParsePdfErrorNonEmpty(extraction: PdfExtraction)
    ensures ParsePdf(extraction).Failure? ==> ParsePdf(extraction).error.message != ""
  {
  }
}
