/** Text assembly and cleaning of the PDF-to-audiobook converter
    (Final_project_pdf_to-audio.py). The PDF reader is an input: the text of
    each page in order (`None` where the page has no text layer), or `None`
    for the whole document when it could not be opened. The regular
    expression class `\w` is the parameter `isWord`; `\s` is `IsSpace`. */
module PdfText {
  import opened Wrappers
  import opened Text

  /** The punctuation `clean_text` keeps: `. , ! ? ; : ( ) -`. */
  predicate IsKeptPunctuation(c: char) {
    c in ".,!?;:()-"
  }

  /** The class `[\w\s.,!?;:()\-]`. */
  predicate IsAllowed(isWord: char -> bool, c: char) {
    isWord(c) || IsSpace(c) || IsKeptPunctuation(c)
  }

  /** The characters of `s` that are not whitespace, in order. */
  function NonSpace(s: string): string {
    if s == [] then [] else (if IsSpace(s[0]) then [] else [s[0]]) + NonSpace(s[1..])
  }

  lemma {:induction false} NonSpaceOfStripLeft(s: string)
    ensures NonSpace(StripLeft(s)) == NonSpace(s)
  {
    if s != [] && IsSpace(s[0]) {
      NonSpaceOfStripLeft(s[1..]);
    }
  }

  /** `re.sub(r'\s+', ' ', text)`: every maximal run of whitespace becomes
      one plain space. */
  function CollapseWhitespace(s: string): string
    decreases |s|
  {
    if s == [] then []
    else if IsSpace(s[0]) then " " + CollapseWhitespace(StripLeft(s))
    else [s[0]] + CollapseWhitespace(s[1..])
  }

  /** The collapsed text's only whitespace is the plain space, no two
      spaces are adjacent, it starts with a space exactly when the input
      starts with whitespace, and it keeps every other character in order. */
  lemma {:induction false} CollapseSpec(s: string)
    ensures var r := CollapseWhitespace(s);
            && |r| <= |s|
            && (r == [] <==> s == [])
            && (s != [] && IsSpace(s[0]) ==> r[0] == ' ')
            && (s != [] && !IsSpace(s[0]) ==> r[0] == s[0])
            && (forall i :: 0 <= i < |r| && IsSpace(r[i]) ==> r[i] == ' ')
            && (forall i :: 0 <= i < |r| - 1 ==> !(r[i] == ' ' && r[i + 1] == ' '))
            && NonSpace(r) == NonSpace(s)
    decreases |s|
  {
    if s != [] {
      var rest := if IsSpace(s[0]) then StripLeft(s) else s[1..];
      CollapseSpec(rest);
      var r, rr := CollapseWhitespace(s), CollapseWhitespace(rest);
      if IsSpace(s[0]) {
        StripLeftSpec(s);
        NonSpaceOfStripLeft(s);
        assert r == " " + rr;
        assert NonSpace(r) == NonSpace(rr);
      } else {
        assert r == [s[0]] + rr;
        assert r[1..] == rr;
        assert s == [s[0]] + s[1..];
      }
      forall i | 0 <= i < |r| && IsSpace(r[i]) ensures r[i] == ' ' {
        if i > 0 { assert r[i] == rr[i - 1]; }
      }
      forall i | 0 <= i < |r| - 1 ensures !(r[i] == ' ' && r[i + 1] == ' ') {
        if i > 0 { assert r[i] == rr[i - 1] && r[i + 1] == rr[i]; }
      }
    }
  }

  /** `re.sub(r'[^\w\s.,!?;:()\-]', '', text)`: the allowed characters, in
      order. */
  function DeleteDisallowed(isWord: char -> bool, s: string): string {
    if s == [] then []
    else (if IsAllowed(isWord, s[0]) then [s[0]] else []) + DeleteDisallowed(isWord, s[1..])
  }

  /** Deletion keeps exactly the allowed characters, and nothing is added. */
  lemma {:induction false} DeleteDisallowedSpec(isWord: char -> bool, s: string)
    ensures |DeleteDisallowed(isWord, s)| <= |s|
    ensures forall c :: c in DeleteDisallowed(isWord, s) <==> c in s && IsAllowed(isWord, c)
  {
    if s != [] {
      DeleteDisallowedSpec(isWord, s[1..]);
      assert forall c :: c in s <==> c == s[0] || c in s[1..];
    }
  }

  /** Deletion works character by character: it distributes over
      concatenation, so every occurrence of an allowed character is kept,
      in order. */
  lemma {:induction false} DeleteAppend(isWord: char -> bool, a: string, b: string)
    ensures DeleteDisallowed(isWord, a + b) == DeleteDisallowed(isWord, a) + DeleteDisallowed(isWord, b)
  {
    if a == [] {
      assert a + b == b;
    } else {
      var head := if IsAllowed(isWord, a[0]) then [a[0]] else [];
      var rest := a[1..];
      assert (a + b)[0] == a[0] && (a + b)[1..] == rest + b;
      assert DeleteDisallowed(isWord, a + b) == head + DeleteDisallowed(isWord, rest + b);
      assert DeleteDisallowed(isWord, rest + b) ==
               DeleteDisallowed(isWord, rest) + DeleteDisallowed(isWord, b) by {
        DeleteAppend(isWord, rest, b);
      }
      assert head + (DeleteDisallowed(isWord, rest) + DeleteDisallowed(isWord, b)) ==
               (head + DeleteDisallowed(isWord, rest)) + DeleteDisallowed(isWord, b);
    }
  }

  /** A text of allowed characters only is left alone. */
  lemma {:induction false} DeleteKeepsAllowed(isWord: char -> bool, s: string)
    requires forall i :: 0 <= i < |s| ==> IsAllowed(isWord, s[i])
    ensures DeleteDisallowed(isWord, s) == s
  {
    if s != [] {
      DeleteKeepsAllowed(isWord, s[1..]);
      assert [s[0]] + s[1..] == s;
    }
  }

  /** `clean_text`: collapse whitespace, delete disallowed characters, strip. */
  function CleanText(isWord: char -> bool, s: string): string {
    Strip(DeleteDisallowed(isWord, CollapseWhitespace(s)))
  }

  /** A character `clean_text` can keep, once whitespace is collapsed. */
  predicate IsCleanChar(isWord: char -> bool, c: char) {
    (isWord(c) || c == ' ' || IsKeptPunctuation(c)) && (IsSpace(c) ==> c == ' ')
  }

  /** What the cleaned text consists of: word characters, plain spaces and
      the kept punctuation, with no whitespace but the plain space; no space
      at either end; never longer than the input. */
  lemma CleanTextSpec(isWord: char -> bool, s: string)
    ensures var r := CleanText(isWord, s);
            && (forall i :: 0 <= i < |r| ==> IsCleanChar(isWord, r[i]))
            && (r != [] ==> r[0] != ' ' && r[|r| - 1] != ' ')
            && |r| <= |s|
  {
    var collapsed := CollapseWhitespace(s);
    var kept := DeleteDisallowed(isWord, collapsed);
    var r := Strip(kept);
    assert r == CleanText(isWord, s);
    CollapseLength(s);
    CollapsedSpacesArePlain(s);
    DeleteDisallowedSpec(isWord, collapsed);
    StripSpec(kept);
    StripKeepsCharacters(kept);
    forall i | 0 <= i < |r| ensures IsCleanChar(isWord, r[i]) {
      assert r[i] in kept;
    }
  }

  lemma CollapseLength(s: string)
    ensures |CollapseWhitespace(s)| <= |s|
  {
    CollapseSpec(s);
  }

  /** The only whitespace character left by collapsing is the plain space. */
  lemma CollapsedSpacesArePlain(s: string)
    ensures forall c :: c in CollapseWhitespace(s) && IsSpace(c) ==> c == ' '
  {
    var r := CollapseWhitespace(s);
    CollapseSpec(s);
    forall c | c in r && IsSpace(c) ensures c == ' ' {
      var k :| 0 <= k < |r| && r[k] == c;
    }
  }

  /** `clean_text` is not idempotent: a disallowed character `x` between
      two spaces, as in "a @ b", leaves a double space behind, which a
      second cleaning collapses. */
  lemma CleanTextNotIdempotent(isWord: char -> bool, a: char, x: char, b: char)
    requires IsAllowed(isWord, a) && !IsSpace(a)
    requires IsAllowed(isWord, b) && !IsSpace(b)
    requires !IsAllowed(isWord, x)
    ensures CleanText(isWord, [a, ' ', x, ' ', b]) == [a, ' ', ' ', b]
    ensures CleanText(isWord, [a, ' ', ' ', b]) == [a, ' ', b]
  {
    var spaced := [a, ' ', x, ' ', b];
    assert forall i :: 0 <= i < |spaced| - 1 ==> !(spaced[i] == ' ' && spaced[i + 1] == ' ');
    CollapseKeepsCollapsed(spaced);
    DeleteBetweenSpaces(isWord, a, x, b);
    CollapseDoubleSpace(a, b);
    var kept := [a, ' ', b];
    assert forall i :: 0 <= i < |kept| ==> IsAllowed(isWord, kept[i]);
    DeleteKeepsAllowed(isWord, kept);
    NoEndSpaceIsStripped([a, ' ', ' ', b]);
    NoEndSpaceIsStripped([a, ' ', b]);
  }

  /** A text whose only whitespace is single plain spaces is left alone
      by collapsing. */
  lemma {:induction false} CollapseKeepsCollapsed(s: string)
    requires forall i :: 0 <= i < |s| && IsSpace(s[i]) ==> s[i] == ' '
    requires forall i :: 0 <= i < |s| - 1 ==> !(s[i] == ' ' && s[i + 1] == ' ')
    ensures CollapseWhitespace(s) == s
    decreases |s|
  {
    if s != [] {
      var t := s[1..];
      forall i | 0 <= i < |t| && IsSpace(t[i]) ensures t[i] == ' ' {
        assert t[i] == s[i + 1];
      }
      forall i | 0 <= i < |t| - 1 ensures !(t[i] == ' ' && t[i + 1] == ' ') {
        assert t[i] == s[i + 1] && t[i + 1] == s[i + 2];
      }
      CollapseKeepsCollapsed(t);
      if IsSpace(s[0]) {
        assert t != [] ==> !IsSpace(t[0]);
        assert StripLeft(t) == t;
        assert StripLeft(s) == t;
        assert CollapseWhitespace(s) == " " + t;
      } else {
        assert CollapseWhitespace(s) == [s[0]] + t;
      }
      assert [s[0]] + t == s;
    }
  }

  /** Collapsing twice is collapsing once. */
  lemma CollapseIdempotent(s: string)
    ensures CollapseWhitespace(CollapseWhitespace(s)) == CollapseWhitespace(s)
  {
    CollapseSpec(s);
    CollapseKeepsCollapsed(CollapseWhitespace(s));
  }

  lemma CollapseDoubleSpace(a: char, b: char)
    requires !IsSpace(a) && !IsSpace(b)
    ensures CollapseWhitespace([a, ' ', ' ', b]) == [a, ' ', b]
  {
    var s1, s3 := [b], [' ', ' ', b];
    assert CollapseWhitespace(s1) == s1 by {
      CollapseWord(s1, []);
      assert s1 + [] == s1;
    }
    assert CollapseWhitespace(s3) == " " + s1 by {
      CollapseSpaceRun([' ', ' '], s1);
      assert [' ', ' '] + s1 == s3;
    }
    assert CollapseWhitespace([a, ' ', ' ', b]) == [a] + CollapseWhitespace(s3) by {
      CollapseWord([a], s3);
      assert [a] + s3 == [a, ' ', ' ', b];
    }
    assert [a] + (" " + s1) == [a, ' ', b];
  }

  lemma DeleteBetweenSpaces(isWord: char -> bool, a: char, x: char, b: char)
    requires IsAllowed(isWord, a) && IsAllowed(isWord, b) && !IsAllowed(isWord, x)
    ensures DeleteDisallowed(isWord, [a, ' ', x, ' ', b]) == [a, ' ', ' ', b]
  {
    var s1, s2, s3, s4 := [b], [' ', b], [x, ' ', b], [' ', x, ' ', b];
    DeleteCons(isWord, b, []);
    assert [b] + [] == s1;
    DeleteCons(isWord, ' ', s1);
    assert [' '] + s1 == s2;
    DeleteCons(isWord, x, s2);
    assert [x] + s2 == s3;
    DeleteCons(isWord, ' ', s3);
    assert [' '] + s3 == s4;
    DeleteCons(isWord, a, s4);
    assert [a] + s4 == [a, ' ', x, ' ', b];
    assert [a] + ([' '] + s2) == [a, ' ', ' ', b];
  }

  lemma CollapseWord(w: string, rest: string)
    requires |w| == 1 && !IsSpace(w[0])
    ensures CollapseWhitespace(w + rest) == w + CollapseWhitespace(rest)
  {
    assert (w + rest)[1..] == rest;
  }

  /** A whitespace run followed by a non-space collapses to one space. */
  lemma CollapseSpaceRun(run: string, rest: string)
    requires run != [] && IsBlank(run)
    requires rest != [] && !IsSpace(rest[0])
    ensures CollapseWhitespace(run + rest) == " " + CollapseWhitespace(rest)
  {
    StripLeftOfRun(run, rest);
  }

  lemma {:induction false} StripLeftOfRun(run: string, rest: string)
    requires IsBlank(run)
    requires rest != [] && !IsSpace(rest[0])
    ensures StripLeft(run + rest) == rest
  {
    if run == [] {
      assert run + rest == rest;
    } else {
      assert (run + rest)[1..] == run[1..] + rest;
      StripLeftOfRun(run[1..], rest);
    }
  }

  lemma DeleteCons(isWord: char -> bool, c: char, rest: string)
    ensures DeleteDisallowed(isWord, [c] + rest) ==
              (if IsAllowed(isWord, c) then [c] else []) + DeleteDisallowed(isWord, rest)
  {
    assert ([c] + rest)[1..] == rest;
  }

  /** The longest prefix of `s` without whitespace. */
  function WordPrefix(s: string): (w: string)
    ensures |w| <= |s| && w == s[..|w|]
    ensures forall i :: 0 <= i < |w| ==> !IsSpace(w[i])
    ensures |w| < |s| ==> IsSpace(s[|w|])
  {
    if s == [] || IsSpace(s[0]) then [] else [s[0]] + WordPrefix(s[1..])
  }

  /** `s.split()`: the maximal runs of non-whitespace characters. */
  function Words(s: string): seq<string>
    decreases |s|
  {
    var t := StripLeft(s);
    if t == [] then [] else
      var w := WordPrefix(t);
      [w] + Words(t[|w|..])
  }

  function Concat(words: seq<string>): string {
    if words == [] then [] else words[0] + Concat(words[1..])
  }

  lemma {:induction false} NonSpaceAppend(a: string, b: string)
    ensures NonSpace(a + b) == NonSpace(a) + NonSpace(b)
  {
    if a == [] {
      assert a + b == b;
    } else {
      assert (a + b)[1..] == a[1..] + b;
      NonSpaceAppend(a[1..], b);
    }
  }

  lemma {:induction false} NonSpaceOfWord(w: string)
    requires forall i :: 0 <= i < |w| ==> !IsSpace(w[i])
    ensures NonSpace(w) == w
  {
    if w != [] {
      NonSpaceOfWord(w[1..]);
      assert w == [w[0]] + w[1..];
    }
  }

  /** The words `split` yields are non-empty and hold no whitespace. */
  lemma {:induction false} WordsAreWords(s: string)
    ensures forall k :: 0 <= k < |Words(s)| ==>
              Words(s)[k] != [] && forall i :: 0 <= i < |Words(s)[k]| ==> !IsSpace(Words(s)[k][i])
    decreases |s|
  {
    var t := StripLeft(s);
    StripLeftSpec(s);
    if t != [] {
      var w := WordPrefix(t);
      var rest := t[|w|..];
      WordsAreWords(rest);
      var ws := Words(s);
      assert ws == [w] + Words(rest);
      forall k | 0 <= k < |ws|
        ensures ws[k] != [] && forall i :: 0 <= i < |ws[k]| ==> !IsSpace(ws[k][i])
      {
        if k > 0 { assert ws[k] == Words(rest)[k - 1]; }
      }
    }
  }

  /** Together the words are the text without its whitespace (the word
      count itself is `WordCountIsTokenCount`). */
  lemma {:induction false} WordsCoverText(s: string)
    ensures Concat(Words(s)) == NonSpace(s)
    decreases |s|
  {
    var t := StripLeft(s);
    NonSpaceOfStripLeft(s);
    if t != [] {
      var w := WordPrefix(t);
      var rest := t[|w|..];
      var ws := Words(rest);
      WordsCoverText(rest);
      assert t == w + rest;
      NonSpaceAppend(w, rest);
      NonSpaceOfWord(w);
      assert Words(s) == [w] + ws;
      assert ([w] + ws)[1..] == ws;
      assert Concat([w] + ws) == w + Concat(ws);
    }
  }

  /** The number of token starts in `s`, scanning left to right: a token
      starts at every non-whitespace character that opens the text
      (`afterSpace` holds there) or follows a whitespace character. */
  function TokenStarts(afterSpace: bool, s: string): nat
    decreases |s|
  {
    if s == [] then 0
    else (if afterSpace && !IsSpace(s[0]) then 1 else 0) + TokenStarts(IsSpace(s[0]), s[1..])
  }

  /** Leading whitespace starts no token. */
  lemma {:induction false} TokenStartsOfStripLeft(s: string)
    ensures TokenStarts(true, StripLeft(s)) == TokenStarts(true, s)
  {
    if s != [] && IsSpace(s[0]) {
      TokenStartsOfStripLeft(s[1..]);
    }
  }

  /** A run of non-whitespace starts at most one token, at its front. */
  lemma {:induction false} TokenStartsOfWord(afterSpace: bool, w: string, rest: string)
    requires w != [] && forall i :: 0 <= i < |w| ==> !IsSpace(w[i])
    ensures TokenStarts(afterSpace, w + rest) == (if afterSpace then 1 else 0) + TokenStarts(false, rest)
    decreases |w|
  {
    assert (w + rest)[0] == w[0] && (w + rest)[1..] == w[1..] + rest;
    if |w| > 1 {
      TokenStartsOfWord(false, w[1..], rest);
    } else {
      assert w[1..] + rest == rest;
    }
  }

  /** `len(text.split())`: `split` yields one word per token start. */
  lemma {:induction false} WordCountIsTokenCount(s: string)
    ensures |Words(s)| == TokenStarts(true, s)
    decreases |s|
  {
    var t := StripLeft(s);
    StripLeftSpec(s);
    TokenStartsOfStripLeft(s);
    if t != [] {
      var w := WordPrefix(t);
      var rest := t[|w|..];
      assert w != [] by {
        assert !IsSpace(t[0]);
      }
      assert t == w + rest;
      TokenStartsOfWord(true, w, rest);
      assert rest != [] ==> IsSpace(rest[0]);
      assert TokenStarts(false, rest) == TokenStarts(true, rest);
      WordCountIsTokenCount(rest);
      assert Words(s) == [w] + Words(rest);
    }
  }

  /** `page_text and page_text.strip()`: the page has non-blank text. */
  predicate HasText(page: Option<string>) {
    page.Some? && !IsBlank(page.value)
  }

  /** What a page with text contributes: `f"Page {n}:\n{text}\n\n"`. */
  function PageBlock(number: nat, text: string): string {
    "Page " + NatToString(number) + ":\n" + text + "\n\n"
  }

  /** The text `extract_text` assembles from `pages`, the first of them
      numbered `first`: every page uses up a number, pages without text
      contribute nothing. */
  function Assemble(pages: seq<Option<string>>, first: nat): string {
    if pages == [] then ""
    else (if HasText(pages[0]) then PageBlock(first, pages[0].value) else "") + Assemble(pages[1..], first + 1)
  }

  lemma {:induction false} AssembleAppend(a: seq<Option<string>>, b: seq<Option<string>>, first: nat)
    ensures Assemble(a + b, first) == Assemble(a, first) + Assemble(b, first + |a|)
  {
    if a == [] {
      assert a + b == b;
    } else {
      var head := if HasText(a[0]) then PageBlock(first, a[0].value) else "";
      var rest := a[1..];
      assert (a + b)[0] == a[0] && (a + b)[1..] == rest + b;
      assert Assemble(a + b, first) == head + Assemble(rest + b, first + 1);
      assert Assemble(rest + b, first + 1) == Assemble(rest, first + 1) + Assemble(b, first + |a|) by {
        AssembleAppend(rest, b, first + 1);
      }
      assert head + (Assemble(rest, first + 1) + Assemble(b, first + |a|)) ==
               (head + Assemble(rest, first + 1)) + Assemble(b, first + |a|);
    }
  }

  /** Page k (0-based) with text appears as block number k + 1, whatever
      the pages before it hold. */
  lemma AssembleAt(pages: seq<Option<string>>, k: nat)
    requires k < |pages| && HasText(pages[k])
    ensures Assemble(pages, 1) ==
              Assemble(pages[..k], 1) + PageBlock(k + 1, pages[k].value) + Assemble(pages[k + 1..], k + 2)
  {
    var before, after := pages[..k], pages[k + 1..];
    var mid := [pages[k]] + after;
    assert pages == before + mid;
    AssembleAppend(before, mid, 1);
    assert mid[0] == pages[k] && mid[1..] == after;
    var block, rest := PageBlock(k + 1, pages[k].value), Assemble(after, k + 2);
    assert Assemble(mid, k + 1) == block + rest;
    assert Assemble(before, 1) + (block + rest) == Assemble(before, 1) + block + rest;
  }

  /** One step of the page loop of `extract_text`. */
  lemma AssembleStep(pages: seq<Option<string>>, i: nat)
    requires i < |pages|
    ensures Assemble(pages[..i + 1], 1) ==
              Assemble(pages[..i], 1) + if HasText(pages[i]) then PageBlock(i + 1, pages[i].value) else ""
  {
    assert pages[..i + 1] == pages[..i] + [pages[i]];
    AssembleAppend(pages[..i], [pages[i]], 1);
    assert Assemble([pages[i]], i + 1) ==
             (if HasText(pages[i]) then PageBlock(i + 1, pages[i].value) else "") + Assemble([], i + 2);
  }

  lemma {:induction false} BlankAppend(a: string, b: string)
    ensures IsBlank(a + b) <==> IsBlank(a) && IsBlank(b)
  {
    if IsBlank(a + b) {
      forall i | 0 <= i < |a| ensures IsSpace(a[i]) {
        assert a[i] == (a + b)[i];
      }
      forall i | 0 <= i < |b| ensures IsSpace(b[i]) {
        assert b[i] == (a + b)[|a| + i];
      }
    }
    if IsBlank(a) && IsBlank(b) {
      forall i | 0 <= i < |a + b| ensures IsSpace((a + b)[i]) {
        if i < |a| { assert (a + b)[i] == a[i]; } else { assert (a + b)[i] == b[i - |a|]; }
      }
    }
  }

  /** The assembled text is blank exactly when no page has text. */
  lemma {:induction false} AssembledBlankIff(pages: seq<Option<string>>, first: nat)
    ensures IsBlank(Assemble(pages, first)) <==> forall i :: 0 <= i < |pages| ==> !HasText(pages[i])
  {
    if pages != [] {
      AssembledBlankIff(pages[1..], first + 1);
      var head := if HasText(pages[0]) then PageBlock(first, pages[0].value) else "";
      BlankAppend(head, Assemble(pages[1..], first + 1));
      if HasText(pages[0]) {
        assert head[0] == 'P';
      }
      assert forall i :: 1 <= i < |pages| ==> pages[i] == pages[1..][i - 1];
    }
  }

  /** How `extract_text` ended, as shown in its status line. */
  datatype ExtractStatus =
    | Extracted(wordCount: nat)  // "Ready - n words extracted"
    | OpenFailed                 // the PDF could not be opened or read
    | NoTextFound                // "No text found in PDF"

  class AudiobookConverter {
    /** The text that playing or saving would speak. */
    var currentText: string

    constructor ()
      ensures currentText == ""
    {
      currentText := "";
    }

    /** `extract_text`: assembles the pages with text under their page
        numbers; when the result is blank it fails and keeps the previous
        text, otherwise the cleaned text becomes the current text and its
        word count is reported. */
    method ExtractText(isWord: char -> bool, pdf: Option<seq<Option<string>>>) returns (status: ExtractStatus)
      modifies this
      ensures pdf.None? ==> status == OpenFailed && currentText == old(currentText)
      ensures pdf.Some? && IsBlank(Assemble(pdf.value, 1)) ==>
                status == NoTextFound && currentText == old(currentText)
      ensures pdf.Some? && !IsBlank(Assemble(pdf.value, 1)) ==>
                currentText == CleanText(isWord, Assemble(pdf.value, 1))
                && status == Extracted(|Words(currentText)|)
    {
      if pdf.None? {
        return OpenFailed;
      }
      var pages := pdf.value;
      var text := "";
      for i := 0 to |pages|
        invariant text == Assemble(pages[..i], 1)
        invariant currentText == old(currentText)
      {
        var pageText := pages[i];
        AssembleStep(pages, i);
        if pageText.Some? && !IsBlank(pageText.value) {
          text := text + PageBlock(i + 1, pageText.value);
        }
      }
      WholeSeq(pages);
      if IsBlank(text) {
        return NoTextFound;
      }
      text := CleanText(isWord, text);
      currentText := text;
      status := Extracted(|Words(text)|);
    }
  }
}
