/** Paragraph splitting, quote-aware sentence splitting and token-budget
    chunk planning (preprocess.py). The token counter and its budget are
    parameters: `count` stands for count_tokens, `maxTokens` for MAX_TOKENS. */
module Preprocess {
  import opened TextUtil

  // ---------------------------------------------------------------------
  // divide_into_paragraphs
  // ---------------------------------------------------------------------

  /** The comprehension filter `if paragraph`: the non-empty pieces, in order. */
  function KeepNonEmpty(ps: seq<string>): (r: seq<string>)
    ensures |r| <= |ps|
    ensures forall k :: 0 <= k < |r| ==> r[k] != []
    ensures forall x :: x in r <==> x in ps && x != []
  {
    if ps == [] then []
    else (if ps[0] == [] then [] else [ps[0]]) + KeepNonEmpty(ps[1..])
  }

  lemma {:induction false} ConcatKeepNonEmpty(ps: seq<string>)
    ensures Concat(KeepNonEmpty(ps)) == Concat(ps)
  {
    if ps != [] {
      ConcatKeepNonEmpty(ps[1..]);
      var head := if ps[0] == [] then [] else [ps[0]];
      ConcatAppend(head, KeepNonEmpty(ps[1..]));
      assert Concat(head) == ps[0];
    }
  }

  /** The filter of one piece keeps it exactly when it is non-empty. */
  lemma KeepNonEmptySingle(x: string)
    ensures KeepNonEmpty([x]) == if x == [] then [] else [x]
  {
    assert [x][1..] == [];
  }

  /** The filter works piece by piece: it keeps the order and the
      multiplicity of the pieces it keeps. */
  lemma {:induction false} KeepNonEmptyAppend(a: seq<string>, b: seq<string>)
    ensures KeepNonEmpty(a + b) == KeepNonEmpty(a) + KeepNonEmpty(b)
  {
    if a == [] {
      assert a + b == b;
    } else {
      assert (a + b)[0] == a[0];
      assert (a + b)[1..] == a[1..] + b;
      KeepNonEmptyAppend(a[1..], b);
    }
  }

  /** divide_into_paragraphs: the non-empty pieces of text.split('\n'). */
  function DivideIntoParagraphs(text: string): (r: seq<string>)
    ensures forall k :: 0 <= k < |r| ==> r[k] != [] && '\n' !in r[k]
    ensures forall x :: x in r <==> x in Split(text, '\n') && x != []
    ensures text == [] ==> r == []
  {
    var r := KeepNonEmpty(Split(text, '\n'));
    assert forall k :: 0 <= k < |r| ==> r[k] in Split(text, '\n');
    r
  }

  /** The paragraphs, concatenated in order, are the text without its line breaks. */
  lemma ParagraphsCoverText(text: string)
    ensures Concat(DivideIntoParagraphs(text)) == Remove(text, '\n')
  {
    ConcatKeepNonEmpty(Split(text, '\n'));
    ConcatSplit(text, '\n');
  }

  /** A line break splits the paragraphs in two: those of the text before it,
      in order, followed by those of the text after it. With
      SingleLineParagraph and the empty text, this fixes the paragraphs of
      every text, in order and with repetitions. */
  lemma ParagraphsAtLineBreak(a: string, b: string)
    ensures DivideIntoParagraphs(a + ['\n'] + b)
      == DivideIntoParagraphs(a) + DivideIntoParagraphs(b)
  {
    SplitAtSeparator(a, b, '\n');
    KeepNonEmptyAppend(Split(a, '\n'), Split(b, '\n'));
  }

  /** A worked instance: the paragraphs of "ab\na\nb" are "ab", "a" and "b", in that order. */
  lemma ParagraphsInOrderExample()
    ensures DivideIntoParagraphs("ab\na\nb") == ["ab", "a", "b"]
  {
    assert "ab\na\nb" == "ab" + ['\n'] + ("a" + ['\n'] + "b");
    ParagraphsAtLineBreak("ab", "a" + ['\n'] + "b");
    ParagraphsAtLineBreak("a", "b");
    SingleLineParagraph("ab");
    SingleLineParagraph("a");
    SingleLineParagraph("b");
  }

  /** A non-empty text without a line break is a single paragraph. */
  lemma SingleLineParagraph(text: string)
    requires text != [] && '\n' !in text
    ensures DivideIntoParagraphs(text) == [text]
  {
    SplitWithoutSeparator(text, '\n');
    assert [text][1..] == [];
  }

  // ---------------------------------------------------------------------
  // divide_into_sentences
  // ---------------------------------------------------------------------

  /** The terminal marks of ending_pattern: 。 ！ ？ */
  predicate IsMark(c: char) {
    c == '\U{3002}' || c == '\U{FF01}' || c == '\U{FF1F}'
  }

  /** The characters of quote_pattern: the straight quote, “ and ”. */
  predicate IsQuote(c: char) {
    c == '"' || c == '\U{201C}' || c == '\U{201D}'
  }

  /** len(quote_pattern.findall(s)). */
  function QuoteCount(s: string): nat {
    if s == [] then 0
    else QuoteCount(s[..|s| - 1]) + (if IsQuote(s[|s| - 1]) then 1 else 0)
  }

  lemma {:induction false} QuoteCountAppend(a: string, b: string)
    ensures QuoteCount(a + b) == QuoteCount(a) + QuoteCount(b)
    decreases |b|
  {
    if b == [] {
      assert a + b == a;
    } else {
      assert (a + b)[..|a + b| - 1] == a + b[..|b| - 1];
      QuoteCountAppend(a, b[..|b| - 1]);
    }
  }

  lemma QuoteCountSplitAt(p: string, i: nat, j: nat)
    requires i <= j <= |p|
    ensures QuoteCount(p[..j]) == QuoteCount(p[..i]) + QuoteCount(p[i..j])
  {
    assert p[..j] == p[..i] + p[i..j];
    QuoteCountAppend(p[..i], p[i..j]);
  }

  /** Position e (just past a mark) is an accepted sentence boundary exactly
      when the paragraph up to e holds an even number of quotes. This is an
      independent description of the scan's cursor rule; BoundaryRule and
      DivideIntoSentences tie the two together. */
  predicate IsCut(p: string, e: int) {
    0 < e <= |p| && IsMark(p[e - 1]) && QuoteCount(p[..e]) % 2 == 0
  }

  predicate Increasing(cs: seq<nat>) {
    forall i, j :: 0 <= i < j < |cs| ==> cs[i] < cs[j]
  }

  /** The accepted boundaries at or before n, in increasing order. */
  function CutsUpTo(p: string, n: nat): (cs: seq<nat>)
    requires n <= |p|
    ensures Increasing(cs) && forall k :: 0 <= k < |cs| ==> 0 < cs[k] <= n
  {
    if n == 0 then [] else CutsUpTo(p, n - 1) + (if IsCut(p, n) then [n] else [])
  }

  /** CutsUpTo holds exactly the boundaries at or before n. */
  lemma {:induction false} CutsUpToExact(p: string, n: nat)
    requires n <= |p|
    ensures forall k :: 0 <= k < |CutsUpTo(p, n)| ==> IsCut(p, CutsUpTo(p, n)[k])
    ensures forall e :: 0 < e <= n && IsCut(p, e) ==> e in CutsUpTo(p, n)
  {
    if n > 0 {
      CutsUpToExact(p, n - 1);
    }
  }

  function Cuts(p: string): seq<nat> {
    CutsUpTo(p, |p|)
  }

  /** The cursor last_end after the boundaries cs: 0 before the first one. */
  function LastCut(cs: seq<nat>): nat {
    if cs == [] then 0 else cs[|cs| - 1]
  }

  function PieceStart(cs: seq<nat>, k: nat): nat
    requires k < |cs|
  {
    if k == 0 then 0 else cs[k - 1]
  }

  predicate ValidCuts(p: string, cs: seq<nat>) {
    Increasing(cs) && forall k :: 0 <= k < |cs| ==> cs[k] <= |p|
  }

  /** The untrimmed spans paragraph[last_end:end_pos] closed by the boundaries cs. */
  function Pieces(p: string, cs: seq<nat>): seq<string>
    requires ValidCuts(p, cs)
  {
    seq(|cs|, k requires 0 <= k < |cs| => p[PieceStart(cs, k)..cs[k]])
  }

  /** The trailing text after the last boundary, if there is any. */
  function Remainder(p: string, cs: seq<nat>): seq<string>
    requires LastCut(cs) <= |p|
  {
    if LastCut(cs) < |p| then [p[LastCut(cs)..]] else []
  }

  /** All untrimmed spans of a paragraph, in order. */
  function Spans(p: string): seq<string> {
    Pieces(p, Cuts(p)) + Remainder(p, Cuts(p))
  }

  function StripAll(ss: seq<string>): seq<string> {
    seq(|ss|, k requires 0 <= k < |ss| => Strip(ss[k]))
  }

  /** The sentences of a paragraph: the stripped spans. Only the empty
      paragraph has none, and a paragraph without an accepted boundary is
      one sentence. */
  function SentencesOf(p: string): (r: seq<string>)
    ensures r == [] <==> p == []
    ensures Cuts(p) == [] && p != [] ==> r == [Strip(p)]
  {
    StripAll(Spans(p))
  }

  lemma PiecesSnoc(p: string, cs: seq<nat>, e: nat)
    requires ValidCuts(p, cs) && LastCut(cs) < e <= |p|
    ensures ValidCuts(p, cs + [e])
    ensures Pieces(p, cs + [e]) == Pieces(p, cs) + [p[LastCut(cs)..e]]
  {
    var cs' := cs + [e];
    assert ValidCuts(p, cs') by {
      forall i, j | 0 <= i < j < |cs'| ensures cs'[i] < cs'[j] {
        if j == |cs| {
          assert cs[i] <= LastCut(cs);
        }
      }
    }
  }

  lemma CutMember(p: string, e: nat)
    ensures e in Cuts(p) <==> IsCut(p, e)
  {
    CutsUpToExact(p, |p|);
  }

  lemma LastCutEven(p: string, n: nat)
    requires n <= |p|
    ensures LastCut(CutsUpTo(p, n)) <= n
    ensures QuoteCount(p[..LastCut(CutsUpTo(p, n))]) % 2 == 0
  {
    CutsUpToExact(p, n);
  }

  /** From a cursor with an even number of quotes before it, the quotes since
      the cursor decide whether the mark at e - 1 is a boundary. */
  lemma ParityFrom(p: string, prev: nat, e: nat)
    requires prev < e <= |p| && IsMark(p[e - 1]) && QuoteCount(p[..prev]) % 2 == 0
    ensures IsCut(p, e) <==> QuoteCount(p[prev..e]) % 2 == 0
  {
    QuoteCountSplitAt(p, prev, e);
  }

  lemma EvenBetween(p: string, i: nat, j: nat)
    requires i <= j <= |p| && QuoteCount(p[..i]) % 2 == 0 && QuoteCount(p[..j]) % 2 == 0
    ensures QuoteCount(p[i..j]) % 2 == 0
  {
    QuoteCountSplitAt(p, i, j);
  }

  lemma StripAllSnoc(ss: seq<string>, s: string)
    ensures StripAll(ss + [s]) == StripAll(ss) + [Strip(s)]
  {
  }

  /** The position just past a mark that the loop accepts: the boundaries up
      to n are those up to n - 1 extended by n, and the sentences gain the
      stripped span ending there. */
  lemma ScanCut(p: string, n: nat)
    requires 0 < n <= |p| && IsMark(p[n - 1])
    requires QuoteCount(p[LastCut(CutsUpTo(p, n - 1))..n]) % 2 == 0
    ensures LastCut(CutsUpTo(p, n)) == n
    ensures StripAll(Pieces(p, CutsUpTo(p, n)))
      == StripAll(Pieces(p, CutsUpTo(p, n - 1))) + [Strip(p[LastCut(CutsUpTo(p, n - 1))..n])]
  {
    var cs := CutsUpTo(p, n - 1);
    LastCutEven(p, n - 1);
    ParityFrom(p, LastCut(cs), n);
    var cs' := cs + [n];
    assert CutsUpTo(p, n) == cs';
    PiecesSnoc(p, cs, n);
    var piece := p[LastCut(cs)..n];
    var pieces := Pieces(p, cs);
    assert Pieces(p, cs') == pieces + [piece];
    StripAllSnoc(pieces, piece);
  }

  /** A position the loop passes over: the boundaries up to n are those up
      to n - 1. */
  lemma ScanSkip(p: string, n: nat)
    requires 0 < n <= |p|
    requires !IsMark(p[n - 1]) || QuoteCount(p[LastCut(CutsUpTo(p, n - 1))..n]) % 2 != 0
    ensures LastCut(CutsUpTo(p, n)) == LastCut(CutsUpTo(p, n - 1))
    ensures StripAll(Pieces(p, CutsUpTo(p, n))) == StripAll(Pieces(p, CutsUpTo(p, n - 1)))
  {
    var cs := CutsUpTo(p, n - 1);
    LastCutEven(p, n - 1);
    if IsMark(p[n - 1]) {
      ParityFrom(p, LastCut(cs), n);
    }
    assert CutsUpTo(p, n) == cs;
  }

  /** The loop's state (sentences, last_end) after the first n positions. */
  ghost function ScanState(p: string, n: nat): (r: (seq<string>, nat))
    requires n <= |p|
    ensures r.1 <= n
  {
    if n == 0 then ([], 0)
    else
      var prev := ScanState(p, n - 1);
      if IsMark(p[n - 1]) && QuoteCount(p[prev.1..n]) % 2 == 0 then
        (prev.0 + [Strip(p[prev.1..n])], n)
      else prev
  }

  /** After n positions the scan has emitted the stripped spans closed by the
      boundaries up to n, and its cursor sits on the last of them. */
  lemma {:induction false} ScanStateMeaning(p: string, n: nat)
    requires n <= |p|
    ensures ScanState(p, n).0 == StripAll(Pieces(p, CutsUpTo(p, n)))
    ensures ScanState(p, n).1 == LastCut(CutsUpTo(p, n))
  {
    if n == 0 {
      ScanStart(p);
    } else {
      ScanStateMeaning(p, n - 1);
      var prev := ScanState(p, n - 1);
      var done := StripAll(Pieces(p, CutsUpTo(p, n - 1)));
      var target := StripAll(Pieces(p, CutsUpTo(p, n)));
      if IsMark(p[n - 1]) && QuoteCount(p[prev.1..n]) % 2 == 0 {
        ScanCut(p, n);
        ScanStateEmits(p, n);
        SnocAgrees(ScanState(p, n).0, prev.0, Strip(p[prev.1..n]), done,
                   Strip(p[LastCut(CutsUpTo(p, n - 1))..n]), target);
      } else {
        ScanSkip(p, n);
        ScanStateKeeps(p, n);
        SameAgrees(ScanState(p, n).0, prev.0, done, target);
      }
    }
  }

  lemma SnocAgrees<T>(s: seq<T>, prev: seq<T>, x: T, done: seq<T>, y: T, t: seq<T>)
    requires s == prev + [x] && prev == done && x == y && t == done + [y]
    ensures s == t
  {
  }

  lemma SameAgrees<T>(s: seq<T>, prev: seq<T>, done: seq<T>, t: seq<T>)
    requires s == prev && prev == done && t == done
    ensures s == t
  {
  }

  lemma ScanStart(p: string)
    ensures StripAll(Pieces(p, CutsUpTo(p, 0))) == [] && LastCut(CutsUpTo(p, 0)) == 0
  {
    assert CutsUpTo(p, 0) == [];
  }

  lemma ScanStateKeeps(p: string, n: nat)
    requires 0 < n <= |p|
    requires var prev := ScanState(p, n - 1);
      !IsMark(p[n - 1]) || QuoteCount(p[prev.1..n]) % 2 != 0
    ensures ScanState(p, n) == ScanState(p, n - 1)
  {
  }

  lemma ScanStateEmits(p: string, n: nat)
    requires 0 < n <= |p|
    requires var prev := ScanState(p, n - 1);
      IsMark(p[n - 1]) && QuoteCount(p[prev.1..n]) % 2 == 0
    ensures var prev := ScanState(p, n - 1);
      ScanState(p, n) == (prev.0 + [Strip(p[prev.1..n])], n)
  {
  }

  lemma ScanDone(p: string)
    ensures LastCut(Cuts(p)) <= |p|
    ensures SentencesOf(p) == StripAll(Pieces(p, Cuts(p)))
      + (if LastCut(Cuts(p)) < |p| then [Strip(p[LastCut(Cuts(p))..])] else [])
  {
    var cs := Cuts(p);
    assert LastCut(cs) <= |p|;
    var pieces := Pieces(p, cs);
    if LastCut(cs) < |p| {
      StripAllSnoc(pieces, p[LastCut(cs)..]);
    } else {
      assert pieces + [] == pieces;
    }
  }

  /** The sentences are those the loop has emitted, followed by the stripped
      remainder after the last boundary, if there is one. */
  lemma ScanFinal(p: string, sentences: seq<string>, lastEnd: nat)
    requires (sentences, lastEnd) == ScanState(p, |p|)
    ensures lastEnd <= |p|
    ensures lastEnd < |p| ==> SentencesOf(p) == sentences + [Strip(p[lastEnd..])]
    ensures lastEnd == |p| ==> SentencesOf(p) == sentences
  {
    ScanStateMeaning(p, |p|);
    ScanDone(p);
    if lastEnd == |p| {
      assert sentences + [] == sentences;
    }
  }

  /** divide_into_sentences: a forward scan over the marks with the cursor last_end. */
  method DivideIntoSentences(paragraph: string) returns (sentences: seq<string>)
    ensures sentences == SentencesOf(paragraph)
  {
    sentences := [];
    var lastEnd := 0;
    var i := 0;
    while i < |paragraph|
      invariant 0 <= i <= |paragraph|
      invariant (sentences, lastEnd) == ScanState(paragraph, i)
    {
      if IsMark(paragraph[i]) {
        var endPos := i + 1;
        var quotesBefore := QuoteCount(paragraph[lastEnd..endPos]);
        if quotesBefore % 2 == 0 {
          ScanStateEmits(paragraph, i + 1);
          sentences := sentences + [Strip(paragraph[lastEnd..endPos])];
          lastEnd := endPos;
        } else {
          ScanStateKeeps(paragraph, i + 1);
        }
      } else {
        ScanStateKeeps(paragraph, i + 1);
      }
      i := i + 1;
    }
    ScanFinal(paragraph, sentences, lastEnd);
    if lastEnd < |paragraph| {
      sentences := sentences + [Strip(paragraph[lastEnd..])];
    }
  }

  /** The scan's own acceptance test, stated over the boundaries: a mark ends
      a sentence exactly when the text since the previous accepted boundary
      holds an even number of quotes; otherwise nothing is emitted there. */
  lemma BoundaryRule(p: string, e: nat)
    requires 0 < e <= |p| && IsMark(p[e - 1])
    ensures LastCut(CutsUpTo(p, e - 1)) < e
    ensures e in Cuts(p) <==> QuoteCount(p[LastCut(CutsUpTo(p, e - 1))..e]) % 2 == 0
  {
    LastCutEven(p, e - 1);
    CutMember(p, e);
    ParityFrom(p, LastCut(CutsUpTo(p, e - 1)), e);
  }

  lemma {:induction false} ConcatPieces(p: string, cs: seq<nat>)
    requires ValidCuts(p, cs)
    ensures LastCut(cs) <= |p|
    ensures Concat(Pieces(p, cs)) == p[..LastCut(cs)]
    decreases |cs|
  {
    if cs != [] {
      var init := cs[..|cs| - 1];
      PiecesInit(p, cs);
      ConcatPieces(p, init);
      var a, b := LastCut(init), LastCut(cs);
      ConcatSnocOf(Pieces(p, cs), Pieces(p, init), p[a..b]);
      PrefixJoin(p, a, b);
    }
  }

  lemma PiecesInit(p: string, cs: seq<nat>)
    requires ValidCuts(p, cs) && cs != []
    ensures var init := cs[..|cs| - 1];
      && ValidCuts(p, init) && LastCut(init) <= LastCut(cs) <= |p|
      && Pieces(p, cs) == Pieces(p, init) + [p[LastCut(init)..LastCut(cs)]]
  {
    var init := cs[..|cs| - 1];
    assert ValidCuts(p, init);
    if |cs| > 1 {
      assert cs[|cs| - 2] < cs[|cs| - 1];
    }
    var ps := Pieces(p, cs);
    assert forall k :: 0 <= k < |init| ==> PieceStart(init, k) == PieceStart(cs, k);
    assert ps[..|init|] == Pieces(p, init);
    assert ps == ps[..|init|] + [ps[|init|]];
  }

  /** The untrimmed spans are contiguous and, in order, make up the whole paragraph. */
  lemma SpansCoverParagraph(p: string)
    ensures Concat(Spans(p)) == p
  {
    var cs := Cuts(p);
    ConcatPieces(p, cs);
    ConcatAppend(Pieces(p, cs), Remainder(p, cs));
    if LastCut(cs) < |p| {
      assert Concat(Remainder(p, cs)) == p[LastCut(cs)..];
    }
  }

  lemma MarkIsNotSpace(c: char)
    requires IsMark(c)
    ensures !IsSpace(c)
  {
  }

  /** The k-th span closed by a boundary: non-empty, ends with a mark, and
      holds an even number of quotes. */
  lemma CutIsCut(p: string, k: nat)
    requires k < |Cuts(p)|
    ensures IsCut(p, Cuts(p)[k])
  {
    CutsUpToExact(p, |p|);
  }

  lemma SpanAt(p: string, k: nat)
    requires k < |Cuts(p)|
    ensures Spans(p)[k] == p[PieceStart(Cuts(p), k)..Cuts(p)[k]]
  {
    var cs := Cuts(p);
    assert Spans(p)[k] == Pieces(p, cs)[k];
  }

  lemma ClosedSpan(p: string, k: nat)
    requires k < |Cuts(p)|
    ensures var span := Spans(p)[k]; span != [] && IsMark(span[|span| - 1])
    ensures QuoteCount(Spans(p)[k]) % 2 == 0
  {
    var cs := Cuts(p);
    var start := PieceStart(cs, k);
    CutIsCut(p, k);
    if k > 0 {
      CutIsCut(p, k - 1);
    } else {
      assert p[..start] == [];
    }
    var span := p[start..cs[k]];
    SpanAt(p, k);
    assert span[|span| - 1] == p[cs[k] - 1];
    EvenBetween(p, start, cs[k]);
  }

  /** One sentence per accepted boundary plus at most one for the remainder;
      every sentence closed by a boundary ends with a terminal mark, and its
      untrimmed span holds an even number of quotes. */
  lemma SentencesEndWithMarks(p: string)
    ensures |SentencesOf(p)| == |Cuts(p)| + (if LastCut(Cuts(p)) < |p| then 1 else 0)
    ensures forall k :: 0 <= k < |Cuts(p)| ==>
      var s := SentencesOf(p)[k]; s != [] && IsMark(s[|s| - 1])
    ensures forall k :: 0 <= k < |Cuts(p)| ==> QuoteCount(Spans(p)[k]) % 2 == 0
  {
    forall k | 0 <= k < |Cuts(p)|
      ensures var s := SentencesOf(p)[k]; s != [] && IsMark(s[|s| - 1])
      ensures QuoteCount(Spans(p)[k]) % 2 == 0
    {
      ClosedSpan(p, k);
      ClosedSentence(p, k);
    }
  }

  lemma ClosedSentence(p: string, k: nat)
    requires k < |Cuts(p)|
    ensures var s := SentencesOf(p)[k]; s != [] && IsMark(s[|s| - 1])
  {
    ClosedSpan(p, k);
    var span := Spans(p)[k];
    assert SentencesOf(p)[k] == Strip(span);
    MarkIsNotSpace(span[|span| - 1]);
    StripKeepsLast(span);
  }

  lemma {:induction false} QuoteCountNone(s: string)
    requires forall i :: 0 <= i < |s| ==> !IsQuote(s[i])
    ensures QuoteCount(s) == 0
    decreases |s|
  {
    if s != [] {
      QuoteCountNone(s[..|s| - 1]);
    }
  }

  lemma QuoteCountOne(c: char)
    ensures QuoteCount([c]) == if IsQuote(c) then 1 else 0
  {
    assert [c][..0] == [];
  }

  lemma {:induction false} NoMarksNoCutsUpTo(p: string, n: nat)
    requires n <= |p|
    requires forall i :: 0 <= i < |p| ==> !IsMark(p[i])
    ensures CutsUpTo(p, n) == []
  {
    if n > 0 {
      NoMarksNoCutsUpTo(p, n - 1);
      assert !IsMark(p[n - 1]);
      assert !IsCut(p, n);
      assert CutsUpTo(p, n) == CutsUpTo(p, n - 1) + [];
    }
  }

  /** A paragraph without terminal marks has no boundaries. */
  lemma NoMarksNoCuts(p: string)
    requires forall i :: 0 <= i < |p| ==> !IsMark(p[i])
    ensures Cuts(p) == []
  {
    NoMarksNoCutsUpTo(p, |p|);
  }

  lemma {:induction false} OnlyCutUpTo(p: string, e: nat, n: nat)
    requires n <= |p| && IsCut(p, e)
    requires forall d :: 0 < d <= |p| && d != e ==> !IsCut(p, d)
    ensures CutsUpTo(p, n) == if e <= n then [e] else []
  {
    if n > 0 {
      OnlyCutUpTo(p, e, n - 1);
      if n != e {
        assert !IsCut(p, n);
      }
    }
  }

  /** A paragraph with exactly one accepted boundary position. */
  lemma OnlyCut(p: string, e: nat)
    requires IsCut(p, e)
    requires forall d :: 0 < d <= |p| && d != e ==> !IsCut(p, d)
    ensures Cuts(p) == [e]
  {
    OnlyCutUpTo(p, e, |p|);
  }

  /** A paragraph whose only boundary is its end is one sentence. */
  lemma SingleCutSentences(p: string)
    requires p != [] && Cuts(p) == [|p|]
    ensures SentencesOf(p) == [Strip(p)]
  {
    SingleSpan(p);
    StripAllSingle(Spans(p), p);
  }

  lemma SingleSpan(p: string)
    requires p != [] && Cuts(p) == [|p|]
    ensures Spans(p) == [p]
  {
    var cs := Cuts(p);
    assert Pieces(p, cs)[0] == p[0..|p|];
    assert p[0..|p|] == p;
    assert Remainder(p, cs) == [];
  }

  lemma StripAllSingle(ss: seq<string>, s: string)
    requires ss == [s]
    ensures StripAll(ss) == [Strip(s)]
  {
  }

  lemma QuoteCountPrefix(a: string, q: char, b: string, i: nat)
    requires forall j :: 0 <= j < |a| ==> !IsQuote(a[j])
    requires forall j :: 0 <= j < |b| ==> !IsQuote(b[j])
    requires IsQuote(q) && i <= |b|
    ensures QuoteCount(a + [q] + b[..i]) == 1
  {
    QuoteCountNone(a);
    QuoteCountNone(b[..i]);
    QuoteCountOne(q);
    QuoteCountAppend(a, [q]);
    QuoteCountAppend(a + [q], b[..i]);
  }

  /** The shape a “b” c: q1 and q2 are the only quotes, a holds no mark, and
      c ends with its only mark. */
  predicate QuotedShape(a: string, q1: char, b: string, q2: char, c: string) {
    && IsQuote(q1) && IsQuote(q2)
    && (forall j :: 0 <= j < |a| ==> !IsQuote(a[j]) && !IsMark(a[j]))
    && (forall j :: 0 <= j < |b| ==> !IsQuote(b[j]))
    && c != [] && IsMark(c[|c| - 1])
    && (forall j :: 0 <= j < |c| ==> !IsQuote(c[j]))
    && (forall j :: 0 <= j < |c| - 1 ==> !IsMark(c[j]))
  }

  lemma QuotedInnerNotCut(a: string, q1: char, b: string, q2: char, c: string, d: nat)
    requires QuotedShape(a, q1, b, q2, c)
    requires 0 < d < |a + [q1] + b + [q2] + c|
    ensures !IsCut(a + [q1] + b + [q2] + c, d)
  {
    var p := a + [q1] + b + [q2] + c;
    var n := |a| + 1 + |b|;
    if |a| + 1 < d <= n {
      assert p[..d] == a + [q1] + b[..d - |a| - 1];
      QuoteCountPrefix(a, q1, b, d - |a| - 1);
    } else if d > n + 1 {
      assert p[d - 1] == c[d - 1 - n - 1];
    } else if d <= |a| {
      assert p[d - 1] == a[d - 1];
    }
  }

  lemma QuotedEndIsCut(a: string, q1: char, b: string, q2: char, c: string)
    requires QuotedShape(a, q1, b, q2, c)
    ensures IsCut(a + [q1] + b + [q2] + c, |a + [q1] + b + [q2] + c|)
  {
    var p := a + [q1] + b + [q2] + c;
    assert p[..|p|] == (a + [q1] + b) + ([q2] + c);
    assert b[..|b|] == b;
    QuoteCountPrefix(a, q1, b, |b|);
    QuoteCountPrefix([], q2, c, |c|);
    assert [q2] + c == [] + [q2] + c[..|c|];
    QuoteCountAppend(a + [q1] + b, [q2] + c);
    assert p[|p| - 1] == c[|c| - 1];
  }

  /** A terminal mark between an opening and a closing quote is not a
      boundary: a paragraph a “b” c, where only b and the end of c hold
      marks, is a single sentence. */
  lemma QuotedMarksKeptInside(a: string, q1: char, b: string, q2: char, c: string)
    requires QuotedShape(a, q1, b, q2, c)
    ensures var p := a + [q1] + b + [q2] + c; SentencesOf(p) == [Strip(p)]
  {
    var p := a + [q1] + b + [q2] + c;
    forall d | 0 < d <= |p| && d != |p| ensures !IsCut(p, d) {
      QuotedInnerNotCut(a, q1, b, q2, c, d);
    }
    QuotedEndIsCut(a, q1, b, q2, c);
    OnlyCut(p, |p|);
    SingleCutSentences(p);
  }

  // ---------------------------------------------------------------------
  // divide_text_into_chunks
  // ---------------------------------------------------------------------

  /** The plan, or the ValueError that range(0, n, 0) raises. */
  datatype ChunkResult = Chunks(chunks: seq<string>) | RangeStepZero

  /** math.ceil(a / b) on non-negative integers. */
  function CeilDiv(a: nat, b: nat): (q: nat)
    requires b > 0
    ensures q * b >= a
    ensures q > 0 ==> (q - 1) * b < a
  {
    (a + b - 1) / b
  }

  function Min(a: int, b: int): int {
    if a < b then a else b
  }

  /** The chunks of an oversized paragraph: consecutive runs of `size`
      sentences, each joined with "", the last run possibly shorter. */
  function Groups(s: seq<string>, size: nat): seq<string>
    requires size > 0
    decreases |s|
  {
    if s == [] then []
    else if |s| <= size then [Concat(s)]
    else [Concat(s[..size])] + Groups(s[size..], size)
  }

  /** There are ceil(len / size) groups. */
  lemma {:induction false} GroupsCount(s: seq<string>, size: nat)
    requires size > 0
    ensures var g := |Groups(s, size)|; g * size >= |s| && (g > 0 ==> (g - 1) * size < |s|)
    decreases |s|
  {
    if |s| > size {
      GroupsCount(s[size..], size);
      var g' := |Groups(s[size..], size)|;
      assert |Groups(s, size)| == g' + 1;
      assert (g' + 1) * size == g' * size + size;
    }
  }

  lemma MulPred(i: nat, size: nat)
    requires i > 0
    ensures i * size == (i - 1) * size + size
  {
  }

  lemma SliceShift<T>(s: seq<T>, d: nat, a: nat, b: nat)
    requires d <= |s| && a <= b <= |s| - d
    ensures s[d..][a..b] == s[a + d..b + d]
  {
  }

  /** Group i is "".join(sentences[start:end]) with start = i * size and
      end = min(len, start + size): the groups of range(0, len, size). */
  lemma {:induction false} GroupAt(s: seq<string>, size: nat, i: nat)
    requires size > 0 && i < |Groups(s, size)|
    ensures i * size < |s|
    ensures Groups(s, size)[i] == Concat(s[i * size..Min(|s|, i * size + size)])
    decreases |s|
  {
    if i == 0 {
      if |s| <= size {
        assert s[0..|s|] == s;
      }
    } else {
      assert |s| > size;
      var t := s[size..];
      assert Groups(s, size)[i] == Groups(t, size)[i - 1];
      GroupAt(t, size, i - 1);
      var a := (i - 1) * size;
      MulPred(i, size);
      SliceShift(s, size, a, Min(|t|, a + size));
    }
  }

  /** One iteration of the paragraph loop. */
  function PackParagraph(count: string -> nat, maxTokens: nat, countOfChunking: nat,
                         chunks: seq<string>, paragraph: string): ChunkResult
    requires countOfChunking > 0
  {
    var paragraphTokens := count(paragraph);
    if paragraphTokens < maxTokens then
      if |chunks| > 0 && count(chunks[|chunks| - 1]) + paragraphTokens < maxTokens then
        Chunks(chunks[..|chunks| - 1] + [chunks[|chunks| - 1] + paragraph])
      else
        Chunks(chunks + [paragraph])
    else
      var sentences := SentencesOf(paragraph);
      var sentencesPerChunk := CeilDiv(|sentences|, countOfChunking);
      if sentencesPerChunk == 0 then RangeStepZero
      else Chunks(chunks + Groups(sentences, sentencesPerChunk))
  }

  /** The paragraph loop from the chunk list `chunks` onwards. */
  function PackAll(count: string -> nat, maxTokens: nat, countOfChunking: nat,
                   chunks: seq<string>, paragraphs: seq<string>): ChunkResult
    requires countOfChunking > 0
    decreases |paragraphs|
  {
    if paragraphs == [] then Chunks(chunks)
    else
      match PackParagraph(count, maxTokens, countOfChunking, chunks, paragraphs[0])
      case RangeStepZero => RangeStepZero
      case Chunks(next) => PackAll(count, maxTokens, countOfChunking, next, paragraphs[1..])
  }

  /** `if not paragraphs`: an absent or empty list is recomputed from the text. */
  function EffectiveParagraphs(text: string, paragraphs: seq<string>): seq<string> {
    if paragraphs == [] then DivideIntoParagraphs(text) else paragraphs
  }

  /** The chunk plan of divide_text_into_chunks. */
  function PlanChunks(count: string -> nat, maxTokens: nat, text: string,
                      paragraphs: seq<string>): ChunkResult
    requires maxTokens > 0
  {
    var tokens := count(text);
    if tokens < maxTokens then Chunks([text])
    else PackAll(count, maxTokens, CeilDiv(tokens, maxTokens), [],
                 EffectiveParagraphs(text, paragraphs))
  }

  /** The groups still to be emitted once the loop variable has reached start. */
  function GroupsFrom(s: seq<string>, start: nat, size: nat): seq<string>
    requires size > 0
  {
    if start < |s| then Groups(s[start..], size) else []
  }

  lemma GroupsUnfold(s: seq<string>, start: nat, size: nat)
    requires size > 0 && start < |s|
    ensures GroupsFrom(s, start, size)
      == [Concat(s[start..Min(|s|, start + size)])] + GroupsFrom(s, start + size, size)
  {
    var rest := s[start..];
    if |rest| > size {
      assert rest[..size] == s[start..start + size];
      assert rest[size..] == s[start + size..];
    } else {
      assert rest == s[start..|s|];
    }
  }

  lemma PackAllUnfold(count: string -> nat, maxTokens: nat, countOfChunking: nat,
                      chunks: seq<string>, paragraphs: seq<string>, i: nat)
    requires countOfChunking > 0 && i < |paragraphs|
    ensures PackAll(count, maxTokens, countOfChunking, chunks, paragraphs[i..])
      == match PackParagraph(count, maxTokens, countOfChunking, chunks, paragraphs[i])
         case RangeStepZero => RangeStepZero
         case Chunks(next) => PackAll(count, maxTokens, countOfChunking, next, paragraphs[i + 1..])
  {
    assert paragraphs[i..][0] == paragraphs[i] && paragraphs[i..][1..] == paragraphs[i + 1..];
  }

  lemma GroupsFromStart(s: seq<string>, size: nat)
    requires size > 0
    ensures GroupsFrom(s, 0, size) == Groups(s, size)
  {
    assert s[0..] == s;
  }

  lemma DropEmpty<T>(whole: seq<T>, done: seq<T>, todo: seq<T>)
    requires whole == done + todo && todo == []
    ensures done == whole
  {
  }

  lemma ShiftFront<T>(done: seq<T>, x: T, todo: seq<T>, rest: seq<T>)
    requires todo == [x] + rest
    ensures done + todo == (done + [x]) + rest
  {
  }

  /** For a paragraph at or over the budget, one iteration of the paragraph
      loop appends the groups of its sentences, or fails when the group size
      is 0. */
  lemma PackOversized(count: string -> nat, maxTokens: nat, countOfChunking: nat,
                      chunks: seq<string>, paragraph: string, sentences: seq<string>)
    requires countOfChunking > 0 && count(paragraph) >= maxTokens
    requires sentences == SentencesOf(paragraph)
    ensures var size := CeilDiv(|sentences|, countOfChunking);
      PackParagraph(count, maxTokens, countOfChunking, chunks, paragraph)
      == if size == 0 then RangeStepZero else Chunks(chunks + Groups(sentences, size))
  {
  }

  /** The inner loop of divide_text_into_chunks for an oversized paragraph:
      for start in range(0, len(sentences), size), append
      "".join(sentences[start:start + size]). */
  method AppendGroups(chunks: seq<string>, sentences: seq<string>, size: nat)
    returns (out: seq<string>)
    requires size > 0
    ensures out == chunks + Groups(sentences, size)
  {
    out := chunks;
    var start := 0;
    GroupsFromStart(sentences, size);
    while start < |sentences|
      invariant chunks + Groups(sentences, size) == out + GroupsFrom(sentences, start, size)
    {
      var end := Min(|sentences|, start + size);
      GroupsUnfold(sentences, start, size);
      var piece := Concat(sentences[start..end]);
      ShiftFront(out, piece, GroupsFrom(sentences, start, size), GroupsFrom(sentences, start + size, size));
      out := out + [piece];
      start := start + size;
    }
    DropEmpty(chunks + Groups(sentences, size), out, GroupsFrom(sentences, start, size));
  }

  /** divide_text_into_chunks: greedy first-fit packing against the last chunk,
      with oversized paragraphs split into sentence groups. */
  method DivideTextIntoChunks(count: string -> nat, maxTokens: nat, text: string,
                              paragraphs: seq<string>) returns (r: ChunkResult)
    requires maxTokens > 0
    ensures count(text) < maxTokens ==> r == Chunks([text])
    ensures r == PlanChunks(count, maxTokens, text, paragraphs)
  {
    var tokens := count(text);
    if tokens < maxTokens {
      return Chunks([text]);
    }
    var countOfChunking := CeilDiv(tokens, maxTokens);
    var paras := paragraphs;
    if paras == [] {
      paras := DivideIntoParagraphs(text);
    }
    r := PackParagraphs(count, maxTokens, countOfChunking, paras);
  }

  /** The paragraph loop of divide_text_into_chunks, from an empty chunk list. */
  method PackParagraphs(count: string -> nat, maxTokens: nat, countOfChunking: nat,
                        paras: seq<string>) returns (r: ChunkResult)
    requires countOfChunking > 0
    ensures r == PackAll(count, maxTokens, countOfChunking, [], paras)
  {
    var chunks: seq<string> := [];
    ghost var goal := PackAll(count, maxTokens, countOfChunking, [], paras);
    var i := 0;
    while i < |paras|
      invariant 0 <= i <= |paras|
      invariant PackAll(count, maxTokens, countOfChunking, chunks, paras[i..]) == goal
    {
      PackAllUnfold(count, maxTokens, countOfChunking, chunks, paras, i);
      var step := PackStep(count, maxTokens, countOfChunking, chunks, paras[i]);
      if step.RangeStepZero? {
        return RangeStepZero;
      }
      chunks := step.chunks;
      i := i + 1;
    }
    assert paras[i..] == [];
    return Chunks(chunks);
  }

  /** The body of the paragraph loop of divide_text_into_chunks for one
      paragraph: merge into the last chunk, start a new chunk, or split an
      oversized paragraph into sentence groups. */
  method PackStep(count: string -> nat, maxTokens: nat, countOfChunking: nat,
                  chunks: seq<string>, paragraph: string) returns (r: ChunkResult)
    requires countOfChunking > 0
    ensures r == PackParagraph(count, maxTokens, countOfChunking, chunks, paragraph)
  {
    var paragraphTokens := count(paragraph);
    if paragraphTokens < maxTokens {
      if |chunks| > 0 && count(chunks[|chunks| - 1]) + paragraphTokens < maxTokens {
        return Chunks(chunks[..|chunks| - 1] + [chunks[|chunks| - 1] + paragraph]);
      }
      return Chunks(chunks + [paragraph]);
    }
    var sentences := DivideIntoSentences(paragraph);
    PackOversized(count, maxTokens, countOfChunking, chunks, paragraph, sentences);
    var sentencesPerChunk := CeilDiv(|sentences|, countOfChunking);
    if sentencesPerChunk == 0 {
      return RangeStepZero;
    }
    var grouped := AppendGroups(chunks, sentences, sentencesPerChunk);
    return Chunks(grouped);
  }

  // ---------------------------------------------------------------------
  // Properties of the chunk plan
  // ---------------------------------------------------------------------

  lemma CeilDivZero(a: nat, b: nat)
    requires b > 0
    ensures CeilDiv(a, b) == 0 <==> a == 0
  {
    var q := CeilDiv(a, b);
    if q > 0 {
      assert (q - 1) * b >= 0;
    }
  }

  /** A paragraph step fails exactly on an empty paragraph that is over budget. */
  lemma PackParagraphFails(count: string -> nat, maxTokens: nat, countOfChunking: nat,
                           chunks: seq<string>, paragraph: string)
    requires countOfChunking > 0
    ensures PackParagraph(count, maxTokens, countOfChunking, chunks, paragraph).RangeStepZero?
      <==> paragraph == [] && count(paragraph) >= maxTokens
  {
    CeilDivZero(|SentencesOf(paragraph)|, countOfChunking);
  }

  lemma {:induction false} PackAllFails(count: string -> nat, maxTokens: nat, countOfChunking: nat,
                                        chunks: seq<string>, paragraphs: seq<string>)
    requires countOfChunking > 0
    ensures PackAll(count, maxTokens, countOfChunking, chunks, paragraphs).RangeStepZero?
      <==> [] in paragraphs && count([]) >= maxTokens
    decreases |paragraphs|
  {
    if paragraphs != [] {
      PackParagraphFails(count, maxTokens, countOfChunking, chunks, paragraphs[0]);
      match PackParagraph(count, maxTokens, countOfChunking, chunks, paragraphs[0])
      case RangeStepZero =>
      case Chunks(next) =>
        PackAllFails(count, maxTokens, countOfChunking, next, paragraphs[1..]);
        assert paragraphs == [paragraphs[0]] + paragraphs[1..];
    }
  }

  /** The planner raises (range step 0) exactly when the text is over budget and
      the paragraph list holds an empty paragraph that is itself over budget;
      with the paragraphs computed from the text this never happens. */
  lemma PlanFailsOnlyOnEmptyLongParagraph(count: string -> nat, maxTokens: nat,
                                          text: string, paragraphs: seq<string>)
    requires maxTokens > 0
    ensures PlanChunks(count, maxTokens, text, paragraphs).RangeStepZero?
      <==> count(text) >= maxTokens && [] in EffectiveParagraphs(text, paragraphs)
           && count([]) >= maxTokens
    ensures paragraphs == [] ==> PlanChunks(count, maxTokens, text, paragraphs).Chunks?
  {
    if count(text) >= maxTokens {
      PackAllFails(count, maxTokens, CeilDiv(count(text), maxTokens), [],
                   EffectiveParagraphs(text, paragraphs));
    }
  }

  /** What a paragraph contributes to the concatenated chunks: itself when it is
      under budget, otherwise its sentences joined with "". */
  function Expand(count: string -> nat, maxTokens: nat, paragraph: string): string {
    if count(paragraph) < maxTokens then paragraph else Concat(SentencesOf(paragraph))
  }

  function ExpandAll(count: string -> nat, maxTokens: nat, paragraphs: seq<string>): seq<string> {
    seq(|paragraphs|, k requires 0 <= k < |paragraphs| => Expand(count, maxTokens, paragraphs[k]))
  }

  lemma {:induction false} GroupsConcat(s: seq<string>, size: nat)
    requires size > 0
    ensures Concat(Groups(s, size)) == Concat(s)
    decreases |s|
  {
    if s != [] {
      if |s| <= size {
        assert Concat([Concat(s)]) == Concat(s);
      } else {
        GroupsConcat(s[size..], size);
        assert s == s[..size] + s[size..];
        ConcatAppend(s[..size], s[size..]);
      }
    }
  }

  lemma ConcatSnocOf(ss: seq<string>, init: seq<string>, last: string)
    requires ss == init + [last]
    ensures Concat(ss) == Concat(init) + last
  {
    ConcatSnoc(init, last);
  }

  lemma PrefixJoin(p: string, a: nat, b: nat)
    requires a <= b <= |p|
    ensures p[..b] == p[..a] + p[a..b]
  {
  }

  lemma ConcatSnoc(chunks: seq<string>, piece: string)
    ensures Concat(chunks + [piece]) == Concat(chunks) + piece
  {
    ConcatAppend(chunks, [piece]);
    assert Concat([piece]) == piece;
  }

  lemma {:induction false} PackAllKeepsOrder(count: string -> nat, maxTokens: nat, countOfChunking: nat,
                                             chunks: seq<string>, paragraphs: seq<string>)
    requires countOfChunking > 0
    ensures PackAll(count, maxTokens, countOfChunking, chunks, paragraphs).Chunks? ==>
      Concat(PackAll(count, maxTokens, countOfChunking, chunks, paragraphs).chunks)
        == Concat(chunks) + Concat(ExpandAll(count, maxTokens, paragraphs))
    decreases |paragraphs|
  {
    if paragraphs == [] {
      assert ExpandAll(count, maxTokens, paragraphs) == [];
    } else {
      var p := paragraphs[0];
      var rest := ExpandAll(count, maxTokens, paragraphs[1..]);
      ExpandAllCons(count, maxTokens, paragraphs);
      ConcatCons(ExpandAll(count, maxTokens, paragraphs), Expand(count, maxTokens, p), rest);
      match PackParagraph(count, maxTokens, countOfChunking, chunks, p)
      case RangeStepZero =>
      case Chunks(next) =>
        PackAllKeepsOrder(count, maxTokens, countOfChunking, next, paragraphs[1..]);
        PackStepKeepsOrder(count, maxTokens, countOfChunking, chunks, p);
    }
  }

  lemma ExpandAllCons(count: string -> nat, maxTokens: nat, paragraphs: seq<string>)
    requires paragraphs != []
    ensures ExpandAll(count, maxTokens, paragraphs)
      == [Expand(count, maxTokens, paragraphs[0])] + ExpandAll(count, maxTokens, paragraphs[1..])
  {
  }

  lemma ConcatCons<T>(ss: seq<seq<T>>, x: seq<T>, rest: seq<seq<T>>)
    requires ss == [x] + rest
    ensures Concat(ss) == x + Concat(rest)
  {
    assert ss[1..] == rest;
  }

  /** One iteration of the paragraph loop appends the paragraph, or its
      joined sentences, to the text of the chunks. */
  lemma PackStepKeepsOrder(count: string -> nat, maxTokens: nat, countOfChunking: nat,
                           chunks: seq<string>, p: string)
    requires countOfChunking > 0
    ensures var r := PackParagraph(count, maxTokens, countOfChunking, chunks, p);
      r.Chunks? ==> Concat(r.chunks) == Concat(chunks) + Expand(count, maxTokens, p)
  {
    if count(p) < maxTokens {
      if |chunks| > 0 && count(chunks[|chunks| - 1]) + count(p) < maxTokens {
        var init := chunks[..|chunks| - 1];
        var last := chunks[|chunks| - 1];
        assert chunks == init + [last];
        ConcatSnoc(init, last);
        ConcatSnoc(init, last + p);
      } else {
        ConcatSnoc(chunks, p);
      }
    } else {
      var s := SentencesOf(p);
      PackOversized(count, maxTokens, countOfChunking, chunks, p, s);
      var size := CeilDiv(|s|, countOfChunking);
      if size > 0 {
        ConcatAppend(chunks, Groups(s, size));
        GroupsConcat(s, size);
      }
    }
  }

  /** Ordering is kept: the chunks concatenate to the text itself when it is
      under budget, and otherwise to each short paragraph and each long
      paragraph's joined sentences, in paragraph order. */
  lemma PlanKeepsOrder(count: string -> nat, maxTokens: nat, text: string, paragraphs: seq<string>)
    requires maxTokens > 0
    ensures PlanChunks(count, maxTokens, text, paragraphs).Chunks? ==>
      Concat(PlanChunks(count, maxTokens, text, paragraphs).chunks)
        == if count(text) < maxTokens then text
           else Concat(ExpandAll(count, maxTokens, EffectiveParagraphs(text, paragraphs)))
  {
    if count(text) < maxTokens {
      assert Concat([text]) == text;
    } else {
      PackAllKeepsOrder(count, maxTokens, CeilDiv(count(text), maxTokens), [],
                        EffectiveParagraphs(text, paragraphs));
    }
  }

  /** A token counter that never charges more for a concatenation than for its parts. */
  ghost predicate Subadditive(count: string -> nat) {
    forall a: string, b: string :: count(a + b) <= count(a) + count(b)
  }

  /** Every string of ss is strictly below the token budget. */
  predicate UnderBudget(count: string -> nat, maxTokens: nat, ss: seq<string>) {
    forall c :: c in ss ==> count(c) < maxTokens
  }

  lemma {:induction false} PackAllWithinBudget(count: string -> nat, maxTokens: nat, countOfChunking: nat,
                                               chunks: seq<string>, paragraphs: seq<string>)
    requires countOfChunking > 0 && Subadditive(count)
    requires UnderBudget(count, maxTokens, chunks)
    requires UnderBudget(count, maxTokens, paragraphs)
    ensures PackAll(count, maxTokens, countOfChunking, chunks, paragraphs).Chunks?
    ensures UnderBudget(count, maxTokens, PackAll(count, maxTokens, countOfChunking, chunks, paragraphs).chunks)
    decreases |paragraphs|
  {
    if paragraphs != [] {
      var p := paragraphs[0];
      assert p in paragraphs;
      var next := PackParagraph(count, maxTokens, countOfChunking, chunks, p).chunks;
      assert UnderBudget(count, maxTokens, next) by {
        if |chunks| > 0 && count(chunks[|chunks| - 1]) + count(p) < maxTokens {
          var last := chunks[|chunks| - 1];
          assert count(last + p) <= count(last) + count(p);
          forall c | c in next ensures count(c) < maxTokens {
            if c != last + p {
              assert c in chunks[..|chunks| - 1];
            }
          }
        }
      }
      assert forall q :: q in paragraphs[1..] ==> q in paragraphs;
      PackAllWithinBudget(count, maxTokens, countOfChunking, next, paragraphs[1..]);
    }
  }

  /** With a subadditive counter and every paragraph under budget, the plan
      succeeds and every chunk is under budget. */
  lemma PlanWithinBudget(count: string -> nat, maxTokens: nat, text: string, paragraphs: seq<string>)
    requires maxTokens > 0 && Subadditive(count)
    requires UnderBudget(count, maxTokens, EffectiveParagraphs(text, paragraphs))
    ensures PlanChunks(count, maxTokens, text, paragraphs).Chunks?
    ensures UnderBudget(count, maxTokens, PlanChunks(count, maxTokens, text, paragraphs).chunks)
  {
    if count(text) >= maxTokens {
      PackAllWithinBudget(count, maxTokens, CeilDiv(count(text), maxTokens), [],
                          EffectiveParagraphs(text, paragraphs));
    }
  }

  /** One iteration of the paragraph loop keeps every chunk but the last and
      only appends to the last one. */
  lemma PackStepExtends(count: string -> nat, maxTokens: nat, countOfChunking: nat,
                        chunks: seq<string>, paragraph: string)
    requires countOfChunking > 0 && chunks != []
    ensures var r := PackParagraph(count, maxTokens, countOfChunking, chunks, paragraph);
      r.Chunks? ==> |chunks| <= |r.chunks| && chunks[..|chunks| - 1] <= r.chunks
                    && chunks[|chunks| - 1] <= r.chunks[|chunks| - 1]
  {
    if count(paragraph) >= maxTokens {
      PackOversized(count, maxTokens, countOfChunking, chunks, paragraph, SentencesOf(paragraph));
    }
  }

  /** First fit against the last chunk only: once emitted, every chunk but the
      last is never touched again, and the last one only grows at its end. */
  lemma {:induction false} PackNeverRevisits(count: string -> nat, maxTokens: nat, countOfChunking: nat,
                                             chunks: seq<string>, paragraphs: seq<string>)
    requires countOfChunking > 0 && chunks != []
    ensures var r := PackAll(count, maxTokens, countOfChunking, chunks, paragraphs);
      r.Chunks? ==> |chunks| <= |r.chunks| && chunks[..|chunks| - 1] <= r.chunks
                    && chunks[|chunks| - 1] <= r.chunks[|chunks| - 1]
    decreases |paragraphs|
  {
    if paragraphs != [] {
      match PackParagraph(count, maxTokens, countOfChunking, chunks, paragraphs[0])
      case RangeStepZero =>
      case Chunks(next) =>
        PackNeverRevisits(count, maxTokens, countOfChunking, next, paragraphs[1..]);
        PackStepExtends(count, maxTokens, countOfChunking, chunks, paragraphs[0]);
        var n := |chunks|;
        var r := PackAll(count, maxTokens, countOfChunking, next, paragraphs[1..]);
        if r.Chunks? {
          assert next[..|next| - 1] <= r.chunks;
          if n < |next| {
            assert next[n - 1] == r.chunks[n - 1];
          }
        }
    }
  }

  lemma MulMonotone(x: int, y: int, s: nat)
    requires x <= y
    ensures x * s <= y * s
  {
  }

  /** An oversized paragraph becomes at most count_of_chunking chunks. */
  lemma LongParagraphChunkCount(sentences: seq<string>, countOfChunking: nat)
    requires |sentences| > 0 && countOfChunking > 0
    ensures CeilDiv(|sentences|, countOfChunking) > 0
    ensures 1 <= |Groups(sentences, CeilDiv(|sentences|, countOfChunking))| <= countOfChunking
  {
    var size := CeilDiv(|sentences|, countOfChunking);
    GroupsCount(sentences, size);
    var g := |Groups(sentences, size)|;
    if g > countOfChunking {
      MulMonotone(countOfChunking, g - 1, size);
      assert false;
    }
  }

  /** An oversized paragraph without a terminal mark is one sentence, and so
      it is appended as a single chunk whatever its token count. */
  lemma OversizedParagraphKeptWhole(count: string -> nat, maxTokens: nat, countOfChunking: nat,
                                    chunks: seq<string>, p: string)
    requires countOfChunking > 0 && p != [] && count(p) >= maxTokens
    requires forall i :: 0 <= i < |p| ==> !IsMark(p[i])
    ensures PackParagraph(count, maxTokens, countOfChunking, chunks, p)
      == Chunks(chunks + [Strip(p)])
  {
    NoMarksNoCuts(p);
    assert SentencesOf(p) == [Strip(p)];
    assert CeilDiv(1, countOfChunking) == 1;
    assert Groups([Strip(p)], 1) == [Concat([Strip(p)])];
    assert Concat([Strip(p)]) == Strip(p);
  }

  /** The budget is not guaranteed for sentence-group chunks: a one-line
      text over budget without a terminal mark comes back as itself (stripped),
      so a text without surrounding whitespace yields one chunk of at least
      max_tokens tokens. */
  lemma OversizedSentenceChunk(count: string -> nat, maxTokens: nat, text: string)
    requires maxTokens > 0 && text != [] && count(text) >= maxTokens
    requires forall i :: 0 <= i < |text| ==> !IsMark(text[i]) && text[i] != '\n'
    ensures PlanChunks(count, maxTokens, text, []) == Chunks([Strip(text)])
    ensures Strip(text) == text ==> count(PlanChunks(count, maxTokens, text, []).chunks[0]) >= maxTokens
  {
    assert '\n' !in text;
    SingleLineParagraph(text);
    assert EffectiveParagraphs(text, []) == [text];
    var countOfChunking := CeilDiv(count(text), maxTokens);
    CeilDivZero(count(text), maxTokens);
    OversizedParagraphKeptWhole(count, maxTokens, countOfChunking, [], text);
    assert [text][1..] == [];
    assert PackAll(count, maxTokens, countOfChunking, [Strip(text)], []) == Chunks([Strip(text)]);
    assert PackAll(count, maxTokens, countOfChunking, [], [text]) == Chunks([Strip(text)]);
  }

  // ---------------------------------------------------------------------
  // divide_text_into_words, final step
  // ---------------------------------------------------------------------

  /** `words.extend(json.loads(response))` over the responses in chunk order. */
  method CollectWords(responses: seq<seq<string>>) returns (words: seq<string>)
    ensures words == Concat(responses)
  {
    words := [];
    var i := 0;
    while i < |responses|
      invariant 0 <= i <= |responses|
      invariant words + Concat(responses[i..]) == Concat(responses)
    {
      assert responses[i..] == [responses[i]] + responses[i + 1..];
      words := words + responses[i];
      i := i + 1;
    }
  }
}
