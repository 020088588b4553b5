/** The document structure built by create_json_from_text
    (services/json_creator.py): paragraphs, their sentences, and the words
    handed out to each sentence from one flat word list. The word list is
    an input here; it stands for the result of divide_text_into_words. */
module JsonCreator {
  import opened TextUtil
  import Preprocess

  datatype Option<T> = None | Some(value: T)

  // ---------------------------------------------------------------------
  // The records
  // ---------------------------------------------------------------------

  datatype Word = Word(text: string, index: nat, pinyin: Option<string>,
                       partOfSpeech: Option<string>, translation: Option<string>)

  datatype Sentence = Sentence(id: nat, text: string, translation: Option<string>,
                               words: seq<Word>)

  datatype Paragraph = Paragraph(id: nat, text: string, translation: Option<string>,
                                 pinyin: Option<string>, sentences: seq<Sentence>)

  datatype Content = Content(fullText: string, fullTranslation: Option<string>,
                             paragraphs: seq<Paragraph>)

  datatype Document = Document(content: Content)

  /** A word whose annotations are all still unset. */
  predicate BareWord(w: Word) {
    w.pinyin == None && w.partOfSpeech == None && w.translation == None
  }

  /** Word `index` values run 0..k-1 and no word is annotated. */
  predicate WordsIndexed(ws: seq<Word>) {
    forall k :: 0 <= k < |ws| ==> ws[k].index == k && BareWord(ws[k])
  }

  /** Sentence ids run 0..m-1, no sentence is translated, and each
      sentence's words are indexed from 0. */
  predicate SentencesNumbered(ss: seq<Sentence>) {
    forall j :: 0 <= j < |ss| ==>
      ss[j].id == j && ss[j].translation == None && WordsIndexed(ss[j].words)
  }

  /** Paragraph ids run 0..n-1, no paragraph is translated or transcribed,
      and each paragraph's sentences are numbered from 0. */
  predicate ParagraphsNumbered(ps: seq<Paragraph>) {
    forall i :: 0 <= i < |ps| ==>
      ps[i].id == i && ps[i].translation == None && ps[i].pinyin == None
      && SentencesNumbered(ps[i].sentences)
  }

  /** create_default_json: the full text and an empty paragraph list. */
  function CreateDefaultJson(text: string): (d: Document)
    ensures d.content.fullText == text && d.content.fullTranslation == None
    ensures d.content.paragraphs == []
  {
    Document(Content(text, None, []))
  }

  /** create_paragraph_json: an untranslated paragraph without sentences. */
  function CreateParagraphJson(id: nat, paragraph: string): (p: Paragraph)
    ensures p.id == id && p.text == paragraph && p.sentences == []
    ensures p.translation == None && p.pinyin == None
  {
    Paragraph(id, paragraph, None, None, [])
  }

  /** create_sentence_json: an untranslated sentence without words. */
  function CreateSentenceJson(id: nat, sentence: string): (s: Sentence)
    ensures s.id == id && s.text == sentence && s.words == [] && s.translation == None
  {
    Sentence(id, sentence, None, [])
  }

  /** create_word_json: the word at position `id` of its sentence, unannotated. */
  function CreateWordJson(id: nat, word: string): (w: Word)
    ensures w.text == word && w.index == id && BareWord(w)
  {
    Word(word, id, None, None, None)
  }

  // ---------------------------------------------------------------------
  // Handing out words to a sentence
  // ---------------------------------------------------------------------

  /** The summed len(word) over words[a..b]. */
  function LengthBetween(words: seq<string>, a: nat, b: nat): nat
    requires a <= b <= |words|
    decreases b - a
  {
    if a == b then 0 else LengthBetween(words, a, b - 1) + |words[b - 1]|
  }

  /** The first end position e > start, searching from `from`, at which the
      words from start reach the threshold. */
  function ReachFrom(words: seq<string>, start: nat, from: nat, threshold: nat): Option<nat>
    requires start < from <= |words| + 1
    decreases |words| + 1 - from
  {
    if from > |words| then None
    else if LengthBetween(words, start, from) >= threshold then Some(from)
    else ReachFrom(words, start, from + 1, threshold)
  }

  lemma {:induction false} ReachFromSpec(words: seq<string>, start: nat, from: nat, threshold: nat)
    requires start < from <= |words| + 1
    requires forall e :: start < e < from ==> LengthBetween(words, start, e) < threshold
    ensures var r := ReachFrom(words, start, from, threshold);
      && (r.Some? ==> (from <= r.value <= |words|
            && LengthBetween(words, start, r.value) >= threshold
            && forall e :: start < e < r.value ==> LengthBetween(words, start, e) < threshold))
      && (r.None? ==> forall e :: start < e <= |words| ==> LengthBetween(words, start, e) < threshold)
    decreases |words| + 1 - from
  {
    if from <= |words| && LengthBetween(words, start, from) < threshold {
      ReachFromSpec(words, start, from + 1, threshold);
    }
  }

  /** The least e with start < e <= |words| at which the summed length of
      words[start..e] reaches the threshold, if there is one. */
  function FirstReach(words: seq<string>, start: nat, threshold: nat): Option<nat>
    requires start <= |words|
  {
    ReachFrom(words, start, start + 1, threshold)
  }

  /** FirstReach finds the least reaching end position, and None means that
      no end position reaches the threshold. */
  lemma FirstReachSpec(words: seq<string>, start: nat, threshold: nat)
    requires start <= |words|
    ensures var r := FirstReach(words, start, threshold);
      && (r.Some? ==> (start < r.value <= |words|
            && LengthBetween(words, start, r.value) >= threshold
            && forall e :: start < e < r.value ==> LengthBetween(words, start, e) < threshold))
      && (r.None? ==> forall e :: start < e <= |words| ==> LengthBetween(words, start, e) < threshold)
  {
    ReachFromSpec(words, start, start + 1, threshold);
  }

  /** The word records for a run of words, indexed from 0. */
  function MakeWords(ws: seq<string>): seq<Word> {
    seq(|ws|, k requires 0 <= k < |ws| => CreateWordJson(k, ws[k]))
  }

  /** One unannotated record per word, in order, indexed from 0. */
  lemma MakeWordsSpec(ws: seq<string>)
    ensures var r := MakeWords(ws);
      WordsIndexed(r) && |r| == |ws| && forall k :: 0 <= k < |r| ==> r[k].text == ws[k]
  {
  }

  lemma MakeWordsSnoc(words: seq<string>, start: nat, k: nat)
    requires start <= k < |words|
    ensures MakeWords(words[start..k]) + [CreateWordJson(k - start, words[k])]
      == MakeWords(words[start..k + 1])
  {
  }

  /** The texts of a run of word records. */
  function WordTexts(ws: seq<Word>): seq<string> {
    seq(|ws|, k requires 0 <= k < |ws| => ws[k].text)
  }

  lemma WordTextsOfMakeWords(ws: seq<string>)
    ensures WordTexts(MakeWords(ws)) == ws
  {
  }

  /** The j-th sentence of a paragraph, given the word cursor before it, and
      the cursor after it. The sentence takes the shortest run of words from
      the cursor whose summed length reaches len(sentence), and the cursor
      moves past that run; when the words run out first the sentence takes
      all the remaining words and the cursor stays where it was. */
  function SentenceFor(j: nat, sentence: string, words: seq<string>, cursor: nat): (r: (Sentence, nat))
    requires cursor <= |words|
    ensures r.0.id == j && r.0.text == sentence && r.0.translation == None
    ensures WordsIndexed(r.0.words)
    ensures cursor <= r.1 <= |words| && cursor + |r.0.words| <= |words|
  {
    FirstReachSpec(words, cursor, |sentence|);
    match FirstReach(words, cursor, |sentence|)
    case Some(e) =>
      MakeWordsSpec(words[cursor..e]);
      (Sentence(j, sentence, None, MakeWords(words[cursor..e])), e)
    case None =>
      MakeWordsSpec(words[cursor..]);
      (Sentence(j, sentence, None, MakeWords(words[cursor..])), cursor)
  }

  /** The words a sentence receives: the contiguous run from the cursor, in
      order, every proper prefix of which falls short of len(sentence). If
      the cursor moves, it moves past exactly that run, which reaches
      len(sentence); if it stays, the run is everything left and even all of
      it falls short. With no words left the sentence gets none. */
  lemma SentenceWords(j: nat, sentence: string, words: seq<string>, cursor: nat)
    requires cursor <= |words|
    ensures var r := SentenceFor(j, sentence, words, cursor);
      && WordTexts(r.0.words) == words[cursor..cursor + |r.0.words|]
      && (forall e :: cursor < e < cursor + |r.0.words| ==> LengthBetween(words, cursor, e) < |sentence|)
      && (r.1 != cursor ==> (r.1 == cursor + |r.0.words| && LengthBetween(words, cursor, r.1) >= |sentence|))
      && (r.1 == cursor ==> (cursor + |r.0.words| == |words|
            && forall e :: cursor < e <= |words| ==> LengthBetween(words, cursor, e) < |sentence|))
      && (cursor == |words| ==> r.0.words == [])
  {
    FirstReachSpec(words, cursor, |sentence|);
    match FirstReach(words, cursor, |sentence|)
    case Some(e) =>
      WordTextsOfMakeWords(words[cursor..e]);
    case None =>
      WordTextsOfMakeWords(words[cursor..]);
      assert words[cursor..|words|] == words[cursor..];
  }

  lemma PrefixSnoc<T>(s: seq<T>, n: nat)
    requires 0 < n <= |s|
    ensures s[..n] == s[..n - 1] + [s[n - 1]]
  {
  }

  function SentenceTexts(ss: seq<Sentence>): seq<string> {
    seq(|ss|, j requires 0 <= j < |ss| => ss[j].text)
  }

  function ParagraphTexts(ps: seq<Paragraph>): seq<string> {
    seq(|ps|, i requires 0 <= i < |ps| => ps[i].text)
  }

  lemma SentencesSnoc(ss: seq<Sentence>, s: Sentence)
    requires SentencesNumbered(ss)
    requires s.id == |ss| && s.translation == None && WordsIndexed(s.words)
    ensures SentencesNumbered(ss + [s])
    ensures SentenceTexts(ss + [s]) == SentenceTexts(ss) + [s.text]
  {
  }

  lemma ParagraphsSnoc(ps: seq<Paragraph>, p: Paragraph)
    requires ParagraphsNumbered(ps)
    requires p.id == |ps| && p.translation == None && p.pinyin == None
    requires SentencesNumbered(p.sentences)
    ensures ParagraphsNumbered(ps + [p])
    ensures ParagraphTexts(ps + [p]) == ParagraphTexts(ps) + [p.text]
  {
  }

  /** The first n sentences of a paragraph built from cursor c0, and the
      cursor after them. */
  function BuildSentences(sentences: seq<string>, n: nat, words: seq<string>, c0: nat): (r: (seq<Sentence>, nat))
    requires n <= |sentences| && c0 <= |words|
    ensures |r.0| == n && c0 <= r.1 <= |words|
  {
    if n == 0 then ([], c0)
    else
      var prev := BuildSentences(sentences, n - 1, words, c0);
      var step := SentenceFor(n - 1, sentences[n - 1], words, prev.1);
      (prev.0 + [step.0], step.1)
  }

  /** Sentence ids run 0..n-1 and the sentence texts are the paragraph's
      sentences, in order. */
  lemma {:induction false} BuildSentencesShape(sentences: seq<string>, n: nat, words: seq<string>, c0: nat)
    requires n <= |sentences| && c0 <= |words|
    ensures var r := BuildSentences(sentences, n, words, c0);
      SentencesNumbered(r.0) && SentenceTexts(r.0) == sentences[..n]
  {
    if n > 0 {
      var prev := BuildSentences(sentences, n - 1, words, c0);
      BuildSentencesShape(sentences, n - 1, words, c0);
      var step := SentenceFor(n - 1, sentences[n - 1], words, prev.1);
      assert BuildSentences(sentences, n, words, c0).0 == prev.0 + [step.0];
      SentencesSnoc(prev.0, step.0);
      PrefixSnoc(sentences, n);
    }
  }

  /** The i-th paragraph with the given sentences, and the cursor after it. */
  function ParagraphFor(i: nat, paragraph: string, sentences: seq<string>,
                        words: seq<string>, cursor: nat): (r: (Paragraph, nat))
    requires cursor <= |words|
    ensures r.0.id == i && r.0.text == paragraph
    ensures cursor <= r.1 <= |words|
  {
    var built := BuildSentences(sentences, |sentences|, words, cursor);
    (Paragraph(i, paragraph, None, None, built.0), built.1)
  }

  /** A paragraph record is unannotated and holds the given sentences, in
      order, numbered from 0. */
  lemma ParagraphShape(i: nat, paragraph: string, sentences: seq<string>, words: seq<string>, cursor: nat)
    requires cursor <= |words|
    ensures var p := ParagraphFor(i, paragraph, sentences, words, cursor).0;
      p.translation == None && p.pinyin == None && SentencesNumbered(p.sentences)
      && SentenceTexts(p.sentences) == sentences
  {
    BuildSentencesShape(sentences, |sentences|, words, cursor);
    assert sentences[..|sentences|] == sentences;
  }

  /** The first n paragraphs built from cursor 0, paragraph i holding the
      sentences sentenceLists[i], and the cursor after them. */
  function BuildParagraphs(paragraphs: seq<string>, sentenceLists: seq<seq<string>>, n: nat,
                           words: seq<string>): (r: (seq<Paragraph>, nat))
    requires n <= |paragraphs| == |sentenceLists|
    ensures |r.0| == n && r.1 <= |words|
  {
    if n == 0 then ([], 0)
    else
      var prev := BuildParagraphs(paragraphs, sentenceLists, n - 1, words);
      var step := ParagraphFor(n - 1, paragraphs[n - 1], sentenceLists[n - 1], words, prev.1);
      (prev.0 + [step.0], step.1)
  }

  /** Paragraph ids run 0..n-1, no paragraph is annotated, each one's
      sentences are numbered from 0, and the paragraph texts are the first n
      paragraphs in order. */
  lemma {:induction false} BuildParagraphsNumbered(paragraphs: seq<string>, sentenceLists: seq<seq<string>>,
                                                   n: nat, words: seq<string>)
    requires n <= |paragraphs| == |sentenceLists|
    ensures var r := BuildParagraphs(paragraphs, sentenceLists, n, words);
      ParagraphsNumbered(r.0) && ParagraphTexts(r.0) == paragraphs[..n]
  {
    if n > 0 {
      var prev := BuildParagraphs(paragraphs, sentenceLists, n - 1, words);
      BuildParagraphsNumbered(paragraphs, sentenceLists, n - 1, words);
      ParagraphShape(n - 1, paragraphs[n - 1], sentenceLists[n - 1], words, prev.1);
      var step := ParagraphFor(n - 1, paragraphs[n - 1], sentenceLists[n - 1], words, prev.1);
      assert BuildParagraphs(paragraphs, sentenceLists, n, words).0 == prev.0 + [step.0];
      ParagraphsSnoc(prev.0, step.0);
      PrefixSnoc(paragraphs, n);
    }
  }

  /** Paragraph i holds the sentences sentenceLists[i], in order. */
  lemma {:induction false} BuildParagraphsHold(paragraphs: seq<string>, sentenceLists: seq<seq<string>>,
                                               n: nat, words: seq<string>)
    requires n <= |paragraphs| == |sentenceLists|
    ensures var r := BuildParagraphs(paragraphs, sentenceLists, n, words);
      forall i :: 0 <= i < n ==> SentenceTexts(r.0[i].sentences) == sentenceLists[i]
  {
    if n > 0 {
      var prev := BuildParagraphs(paragraphs, sentenceLists, n - 1, words);
      BuildParagraphsHold(paragraphs, sentenceLists, n - 1, words);
      ParagraphShape(n - 1, paragraphs[n - 1], sentenceLists[n - 1], words, prev.1);
      var step := ParagraphFor(n - 1, paragraphs[n - 1], sentenceLists[n - 1], words, prev.1);
      var r := BuildParagraphs(paragraphs, sentenceLists, n, words).0;
      assert r == prev.0 + [step.0];
      forall i | 0 <= i < n ensures SentenceTexts(r[i].sentences) == sentenceLists[i] {
        if i < n - 1 {
          assert r[i] == prev.0[i];
        }
      }
    }
  }

  /** divide_into_sentences applied to every paragraph. */
  function SentencesOfAll(paragraphs: seq<string>): (r: seq<seq<string>>)
    ensures |r| == |paragraphs|
  {
    seq(|paragraphs|, i requires 0 <= i < |paragraphs| => Preprocess.SentencesOf(paragraphs[i]))
  }

  /** The document create_json_from_text returns for a text and its words. */
  function Assemble(text: string, words: seq<string>): Document {
    var paragraphs := Preprocess.DivideIntoParagraphs(text);
    var built := BuildParagraphs(paragraphs, SentencesOfAll(paragraphs), |paragraphs|, words);
    Document(Content(text, None, built.0))
  }

  /** The document keeps the full text, has no translation anywhere, and
      holds one paragraph per paragraph of the text, in order, with dense
      ids; each paragraph holds its own sentences in order with ids from 0,
      and each sentence's words are indexed from 0. */
  lemma AssembleShape(text: string, words: seq<string>)
    ensures var d := Assemble(text, words);
      && d.content.fullText == text && d.content.fullTranslation == None
      && ParagraphTexts(d.content.paragraphs) == Preprocess.DivideIntoParagraphs(text)
      && ParagraphsNumbered(d.content.paragraphs)
      && (forall i :: 0 <= i < |d.content.paragraphs| ==>
            SentenceTexts(d.content.paragraphs[i].sentences)
              == Preprocess.SentencesOf(d.content.paragraphs[i].text))
      && (text == [] ==> d.content.paragraphs == [])
  {
    var paragraphs := Preprocess.DivideIntoParagraphs(text);
    var lists := SentencesOfAll(paragraphs);
    BuildParagraphsNumbered(paragraphs, lists, |paragraphs|, words);
    BuildParagraphsHold(paragraphs, lists, |paragraphs|, words);
    var ps := BuildParagraphs(paragraphs, lists, |paragraphs|, words).0;
    assert paragraphs[..|paragraphs|] == paragraphs;
    forall i | 0 <= i < |ps|
      ensures SentenceTexts(ps[i].sentences) == Preprocess.SentencesOf(ps[i].text)
    {
      assert ps[i].text == ParagraphTexts(ps)[i] == paragraphs[i];
    }
  }

  // ---------------------------------------------------------------------
  // Which words end up where
  // ---------------------------------------------------------------------

  /** The word texts of a run of sentences, in order. */
  function SentencesWords(ss: seq<Sentence>): seq<string> {
    if ss == [] then [] else SentencesWords(ss[..|ss| - 1]) + WordTexts(ss[|ss| - 1].words)
  }

  /** The word texts of a run of paragraphs, in order. */
  function ParagraphsWords(ps: seq<Paragraph>): seq<string> {
    if ps == [] then [] else ParagraphsWords(ps[..|ps| - 1]) + SentencesWords(ps[|ps| - 1].sentences)
  }

  /** The words handed out while the cursor moves from c0 to c1 are exactly
      the words it passed, or they start with every word from c0 to the end
      of the list (which happens once the list runs out and words are handed
      out again). */
  predicate Covers(words: seq<string>, c0: nat, c1: nat, handed: seq<string>)
    requires c0 <= c1 <= |words|
  {
    handed == words[c0..c1] || words[c0..] <= handed
  }

  lemma CoversAppend(words: seq<string>, c0: nat, c1: nat, c2: nat, a: seq<string>, b: seq<string>)
    requires c0 <= c1 <= c2 <= |words|
    requires Covers(words, c0, c1, a) && Covers(words, c1, c2, b)
    ensures Covers(words, c0, c2, a + b)
  {
    if a == words[c0..c1] {
      assert words[c0..] == words[c0..c1] + words[c1..];
      if b == words[c1..c2] {
        assert words[c0..c2] == words[c0..c1] + words[c1..c2];
      } else {
        assert words[c1..] <= b;
        assert words[c0..] <= a + b;
      }
    } else {
      assert words[c0..] <= a + b;
    }
  }

  /** One sentence covers the words the cursor passes over for it. */
  lemma SentenceCovers(j: nat, sentence: string, words: seq<string>, cursor: nat)
    requires cursor <= |words|
    ensures var r := SentenceFor(j, sentence, words, cursor);
      Covers(words, cursor, r.1, WordTexts(r.0.words))
  {
    SentenceWords(j, sentence, words, cursor);
  }

  /** The words handed out to the sentences of a paragraph cover the words
      the cursor passed over for them. */
  lemma {:induction false} BuildSentencesWords(sentences: seq<string>, n: nat, words: seq<string>, c0: nat)
    requires n <= |sentences| && c0 <= |words|
    ensures var r := BuildSentences(sentences, n, words, c0);
      Covers(words, c0, r.1, SentencesWords(r.0))
  {
    if n > 0 {
      var prev := BuildSentences(sentences, n - 1, words, c0);
      BuildSentencesWords(sentences, n - 1, words, c0);
      var step := SentenceFor(n - 1, sentences[n - 1], words, prev.1);
      SentenceCovers(n - 1, sentences[n - 1], words, prev.1);
      var r := prev.0 + [step.0];
      assert BuildSentences(sentences, n, words, c0) == (r, step.1);
      assert r[..|r| - 1] == prev.0;
      CoversAppend(words, c0, prev.1, step.1, SentencesWords(prev.0), WordTexts(step.0.words));
    }
  }

  /** The same for all paragraphs, from cursor 0. */
  lemma {:induction false} BuildParagraphsWords(paragraphs: seq<string>, sentenceLists: seq<seq<string>>,
                                                n: nat, words: seq<string>)
    requires n <= |paragraphs| == |sentenceLists|
    ensures var r := BuildParagraphs(paragraphs, sentenceLists, n, words);
      Covers(words, 0, r.1, ParagraphsWords(r.0))
  {
    if n > 0 {
      var prev := BuildParagraphs(paragraphs, sentenceLists, n - 1, words);
      BuildParagraphsWords(paragraphs, sentenceLists, n - 1, words);
      var ss := sentenceLists[n - 1];
      var step := ParagraphFor(n - 1, paragraphs[n - 1], ss, words, prev.1);
      BuildSentencesWords(ss, |ss|, words, prev.1);
      var r := prev.0 + [step.0];
      assert BuildParagraphs(paragraphs, sentenceLists, n, words) == (r, step.1);
      assert r[..|r| - 1] == prev.0;
      CoversAppend(words, 0, prev.1, step.1, ParagraphsWords(prev.0), SentencesWords(step.0.sentences));
    }
  }

  /** The word cursor words_index once every paragraph has been built. */
  function FinalCursor(text: string, words: seq<string>): (c: nat)
    ensures c <= |words|
  {
    var paragraphs := Preprocess.DivideIntoParagraphs(text);
    BuildParagraphs(paragraphs, SentencesOfAll(paragraphs), |paragraphs|, words).1
  }

  /** Reading the document's words in order gives words[..words_index]
      first; it gives exactly that, or it starts with the whole word list
      (some words were handed out again after the list ran out). */
  lemma AssembleWords(text: string, words: seq<string>)
    ensures var w := ParagraphsWords(Assemble(text, words).content.paragraphs);
      && words[..FinalCursor(text, words)] <= w
      && (w == words[..FinalCursor(text, words)] || words <= w)
  {
    var paragraphs := Preprocess.DivideIntoParagraphs(text);
    BuildParagraphsWords(paragraphs, SentencesOfAll(paragraphs), |paragraphs|, words);
    var c := FinalCursor(text, words);
    assert words[0..c] == words[..c];
    assert words[0..] == words;
    assert words[..c] <= words;
  }

  /** When the words run out before a sentence is covered, the cursor stays,
      and the next sentence, if at least as long, starts from the same words
      again and receives exactly the same ones. */
  lemma RanOutRepeats(j: nat, first: string, next: string, words: seq<string>, cursor: nat)
    requires cursor <= |words|
    requires SentenceFor(j, first, words, cursor).1 == cursor
    requires |next| >= |first|
    ensures SentenceFor(j + 1, next, words, cursor).1 == cursor
    ensures WordTexts(SentenceFor(j + 1, next, words, cursor).0.words)
      == WordTexts(SentenceFor(j, first, words, cursor).0.words)
      == words[cursor..]
  {
    SentenceWords(j, first, words, cursor);
    SentenceWords(j + 1, next, words, cursor);
    assert words[cursor..|words|] == words[cursor..];
  }

  // ---------------------------------------------------------------------
  // create_json_from_text
  // ---------------------------------------------------------------------

  /** The body of the sentence loop of create_json_from_text: the sentence
      record for sentence j, filled by the word loop from words_index, with
      the `break` once accumulated_length reaches len(sentence). */
  method GatherWords(j: nat, sentence: string, words: seq<string>, wordsIndex: nat)
    returns (sentenceJson: Sentence, nextIndex: nat)
    requires wordsIndex <= |words|
    ensures (sentenceJson, nextIndex) == SentenceFor(j, sentence, words, wordsIndex)
  {
    sentenceJson := CreateSentenceJson(j, sentence);
    nextIndex := wordsIndex;
    var accumulatedLength := 0;
    var k := wordsIndex;
    while k < |words|
      invariant wordsIndex <= k <= |words|
      invariant accumulatedLength == LengthBetween(words, wordsIndex, k)
      invariant sentenceJson == Sentence(j, sentence, None, MakeWords(words[wordsIndex..k]))
      invariant ShortUpTo(words, wordsIndex, k, |sentence|)
    {
      var word := words[k];
      accumulatedLength := accumulatedLength + |word|;
      var wordJson := CreateWordJson(k - wordsIndex, word);
      AppendWordStep(j, sentence, words, wordsIndex, k);
      sentenceJson := sentenceJson.(words := sentenceJson.words + [wordJson]);
      if accumulatedLength >= |sentence| {
        ReachedHere(j, sentence, words, wordsIndex, k + 1);
        nextIndex := k + 1;
        return;
      }
      KeepShort(words, wordsIndex, k, |sentence|);
      k := k + 1;
    }
    RanOutHere(j, sentence, words, wordsIndex);
  }

  /** create_json_from_text with the word list supplied: the loop over
      paragraphs, whose sentence loop is FillSentences; all sentences share
      the cursor wordsIndex, and each one gathers words until their summed
      length reaches its own length. */
  method CreateJsonFromText(text: string, words: seq<string>) returns (result: Document)
    ensures result == Assemble(text, words)
  {
    result := CreateDefaultJson(text);
    var paragraphs := Preprocess.DivideIntoParagraphs(text);
    ghost var sentenceLists := SentencesOfAll(paragraphs);
    var wordsIndex := 0;
    var i := 0;
    while i < |paragraphs|
      invariant i <= |paragraphs|
      invariant result == Document(Content(text, None, result.content.paragraphs))
      invariant (result.content.paragraphs, wordsIndex) == BuildParagraphs(paragraphs, sentenceLists, i, words)
    {
      var paragraph := paragraphs[i];
      var paragraphJson := CreateParagraphJson(i, paragraph);
      var sentences := Preprocess.DivideIntoSentences(paragraph);
      SentenceListAt(paragraphs, i, sentences);
      ghost var paragraphStart := wordsIndex;
      paragraphJson, wordsIndex := FillSentences(paragraphJson, sentences, words, wordsIndex);
      BuildParagraphsStep(paragraphs, sentenceLists, i, words, paragraphStart, paragraphJson, wordsIndex);
      result := result.(content := result.content.(paragraphs := result.content.paragraphs + [paragraphJson]));
      i := i + 1;
    }
  }

  /** The inner loop of create_json_from_text: the sentences of one
      paragraph, each with the words GatherWords hands it, appended to the
      paragraph record in order. */
  method FillSentences(paragraphJson: Paragraph, sentences: seq<string>, words: seq<string>,
                       wordsIndex: nat) returns (filled: Paragraph, nextIndex: nat)
    requires paragraphJson.sentences == [] && wordsIndex <= |words|
    ensures var built := BuildSentences(sentences, |sentences|, words, wordsIndex);
      filled == paragraphJson.(sentences := built.0) && nextIndex == built.1
  {
    filled := paragraphJson;
    nextIndex := wordsIndex;
    var j := 0;
    while j < |sentences|
      invariant j <= |sentences|
      invariant filled == paragraphJson.(sentences := filled.sentences)
      invariant (filled.sentences, nextIndex) == BuildSentences(sentences, j, words, wordsIndex)
    {
      var sentence := sentences[j];
      var sentenceJson;
      ghost var before := nextIndex;
      sentenceJson, nextIndex := GatherWords(j, sentence, words, nextIndex);
      BuildSentencesStep(sentences, j, words, wordsIndex, filled.sentences, before, sentenceJson, nextIndex);
      filled := filled.(sentences := filled.sentences + [sentenceJson]);
      j := j + 1;
    }
  }

  /** The sentence list computed for paragraph i is the one SentencesOfAll holds. */
  lemma SentenceListAt(paragraphs: seq<string>, i: nat, sentences: seq<string>)
    requires i < |paragraphs| && sentences == Preprocess.SentencesOf(paragraphs[i])
    ensures SentencesOfAll(paragraphs)[i] == sentences
  {
  }

  /** One more sentence turns the first j sentence records into the first j + 1. */
  lemma BuildSentencesStep(sentences: seq<string>, j: nat, words: seq<string>, c0: nat,
                           built: seq<Sentence>, cursor: nat, next: Sentence, nextCursor: nat)
    requires j < |sentences| && c0 <= |words|
    requires (built, cursor) == BuildSentences(sentences, j, words, c0)
    requires (next, nextCursor) == SentenceFor(j, sentences[j], words, cursor)
    ensures (built + [next], nextCursor) == BuildSentences(sentences, j + 1, words, c0)
  {
  }

  /** One more paragraph turns the first i paragraph records into the first i + 1. */
  lemma BuildParagraphsStep(paragraphs: seq<string>, sentenceLists: seq<seq<string>>, i: nat,
                            words: seq<string>, cursor: nat, next: Paragraph, nextCursor: nat)
    requires i < |paragraphs| == |sentenceLists|
    requires cursor == BuildParagraphs(paragraphs, sentenceLists, i, words).1
    requires next == Paragraph(i, paragraphs[i], None, None,
      BuildSentences(sentenceLists[i], |sentenceLists[i]|, words, cursor).0)
    requires nextCursor == BuildSentences(sentenceLists[i], |sentenceLists[i]|, words, cursor).1
    ensures BuildParagraphs(paragraphs, sentenceLists, i + 1, words)
      == (BuildParagraphs(paragraphs, sentenceLists, i, words).0 + [next], nextCursor)
  {
  }

  /** Every run words[start..e] with start < e <= k falls short of the threshold. */
  predicate ShortUpTo(words: seq<string>, start: nat, k: nat, threshold: nat)
    requires start <= k <= |words|
  {
    forall e :: start < e <= k ==> LengthBetween(words, start, e) < threshold
  }

  lemma KeepShort(words: seq<string>, start: nat, k: nat, threshold: nat)
    requires start <= k < |words| && ShortUpTo(words, start, k, threshold)
    requires LengthBetween(words, start, k + 1) < threshold
    ensures ShortUpTo(words, start, k + 1, threshold)
  {
  }

  /** One more word: the run's length grows by its length and the sentence
      record gains its word record. */
  lemma AppendWordStep(j: nat, sentence: string, words: seq<string>, start: nat, k: nat)
    requires start <= k < |words|
    ensures LengthBetween(words, start, k + 1) == LengthBetween(words, start, k) + |words[k]|
    ensures var before := Sentence(j, sentence, None, MakeWords(words[start..k]));
      before.(words := before.words + [CreateWordJson(k - start, words[k])])
        == Sentence(j, sentence, None, MakeWords(words[start..k + 1]))
  {
    MakeWordsSnoc(words, start, k);
  }

  /** The scan broke at end position e: the sentence is the one SentenceFor builds. */
  lemma ReachedHere(j: nat, sentence: string, words: seq<string>, start: nat, e: nat)
    requires start < e <= |words|
    requires LengthBetween(words, start, e) >= |sentence|
    requires ShortUpTo(words, start, e - 1, |sentence|)
    ensures SentenceFor(j, sentence, words, start)
      == (Sentence(j, sentence, None, MakeWords(words[start..e])), e)
  {
    FirstReachSpec(words, start, |sentence|);
    var r := FirstReach(words, start, |sentence|);
    assert r == Some(e);
  }

  /** The scan ran past the last word: the sentence is the one SentenceFor builds. */
  lemma RanOutHere(j: nat, sentence: string, words: seq<string>, start: nat)
    requires start <= |words|
    requires ShortUpTo(words, start, |words|, |sentence|)
    ensures SentenceFor(j, sentence, words, start)
      == (Sentence(j, sentence, None, MakeWords(words[start..|words|])), start)
  {
    FirstReachSpec(words, start, |sentence|);
    assert FirstReach(words, start, |sentence|) == None;
    assert words[start..|words|] == words[start..];
  }
}
