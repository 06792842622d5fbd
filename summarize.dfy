/** The two summarisers: `makeShortNotes` scores each sentence of one note by the
    note's keywords it contains and its length, `makeShortTextSummary` scores each
    sentence of a text by the frequency of its words in the whole text. Both keep the
    best sentences in score order and render them with `join('.\n\n') + '.'`. */
module Summarize {
  import opened Seqs
  import opened Text
  import opened Tokenizer
  import opened Ranking
  import opened Sentences
  import opened Notes
  import opened Keywords

  const NoParsableNoteText := "(no parsable text in this note)"
  const NoParsableTxtNotes := "(no parsable txt notes)"

  /** How many of the keywords the lower-cased sentence contains. */
  function Hits(keywords: seq<string>, s: string): nat {
    if keywords == [] then 0
    else (if Contains(Lower(s), keywords[0]) then 1 else 0) + Hits(keywords[1..], s)
  }

  /** Hits counts exactly the keywords found in the sentence. */
  lemma {:induction false} HitsCount(keywords: seq<string>, s: string)
    ensures Hits(keywords, s) == |Filter(keywords, k => Contains(Lower(s), k))|
  {
    if keywords != [] {
      HitsCount(keywords[1..], s);
    }
  }

  /** Sixty times a sentence's note score (script.js:330): two per keyword it
      contains plus its length over 60, at most 4, computed exactly. Where
      floating-point rounding separates two scores that are exactly equal, the
      source may order them differently. */
  function NoteScore(keywords: seq<string>, s: string): real {
    (120 * Hits(keywords, s) + Min(240, |s|)) as real
  }

  lemma NoteScoreScaled(keywords: seq<string>, s: string)
    ensures NoteScore(keywords, s) / 60.0
            == 2.0 * Hits(keywords, s) as real + RealMin(4.0, |s| as real / 60.0)
  {
  }

  function RealMin(a: real, b: real): real { if a < b then a else b }

  /** The sentences `makeShortNotes(note)` keeps, best first. */
  function NotePick(note: Note): seq<string>
    requires HasText(note)
  {
    var keywords := NoteKeywords(note);
    TopBy(Split(note.content.value), s => NoteScore(keywords, s), 5)
  }

  /** What `makeShortNotes(note)` returns. */
  function NoteSummary(note: Note): string {
    if !HasText(note) then NoParsableNoteText else Render(NotePick(note))
  }

  /** `makeShortNotes(note)`. */
  method ShortNotes(note: Note) returns (r: string)
    ensures r == NoteSummary(note)
  {
    if note.kind != Txt || note.content.None? || note.content.value == "" {
      return NoParsableNoteText;
    }
    var sents := Split(note.content.value);
    var keywords := GenerateKeywords(note);
    r := Render(TopBy(sents, s => NoteScore(keywords, s), 5));
  }

  /** The note summary keeps at most five of the note's sentences, by their positions
      in the note: best score first, equal scores in text order, and no sentence left
      out scores higher than one kept. */
  lemma NotePickProperties(note: Note) returns (idx: seq<nat>)
    requires HasText(note)
    ensures |NotePick(note)| == |idx| == Min(5, |Split(note.content.value)|)
    ensures NoDuplicates(idx)
    ensures forall k :: 0 <= k < |idx| ==>
              idx[k] < |Split(note.content.value)| && NotePick(note)[k] == Split(note.content.value)[idx[k]]
    ensures forall a, b :: 0 <= a < b < |idx| ==>
              var sa, sb := NotePick(note)[a], NotePick(note)[b];
              NoteScore(NoteKeywords(note), sa) > NoteScore(NoteKeywords(note), sb)
              || (NoteScore(NoteKeywords(note), sa) == NoteScore(NoteKeywords(note), sb) && idx[a] < idx[b])
    ensures forall i, a :: 0 <= i < |Split(note.content.value)| && i !in idx && 0 <= a < |idx| ==>
              NoteScore(NoteKeywords(note), Split(note.content.value)[i])
              <= NoteScore(NoteKeywords(note), NotePick(note)[a])
  {
    var keywords := NoteKeywords(note);
    idx := TopByProperties(Split(note.content.value), s => NoteScore(keywords, s), 5);
  }

  /** How much the words weigh: the sum of their counts in the table. */
  function Mass(freq: map<string, nat>, words: seq<string>): nat {
    if words == [] then 0 else Lookup(freq, words[0]) + Mass(freq, words[1..])
  }

  /** The square of a sentence's summary score (script.js:351): the summed counts
      of its tokens over the square root of its length, at least 1. The score is
      non-negative, so squaring keeps the order of exact scores, and the square
      `(Σ)² / max(1, s.length)` is exact. */
  function SummaryKey(freq: map<string, nat>, s: string): real {
    var m := Mass(freq, Tokenize(s));
    (m * m) as real / (if |s| < 1 then 1 else |s|) as real
  }

  /** The sentences `makeShortTextSummary(text, maxSentences)` keeps. */
  function SummaryPick(text: string, maxSentences: nat): seq<string> {
    var sents := Split(text);
    if |sents| <= maxSentences then sents
    else
      var freq := Frequencies(Tokenize(text));
      TopBy(sents, s => SummaryKey(freq, s), maxSentences)
  }

  /** What `makeShortTextSummary(text, maxSentences)` returns. */
  function TextSummary(text: string, maxSentences: nat): string {
    Render(SummaryPick(text, maxSentences))
  }

  /** `makeShortTextSummary(text, maxSentences)`. */
  method ShortTextSummary(text: string, maxSentences: nat) returns (r: string)
    ensures r == TextSummary(text, maxSentences)
  {
    var sents := Split(text);
    if |sents| <= maxSentences {
      return Render(sents);
    }
    var tok := Tokenize(text);
    var freq, _ := CountTokens(tok);
    r := Render(TopBy(sents, s => SummaryKey(freq, s), maxSentences));
  }

  /** With at most maxSentences sentences all of them are kept, in text order. */
  lemma SummaryPickAll(text: string, maxSentences: nat)
    requires |Split(text)| <= maxSentences
    ensures SummaryPick(text, maxSentences) == Split(text)
  {
  }

  /** With more, exactly maxSentences are kept, by their positions in the text: best
      key first, equal keys in text order, and none left out has a higher key than
      one kept. */
  lemma SummaryPickRanked(text: string, maxSentences: nat) returns (idx: seq<nat>)
    requires |Split(text)| > maxSentences
    ensures |SummaryPick(text, maxSentences)| == |idx| == maxSentences
    ensures NoDuplicates(idx)
    ensures forall k :: 0 <= k < |idx| ==>
              idx[k] < |Split(text)| && SummaryPick(text, maxSentences)[k] == Split(text)[idx[k]]
    ensures forall a, b :: 0 <= a < b < |idx| ==>
              var freq := Frequencies(Tokenize(text));
              var sa, sb := SummaryPick(text, maxSentences)[a], SummaryPick(text, maxSentences)[b];
              SummaryKey(freq, sa) > SummaryKey(freq, sb)
              || (SummaryKey(freq, sa) == SummaryKey(freq, sb) && idx[a] < idx[b])
    ensures forall i, a :: 0 <= i < |Split(text)| && i !in idx && 0 <= a < |idx| ==>
              SummaryKey(Frequencies(Tokenize(text)), Split(text)[i])
              <= SummaryKey(Frequencies(Tokenize(text)), SummaryPick(text, maxSentences)[a])
  {
    var freq := Frequencies(Tokenize(text));
    idx := TopByProperties(Split(text), s => SummaryKey(freq, s), maxSentences);
  }

  /** A rendered summary ends with a full stop. */
  lemma RenderEndsWithStop(sentences: seq<string>)
    ensures EndsWith(Render(sentences), ".")
  {
  }

  /** The per-note sentinel is returned exactly for notes without text. */
  lemma NoteSummarySentinel(note: Note)
    ensures NoteSummary(note) == NoParsableNoteText <==> !HasText(note)
  {
    if HasText(note) {
      RenderEndsWithStop(NotePick(note));
      assert NoParsableNoteText[|NoParsableNoteText| - 1] == ')';
    }
  }

  /** What `generateShortNotesAll()` returns. */
  function AllShortNotes(notes: seq<Note>): string {
    var pool := TextPool(notes, "\n\n");
    if pool == "" then NoParsableTxtNotes else TextSummary(pool, 8)
  }

  /** `generateShortNotesAll()`. */
  method ShortNotesAll(notes: seq<Note>) returns (r: string)
    ensures r == AllShortNotes(notes)
  {
    var pool := TextPool(notes, "\n\n");
    if pool == "" {
      return NoParsableTxtNotes;
    }
    r := ShortTextSummary(pool, 8);
  }

  /** The pooled sentinel is returned exactly when no note has text. */
  lemma AllShortNotesSentinel(notes: seq<Note>)
    ensures AllShortNotes(notes) == NoParsableTxtNotes <==> forall n :: n in notes ==> !HasText(n)
  {
    TextPoolEmpty(notes, "\n\n");
    var pool := TextPool(notes, "\n\n");
    if pool != "" {
      RenderEndsWithStop(SummaryPick(pool, 8));
      assert NoParsableTxtNotes[|NoParsableTxtNotes| - 1] == ')';
    }
  }
}
