/** `generateFromNotes(q, subject)`: answers a chat question from the text notes in
    scope, with the sentences that contain a query word, or a summary when none
    does. The three outcomes are a datatype; `Message` renders them as the app
    does. */
module Retriever {
  import opened Wrappers
  import opened Seqs
  import opened Text
  import opened Sentences
  import opened Notes
  import opened Summarize

  datatype Point = Point(text: string, source: string)

  datatype Answer =
    | NoNotes(subject: Option<string>)
    | Found(points: seq<Point>)
    | Fallback(summary: string)

  /** `n.type === 'txt' && (subject === null || n.subject === subject)`. */
  predicate InScope(subject: Option<string>, n: Note) {
    n.kind == Txt && (subject.None? || n.subject == subject.value)
  }

  function Scope(notes: seq<Note>, subject: Option<string>): (pool: seq<Note>)
    ensures forall n :: n in pool <==> n in notes && InScope(subject, n)
  {
    Filter(notes, n => InScope(subject, n))
  }

  /** The query words (script.js:277): the lower-cased query split on runs of
      non-word characters, without empty pieces. */
  function QueryWords(q: string): (words: seq<string>)
    ensures forall w :: w in words ==> w != "" && forall k :: 0 <= k < |w| ==> IsWordChar(w[k])
  {
    Filter(SplitRuns(Lower(q), IsNonWord), NonEmpty)
  }

  /** The query words are all the maximal `\w` runs of the lower-cased query, in
      order: with the `\W` runs before, between and after them put back (empty only
      at the ends), they rebuild it. */
  lemma QueryWordsRebuild(q: string) returns (gaps: seq<string>)
    ensures |gaps| == |QueryWords(q)| + 1
    ensures forall k :: 0 <= k < |gaps| ==> AllOf(gaps[k], IsNonWord)
    ensures forall k :: 0 < k < |gaps| - 1 ==> gaps[k] != []
    ensures Interleave(gaps, QueryWords(q)) == Lower(q)
  {
    gaps := SplitRunsWords(Lower(q), IsNonWord);
  }

  /** A word is a query word exactly when it is a non-empty maximal `\w` run of the
      lower-cased query. */
  lemma QueryWordAt(q: string, w: string)
    ensures w in QueryWords(q) <==>
              exists a: nat, b: nat :: a < b && PieceAt(Lower(q), IsNonWord, a, b) && Lower(q)[a..b] == w
  {
    var s := Lower(q);
    var ps := SplitRuns(s, IsNonWord);
    if w in QueryWords(q) {
      var k :| 0 <= k < |ps| && ps[k] == w;
      var a, b := SplitRunsPieceAt(s, IsNonWord, k);
    }
    if a: nat, b: nat :| a < b && PieceAt(s, IsNonWord, a, b) && s[a..b] == w {
      PieceAtSplit(s, IsNonWord, a, b);
    }
  }

  /** Some query word occurs in the lower-cased sentence (script.js:282-283). */
  predicate Hit(words: seq<string>, s: string) {
    exists w :: w in words && Contains(Lower(s), w)
  }

  /** The points one note contributes, in sentence order. */
  function NoteMatches(sents: seq<string>, source: string, words: seq<string>): seq<Point>
    decreases |sents|
  {
    if sents == [] then []
    else
      var s := sents[|sents| - 1];
      NoteMatches(sents[..|sents| - 1], source, words) + (if Hit(words, s) then [Point(s, source)] else [])
  }

  /** The points note n contributes. */
  function NoteHits(n: Note, words: seq<string>): seq<Point> {
    NoteMatches(Split(Content(n)), n.name, words)
  }

  /** `matches` after the nested `forEach` over the pool and its sentences. */
  function PoolMatches(pool: seq<Note>, words: seq<string>): seq<Point> {
    FlatMap(pool, n => NoteHits(n, words))
  }

  /** What `generateFromNotes(q, subject)` answers. */
  function Retrieve(notes: seq<Note>, q: string, subject: Option<string>): Answer {
    var pool := Scope(notes, subject);
    if pool == [] then NoNotes(subject)
    else
      var matches := PoolMatches(pool, QueryWords(q));
      if matches != [] then Found(Take(matches, 4))
      else Fallback(TextSummary(Join(Contents(pool), "\n\n"), 4))
  }

  /** `n.content.split(...)` throws for a text record without content. */
  predicate Readable(n: Note) {
    n.kind == Txt ==> n.content.Some?
  }

  /** The inner `sents.forEach`: pushes the sentences that contain a query word. */
  method CollectMatches(matches: seq<Point>, sents: seq<string>, source: string, words: seq<string>)
    returns (r: seq<Point>)
    ensures r == matches + NoteMatches(sents, source, words)
  {
    r := matches;
    for j := 0 to |sents|
      invariant r == matches + NoteMatches(sents[..j], source, words)
    {
      var s := sents[j];
      assert sents[..j + 1][..j] == sents[..j];
      if Hit(words, s) {
        r := r + [Point(s, source)];
      }
    }
    assert sents[..|sents|] == sents;
  }

  /** The outer `pool.forEach`: the matches of every note in pool order. */
  method CollectPool(pool: seq<Note>, words: seq<string>) returns (matches: seq<Point>)
    requires forall n :: n in pool ==> n.content.Some?
    ensures matches == PoolMatches(pool, words)
  {
    matches := [];
    for i := 0 to |pool|
      invariant matches == PoolMatches(pool[..i], words)
    {
      var n := pool[i];
      PoolMatchesSnoc(pool, i, words);
      matches := CollectMatches(matches, Split(n.content.value), n.name, words);
    }
    assert pool[..|pool|] == pool;
  }

  /** `generateFromNotes(q, subject)`. */
  method GenerateFromNotes(notes: seq<Note>, q: string, subject: Option<string>) returns (a: Answer)
    requires forall n :: n in notes ==> Readable(n)
    ensures a == Retrieve(notes, q, subject)
  {
    var pool := Scope(notes, subject);
    if |pool| == 0 {
      return NoNotes(subject);
    }
    var words := QueryWords(q);
    var matches := CollectPool(pool, words);
    if |matches| > 0 {
      return Found(Take(matches, 4));
    }
    var summary := ShortTextSummary(Join(Contents(pool), "\n\n"), 4);
    a := Fallback(summary);
  }

  /** A note contributes exactly its sentences that contain a query word, tagged
      with its name. */
  lemma {:induction false} NoteMatchesExact(sents: seq<string>, source: string, words: seq<string>)
    ensures forall p :: p in NoteMatches(sents, source, words) <==>
              p.source == source && p.text in sents && Hit(words, p.text)
    decreases |sents|
  {
    if sents != [] {
      var init := sents[..|sents| - 1];
      NoteMatchesExact(init, source, words);
      assert sents == init + [sents[|sents| - 1]];
    }
  }

  /** Matches follow the note order: the matches of a pool are those of its first
      notes followed by those of the rest. */
  lemma PoolMatchesAppend(a: seq<Note>, b: seq<Note>, words: seq<string>)
    ensures PoolMatches(a + b, words) == PoolMatches(a, words) + PoolMatches(b, words)
  {
    FlatMapAppend(a, b, n => NoteHits(n, words));
  }

  lemma PoolMatchesSnoc(pool: seq<Note>, i: nat, words: seq<string>)
    requires i < |pool|
    ensures PoolMatches(pool[..i + 1], words) == PoolMatches(pool[..i], words) + NoteHits(pool[i], words)
  {
    FlatMapSnoc(pool, i, n => NoteHits(n, words));
  }

  /** Every match is a sentence of some note in the pool that contains a query word,
      tagged with that note's name. */
  lemma MatchSource(pool: seq<Note>, words: seq<string>, p: Point) returns (n: Note)
    requires p in PoolMatches(pool, words)
    ensures n in pool && n.name == p.source && p.text in Split(Content(n)) && Hit(words, p.text)
  {
    n := FlatMapSource(pool, n => NoteHits(n, words), p);
    NoteMatchesExact(Split(Content(n)), n.name, words);
  }

  /** Every sentence of a note in the pool that contains a query word is matched. */
  lemma MatchComplete(pool: seq<Note>, words: seq<string>, n: Note, s: string)
    requires n in pool && s in Split(Content(n)) && Hit(words, s)
    ensures Point(s, n.name) in PoolMatches(pool, words)
  {
    NoteMatchesExact(Split(Content(n)), n.name, words);
    FlatMapComplete(pool, n => NoteHits(n, words), n, Point(s, n.name));
  }

  /** No text note in scope gives the "no notes" answer, and only then. */
  lemma RetrieveNoNotes(notes: seq<Note>, q: string, subject: Option<string>)
    ensures Retrieve(notes, q, subject).NoNotes? <==> forall n :: n in notes ==> !InScope(subject, n)
    ensures Retrieve(notes, q, subject).NoNotes? ==> Retrieve(notes, q, subject).subject == subject
  {
    var pool := Scope(notes, subject);
    if pool != [] {
      assert pool[0] in pool;
    }
  }

  /** Some sentence of a note in scope contains a query word exactly when the
      answer lists matches. */
  lemma RetrieveFound(notes: seq<Note>, q: string, subject: Option<string>)
    ensures Retrieve(notes, q, subject).Found?
            <==> exists n, s :: n in Scope(notes, subject) && s in Split(Content(n)) && Hit(QueryWords(q), s)
  {
    var pool, words := Scope(notes, subject), QueryWords(q);
    if PoolMatches(pool, words) != [] {
      var n, s := SomeMatch(pool, words);
    }
    if n, s :| n in pool && s in Split(Content(n)) && Hit(words, s) {
      MatchComplete(pool, words, n, s);
    }
  }

  lemma SomeMatch(pool: seq<Note>, words: seq<string>) returns (n: Note, s: string)
    requires PoolMatches(pool, words) != []
    ensures n in pool && s in Split(Content(n)) && Hit(words, s)
  {
    var p := PoolMatches(pool, words)[0];
    n := MatchSource(pool, words, p);
    s := p.text;
  }

  /** A listing holds the first four matches in note-then-sentence order, or all of
      them when there are fewer, each a sentence of a note in scope that contains a query word, tagged
      with that note's name. */
  lemma RetrievePoints(notes: seq<Note>, q: string, subject: Option<string>)
    requires Retrieve(notes, q, subject).Found?
    ensures var a, pool := Retrieve(notes, q, subject), Scope(notes, subject);
      && 1 <= |a.points| <= 4
      && |a.points| == Min(4, |PoolMatches(pool, QueryWords(q))|)
      && a.points <= PoolMatches(pool, QueryWords(q))
      && forall p :: p in a.points ==>
           Hit(QueryWords(q), p.text)
           && exists n :: n in pool && n.name == p.source && p.text in Split(Content(n))
  {
    var pool, words := Scope(notes, subject), QueryWords(q);
    var m := PoolMatches(pool, words);
    var t := Take(m, 4);
    forall p | p in t
      ensures Hit(words, p.text) && exists n :: n in pool && n.name == p.source && p.text in Split(Content(n))
    {
      assert p in m;
      var n := MatchSource(pool, words, p);
    }
  }

  /** With notes in scope and no sentence containing a query word, the answer is the
      four-sentence summary of their contents joined by blank lines. */
  lemma RetrieveFallback(notes: seq<Note>, q: string, subject: Option<string>)
    ensures var a := Retrieve(notes, q, subject);
      && (a.Fallback? <==> Scope(notes, subject) != [] && !a.Found?)
      && (a.Fallback? ==> a.summary == TextSummary(Join(Contents(Scope(notes, subject)), "\n\n"), 4))
  {
  }

  const NoNotesPrefix := "No TXT notes found"
  const FoundPrefix := "Found relevant points " + "from your notes:\n\n"
  const FallbackPrefix := "Couldn't find exact sentence. " + "Here's a short summary from your notes:\n\n"

  /** `• ${m.text} (${m.source})`. */
  function Bullet(p: Point): string {
    "\U{2022} " + p.text + " (" + p.source + ")"
  }

  function Bullets(points: seq<Point>): (r: seq<string>)
    ensures |r| == |points|
  {
    if points == [] then [] else [Bullet(points[0])] + Bullets(points[1..])
  }

  /** The string `generateFromNotes` returns for each answer. */
  function Message(a: Answer): string {
    match a
    case NoNotes(subject) =>
      NoNotesPrefix
      + (if subject.Some? && subject.value != "" then " for subject " + subject.value else "")
      + ". Upload TXT files to enable notes-powered answers."
    case Found(points) =>
      FoundPrefix + Join(Bullets(points), "\n\n")
      + "\n\n(Use \"Make Short Notes\" or \"Generate Keywords\" for summaries)"
    case Fallback(summary) => FallbackPrefix + summary
  }

  lemma PrefixHead(p: string, m: string)
    requires p != "" && p <= m
    ensures m[0] == p[0]
  {
  }

  lemma PrefixOfSum(p: string, rest: string)
    ensures p <= p + rest
  {
    assert (p + rest)[..|p|] == p;
  }

  /** The three outcomes are told apart by their opening words. */
  lemma MessagePrefixes(a: Answer)
    ensures NoNotesPrefix <= Message(a) <==> a.NoNotes?
    ensures FoundPrefix <= Message(a) <==> a.Found?
    ensures FallbackPrefix <= Message(a) <==> a.Fallback?
  {
    var m := Message(a);
    assert NoNotesPrefix[0] == 'N';
    assert FoundPrefix[0] == 'F';
    assert FallbackPrefix[0] == 'C';
    var p := if a.NoNotes? then NoNotesPrefix else if a.Found? then FoundPrefix else FallbackPrefix;
    PrefixOfSum(p, m[|p|..]);
    assert m == p + m[|p|..];
    PrefixHead(p, m);
    if NoNotesPrefix <= m { PrefixHead(NoNotesPrefix, m); }
    if FoundPrefix <= m { PrefixHead(FoundPrefix, m); }
    if FallbackPrefix <= m { PrefixHead(FallbackPrefix, m); }
  }
}
