/** The sentence splitter the source repeats inline:
    `text.split(/[.?!]\s+/).map(s => s.trim()).filter(Boolean)`, and the
    `join('.\n\n') + '.'` that renders a list of sentences. */
module Sentences {
  import opened Seqs
  import opened Text

  predicate IsTerminal(c: char) { c == '.' || c == '?' || c == '!' }

  /** A match of `/[.?!]\s+/` starts at i. */
  predicate BreakAt(s: string, i: nat) {
    i + 1 < |s| && IsTerminal(s[i]) && IsSpace(s[i + 1])
  }

  /** The leftmost match at or after `from`, or |s| when there is none. */
  function FindBreak(s: string, from: nat): (i: nat)
    requires from <= |s|
    ensures from <= i <= |s|
    ensures i < |s| ==> BreakAt(s, i)
    ensures forall k :: from <= k < i ==> !BreakAt(s, k)
    decreases |s| - from
  {
    if from == |s| || BreakAt(s, from) then from else FindBreak(s, from + 1)
  }

  /** `s.split(/[.?!]\s+/)`: the text between successive matches; each match is one
      terminal mark and the whole whitespace run after it. */
  function Pieces(s: string): (r: seq<string>)
    ensures |r| >= 1
    decreases |s|
  {
    var i := FindBreak(s, 0);
    if i == |s| then [s]
    else [s[..i]] + Pieces(s[SkipRun(s, IsSpace, i + 1)..])
  }

  /** The matches themselves, in order. */
  function Separators(s: string): seq<string>
    decreases |s|
  {
    var i := FindBreak(s, 0);
    if i == |s| then []
    else
      var j := SkipRun(s, IsSpace, i + 1);
      [s[i..j]] + Separators(s[j..])
  }

  /** A string that `/[.?!]\s+/` matches entirely. */
  predicate IsSeparator(t: string) {
    |t| >= 2 && IsTerminal(t[0]) && AllSpace(t[1..])
  }

  predicate NoBreak(p: string) {
    forall k :: 0 <= k < |p| ==> !BreakAt(p, k)
  }

  /** Splitting loses nothing and reorders nothing: the pieces, with the matched
      separators put back between them, are the text. */
  lemma {:induction false} PiecesReassemble(s: string)
    ensures |Pieces(s)| == |Separators(s)| + 1
    ensures Interleave(Pieces(s), Separators(s)) == s
    decreases |s|
  {
    var i := FindBreak(s, 0);
    if i < |s| {
      var j := SkipRun(s, IsSpace, i + 1);
      var rest := s[j..];
      PiecesReassemble(rest);
      var ps, seps := Pieces(s), Separators(s);
      assert ps == [s[..i]] + Pieces(rest);
      assert seps == [s[i..j]] + Separators(rest);
      assert ps[0] == s[..i] && seps[0] == s[i..j];
      assert ps[1..] == Pieces(rest) && seps[1..] == Separators(rest);
      assert Interleave(ps, seps) == s[..i] + s[i..j] + Interleave(Pieces(rest), Separators(rest));
      SplitThree(s, i, j);
    }
  }

  /** Every separator is one terminal mark followed by whitespace only. */
  lemma {:induction false} SeparatorsShape(s: string)
    ensures forall k :: 0 <= k < |Separators(s)| ==> IsSeparator(Separators(s)[k])
    decreases |s|
  {
    var i := FindBreak(s, 0);
    if i < |s| {
      var j := SkipRun(s, IsSpace, i + 1);
      SeparatorsShape(s[j..]);
      assert IsSeparator(s[i..j]);
    }
  }

  /** No piece contains a terminal mark followed by whitespace, and since each
      separator takes the whole whitespace run, no later piece starts with
      whitespace. */
  lemma {:induction false} PiecesShape(s: string)
    ensures forall k :: 0 <= k < |Pieces(s)| ==> NoBreak(Pieces(s)[k])
    ensures forall k :: 1 <= k < |Pieces(s)| ==> Pieces(s)[k] == [] || !IsSpace(Pieces(s)[k][0])
    decreases |s|
  {
    var i := FindBreak(s, 0);
    var ps := Pieces(s);
    if i < |s| {
      var j := SkipRun(s, IsSpace, i + 1);
      var rest := s[j..];
      PiecesShape(rest);
      assert ps == [s[..i]] + Pieces(rest);
      assert NoBreak(s[..i]) by {
        forall k | 0 <= k < i ensures !BreakAt(s[..i], k) {
          assert !BreakAt(s, k);
        }
      }
      PiecesStart(rest);
      forall k | 1 <= k < |ps| ensures ps[k] == [] || !IsSpace(ps[k][0]) {
        assert ps[k] == Pieces(rest)[k - 1];
      }
    } else {
      assert NoBreak(s) by {
        forall k | 0 <= k < |s| ensures !BreakAt(s, k) { }
      }
    }
  }

  /** The first piece is a prefix of the text. */
  lemma PiecesStart(s: string)
    ensures Pieces(s)[0] <= s
  {
  }

  function TrimAll(parts: seq<string>): (r: seq<string>)
    ensures |r| == |parts|
    ensures forall k :: 0 <= k < |r| ==> r[k] == Trim(parts[k])
  {
    seq(|parts|, k requires 0 <= k < |parts| => Trim(parts[k]))
  }

  /** `text.split(/[.?!]\s+/).map(s => s.trim()).filter(Boolean)`. */
  function Split(text: string): seq<string> {
    Filter(TrimAll(Pieces(text)), NonEmpty)
  }

  lemma NoBreakSlice(p: string, a: nat, b: nat)
    requires a <= b <= |p| && NoBreak(p)
    ensures NoBreak(p[a..b])
  {
    forall k | 0 <= k < b - a ensures !BreakAt(p[a..b], k) {
      assert !BreakAt(p, a + k);
    }
  }

  /** Every sentence is non-empty, starts and ends with a non-whitespace character,
      and contains no terminal mark followed by whitespace. */
  lemma SentenceShape(text: string, s: string)
    requires s in Split(text)
    ensures s != "" && !IsSpace(s[0]) && !IsSpace(s[|s| - 1])
    ensures NoBreak(s)
  {
    var ps := Pieces(text);
    var trimmed := TrimAll(ps);
    assert Split(text) == Filter(trimmed, NonEmpty);
    assert s in trimmed;
    var k :| 0 <= k < |trimmed| && trimmed[k] == s;
    assert s == Trim(ps[k]);
    TrimmedPieceNoBreak(text, k);
  }

  lemma TrimmedPieceNoBreak(text: string, k: nat)
    requires k < |Pieces(text)|
    ensures NoBreak(Trim(Pieces(text)[k]))
  {
    PiecesShape(text);
    var p := Pieces(text)[k];
    assert NoBreak(p);
    var a, b := TrimBounds(p);
    NoBreakSlice(p, a, b);
  }

  lemma PiecesLast(c: char)
    requires !IsSpace(c)
    ensures Pieces([c, '?']) == [[c, '?']]
  {
    assert !BreakAt([c, '?'], 0) && !BreakAt([c, '?'], 1);
    assert FindBreak([c, '?'], 0) == 2;
  }

  /** A sentence of one character, a terminal mark and a space, then the rest. */
  lemma PiecesFirst(b: char, m: char, rest: string)
    requires !IsSpace(b) && IsTerminal(m) && rest != [] && !IsSpace(rest[0])
    ensures Pieces([b, m, ' '] + rest) == [[b]] + Pieces(rest)
  {
    var t := [b, m, ' '] + rest;
    assert !BreakAt(t, 0) && BreakAt(t, 1);
    assert FindBreak(t, 0) == 1;
    assert SkipRun(t, IsSpace, 2) == 3;
    assert t[..1] == [b] && t[3..] == rest;
  }

  /** "A. B! C?" with the three letters as parameters. */
  function ThreeSentences(a: char, b: char, c: char): string {
    [a, '.', ' '] + ([b, '!', ' '] + [c, '?'])
  }

  lemma PiecesExample(a: char, b: char, c: char)
    requires !IsSpace(a) && !IsSpace(b) && !IsSpace(c)
    ensures Pieces(ThreeSentences(a, b, c)) == [[a], [b], [c, '?']]
  {
    PiecesLast(c);
    PiecesFirst(b, '!', [c, '?']);
    PiecesFirst(a, '.', [b, '!', ' '] + [c, '?']);
  }

  /** Pieces that are already trimmed and non-empty are the sentences. */
  lemma TrimAllTrimmed(parts: seq<string>)
    requires forall k :: 0 <= k < |parts| ==>
               parts[k] != "" && !IsSpace(parts[k][0]) && !IsSpace(parts[k][|parts[k]| - 1])
    ensures Filter(TrimAll(parts), NonEmpty) == parts
  {
    forall k | 0 <= k < |parts|
      ensures TrimAll(parts)[k] == parts[k]
    {
      TrimTrimmed(parts[k]);
    }
    assert TrimAll(parts) == parts;
    FilterAll(parts, NonEmpty);
  }

  /** The splitter on a small example, "A. B! C?" and its like: only the last
      sentence keeps its mark. */
  lemma SplitExample(a: char, b: char, c: char)
    requires !IsSpace(a) && !IsSpace(b) && !IsSpace(c)
    ensures Split(ThreeSentences(a, b, c)) == [[a], [b], [c, '?']]
  {
    PiecesExample(a, b, c);
    var ps := Pieces(ThreeSentences(a, b, c));
    assert ps[0] == [a] && ps[1] == [b] && ps[2] == [c, '?'];
    SplitTrimmed(ThreeSentences(a, b, c));
  }

  /** When every piece is already trimmed and non-empty, the pieces are the sentences. */
  lemma SplitTrimmed(text: string)
    requires forall k :: 0 <= k < |Pieces(text)| ==>
               var p := Pieces(text)[k]; p != "" && !IsSpace(p[0]) && !IsSpace(p[|p| - 1])
    ensures Split(text) == Pieces(text)
  {
    TrimAllTrimmed(Pieces(text));
  }

  /** `sentences.join('.\n\n') + '.'`. */
  function Render(sentences: seq<string>): string {
    Join(sentences, ".\n\n") + "."
  }
}
