/** The tokenizer behind every keyword and score: lower-case the text, blank out
    everything outside `[a-z0-9\s]`, split on whitespace, and keep the words longer
    than two characters that the stop-word lookup does not hit. */
module Tokenizer {
  import opened Seqs
  import opened Text

  /** The own entries of the `stopwords` object literal. */
  const StopwordTable: set<string> :=
    {"the", "and", "for", "with", "that", "this", "from", "your", "are", "using",
     "use", "also", "have", "which", "such", "into", "there"}

  /** Properties every plain object inherits from `Object.prototype`; `stopwords[w]`
      is truthy for these names as well. */
  const PrototypeNames: set<string> :=
    {"constructor", "hasOwnProperty", "isPrototypeOf", "propertyIsEnumerable",
     "toString", "toLocaleString", "valueOf", "__proto__", "__defineGetter__",
     "__defineSetter__", "__lookupGetter__", "__lookupSetter__"}

  /** `stopwords[w]` is truthy. */
  predicate StopwordLookup(w: string) {
    w in StopwordTable || w in PrototypeNames
  }

  /** One character after `toLowerCase()` and `replace(/[^a-z0-9\s]/g, ' ')`. */
  function NormalizeChar(c: char): char {
    var l := LowerChar(c);
    if IsLowerAlnum(l) || IsSpace(l) then l else ' '
  }

  function Normalize(text: string): (r: string)
    ensures |r| == |text|
    ensures forall k :: 0 <= k < |r| ==> r[k] == NormalizeChar(text[k])
  {
    seq(|text|, k requires 0 <= k < |text| => NormalizeChar(text[k]))
  }

  /** The `filter` callback: longer than two characters and not a stop-word. */
  predicate Keep(w: string) {
    |w| > 2 && !StopwordLookup(w)
  }

  predicate IsLowerAlnumWord(w: string) {
    forall k :: 0 <= k < |w| ==> IsLowerAlnum(w[k])
  }

  /** `tokenize(text)`. */
  function Tokenize(text: string): seq<string> {
    Filter(SplitRuns(Normalize(text), IsSpace), Keep)
  }

  /** Of the inherited names only `constructor` is a lower-case alphanumeric word, so
      it is the one extra word the lookup drops. */
  lemma PrototypeQuirk(w: string)
    requires IsLowerAlnumWord(w)
    ensures StopwordLookup(w) <==> w in StopwordTable || w == "constructor"
  {
    InheritedNamesHaveCapitals();
  }

  lemma InheritedNamesHaveCapitals()
    ensures forall n :: n in PrototypeNames && n != "constructor" ==> !IsLowerAlnumWord(n)
  {
    assert !IsLowerAlnum("hasOwnProperty"[3]);
    assert !IsLowerAlnum("isPrototypeOf"[2]);
    assert !IsLowerAlnum("propertyIsEnumerable"[8]);
    assert !IsLowerAlnum("toString"[2]);
    assert !IsLowerAlnum("toLocaleString"[2]);
    assert !IsLowerAlnum("valueOf"[5]);
    assert !IsLowerAlnum("__proto__"[0]);
    assert !IsLowerAlnum("__defineGetter__"[0]);
    assert !IsLowerAlnum("__defineSetter__"[0]);
    assert !IsLowerAlnum("__lookupGetter__"[0]);
    assert !IsLowerAlnum("__lookupSetter__"[0]);
  }

  /** Every token is longer than two characters, consists of `[a-z0-9]` only, and is
      neither a stop-word nor `constructor`. */
  lemma TokenShape(text: string, t: string)
    requires t in Tokenize(text)
    ensures |t| > 2 && IsLowerAlnumWord(t)
    ensures t !in StopwordTable && t != "constructor"
  {
    var pieces := SplitRuns(Normalize(text), IsSpace);
    var n := Normalize(text);
    assert forall k :: 0 <= k < |n| ==> IsLowerAlnum(n[k]) || IsSpace(n[k]);
    var i :| 0 <= i < |pieces| && pieces[i] == t;
    forall k | 0 <= k < |t| ensures IsLowerAlnum(t[k]) {
      assert !IsSpace(pieces[i][k]);
      assert t[k] in n by {
        // every character of a piece is a character of the split string
        SplitRunsFrom(n, IsSpace, i, k);
      }
    }
    PrototypeQuirk(t);
  }

  /** A piece of `SplitRuns(s, p)` is made of characters of s. */
  lemma {:induction false} SplitRunsFrom(s: string, p: char -> bool, i: nat, k: nat)
    requires i < |SplitRuns(s, p)| && k < |SplitRuns(s, p)[i]|
    ensures SplitRuns(s, p)[i][k] in s
    decreases |s|
  {
    var f := FindFirst(s, p, 0);
    if f < |s| && i > 0 {
      var j := SkipRun(s, p, f);
      SplitRunsFrom(s[j..], p, i - 1, k);
    }
  }

  /** Every maximal run of non-whitespace in the normalized text that passes the
      length and stop-word filter is a token, and every token is such a run. */
  lemma TokenAt(text: string, w: string)
    ensures w in Tokenize(text) <==>
              Keep(w) && exists a: nat, b: nat :: PieceAt(Normalize(text), IsSpace, a, b) && Normalize(text)[a..b] == w
  {
    var n := Normalize(text);
    var ps := SplitRuns(n, IsSpace);
    if w in Tokenize(text) {
      var k :| 0 <= k < |ps| && ps[k] == w;
      var a, b := SplitRunsPieceAt(n, IsSpace, k);
    }
    if a: nat, b: nat :| PieceAt(n, IsSpace, a, b) && n[a..b] == w && Keep(w) {
      PieceAtSplit(n, IsSpace, a, b);
    }
  }

  /** Text without any ASCII letter or digit, in particular empty or all-whitespace
      text, has no tokens. */
  lemma NoAlnumNoTokens(text: string)
    requires forall k :: 0 <= k < |text| ==> !IsLowerAlnum(LowerChar(text[k]))
    ensures Tokenize(text) == []
  {
    var n := Normalize(text);
    assert forall k :: 0 <= k < |n| ==> IsSpace(n[k]);
    SplitRunsAllSeparators(n, IsSpace);
    var pieces := SplitRuns(n, IsSpace);
    FilterNone(pieces, Keep);
  }

  /** Normalization leaves lower-case letters, digits and spaces alone. */
  lemma NormalizePlain(s: string)
    requires forall k :: 0 <= k < |s| ==> IsLowerAlnum(s[k]) || s[k] == ' '
    ensures Normalize(s) == s
  {
  }

  /** Words joined by single spaces. */
  function JoinSpaced(ws: seq<string>): (r: string)
    ensures |ws| >= 1 ==> ws[0] <= r
  {
    if |ws| <= 1 then (if ws == [] then "" else ws[0])
    else ws[0] + [' '] + JoinSpaced(ws[1..])
  }

  /** Only the words' characters and spaces occur in the joined text. */
  lemma {:induction false} JoinSpacedPlain(ws: seq<string>)
    requires forall i :: 0 <= i < |ws| ==> IsLowerAlnumWord(ws[i])
    ensures forall k :: 0 <= k < |JoinSpaced(ws)| ==>
              IsLowerAlnum(JoinSpaced(ws)[k]) || JoinSpaced(ws)[k] == ' '
  {
    if |ws| > 1 {
      JoinSpacedPlain(ws[1..]);
      var w, rest := ws[0], JoinSpaced(ws[1..]);
      forall k | 0 <= k < |w + [' '] + rest|
        ensures IsLowerAlnum((w + [' '] + rest)[k]) || (w + [' '] + rest)[k] == ' '
      {
        if k > |w| {
          assert (w + [' '] + rest)[k] == rest[k - |w| - 1];
        }
      }
    }
  }

  /** Splitting the joined text on whitespace gives the words back. */
  lemma {:induction false} SplitJoined(ws: seq<string>)
    requires |ws| >= 1
    requires forall i :: 0 <= i < |ws| ==> ws[i] != [] && IsLowerAlnumWord(ws[i])
    ensures SplitRuns(JoinSpaced(ws), IsSpace) == ws
  {
    if |ws| == 1 {
      SplitRunsWord(ws[0], IsSpace);
    } else {
      var rest := JoinSpaced(ws[1..]);
      SplitJoined(ws[1..]);
      assert ws[1] <= rest && rest[0] == ws[1][0];
      SplitRunsCons(ws[0], ' ', rest, IsSpace);
      assert [ws[0]] + ws[1..] == ws;
    }
  }

  /** Lower-case words separated by single spaces tokenize to the words the filter
      keeps, in their order and with their repetitions. */
  lemma TokenizeJoined(ws: seq<string>)
    requires |ws| >= 1
    requires forall i :: 0 <= i < |ws| ==> ws[i] != [] && IsLowerAlnumWord(ws[i])
    ensures Tokenize(JoinSpaced(ws)) == Filter(ws, Keep)
  {
    JoinSpacedPlain(ws);
    NormalizePlain(JoinSpaced(ws));
    SplitJoined(ws);
  }

  lemma KeepThreeWords()
    ensures Filter(["cat", "cat", "dog"], Keep) == ["cat", "cat", "dog"]
  {
    assert Keep("cat") && Keep("dog");
    FilterAll(["cat", "cat", "dog"], Keep);
  }

  /** Three words, none of them a stop-word, are three tokens. */
  lemma TokenizeExample()
    ensures Tokenize("cat cat dog") == ["cat", "cat", "dog"]
  {
    var ws := ["cat", "cat", "dog"];
    assert JoinSpaced(ws) == "cat cat dog";
    TokenizeJoined(ws);
    KeepThreeWords();
  }
}
