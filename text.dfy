/** Characters and strings with the meaning JavaScript's string methods and regular
    expressions give them. Case mapping covers the ASCII letters only. */
module Text {
  import opened Seqs

  /** The class `\s` matches and `trim` removes: JavaScript's WhiteSpace and
      LineTerminator characters. */
  predicate IsSpace(c: char) {
    c == '\t' || c == '\n' || c == '\U{B}' || c == '\U{C}' || c == '\r' || c == ' '
    || c == '\U{A0}' || c == '\U{1680}' || ('\U{2000}' <= c <= '\U{200A}')
    || c == '\U{2028}' || c == '\U{2029}' || c == '\U{202F}' || c == '\U{205F}'
    || c == '\U{3000}' || c == '\U{FEFF}'
  }

  predicate IsDigit(c: char) { '0' <= c <= '9' }
  predicate IsUpper(c: char) { 'A' <= c <= 'Z' }

  /** The class `[a-z0-9]`. */
  predicate IsLowerAlnum(c: char) { 'a' <= c <= 'z' || IsDigit(c) }

  /** The class `\w`. */
  predicate IsWordChar(c: char) { IsLowerAlnum(c) || IsUpper(c) || c == '_' }

  /** The class `\W`. */
  predicate IsNonWord(c: char) { !IsWordChar(c) }

  function LowerChar(c: char): char {
    if IsUpper(c) then (c as int + 32) as char else c
  }

  /** `s.toLowerCase()`; the same length as s. */
  function Lower(s: string): (r: string)
    ensures |r| == |s|
  {
    seq(|s|, i requires 0 <= i < |s| => LowerChar(s[i]))
  }

  /** `s.includes(sub)`. */
  predicate Contains(s: string, sub: string)
    decreases |s|
  {
    sub <= s || (|s| > 0 && Contains(s[1..], sub))
  }

  predicate EndsWith(s: string, suffix: string) {
    |suffix| <= |s| && s[|s| - |suffix|..] == suffix
  }

  lemma SplitThree(s: string, i: nat, j: nat)
    requires i <= j <= |s|
    ensures s == s[..i] + s[i..j] + s[j..]
  {
    assert s[..j] == s[..i] + s[i..j];
    assert s == s[..j] + s[j..];
  }

  /** `parts.join(sep)`. */
  function Join(parts: seq<string>, sep: string): string {
    if |parts| == 0 then ""
    else if |parts| == 1 then parts[0]
    else parts[0] + sep + Join(parts[1..], sep)
  }

  predicate AllSpace(s: string) {
    forall k :: 0 <= k < |s| ==> IsSpace(s[k])
  }

  /** Drops leading whitespace: s is the dropped spaces followed by the result. */
  function TrimStart(s: string): (r: string)
    ensures |r| <= |s| && r == s[|s| - |r|..]
    ensures AllSpace(s[..|s| - |r|])
    ensures r != [] ==> !IsSpace(r[0])
  {
    if |s| > 0 && IsSpace(s[0]) then TrimStart(s[1..]) else s
  }

  /** Drops trailing whitespace: s is the result followed by the dropped spaces. */
  function TrimEnd(s: string): (r: string)
    ensures |r| <= |s| && r == s[..|r|]
    ensures AllSpace(s[|r|..])
    ensures r != [] ==> !IsSpace(r[|r| - 1])
  {
    if |s| > 0 && IsSpace(s[|s| - 1]) then
      var r := TrimEnd(s[..|s| - 1]);
      assert s[|r|..] == s[..|s| - 1][|r|..] + [s[|s| - 1]];
      r
    else s
  }

  /** `s.trim()`. */
  function Trim(s: string): (r: string)
    ensures r != [] ==> !IsSpace(r[0]) && !IsSpace(r[|r| - 1])
  {
    TrimEnd(TrimStart(s))
  }

  /** Trim leaves a string alone whose ends are not whitespace. */
  lemma TrimTrimmed(s: string)
    requires s != [] ==> !IsSpace(s[0]) && !IsSpace(s[|s| - 1])
    ensures Trim(s) == s
  {
    assert TrimStart(s) == s;
    assert TrimEnd(s) == s;
  }

  /** Trim removes the surrounding whitespace of s and nothing else. */
  lemma TrimBounds(s: string) returns (a: nat, b: nat)
    ensures a <= b <= |s| && Trim(s) == s[a..b]
    ensures AllSpace(s[..a]) && AllSpace(s[b..])
  {
    var t := TrimStart(s);
    var r := TrimEnd(t);
    a, b := |s| - |t|, |s| - |t| + |r|;
    assert r == s[a..b];
    assert s[b..] == t[|r|..];
  }

  /** Position of the first character at or after `from` satisfying p, or |s|. */
  function FindFirst(s: string, p: char -> bool, from: nat): (i: nat)
    requires from <= |s|
    ensures from <= i <= |s|
    ensures i < |s| ==> p(s[i])
    ensures forall k :: from <= k < i ==> !p(s[k])
    decreases |s| - from
  {
    if from == |s| || p(s[from]) then from else FindFirst(s, p, from + 1)
  }

  /** End of the run of characters satisfying p that starts at `from`. */
  function SkipRun(s: string, p: char -> bool, from: nat): (j: nat)
    requires from <= |s|
    ensures from <= j <= |s|
    ensures j < |s| ==> !p(s[j])
    ensures forall k :: from <= k < j ==> p(s[k])
    decreases |s| - from
  {
    if from == |s| || !p(s[from]) then from else SkipRun(s, p, from + 1)
  }

  /** `s.split(/P+/)` for a character class P: the pieces between maximal runs of P,
      with an empty first (last) piece when s starts (ends) with such a run. */
  function SplitRuns(s: string, p: char -> bool): (r: seq<string>)
    ensures |r| >= 1
    ensures forall k, j :: 0 <= k < |r| && 0 <= j < |r[k]| ==> !p(r[k][j])
    decreases |s|
  {
    var i := FindFirst(s, p, 0);
    if i == |s| then [s]
    else
      var j := SkipRun(s, p, i);
      [s[..i]] + SplitRuns(s[j..], p)
  }

  /** A string made only of separator characters splits into empty pieces. */
  lemma {:induction false} SplitRunsAllSeparators(s: string, p: char -> bool)
    requires forall k :: 0 <= k < |s| ==> p(s[k])
    ensures forall k :: 0 <= k < |SplitRuns(s, p)| ==> SplitRuns(s, p)[k] == ""
    decreases |s|
  {
    if s != [] {
      var j := SkipRun(s, p, 0);
      SplitRunsAllSeparators(s[j..], p);
    }
  }

  /** A string without separators is a single piece. */
  lemma SplitRunsWord(w: string, p: char -> bool)
    requires forall k :: 0 <= k < |w| ==> !p(w[k])
    ensures SplitRuns(w, p) == [w]
  {
    assert FindFirst(w, p, 0) == |w|;
  }

  /** A word, one separator and a rest that does not start with a separator split
      into the word followed by the pieces of the rest. */
  lemma SplitRunsCons(w: string, c: char, rest: string, p: char -> bool)
    requires forall k :: 0 <= k < |w| ==> !p(w[k])
    requires p(c) && rest != [] && !p(rest[0])
    ensures SplitRuns(w + [c] + rest, p) == [w] + SplitRuns(rest, p)
  {
    var s := w + [c] + rest;
    assert s[|w|] == c && s[|w| + 1] == rest[0];
    assert forall k :: 0 <= k < |w| ==> s[k] == w[k];
    var i := FindFirst(s, p, 0);
    assert i == |w|;
    assert SkipRun(s, p, i) == |w| + 1;
    assert s[..i] == w && s[|w| + 1..] == rest;
  }

  /** The `filter(Boolean)` callback on strings. */
  predicate NonEmpty(s: string) { s != "" }

  predicate AllOf(t: string, p: char -> bool) {
    forall k :: 0 <= k < |t| ==> p(t[k])
  }

  /** The parts with the separators put back between them. */
  function Interleave(parts: seq<string>, seps: seq<string>): string
    requires |parts| == |seps| + 1
  {
    if seps == [] then parts[0] else parts[0] + seps[0] + Interleave(parts[1..], seps[1..])
  }

  lemma InterleaveCons(part: string, sep: string, parts: seq<string>, seps: seq<string>)
    requires |parts| == |seps| + 1
    ensures Interleave([part] + parts, [sep] + seps) == part + sep + Interleave(parts, seps)
  {
    assert ([part] + parts)[1..] == parts && ([sep] + seps)[1..] == seps;
  }

  lemma InterleavePrepend(a: string, parts: seq<string>, seps: seq<string>)
    requires |parts| == |seps| + 1
    ensures Interleave([a + parts[0]] + parts[1..], seps) == a + Interleave(parts, seps)
  {
    var ps := [a + parts[0]] + parts[1..];
    assert ps[0] == a + parts[0] && ps[1..] == parts[1..];
  }

  /** One step of the split: the text before the first separator, then the pieces of
      what follows the first separator run. */
  lemma SplitRunsStep(s: string, p: char -> bool) returns (i: nat, j: nat)
    requires FindFirst(s, p, 0) < |s|
    ensures i == FindFirst(s, p, 0) && j == SkipRun(s, p, i) && i < j
    ensures SplitRuns(s, p) == [s[..i]] + SplitRuns(s[j..], p)
  {
    i := FindFirst(s, p, 0);
    j := SkipRun(s, p, i);
  }

  /** Only the first and the last piece of a split can be empty. */
  lemma {:induction false} SplitRunsInner(s: string, p: char -> bool)
    ensures forall k :: 0 < k < |SplitRuns(s, p)| - 1 ==> SplitRuns(s, p)[k] != []
    decreases |s|
  {
    if FindFirst(s, p, 0) < |s| {
      var i, j := SplitRunsStep(s, p);
      var rest := s[j..];
      var ps, qs := SplitRuns(s, p), SplitRuns(rest, p);
      SplitRunsInner(rest, p);
      if |qs| > 1 {
        assert rest != [] && !p(rest[0]);
        assert qs[0] == rest[..FindFirst(rest, p, 0)];
      }
      forall k | 0 < k < |ps| - 1 ensures ps[k] != [] {
        assert ps[k] == qs[k - 1];
      }
    }
  }

  /** A piece and a separator run in front of interleaved pieces and runs. */
  lemma RunsCons(piece: string, run: string, qs: seq<string>, more: seq<string>, p: char -> bool)
    requires |more| + 1 == |qs|
    requires forall k :: 0 <= k < |more| ==> more[k] != [] && AllOf(more[k], p)
    requires run != [] && AllOf(run, p)
    ensures forall k :: 0 <= k < |[run] + more| ==> ([run] + more)[k] != [] && AllOf(([run] + more)[k], p)
    ensures Interleave([piece] + qs, [run] + more) == piece + run + Interleave(qs, more)
  {
    InterleaveCons(piece, run, qs, more);
    assert forall k :: 0 < k < |[run] + more| ==> ([run] + more)[k] == more[k - 1];
  }

  /** Splitting loses nothing and reorders nothing: between successive pieces lies a
      non-empty run of separators, putting the runs back rebuilds s, and only the
      first and the last piece can be empty. */
  lemma {:induction false} SplitRunsRebuild(s: string, p: char -> bool) returns (runs: seq<string>)
    ensures |runs| + 1 == |SplitRuns(s, p)|
    ensures forall k :: 0 <= k < |runs| ==> runs[k] != [] && AllOf(runs[k], p)
    ensures Interleave(SplitRuns(s, p), runs) == s
    ensures forall k :: 0 < k < |SplitRuns(s, p)| - 1 ==> SplitRuns(s, p)[k] != []
    decreases |s|
  {
    SplitRunsInner(s, p);
    if FindFirst(s, p, 0) == |s| {
      runs := [];
    } else {
      var i, j := SplitRunsStep(s, p);
      var rest := s[j..];
      var more := SplitRunsRebuild(rest, p);
      var piece, run := s[..i], s[i..j];
      assert AllOf(run, p);
      RunsCons(piece, run, SplitRuns(rest, p), more, p);
      runs := [run] + more;
      SplitThree(s, i, j);
    }
  }

  /** `s[a..b]` holds no separator and is bordered by a separator or an end of s on
      each side: a place where `split(/P+/)` must put a piece. */
  predicate PieceAt(s: string, p: char -> bool, a: nat, b: nat) {
    a <= b <= |s| && (forall k :: a <= k < b ==> !p(s[k]))
    && (a == 0 || p(s[a - 1])) && (b == |s| || p(s[b]))
  }

  /** A place in the text after a separator is the same place in s. */
  lemma PieceAtUnshift(s: string, p: char -> bool, j: nat, a: nat, b: nat)
    requires 0 < j <= |s| && p(s[j - 1]) && PieceAt(s[j..], p, a, b)
    ensures PieceAt(s, p, a + j, b + j) && s[a + j..b + j] == s[j..][a..b]
  {
    var rest := s[j..];
    forall m | a + j <= m < b + j ensures !p(s[m]) {
      assert s[m] == rest[m - j];
    }
    assert a == 0 || s[a + j - 1] == rest[a - 1];
    assert b == |rest| || s[b + j] == rest[b];
  }

  /** A place in s that starts at or after position j is the same place in s[j..]
      when a separator precedes j. */
  lemma PieceAtShift(s: string, p: char -> bool, j: nat, a: nat, b: nat)
    requires PieceAt(s, p, a, b) && 0 < j <= a && p(s[j - 1])
    ensures PieceAt(s[j..], p, a - j, b - j) && s[j..][a - j..b - j] == s[a..b]
  {
    var rest := s[j..];
    forall m | a - j <= m < b - j ensures !p(rest[m]) {
      assert rest[m] == s[m + j];
    }
    assert a == j || rest[a - j - 1] == s[a - 1];
    assert b == |s| || rest[b - j] == s[b];
  }

  /** The first piece ends at the first separator, or at the end of s. */
  lemma SplitRunsFirst(s: string, p: char -> bool)
    ensures SplitRuns(s, p)[0] == s[..FindFirst(s, p, 0)]
    ensures PieceAt(s, p, 0, FindFirst(s, p, 0))
  {
  }

  /** Every piece of the split sits at such a place. */
  lemma {:induction false} SplitRunsPieceAt(s: string, p: char -> bool, k: nat) returns (a: nat, b: nat)
    requires k < |SplitRuns(s, p)|
    ensures PieceAt(s, p, a, b) && s[a..b] == SplitRuns(s, p)[k]
    decreases |s|, 1
  {
    if k == 0 {
      SplitRunsFirst(s, p);
      a, b := 0, FindFirst(s, p, 0);
    } else {
      a, b := SplitRunsPieceAtLater(s, p, k);
    }
  }

  lemma {:induction false} SplitRunsPieceAtLater(s: string, p: char -> bool, k: nat) returns (a: nat, b: nat)
    requires 0 < k < |SplitRuns(s, p)|
    ensures PieceAt(s, p, a, b) && s[a..b] == SplitRuns(s, p)[k]
    decreases |s|, 0
  {
    SplitRunsSingle(s, p);
    var i, j := SplitRunsStep(s, p);
    var rest := s[j..];
    var qs := SplitRuns(rest, p);
    var a', b' := SplitRunsPieceAt(rest, p, k - 1);
    var w := qs[k - 1];
    PieceAtUnshift(s, p, j, a', b');
    a, b := a' + j, b' + j;
    IndexTail(s[..i], qs, k);
    assert SplitRuns(s, p)[k] == w;
    assert s[a..b] == w;
  }

  lemma IndexTail(x: string, xs: seq<string>, k: nat)
    requires 0 < k <= |xs|
    ensures ([x] + xs)[k] == xs[k - 1]
  {
  }

  /** The split has a single piece exactly when s holds no separator. */
  lemma SplitRunsSingle(s: string, p: char -> bool)
    ensures FindFirst(s, p, 0) == |s| <==> |SplitRuns(s, p)| == 1
  {
  }

  /** A stretch starting before the first separator is the first piece. */
  lemma PieceAtFirst(s: string, p: char -> bool, a: nat, b: nat)
    requires a < b && PieceAt(s, p, a, b) && a < FindFirst(s, p, 0)
    ensures s[a..b] == SplitRuns(s, p)[0]
  {
    var f := FindFirst(s, p, 0);
    SplitRunsFirst(s, p);
    assert a == 0;
    assert b <= f by {
      assert f < |s| ==> p(s[f]);
    }
    assert b == f;
  }

  /** A stretch that does not start before the first separator starts after the
      first separator run. */
  lemma PieceAtAfterRun(s: string, p: char -> bool, a: nat, b: nat)
    requires a < b && PieceAt(s, p, a, b) && FindFirst(s, p, 0) <= a
    ensures SkipRun(s, p, FindFirst(s, p, 0)) <= a
  {
    assert !p(s[a]);
  }

  /** Every non-empty stretch at such a place is a piece of the split. */
  lemma {:induction false} PieceAtSplit(s: string, p: char -> bool, a: nat, b: nat)
    requires a < b && PieceAt(s, p, a, b)
    ensures s[a..b] in SplitRuns(s, p)
    decreases |s|, 1
  {
    if a < FindFirst(s, p, 0) {
      PieceAtFirst(s, p, a, b);
    } else {
      PieceAtSplitLater(s, p, a, b);
    }
  }

  lemma {:induction false} PieceAtSplitLater(s: string, p: char -> bool, a: nat, b: nat)
    requires a < b && PieceAt(s, p, a, b) && FindFirst(s, p, 0) <= a
    ensures s[a..b] in SplitRuns(s, p)
    decreases |s|, 0
  {
    PieceAtAfterRun(s, p, a, b);
    var i, j := SplitRunsStep(s, p);
    var rest := s[j..];
    PieceAtShift(s, p, j, a, b);
    PieceAtSplit(rest, p, a - j, b - j);
    var w, qs := s[a..b], SplitRuns(rest, p);
    assert w in qs;
    assert w in [s[..i]] + qs;
  }

  /** gaps can stand before, between and after the words ws: one more gap than
      words, separators only, and only the outer ones empty. */
  predicate GapsFor(gaps: seq<string>, ws: seq<string>, p: char -> bool) {
    |gaps| == |ws| + 1
    && (forall k :: 0 <= k < |gaps| ==> AllOf(gaps[k], p))
    && (forall k :: 0 < k < |gaps| - 1 ==> gaps[k] != [])
  }

  lemma AllOfAppend(x: string, y: string, p: char -> bool)
    requires AllOf(x, p) && AllOf(y, p)
    ensures AllOf(x + y, p)
  {
    forall m | 0 <= m < |x + y| ensures p((x + y)[m]) {
      if m >= |x| {
        assert (x + y)[m] == y[m - |x|];
      }
    }
  }

  /** A leading word, possibly empty, and a separator run in front of gapped words. */
  lemma GapsCons(word: string, sep: string, g: seq<string>, ws: seq<string>, p: char -> bool)
    returns (gaps: seq<string>)
    requires GapsFor(g, ws, p) && sep != [] && AllOf(sep, p)
    ensures GapsFor(gaps, (if word == "" then [] else [word]) + ws, p)
    ensures Interleave(gaps, (if word == "" then [] else [word]) + ws) == word + sep + Interleave(g, ws)
  {
    var h := [sep + g[0]] + g[1..];
    InterleavePrepend(sep, g, ws);
    AllOfAppend(sep, g[0], p);
    assert forall k :: 0 < k < |h| ==> h[k] == g[k];
    if word == "" {
      gaps := h;
      assert word + sep == sep && [] + ws == ws;
    } else {
      gaps := [""] + h;
      var ws' := [word] + ws;
      assert ws' == (if word == "" then [] else [word]) + ws;
      InterleaveCons("", word, h, ws);
      forall k | 0 < k < |gaps| - 1 ensures gaps[k] != [] {
        assert gaps[k] == h[k - 1];
      }
    }
  }

  /** The non-empty pieces are exactly the maximal runs of non-separators, in order:
      with the separator runs before, between and after them put back (empty only at
      the ends), they rebuild s. */
  lemma {:induction false} SplitRunsWords(s: string, p: char -> bool) returns (gaps: seq<string>)
    ensures |gaps| == |Filter(SplitRuns(s, p), NonEmpty)| + 1
    ensures forall k :: 0 <= k < |gaps| ==> AllOf(gaps[k], p)
    ensures forall k :: 0 < k < |gaps| - 1 ==> gaps[k] != []
    ensures Interleave(gaps, Filter(SplitRuns(s, p), NonEmpty)) == s
    decreases |s|
  {
    if FindFirst(s, p, 0) == |s| {
      gaps := SplitRunsWordsNone(s, p);
    } else {
      var i, j := SplitRunsStep(s, p);
      var rest := s[j..];
      var g := SplitRunsWords(rest, p);
      var word, run := s[..i], s[i..j];
      assert AllOf(run, p);
      FilterCons(word, SplitRuns(rest, p), NonEmpty);
      gaps := GapsCons(word, run, g, Filter(SplitRuns(rest, p), NonEmpty), p);
      SplitThree(s, i, j);
    }
  }

  lemma SplitRunsWordsNone(s: string, p: char -> bool) returns (gaps: seq<string>)
    requires FindFirst(s, p, 0) == |s|
    ensures GapsFor(gaps, Filter(SplitRuns(s, p), NonEmpty), p)
    ensures Interleave(gaps, Filter(SplitRuns(s, p), NonEmpty)) == s
  {
    assert SplitRuns(s, p) == [s];
    if s == [] {
      gaps := [""];
      assert Filter([s], NonEmpty) == [];
    } else {
      gaps := ["", ""];
      assert Filter([s], NonEmpty) == [s];
      assert Interleave(gaps, [s]) == "" + s + Interleave([""], []);
    }
  }

  /** `s.split(c)` for a single character c (no merging of neighbouring separators). */
  function SplitOnChar(s: string, c: char): seq<string>
    decreases |s|
  {
    var i := FindFirst(s, x => x == c, 0);
    if i == |s| then [s] else [s[..i]] + SplitOnChar(s[i + 1..], c)
  }

  /** `s.split(c).length` is one more than the number of occurrences of c. */
  lemma {:induction false} SplitOnCharLength(s: string, c: char)
    ensures |SplitOnChar(s, c)| == multiset(s)[c] + 1
    decreases |s|
  {
    var i := FindFirst(s, x => x == c, 0);
    if i == |s| {
      assert c !in s;
    } else {
      SplitOnCharLength(s[i + 1..], c);
      assert s == s[..i] + [c] + s[i + 1..];
      assert c !in s[..i];
    }
  }
}
