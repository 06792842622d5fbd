/** Keyword ranking: a frequency table over the tokens, its keys in the order
    `Object.keys` enumerates them, sorted by descending count, first twelve kept. */
module Keywords {
  import opened Seqs
  import opened Text
  import opened Tokenizer
  import opened Ranking
  import opened Notes

  /** How many times w occurs among the tokens. */
  function Count(tokens: seq<string>, w: string): nat {
    multiset(tokens)[w]
  }

  /** Every token mapped to its number of occurrences. */
  function Frequencies(tokens: seq<string>): map<string, nat> {
    map w | w in tokens :: Count(tokens, w)
  }

  /** `freq[w] || 0` on the table's own properties. No token names an inherited
      property of `Object.prototype` (see `Tokenizer.TokenShape`), so own properties are
      all a lookup can hit. */
  function Lookup(freq: map<string, nat>, w: string): nat {
    if w in freq then freq[w] else 0
  }

  lemma FrequenciesAppend(xs: seq<string>, x: string)
    ensures Frequencies(xs + [x]) == Frequencies(xs)[x := Lookup(Frequencies(xs), x) + 1]
  {
    var m, m' := Frequencies(xs), Frequencies(xs + [x]);
    assert multiset(xs + [x]) == multiset(xs) + multiset{x};
    assert forall w :: w in xs + [x] <==> w in xs || w == x;
    assert m'.Keys == m.Keys + {x};
  }

  /** The frequency table (script.js:308-309): each token's number of occurrences,
      and the keys in the order the object acquires them. */
  method CountTokens(tok: seq<string>) returns (freq: map<string, nat>, keys: seq<string>)
    ensures freq == Frequencies(tok)
    ensures keys == Dedup(tok)
  {
    freq, keys := map[], [];
    for i := 0 to |tok|
      invariant freq == Frequencies(tok[..i])
      invariant keys == Dedup(tok[..i])
    {
      var w := tok[i];
      assert tok[..i + 1] == tok[..i] + [w];
      assert (tok[..i] + [w])[..i] == tok[..i];
      FrequenciesAppend(tok[..i], w);
      if w !in freq {
        keys := keys + [w];
      }
      freq := freq[w := Lookup(freq, w) + 1];
    }
    assert tok[..|tok|] == tok;
  }

  function DigitValue(c: char): nat {
    if IsDigit(c) then c as int - '0' as int else 0
  }

  predicate IsDigits(w: string) {
    forall k :: 0 <= k < |w| ==> IsDigit(w[k])
  }

  function DecimalValue(w: string): nat
    decreases |w|
  {
    if w == "" then 0 else 10 * DecimalValue(w[..|w| - 1]) + DigitValue(w[|w| - 1])
  }

  /** A key that is the canonical decimal form of an integer below 2^32 - 1: an array
      index, which objects enumerate before their other keys, in numeric order. */
  predicate IsArrayIndex(w: string) {
    w != "" && IsDigits(w) && (w[0] != '0' || |w| == 1) && DecimalValue(w) < 0xFFFF_FFFF
  }

  predicate IsNamedKey(w: string) { !IsArrayIndex(w) }

  /** Sort key putting smaller numbers first. */
  function Ascending(w: string): real {
    -(DecimalValue(w) as real)
  }

  /** The array-index keys, in ascending numeric order. */
  function IndexKeys(keys: seq<string>): seq<string> {
    var indices := Filter(keys, IsArrayIndex);
    TopBy(indices, Ascending, |indices|)
  }

  /** `Object.keys` of an object whose properties were created in the given order:
      the array indices in ascending numeric order, then the other keys in creation
      order. */
  function PropertyOrder(keys: seq<string>): seq<string> {
    IndexKeys(keys) + Filter(keys, IsNamedKey)
  }

  /** `Object.keys(freq)` for the table of the tokens. */
  function KeyOrder(tokens: seq<string>): seq<string> {
    PropertyOrder(Dedup(tokens))
  }

  /** `Object.keys(freq).sort((a, b) => freq[b] - freq[a]).slice(0, n)`. */
  function TopKeywords(tokens: seq<string>, n: nat): seq<string> {
    TopBy(KeyOrder(tokens), w => Count(tokens, w) as real, n)
  }

  function Pow10(e: nat): nat {
    if e == 0 then 1 else 10 * Pow10(e - 1)
  }

  lemma {:induction false} DecimalBelow(w: string)
    requires IsDigits(w)
    ensures DecimalValue(w) < Pow10(|w|)
    decreases |w|
  {
    if w != "" {
      DecimalBelow(w[..|w| - 1]);
    }
  }

  lemma {:induction false} DecimalAbove(w: string)
    requires IsDigits(w) && |w| >= 2 && w[0] != '0'
    ensures DecimalValue(w) >= Pow10(|w| - 1)
    decreases |w|
  {
    var init := w[..|w| - 1];
    if |init| >= 2 {
      DecimalAbove(init);
    } else {
      assert DecimalValue(init) == DecimalValue("") * 10 + DigitValue(init[0]);
    }
  }

  lemma DivTen(p1: nat, d1: nat, p2: nat, d2: nat)
    requires d1 < 10 && d2 < 10 && 10 * p1 + d1 == 10 * p2 + d2
    ensures p1 == p2 && d1 == d2
  {
  }

  lemma {:induction false} SameLengthDecimal(a: string, b: string)
    requires IsDigits(a) && IsDigits(b) && |a| == |b|
    requires DecimalValue(a) == DecimalValue(b)
    ensures a == b
    decreases |a|
  {
    if a != "" {
      var ia, ib := a[..|a| - 1], b[..|b| - 1];
      DivTen(DecimalValue(ia), DigitValue(a[|a| - 1]), DecimalValue(ib), DigitValue(b[|b| - 1]));
      SameLengthDecimal(ia, ib);
      assert a == ia + [a[|a| - 1]] && b == ib + [b[|b| - 1]];
    }
  }

  lemma Pow10Monotone(i: nat, j: nat)
    requires i <= j
    ensures Pow10(i) <= Pow10(j)
    decreases j
  {
    if i < j {
      Pow10Monotone(i, j - 1);
    }
  }

  /** Distinct array indices have distinct numeric values. */
  lemma ArrayIndexInjective(a: string, b: string)
    requires IsArrayIndex(a) && IsArrayIndex(b) && DecimalValue(a) == DecimalValue(b)
    ensures a == b
  {
    if |a| < |b| {
      DecimalBelow(a);
      DecimalAbove(b);
      Pow10Monotone(|a|, |b| - 1);
    } else if |b| < |a| {
      DecimalBelow(b);
      DecimalAbove(a);
      Pow10Monotone(|b|, |a| - 1);
    } else {
      SameLengthDecimal(a, b);
    }
  }

  lemma IndexKeysProperties(keys: seq<string>)
    requires NoDuplicates(keys)
    ensures forall x :: x in IndexKeys(keys) <==> x in keys && IsArrayIndex(x)
    ensures forall i, j :: 0 <= i < j < |IndexKeys(keys)| ==>
              DecimalValue(IndexKeys(keys)[i]) < DecimalValue(IndexKeys(keys)[j])
  {
    var ints := Filter(keys, IsArrayIndex);
    var sorted := IndexKeys(keys);
    var idx := TopByProperties(ints, Ascending, |ints|);
    TopByAll(ints, Ascending, |ints|);
    FilterNoDuplicates(keys, IsArrayIndex);
    forall i, j | 0 <= i < j < |sorted|
      ensures DecimalValue(sorted[i]) < DecimalValue(sorted[j])
    {
      assert sorted[i] == ints[idx[i]] && sorted[j] == ints[idx[j]];
      assert sorted[i] in ints && sorted[j] in ints;
      assert idx[i] != idx[j];
      if DecimalValue(sorted[i]) == DecimalValue(sorted[j]) {
        ArrayIndexInjective(sorted[i], sorted[j]);
      }
    }
  }

  /** `Object.keys` enumerates every property once. */
  lemma PropertyOrderPermutes(keys: seq<string>)
    requires NoDuplicates(keys)
    ensures forall x :: x in PropertyOrder(keys) <==> x in keys
    ensures NoDuplicates(PropertyOrder(keys))
  {
    var sorted, named := IndexKeys(keys), Filter(keys, IsNamedKey);
    var r := PropertyOrder(keys);
    IndexKeysProperties(keys);
    FilterNoDuplicates(keys, IsNamedKey);
    forall i, j | 0 <= i < j < |r| ensures r[i] != r[j] {
      var s := |sorted|;
      if j < s {
        assert r[i] == sorted[i] && r[j] == sorted[j];
      } else if i >= s {
        assert r[i] == named[i - s] && r[j] == named[j - s];
      } else {
        assert r[i] == sorted[i] && r[i] in sorted;
        assert r[j] == named[j - s] && r[j] in named;
      }
    }
  }

  /** x may come before y in `Object.keys` order: array indices come first, in
      ascending numeric order, and the other keys keep their creation order. */
  predicate KeyOrdered(keys: seq<string>, x: string, y: string) {
    && (IsArrayIndex(y) ==> IsArrayIndex(x))
    && (IsArrayIndex(x) && IsArrayIndex(y) ==> DecimalValue(x) < DecimalValue(y))
    && (IsNamedKey(x) && IsNamedKey(y) && x in keys && y in keys ==> FirstIndex(keys, x) < FirstIndex(keys, y))
  }

  /** Any two keys `Object.keys` lists are listed in that order. */
  lemma PropertyOrderOrdered(keys: seq<string>, i: nat, j: nat)
    requires NoDuplicates(keys) && i < j < |PropertyOrder(keys)|
    ensures PropertyOrder(keys)[i] in keys && PropertyOrder(keys)[j] in keys
    ensures KeyOrdered(keys, PropertyOrder(keys)[i], PropertyOrder(keys)[j])
  {
    var s := |IndexKeys(keys)|;
    if j < s {
      IndexPair(keys, i, j);
    } else if i >= s {
      FilterOrderAfter(IndexKeys(keys), keys, IsNamedKey, i, j);
    } else {
      MixedPair(keys, i, j - s);
      assert PropertyOrder(keys)[s + (j - s)] == PropertyOrder(keys)[j];
    }
  }

  lemma IndexPair(keys: seq<string>, i: nat, j: nat)
    requires NoDuplicates(keys) && i < j < |IndexKeys(keys)|
    ensures PropertyOrder(keys)[i] in keys && PropertyOrder(keys)[j] in keys
    ensures KeyOrdered(keys, PropertyOrder(keys)[i], PropertyOrder(keys)[j])
  {
    var a := IndexKeys(keys);
    IndexKeysProperties(keys);
    assert PropertyOrder(keys)[i] == a[i] && PropertyOrder(keys)[j] == a[j];
    assert a[i] in a && a[j] in a;
  }

  lemma MixedPair(keys: seq<string>, i: nat, j: nat)
    requires NoDuplicates(keys) && i < |IndexKeys(keys)| && j < |Filter(keys, IsNamedKey)|
    ensures var s := |IndexKeys(keys)|;
      && PropertyOrder(keys)[i] in keys && PropertyOrder(keys)[s + j] in keys
      && KeyOrdered(keys, PropertyOrder(keys)[i], PropertyOrder(keys)[s + j])
  {
    var a, b := IndexKeys(keys), Filter(keys, IsNamedKey);
    var x, y := a[i], b[j];
    assert x in a && y in b;
    IndexKeysProperties(keys);
    assert x in keys && IsArrayIndex(x);
    assert y in keys && !IsArrayIndex(y);
    assert KeyOrdered(keys, x, y);
    assert PropertyOrder(keys)[i] == x && PropertyOrder(keys)[|a| + j] == y;
  }

  /** The top n keywords are min(n, number of distinct tokens) distinct tokens, and
      when fewer than n are kept every token is kept. */
  lemma TopKeywordsChosen(tokens: seq<string>, n: nat)
    ensures |TopKeywords(tokens, n)| == Min(n, |set w | w in tokens|)
    ensures NoDuplicates(TopKeywords(tokens, n))
    ensures forall w :: w in TopKeywords(tokens, n) ==> w in tokens
    ensures |TopKeywords(tokens, n)| < n ==> forall w :: w in tokens ==> w in TopKeywords(tokens, n)
  {
    var ko := KeyOrder(tokens);
    var f: string -> real := w => Count(tokens, w) as real;
    var r := TopKeywords(tokens, n);
    PropertyOrderPermutes(Dedup(tokens));
    NoDuplicatesCard(ko);
    assert (set w | w in ko) == (set w | w in tokens);
    TopByDistinct(ko, f, n);
  }

  /** The top n keywords are in non-increasing order of count, and no token left out
      occurs more often than one kept. */
  lemma TopKeywordsRanked(tokens: seq<string>, n: nat)
    ensures forall a, b :: 0 <= a < b < |TopKeywords(tokens, n)| ==>
              Count(tokens, TopKeywords(tokens, n)[a]) >= Count(tokens, TopKeywords(tokens, n)[b])
    ensures forall w, a :: w in tokens && w !in TopKeywords(tokens, n) && 0 <= a < |TopKeywords(tokens, n)| ==>
              Count(tokens, w) <= Count(tokens, TopKeywords(tokens, n)[a])
  {
    var ko := KeyOrder(tokens);
    var f: string -> real := w => Count(tokens, w) as real;
    var r := TopKeywords(tokens, n);
    PropertyOrderPermutes(Dedup(tokens));
    var idx := TopByProperties(ko, f, n);
    forall a, b | 0 <= a < b < |r| ensures f(r[a]) >= f(r[b]) {
      assert r[a] == ko[idx[a]] && r[b] == ko[idx[b]];
    }
    forall w, a | w in tokens && w !in r && 0 <= a < |r| ensures f(w) <= f(r[a]) {
      assert w in ko;
      var i :| 0 <= i < |ko| && ko[i] == w;
      assert r[a] == ko[idx[a]];
    }
  }

  /** Ties between equal counts: array-index tokens before the others, array indices
      in ascending numeric order, the other tokens in order of first occurrence. */
  lemma TopKeywordsTies(tokens: seq<string>, n: nat)
    ensures forall a, b :: 0 <= a < b < |TopKeywords(tokens, n)| ==>
              var x, y := TopKeywords(tokens, n)[a], TopKeywords(tokens, n)[b];
              Count(tokens, x) == Count(tokens, y) ==>
                && x in tokens && y in tokens
                && (IsArrayIndex(y) ==> IsArrayIndex(x))
                && (IsArrayIndex(x) && IsArrayIndex(y) ==> DecimalValue(x) < DecimalValue(y))
                && (IsNamedKey(x) && IsNamedKey(y) ==> FirstIndex(tokens, x) < FirstIndex(tokens, y))
  {
    var d := Dedup(tokens);
    var ko := KeyOrder(tokens);
    var f: string -> real := w => Count(tokens, w) as real;
    var r := TopKeywords(tokens, n);
    PropertyOrderPermutes(d);
    DedupFirstOccurrence(tokens);
    var idx := TopByProperties(ko, f, n);
    forall a, b | 0 <= a < b < |r| && Count(tokens, r[a]) == Count(tokens, r[b])
      ensures r[a] in tokens && r[b] in tokens
      ensures IsArrayIndex(r[b]) ==> IsArrayIndex(r[a])
      ensures IsArrayIndex(r[a]) && IsArrayIndex(r[b]) ==> DecimalValue(r[a]) < DecimalValue(r[b])
      ensures IsNamedKey(r[a]) && IsNamedKey(r[b]) ==> FirstIndex(tokens, r[a]) < FirstIndex(tokens, r[b])
    {
      var x, y := r[a], r[b];
      assert x == ko[idx[a]] && y == ko[idx[b]];
      assert f(x) == f(y);
      assert idx[a] < idx[b];
      PropertyOrderOrdered(d, idx[a], idx[b]);
      if IsNamedKey(x) && IsNamedKey(y) {
        var i, j := FirstIndex(d, x), FirstIndex(d, y);
        assert i < j;
        assert FirstIndex(tokens, d[i]) < FirstIndex(tokens, d[j]);
      }
    }
  }

  /** `generateKeywordsForAllFromText(text)`. */
  method KeywordsFromText(text: string) returns (r: seq<string>)
    ensures r == TopKeywords(Tokenize(text), 12)
  {
    var tok := Tokenize(text);
    var freq, created := CountTokens(tok);
    var keys := PropertyOrder(created);
    var byTable: string -> real := w => Lookup(freq, w) as real;
    var byCount: string -> real := w => Count(tok, w) as real;
    assert Keys(keys, byTable) == Keys(keys, byCount) by {
      PropertyOrderPermutes(created);
    }
    r := TopBy(keys, byTable, 12);
  }

  const NoParsableText := "(no parsable text)"

  /** What `generateKeywords(note)` returns. */
  function NoteKeywords(note: Note): seq<string> {
    if !HasText(note) then [NoParsableText] else TopKeywords(Tokenize(note.content.value), 12)
  }

  /** `generateKeywords(note)`. */
  method GenerateKeywords(note: Note) returns (r: seq<string>)
    ensures r == NoteKeywords(note)
  {
    if note.kind != Txt || note.content.None? || note.content.value == "" {
      return [NoParsableText];
    }
    r := KeywordsFromText(note.content.value);
  }

  /** The sentinel is returned exactly for notes without text: it is not a token. */
  lemma NoteKeywordsSentinel(note: Note)
    ensures NoteKeywords(note) == [NoParsableText] <==> !HasText(note)
  {
    if HasText(note) && NoteKeywords(note) == [NoParsableText] {
      var tokens := Tokenize(note.content.value);
      TopKeywordsChosen(tokens, 12);
      assert NoParsableText in TopKeywords(tokens, 12);
      TokenShape(note.content.value, NoParsableText);
    }
  }

  /** What the effective `generateKeywordsForAll()` returns over the notes. */
  function AllKeywords(notes: seq<Note>): seq<string> {
    var pool := TextPool(notes, " ");
    if pool == "" then [] else TopKeywords(Tokenize(pool), 12)
  }

  /** `generateKeywordsForAll()`, the later of its two declarations. */
  method KeywordsForAll(notes: seq<Note>) returns (r: seq<string>)
    ensures r == AllKeywords(notes)
  {
    var pool := TextPool(notes, " ");
    if pool == "" {
      return [];
    }
    r := KeywordsFromText(pool);
  }

  /** No keywords exactly when the space-joined text pool has no tokens, in particular
      when no note has text. */
  lemma AllKeywordsEmpty(notes: seq<Note>)
    ensures AllKeywords(notes) == [] <==> Tokenize(TextPool(notes, " ")) == []
    ensures (forall n :: n in notes ==> !HasText(n)) ==> AllKeywords(notes) == []
  {
    var pool := TextPool(notes, " ");
    TextPoolEmpty(notes, " ");
    var tokens := Tokenize(pool);
    TopKeywordsChosen(tokens, 12);
    if tokens != [] {
      assert tokens[0] in tokens;
    }
    if pool == "" {
      assert SplitRuns(pool, IsSpace) == [""];
    }
  }

  /** The combined keywords are at most twelve distinct tokens of the pooled text. */
  lemma AllKeywordsShape(notes: seq<Note>)
    ensures |AllKeywords(notes)| <= 12 && NoDuplicates(AllKeywords(notes))
    ensures forall w :: w in AllKeywords(notes) ==> w in Tokenize(TextPool(notes, " ")) && |w| > 2
  {
    var pool := TextPool(notes, " ");
    if pool != "" {
      TopKeywordsChosen(Tokenize(pool), 12);
      forall w | w in AllKeywords(notes)
        ensures |w| > 2
      {
        TokenShape(pool, w);
      }
    }
  }

  lemma ExampleCounts()
    ensures (set w | w in ["cat", "cat", "dog"]) == {"cat", "dog"}
    ensures |{"cat", "dog"}| == 2
    ensures Count(["cat", "cat", "dog"], "cat") == 2 && Count(["cat", "cat", "dog"], "dog") == 1
  {
    var tokens := ["cat", "cat", "dog"];
    assert multiset(tokens) == multiset{"cat", "cat", "dog"};
  }

  lemma ExampleMembers()
    ensures var r := TopKeywords(["cat", "cat", "dog"], 12);
      |r| == 2 && "cat" in r && "dog" in r
  {
    ExampleCounts();
    TopKeywordsChosen(["cat", "cat", "dog"], 12);
  }

  lemma ExampleOrder()
    ensures var r := TopKeywords(["cat", "cat", "dog"], 12);
      |r| == 2 ==> r[0] != "dog"
  {
    ExampleCounts();
    TopKeywordsRanked(["cat", "cat", "dog"], 12);
  }

  lemma TwoOf(r: seq<string>, x: string, y: string)
    requires |r| == 2 && x in r && y in r && x != y && r[0] != y
    ensures r == [x, y]
  {
  }

  lemma ExampleTokens()
    ensures TopKeywords(["cat", "cat", "dog"], 12) == ["cat", "dog"]
  {
    ExampleMembers();
    ExampleOrder();
    TwoOf(TopKeywords(["cat", "cat", "dog"], 12), "cat", "dog");
  }

  /** `"cat cat dog"` ranks `cat` before `dog`. */
  lemma KeywordsExample()
    ensures TopKeywords(Tokenize("cat cat dog"), 12) == ["cat", "dog"]
  {
    TokenizeExample();
    ExampleTokens();
  }
}
