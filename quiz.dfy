/** The test generator behind `generateTest()`: it picks eligible sentences from the
    text notes, turns them into fill-in-the-blank or short-answer questions, builds
    the multiple-choice options, and grades the replies. Every `Math.random()` call
    is an injected draw. */
module Quiz {
  import opened Wrappers
  import opened Seqs
  import opened Text
  import opened Tokenizer
  import opened Sentences
  import opened Notes
  import opened Keywords
  import opened Escape

  /** A candidate question: a sentence and the subject of the note it comes from. */
  datatype Item = Item(text: string, source: string)

  // ---- Sentence selection ----

  /** `s.split(' ').length > 5`. */
  predicate Eligible(s: string) {
    |SplitOnChar(s, ' ')| > 5
  }

  /** A sentence is eligible exactly when it holds at least five spaces. */
  lemma EligibleSpaces(s: string)
    ensures Eligible(s) <==> multiset(s)[' '] >= 5
  {
    SplitOnCharLength(s, ' ');
  }

  /** `poolNotes`: the text notes with content, only those of the chosen subject in
      single-subject mode. */
  function TestPool(notes: seq<Note>, subject: Option<string>): (pool: seq<Note>)
    ensures forall n :: n in pool <==>
              n in notes && HasText(n) && (subject.None? || n.subject == subject.value)
  {
    var txt := Filter(notes, HasText);
    if subject.None? then txt else Filter(txt, (n: Note) => n.subject == subject.value)
  }

  function Tag(sents: seq<string>, source: string): (r: seq<Item>)
    ensures |r| == |sents|
    ensures forall k :: 0 <= k < |r| ==> r[k] == Item(sents[k], source)
  {
    seq(|sents|, k requires 0 <= k < |sents| => Item(sents[k], source))
  }

  lemma TagSnoc(sents: seq<string>, s: string, source: string)
    ensures Tag(sents + [s], source) == Tag(sents, source) + [Item(s, source)]
  {
  }

  /** The candidates one note contributes, in sentence order. */
  function NoteItems(n: Note): seq<Item> {
    Tag(Filter(Split(Content(n)), Eligible), n.subject)
  }

  /** `sentences` after the nested `forEach`. */
  function Candidates(pool: seq<Note>): seq<Item> {
    FlatMap(pool, NoteItems)
  }

  /** Every candidate is an eligible sentence of a note in the pool, tagged with its
      subject, and every such sentence is a candidate. */
  lemma CandidatesExact(pool: seq<Note>, it: Item)
    ensures it in Candidates(pool) <==>
              exists n :: n in pool && it.source == n.subject && it.text in Split(Content(n)) && Eligible(it.text)
  {
    if it in Candidates(pool) {
      var n := CandidateSource(pool, it);
    }
    if n :| n in pool && it.source == n.subject && it.text in Split(Content(n)) && Eligible(it.text) {
      CandidateComplete(pool, n, it);
    }
  }

  lemma CandidateSource(pool: seq<Note>, it: Item) returns (n: Note)
    requires it in Candidates(pool)
    ensures n in pool && it.source == n.subject && it.text in Split(Content(n)) && Eligible(it.text)
  {
    n := FlatMapSource(pool, NoteItems, it);
    var k :| 0 <= k < |NoteItems(n)| && NoteItems(n)[k] == it;
    assert it.text in Filter(Split(Content(n)), Eligible);
  }

  lemma CandidateComplete(pool: seq<Note>, n: Note, it: Item)
    requires n in pool && it.source == n.subject && it.text in Split(Content(n)) && Eligible(it.text)
    ensures it in Candidates(pool)
  {
    var sents := Filter(Split(Content(n)), Eligible);
    var k :| 0 <= k < |sents| && sents[k] == it.text;
    assert NoteItems(n)[k] == it;
    FlatMapComplete(pool, NoteItems, n, it);
  }

  lemma EligibleSnoc(sents: seq<string>, j: nat, source: string)
    requires j < |sents|
    ensures Tag(Filter(sents[..j + 1], Eligible), source)
            == Tag(Filter(sents[..j], Eligible), source) + (if Eligible(sents[j]) then [Item(sents[j], source)] else [])
  {
    assert sents[..j + 1] == sents[..j] + [sents[j]];
    FilterAppend(sents[..j], sents[j], Eligible);
    TagSnoc(Filter(sents[..j], Eligible), sents[j], source);
  }

  /** The inner `sents.forEach`: pushes the eligible sentences. */
  method CollectEligible(items: seq<Item>, sents: seq<string>, source: string) returns (r: seq<Item>)
    ensures r == items + Tag(Filter(sents, Eligible), source)
  {
    r := items;
    for j := 0 to |sents|
      invariant r == items + Tag(Filter(sents[..j], Eligible), source)
    {
      var s := sents[j];
      EligibleSnoc(sents, j, source);
      if Eligible(s) {
        r := r + [Item(s, source)];
      }
    }
    assert sents[..|sents|] == sents;
  }

  /** The outer `poolNotes.forEach`. */
  method CollectSentences(pool: seq<Note>) returns (items: seq<Item>)
    ensures items == Candidates(pool)
  {
    items := [];
    for i := 0 to |pool|
      invariant items == FlatMap(pool[..i], NoteItems)
    {
      var n := pool[i];
      FlatMapSnoc(pool, i, NoteItems);
      items := CollectEligible(items, Split(Content(n)), n.subject);
    }
    assert pool[..|pool|] == pool;
  }

  // ---- shuffleArray ----

  predicate AllFalse(coins: seq<bool>) {
    forall k :: 0 <= k < |coins| ==> !coins[k]
  }

  /** The c-th comparator outcome; true when `Math.random() - 0.5` came out positive,
      which moves the later element in front. */
  predicate Coin(coins: seq<bool>, c: nat) {
    c < |coins| && coins[c]
  }

  /** `a.sort(() => Math.random() - 0.5)`, as an insertion sort whose comparisons
      are the injected coins: the result is a permutation of the input, and a
      comparator that never asks for a swap leaves the array as it was. */
  method ShuffleInPlace<T>(a: array<T>, coins: seq<bool>)
    modifies a
    ensures multiset(a[..]) == multiset(old(a[..]))
    ensures AllFalse(coins) ==> a[..] == old(a[..])
  {
    var c := 0;
    for i := 0 to a.Length
      invariant multiset(a[..]) == multiset(old(a[..]))
      invariant AllFalse(coins) ==> a[..] == old(a[..])
    {
      var j := i;
      while 0 < j && Coin(coins, c)
        invariant 0 <= j <= i
        invariant multiset(a[..]) == multiset(old(a[..]))
        invariant AllFalse(coins) ==> a[..] == old(a[..])
        decreases j
      {
        a[j - 1], a[j] := a[j], a[j - 1];
        j := j - 1;
        c := c + 1;
      }
      c := c + 1;
    }
  }

  /** `shuffleArray(xs)` on a copy of the sequence. */
  method Shuffle<T>(xs: seq<T>, coins: seq<bool>) returns (ys: seq<T>)
    ensures |ys| == |xs| && multiset(ys) == multiset(xs)
    ensures AllFalse(coins) ==> ys == xs
  {
    var a := new T[|xs|](k requires 0 <= k < |xs| => xs[k]);
    assert a[..] == xs;
    ShuffleInPlace(a, coins);
    ys := a[..];
  }

  // ---- The blanked sentence ----

  /** The candidate keys (script.js:403): the pieces of the sentence split on
      whitespace runs that are longer than four characters. */
  function LongWords(text: string): (words: seq<string>)
    ensures forall w :: w in words ==> |w| > 4
  {
    Filter(SplitRuns(text, IsSpace), (w: string) => |w| > 4)
  }

  /** A word is a candidate key exactly when it is longer than four characters and
      is a maximal run of non-whitespace characters of the sentence. */
  lemma LongWordsExact(text: string, w: string)
    ensures w in LongWords(text) <==>
              |w| > 4 && exists a: nat, b: nat :: PieceAt(text, IsSpace, a, b) && text[a..b] == w
  {
    var ps := SplitRuns(text, IsSpace);
    if w in LongWords(text) {
      var k :| 0 <= k < |ps| && ps[k] == w;
      var a, b := SplitRunsPieceAt(text, IsSpace, k);
    }
    if a: nat, b: nat :| PieceAt(text, IsSpace, a, b) && text[a..b] == w && |w| > 4 {
      PieceAtSplit(text, IsSpace, a, b);
    }
  }

  /** The key (script.js:404): the long word a random index picks, with the index
      given as a draw of any size; with no long word the pick is `undefined` and the
      next line throws. */
  function PickKey(text: string, draw: nat): (key: Option<string>)
    ensures key.None? <==> LongWords(text) == []
    ensures key.Some? ==> key.value in LongWords(text)
  {
    var words := LongWords(text);
    if words == [] then None else Some(words[draw % |words|])
  }

  /** Whether position i of s holds a `\w` character; outside s it does not. */
  predicate WordAt(s: string, i: int) {
    0 <= i < |s| && IsWordChar(s[i])
  }

  /** `\b` at position p. */
  predicate Boundary(s: string, p: int) {
    WordAt(s, p - 1) != WordAt(s, p)
  }

  /** The blanking pattern of script.js:405 matches at position p: the escaped key
      matches itself literally, up to case, between two word boundaries. */
  predicate MatchAt(s: string, key: string, p: nat) {
    p + |key| <= |s| && Lower(s[p..p + |key|]) == Lower(key) && Boundary(s, p) && Boundary(s, p + |key|)
  }

  /** The leftmost match at or after position from. */
  function FindMatch(s: string, key: string, from: nat): (r: Option<nat>)
    ensures r.Some? ==> from <= r.value && MatchAt(s, key, r.value)
    ensures r.Some? ==> forall q :: from <= q < r.value ==> !MatchAt(s, key, q)
    ensures r.None? ==> forall q :: from <= q ==> !MatchAt(s, key, q)
    decreases |s| - from
  {
    if |s| < from + |key| then None
    else if MatchAt(s, key, from) then Some(from)
    else FindMatch(s, key, from + 1)
  }

  const BlankMark := "_____"

  /** The blanked sentence (script.js:405): the first whole-word occurrence of the
      key, matched regardless of case, becomes five underscores. */
  function Blank(s: string, key: string): string {
    match FindMatch(s, key, 0)
    case None => s
    case Some(p) => s[..p] + BlankMark + s[p + |key|..]
  }

  /** The blank replaces the leftmost whole-word occurrence of the key, up to case,
      and putting that occurrence back restores the sentence; with no occurrence the
      sentence is left as it is. */
  lemma BlankRefill(s: string, key: string) returns (p: Option<nat>)
    ensures p.None? <==> forall q :: !MatchAt(s, key, q)
    ensures p.None? ==> Blank(s, key) == s
    ensures p.Some? ==> MatchAt(s, key, p.value) && forall q: nat :: q < p.value ==> !MatchAt(s, key, q)
    ensures p.Some? ==>
              var b, i := Blank(s, key), p.value;
              b[i..i + |BlankMark|] == BlankMark
              && b[..i] + s[i..i + |key|] + b[i + |BlankMark|..] == s
  {
    p := FindMatch(s, key, 0);
    if p.Some? {
      var i := p.value;
      var b := Blank(s, key);
      assert b == s[..i] + BlankMark + s[i + |key|..];
      assert b[..i] == s[..i];
      assert b[i..i + |BlankMark|] == BlankMark;
      assert b[i + |BlankMark|..] == s[i + |key|..];
      SplitThree(s, i, i + |key|);
    }
  }

  // ---- The options ----

  /** The keywords the draws pick, one per draw. */
  function Picks(poolKeys: seq<string>, draws: seq<nat>): (r: seq<string>)
    requires poolKeys != []
    ensures |r| == |draws|
    ensures forall k :: 0 <= k < |draws| ==> r[k] == poolKeys[draws[k] % |poolKeys|]
  {
    seq(|draws|, k requires 0 <= k < |draws| => poolKeys[draws[k] % |poolKeys|])
  }

  /** The distractor loop: starting from `[key]`, each draw picks a pool keyword and
      adds it when it is a new non-empty one, until there are four options; a pool of
      fewer than four keywords gets one pick only. The injected draws are finite, so
      the loop also stops when they run out. */
  method BuildOptions(key: string, poolKeys: seq<string>, draws: seq<nat>) returns (opts: seq<string>)
    ensures 1 <= |opts| <= 4 && opts[0] == key
    ensures NoDuplicates(opts)
    ensures forall k :: 1 <= k < |opts| ==> opts[k] in poolKeys && opts[k] != ""
    ensures |poolKeys| < 4 ==> |opts| <= 2
    ensures |opts| < 4 && 4 <= |poolKeys| ==>
              forall w :: w in Picks(poolKeys, draws) ==> w in opts || w == ""
  {
    opts := [key];
    var i := 0;
    while |opts| < 4 && i < |draws|
      invariant 0 <= i <= |draws|
      invariant 1 <= |opts| <= 4 && opts[0] == key
      invariant NoDuplicates(opts)
      invariant forall k :: 1 <= k < |opts| ==> opts[k] in poolKeys && opts[k] != ""
      invariant |poolKeys| < 4 ==> i == 0 && |opts| == 1
      invariant 4 <= |poolKeys| ==>
                  forall w :: w in Picks(poolKeys, draws[..i]) ==> w in opts || w == ""
      decreases |draws| - i
    {
      if 0 < |poolKeys| {
        var cand := poolKeys[draws[i] % |poolKeys|];
        if cand != "" && cand !in opts {
          opts := opts + [cand];
        }
      }
      if 4 <= |poolKeys| {
        assert draws[..i + 1] == draws[..i] + [draws[i]];
        assert Picks(poolKeys, draws[..i + 1]) == Picks(poolKeys, draws[..i]) + [poolKeys[draws[i] % |poolKeys|]];
      }
      i := i + 1;
      if |poolKeys| < 4 {
        break;
      }
    }
  }

  /** With at least four distinct non-empty pool keywords and draws that reach every
      one of them, the options are exactly four. */
  lemma FourOptions(key: string, poolKeys: seq<string>, draws: seq<nat>, opts: seq<string>)
    requires 4 <= |poolKeys| && NoDuplicates(poolKeys)
    requires forall w :: w in poolKeys ==> w != ""
    requires forall w :: w in poolKeys ==> w in Picks(poolKeys, draws)
    requires |opts| <= 4 && NoDuplicates(opts)
    requires |opts| < 4 ==> forall w :: w in Picks(poolKeys, draws) ==> w in opts || w == ""
    ensures |opts| == 4
  {
    if |opts| < 4 {
      var keys := set w | w in poolKeys;
      var shown := set w | w in opts;
      forall w | w in keys
        ensures w in shown
      {
        var j :| 0 <= j < |poolKeys| && poolKeys[j] == w;
      }
      NoDuplicatesCard(poolKeys);
      NoDuplicatesCard(opts);
      assert keys <= shown;
      SubsetCard(keys, shown);
    }
  }

  lemma SubsetCard<T>(a: set<T>, b: set<T>)
    requires a <= b
    ensures |a| <= |b|
  {
    assert b == a + (b - a);
  }

  // ---- Questions ----

  datatype Question =
    | Mcq(item: Item, blanked: string, options: seq<string>, key: string)
    | Short(item: Item)

  /** `qf.answer`: the key of a multiple-choice question, the sentence of a short one. */
  function Answer(q: Question): string {
    if q.Mcq? then q.key else q.item.text
  }

  /** What a multiple-choice question built over the pool keywords satisfies: its
      key is a long word of the sentence, the blank is placed as the pattern
      dictates, and its options are at most four distinct strings, the key and
      non-empty pool keywords, at most two of them when the pool is small. */
  predicate GoodMcq(q: Question, poolKeys: seq<string>)
    requires q.Mcq?
  {
    && q.key in LongWords(q.item.text)
    && q.blanked == Blank(q.item.text, q.key)
    && q.key in q.options && NoDuplicates(q.options) && 1 <= |q.options| <= 4
    && (forall o :: o in q.options ==> o == q.key || (o in poolKeys && o != ""))
    && (|poolKeys| < 4 ==> |q.options| <= 2)
  }

  /** The random draws spent on one question. */
  datatype Draws = Draws(key: nat, distractors: seq<nat>, order: seq<bool>)

  /** Draws that reach every keyword of a pool of at least four. */
  predicate FullDraws(poolKeys: seq<string>, d: Draws) {
    4 <= |poolKeys| && forall w :: w in poolKeys ==> w in Picks(poolKeys, d.distractors)
  }

  /** Shuffling the options keeps what BuildOptions promised of them. */
  lemma OptionsPermuted(key: string, poolKeys: seq<string>, opts: seq<string>, shuffled: seq<string>)
    requires multiset(shuffled) == multiset(opts)
    requires 1 <= |opts| && opts[0] == key && NoDuplicates(opts)
    requires forall k :: 1 <= k < |opts| ==> opts[k] in poolKeys && opts[k] != ""
    ensures |shuffled| == |opts| && key in shuffled && NoDuplicates(shuffled)
    ensures forall o :: o in shuffled ==> o == key || (o in poolKeys && o != "")
  {
    PermutationNoDuplicates(opts, shuffled);
    assert opts[0] in multiset(opts);
    assert |shuffled| == |multiset(shuffled)| == |multiset(opts)| == |opts|;
    forall o | o in shuffled
      ensures o == key || (o in poolKeys && o != "")
    {
      assert o in multiset(opts);
      var k :| 0 <= k < |opts| && opts[k] == o;
    }
  }

  /** One multiple-choice question; None when the sentence has no long word, where
      the source throws. */
  method MakeMcq(item: Item, poolKeys: seq<string>, d: Draws) returns (q: Option<Question>)
    ensures q.None? <==> LongWords(item.text) == []
    ensures q.Some? ==> q.value.Mcq? && q.value.item == item && GoodMcq(q.value, poolKeys)
    ensures q.Some? && FullDraws(poolKeys, d) && NoDuplicates(poolKeys)
            && (forall w :: w in poolKeys ==> w != "")
            ==> |q.value.options| == 4
  {
    var key := PickKey(item.text, d.key);
    if key.None? {
      return None;
    }
    var blanked := Blank(item.text, key.value);
    var opts := BuildOptions(key.value, poolKeys, d.distractors);
    if FullDraws(poolKeys, d) && NoDuplicates(poolKeys) && forall w :: w in poolKeys ==> w != "" {
      FourOptions(key.value, poolKeys, d.distractors, opts);
    }
    var shuffled := Shuffle(opts, d.order);
    OptionsPermuted(key.value, poolKeys, opts, shuffled);
    q := Some(Mcq(item, blanked, shuffled, key.value));
  }

  /** What each generated question satisfies: it asks about its sentence, has the
      chosen type, and a multiple-choice one is good over the pool keywords, with
      four options when its draws reach every keyword of a pool of four or more. */
  predicate GoodQuestion(q: Question, item: Item, mcq: bool, poolKeys: seq<string>, d: Draws) {
    && q.item == item
    && q.Mcq? == mcq
    && (q.Mcq? ==> GoodMcq(q, poolKeys))
    && (q.Mcq? && FullDraws(poolKeys, d) ==> |q.options| == 4)
  }

  /** The body of `selected.forEach`: a question of the chosen type on one sentence;
      None when a multiple-choice key cannot be drawn. */
  method MakeQuestion(item: Item, mcq: bool, poolKeys: seq<string>, d: Draws) returns (q: Option<Question>)
    requires NoDuplicates(poolKeys) && forall w :: w in poolKeys ==> w != ""
    ensures q.None? <==> mcq && LongWords(item.text) == []
    ensures q.Some? ==> GoodQuestion(q.value, item, mcq, poolKeys, d)
  {
    if !mcq {
      return Some(Short(item));
    }
    q := MakeMcq(item, poolKeys, d);
  }

  datatype TestOutcome =
    | NoTxtNotes
    | NotEnoughSentences
    | KeyMissing
    | Generated(questions: seq<Question>)

  function DrawsFor(draws: seq<Draws>, k: nat): Draws {
    if k < |draws| then draws[k] else Draws(0, [], [])
  }

  function Items(qs: seq<Question>): (r: seq<Item>)
    ensures |r| == |qs|
    ensures forall k :: 0 <= k < |qs| ==> r[k] == qs[k].item
  {
    seq(|qs|, k requires 0 <= k < |qs| => qs[k].item)
  }

  /** `shuffleArray(sentences).slice(0, qcount)` with `qcount = Math.min(7, n)`. */
  method SelectSentences(cands: seq<Item>, order: seq<bool>) returns (selected: seq<Item>)
    ensures |selected| == Min(7, |cands|)
    ensures multiset(selected) <= multiset(cands)
  {
    var qcount := Min(7, |cands|);
    var shuffled := Shuffle(cands, order);
    selected := shuffled[..qcount];
    PrefixMultiset(selected, shuffled);
  }

  /** The `selected.forEach` loop; None when a multiple-choice key cannot be drawn,
      which aborts the whole test. */
  method BuildQuestions(selected: seq<Item>, mcq: bool, poolKeys: seq<string>, draws: seq<Draws>)
    returns (qs: Option<seq<Question>>)
    requires NoDuplicates(poolKeys) && forall w :: w in poolKeys ==> w != ""
    ensures qs.None? ==> mcq && exists k :: 0 <= k < |selected| && LongWords(selected[k].text) == []
    ensures qs.Some? ==>
              && |qs.value| == |selected|
              && forall k :: 0 <= k < |selected| ==>
                   GoodQuestion(qs.value[k], selected[k], mcq, poolKeys, DrawsFor(draws, k))
  {
    var built: seq<Question> := [];
    for idx := 0 to |selected|
      invariant |built| == idx
      invariant forall k :: 0 <= k < idx ==>
                  GoodQuestion(built[k], selected[k], mcq, poolKeys, DrawsFor(draws, k))
    {
      var q := MakeQuestion(selected[idx], mcq, poolKeys, DrawsFor(draws, idx));
      if q.None? {
        return None;
      }
      built := built + [q.value];
    }
    qs := Some(built);
  }

  lemma SubMultisetMember<T>(xs: seq<T>, ys: seq<T>, k: nat)
    requires multiset(xs) <= multiset(ys) && k < |xs|
    ensures xs[k] in ys
  {
    assert xs[k] in multiset(xs);
  }

  /** `generateKeywordsForAll()` as the option builder uses it. */
  method PoolKeywords(notes: seq<Note>) returns (keys: seq<string>)
    ensures keys == AllKeywords(notes)
    ensures NoDuplicates(keys) && forall w :: w in keys ==> w != ""
  {
    keys := KeywordsForAll(notes);
    AllKeywordsShape(notes);
  }

  /** `generateTest()` for the chosen subject (None for all notes) and question
      type, with `order` the comparator outcomes of the sentence shuffle and `draws`
      those of each question. */
  method GenerateTest(notes: seq<Note>, subject: Option<string>, mcq: bool, order: seq<bool>, draws: seq<Draws>)
    returns (t: TestOutcome)
    ensures t.NoTxtNotes? <==> TestPool(notes, subject) == []
    ensures t.NotEnoughSentences? <==> TestPool(notes, subject) != [] && Candidates(TestPool(notes, subject)) == []
    ensures t.KeyMissing? ==>
              mcq && exists it :: it in Candidates(TestPool(notes, subject)) && LongWords(it.text) == []
    ensures t.Generated? ==>
              var cands, qs := Candidates(TestPool(notes, subject)), t.questions;
              && |qs| == Min(7, |cands|)
              && multiset(Items(qs)) <= multiset(cands)
              && forall k :: 0 <= k < |qs| ==>
                   GoodQuestion(qs[k], qs[k].item, mcq, AllKeywords(notes), DrawsFor(draws, k))
  {
    var pool := TestPool(notes, subject);
    if pool == [] {
      return NoTxtNotes;
    }
    var cands := CollectSentences(pool);
    if cands == [] {
      return NotEnoughSentences;
    }
    var selected := SelectSentences(cands, order);
    var poolKeys := PoolKeywords(notes);
    var qs := BuildQuestions(selected, mcq, poolKeys, draws);
    if qs.None? {
      var k :| 0 <= k < |selected| && LongWords(selected[k].text) == [];
      SubMultisetMember(selected, cands, k);
      return KeyMissing;
    }
    assert Items(qs.value) == selected;
    t := Generated(qs.value);
  }

  // ---- Grading ----

  /** A multiple-choice reply is right (script.js:436-437) when an option is checked,
      its value is non-empty, and it equals the answer up to case. */
  predicate McqCorrect(sel: Option<string>, answer: string) {
    sel.Some? && sel.value != "" && Lower(sel.value) == Lower(answer)
  }

  /** A short reply is right (script.js:441-443) when one of the answer's first
      three tokens is among the reply's first ten tokens. */
  predicate ShortCorrect(reply: string, answer: string) {
    exists w :: w in Take(Tokenize(answer), 3) && w in Take(Tokenize(reply), 10)
  }

  /** The reply to question k: the checked radio value or the textarea text, None
      when nothing is checked or there is no field. */
  function Reply(replies: seq<Option<string>>, k: nat): Option<string> {
    if k < |replies| then replies[k] else None
  }

  predicate Correct(q: Question, reply: Option<string>) {
    if q.Mcq? then McqCorrect(reply, q.key) else ShortCorrect(reply.GetOr(""), q.item.text)
  }

  /** `score` after the grading `forEach`. */
  function Score(qs: seq<Question>, replies: seq<Option<string>>): (r: nat)
    ensures r <= |qs|
    decreases |qs|
  {
    if qs == [] then 0
    else Score(qs[..|qs| - 1], replies) + (if Correct(qs[|qs| - 1], Reply(replies, |qs| - 1)) then 1 else 0)
  }

  /** The grading loop. */
  method Grade(qs: seq<Question>, replies: seq<Option<string>>) returns (score: nat)
    ensures score == Score(qs, replies)
  {
    score := 0;
    for i := 0 to |qs|
      invariant score == Score(qs[..i], replies)
    {
      assert qs[..i + 1][..i] == qs[..i];
      if Correct(qs[i], Reply(replies, i)) {
        score := score + 1;
      }
    }
    assert qs[..|qs|] == qs;
  }

  /** Full marks exactly when every reply is correct. */
  lemma {:induction false} ScoreFull(qs: seq<Question>, replies: seq<Option<string>>)
    ensures Score(qs, replies) == |qs| <==> forall k :: 0 <= k < |qs| ==> Correct(qs[k], Reply(replies, k))
    decreases |qs|
  {
    if qs != [] {
      var init := qs[..|qs| - 1];
      ScoreFull(init, replies);
      assert forall k :: 0 <= k < |init| ==> init[k] == qs[k];
    }
  }

  /** A radio button carries its option escaped into the `value` attribute, and the
      browser reads it back unescaped, so choosing option i is correct exactly when
      that option is the key up to case. */
  lemma ChosenOption(q: Question, poolKeys: seq<string>, i: nat)
    requires q.Mcq? && GoodMcq(q, poolKeys) && i < |q.options|
    ensures McqCorrect(Some(UnescapeHtml(EscapeHtml(q.options[i]))), q.key)
            <==> Lower(q.options[i]) == Lower(q.key)
  {
    HtmlRoundTrip(q.options[i]);
    assert q.options[i] in q.options;
  }

  /** A short answer can be graded correct only when the sentence has a token, and
      then the sentence itself is a correct reply. */
  lemma ShortSelf(answer: string)
    ensures ShortCorrect(answer, answer) <==> Tokenize(answer) != []
  {
    var t := Tokenize(answer);
    if t != [] {
      assert Take(t, 3)[0] == t[0] && Take(t, 10)[0] == t[0];
      assert t[0] in Take(t, 3) && t[0] in Take(t, 10);
    }
  }

  // ---- Percent and progress ----

  /** `Math.round((score / total) * 100)` with exact rounding to nearest, halves up. */
  function Percent(score: nat, total: nat): nat
    requires 0 < total
  {
    (200 * score + total) / (2 * total)
  }

  lemma DivBounds(n: nat, d: nat)
    requires 0 < d
    ensures d * (n / d) <= n < d * (n / d) + d
  {
  }

  lemma MulLeq(d: nat, a: nat, b: nat)
    requires a <= b
    ensures d * a <= d * b
  {
  }

  lemma MulLt(d: nat, a: nat, b: nat)
    requires 0 < d && d * a < d * b
    ensures a < b
  {
    if b <= a {
      MulLeq(d, b, a);
    }
  }

  /** The percent is the nearest whole number to 100 * score / total, lies between 0
      and 100, is 0 only for a score under half a percent, and is 100 only for full
      marks when there are fewer than 200 questions. */
  lemma PercentBounds(score: nat, total: nat)
    requires 0 < total && score <= total
    ensures var p := Percent(score, total);
      && 2 * total * p <= 200 * score + total < 2 * total * p + 2 * total
      && p <= 100
      && (p == 0 <==> 200 * score < total)
      && (total < 200 ==> (p == 100 <==> score == total))
  {
    var n, d := 200 * score + total, 2 * total;
    var p := n / d;
    DivBounds(n, d);
    assert d * (p + 1) == d * p + d;
    MulLt(d, p, 101);
    MulLt(d, 0, p + 1);
    if n < d {
      MulLt(d, p, 1);
    }
    if score == total {
      MulLt(d, 100, p + 1);
    }
    if total < 200 && score < total {
      MulLt(d, p, 100);
    }
  }

  function Max(a: int, b: int): int { if a < b then b else a }

  /** The progress after a test (script.js:457): the mean of the previous progress
      and the percent, rounded half up, at most 100. */
  function ProgressAfterTest(prev: nat, percent: nat): nat {
    Min(100, (prev + percent + 1) / 2)
  }

  /** The new progress is the rounded average, so it lies between the previous
      progress and the test percent, and repeating a percent keeps it. */
  lemma ProgressAfterTestBounds(prev: nat, percent: nat)
    ensures ProgressAfterTest(prev, percent) <= 100
    ensures prev <= 100 && percent <= 100 ==>
              var r := ProgressAfterTest(prev, percent);
              && 2 * r - 1 <= prev + percent <= 2 * r
              && Min(prev, percent) <= r <= Max(prev, percent)
    ensures percent <= 100 ==> ProgressAfterTest(percent, percent) == percent
  {
  }

  /** `Math.min(100, state.notes.length * 10)`. */
  function NoteProgress(count: nat): nat {
    Min(100, count * 10)
  }

  /** Ten points per note, full at ten notes. */
  lemma NoteProgressBounds(count: nat)
    ensures NoteProgress(count) <= 100
    ensures NoteProgress(count) == 100 <==> 10 <= count
    ensures count < 10 ==> NoteProgress(count) == 10 * count
    ensures NoteProgress(count) <= NoteProgress(count + 1)
  {
  }
}
