/** The keyword extractor: lower-case the text, find the tokens
    `[A-Za-z][A-Za-z\-]{2,}`, count the ones that are not stop-words in an
    insertion-ordered dictionary, sort the entries by descending count (stably)
    and join the first `top_k` words with ", ". */
module Keywords {
  import opened Text

  /** The stop-word set of the extractor. */
  const StopWords: set<string> := {
    "the", "a", "an", "and", "or", "of", "for", "to", "from", "in", "on", "at", "as", "by",
    "with", "without", "into", "about", "over", "under",
    "this", "that", "those", "these", "it", "its", "is", "are", "was", "were", "be", "being",
    "been", "can", "could", "should", "would",
    "have", "has", "had", "not", "no", "yes", "if", "then", "else", "when", "while", "after",
    "before", "during", "more", "most", "less",
    "than", "between", "within", "across", "new", "latest", "updated", "update", "etc"
  }

  /** `top_k` when the tool is called without one. */
  const DefaultTopK: int := 12

  // ---------------------------------------------------------------------------
  // Tokeniser: re.findall(r"[A-Za-z][A-Za-z\-]{2,}", text.lower())
  // ---------------------------------------------------------------------------

  predicate IsLetter(c: char)
  {
    IsUpper(c) || IsLower(c)
  }

  /** The class `[A-Za-z\-]`. */
  predicate IsWordChar(c: char)
  {
    IsLetter(c) || c == '-'
  }

  /** End of the run of word characters of `s` that starts at `k`: what the
      greedy `[A-Za-z\-]{2,}` can take from `k` on. */
  function WordEnd(s: string, k: nat): (e: nat)
    requires k <= |s|
    ensures k <= e <= |s|
    ensures forall q :: k <= q < e ==> IsWordChar(s[q])
    ensures e < |s| ==> !IsWordChar(s[e])
    decreases |s| - k
  {
    if k < |s| && IsWordChar(s[k]) then WordEnd(s, k + 1) else k
  }

  /** The pattern matches at `q`: a letter followed by at least two word
      characters. */
  predicate IsMatchAt(s: string, q: nat)
  {
    q < |s| && IsLetter(s[q]) && WordEnd(s, q + 1) >= q + 3
  }

  /** Where a match lies in the text: `s[start..end]`. */
  datatype Span = Span(start: nat, end: nat)

  /** The matches `re.findall(r"[A-Za-z][A-Za-z\-]{2,}", s)` finds when its
      scan is at `i`: a match takes every word character that follows its
      letter and the scan resumes after it; where there is no match the scan
      moves on by one character. */
  function MatchesFrom(s: string, i: nat): (ms: seq<Span>)
    requires i <= |s|
    ensures forall k :: 0 <= k < |ms| ==> i <= ms[k].start < ms[k].end <= |s|
    decreases |s| - i
  {
    if i == |s| then []
    else if IsMatchAt(s, i) then
      var e := WordEnd(s, i + 1);
      [Span(i, e)] + MatchesFrom(s, e)
    else MatchesFrom(s, i + 1)
  }

  /** `re.findall(r"[A-Za-z][A-Za-z\-]{2,}", s)`: the matched texts. */
  function Tokens(s: string): seq<string>
  {
    var ms := MatchesFrom(s, 0);
    seq(|ms|, k requires 0 <= k < |ms| => s[ms[k].start..ms[k].end])
  }

  /** `m` is where the pattern matches, taking the whole run of word
      characters after its letter. */
  predicate IsFullMatch(s: string, m: Span)
  {
    IsMatchAt(s, m.start) && m.end == WordEnd(s, m.start + 1)
  }

  /** Every match found is a full match of the pattern. */
  lemma {:induction false} MatchesAreFull(s: string, i: nat)
    requires i <= |s|
    ensures forall k :: 0 <= k < |MatchesFrom(s, i)| ==> IsFullMatch(s, MatchesFrom(s, i)[k])
    decreases |s| - i
  {
    if i < |s| {
      if IsMatchAt(s, i) {
        var e := WordEnd(s, i + 1);
        var rest := MatchesFrom(s, e);
        var ms := MatchesFrom(s, i);
        assert ms == [Span(i, e)] + rest;
        MatchesAreFull(s, e);
        assert IsFullMatch(s, ms[0]);
        forall k | 1 <= k < |ms| ensures IsFullMatch(s, ms[k]) {
          assert ms[k] == rest[k - 1];
        }
      } else {
        assert MatchesFrom(s, i) == MatchesFrom(s, i + 1);
        MatchesAreFull(s, i + 1);
      }
    }
  }

  /** The matches found come in text order without overlapping. */
  lemma {:induction false} MatchesInOrder(s: string, i: nat)
    requires i <= |s|
    ensures forall k :: 0 <= k < |MatchesFrom(s, i)| - 1 ==>
      MatchesFrom(s, i)[k].end <= MatchesFrom(s, i)[k + 1].start
    decreases |s| - i
  {
    if i < |s| {
      if IsMatchAt(s, i) {
        var e := WordEnd(s, i + 1);
        var rest := MatchesFrom(s, e);
        var ms := MatchesFrom(s, i);
        assert ms == [Span(i, e)] + rest;
        MatchesInOrder(s, e);
        forall k | 0 <= k < |ms| - 1 ensures ms[k].end <= ms[k + 1].start {
          assert ms[k + 1] == rest[k];
          if k > 0 {
            assert ms[k] == rest[k - 1];
          }
        }
      } else {
        assert MatchesFrom(s, i) == MatchesFrom(s, i + 1);
        MatchesInOrder(s, i + 1);
      }
    }
  }

  /** Every match found is a match of the pattern that takes the whole run
      of word characters after its letter, and the matches come in text order
      without overlapping. */
  lemma MatchesAreMaximal(s: string, i: nat)
    requires i <= |s|
    ensures forall k :: 0 <= k < |MatchesFrom(s, i)| ==>
      IsMatchAt(s, MatchesFrom(s, i)[k].start) &&
      MatchesFrom(s, i)[k].end == WordEnd(s, MatchesFrom(s, i)[k].start + 1)
    ensures forall k :: 0 <= k < |MatchesFrom(s, i)| - 1 ==>
      MatchesFrom(s, i)[k].end <= MatchesFrom(s, i)[k + 1].start
  {
    MatchesAreFull(s, i);
    MatchesInOrder(s, i);
  }

  /** The scan may resume at `i`: the start, after a character that is not a
      letter, or where no match can start, so that no match begins right
      after a letter. */
  predicate ScanResumes(s: string, i: nat)
  {
    i <= |s| && (i == 0 || !IsLetter(s[i - 1]) || WordEnd(s, i) < i + 2)
  }

  /** After a match the scan resumes at a place where no match begins right
      after a letter. */
  lemma ResumeAfterMatch(s: string, i: nat)
    requires IsMatchAt(s, i)
    ensures ScanResumes(s, WordEnd(s, i + 1))
  {
    var e := WordEnd(s, i + 1);
    if e < |s| {
      assert !IsWordChar(s[e]);
    }
  }

  /** Where no match begins the scan moves on by one, to a place where no
      match begins right after a letter. */
  lemma ResumeAfterMiss(s: string, i: nat)
    requires i < |s| && !IsMatchAt(s, i)
    ensures ScanResumes(s, i + 1)
  {
    if IsLetter(s[i]) {
      assert WordEnd(s, i + 1) < i + 3;
    }
  }

  /** Position `q` does not follow a letter. */
  predicate NotAfterLetter(s: string, q: nat)
  {
    q == 0 || (q <= |s| && !IsLetter(s[q - 1]))
  }

  /** A match where the scan resumes does not follow a letter. */
  lemma MatchAtResume(s: string, i: nat)
    requires ScanResumes(s, i) && IsMatchAt(s, i)
    ensures NotAfterLetter(s, i)
  {
    assert IsWordChar(s[i]);
    assert WordEnd(s, i) == WordEnd(s, i + 1);
  }

  /** No match found begins right after a letter. */
  lemma {:induction false} MatchesStartWords(s: string, i: nat)
    requires ScanResumes(s, i)
    ensures forall k :: 0 <= k < |MatchesFrom(s, i)| ==> NotAfterLetter(s, MatchesFrom(s, i)[k].start)
    decreases |s| - i
  {
    if i < |s| {
      if IsMatchAt(s, i) {
        var e := WordEnd(s, i + 1);
        var rest := MatchesFrom(s, e);
        var ms := MatchesFrom(s, i);
        assert ms == [Span(i, e)] + rest;
        MatchAtResume(s, i);
        ResumeAfterMatch(s, i);
        MatchesStartWords(s, e);
        forall k | 1 <= k < |ms| ensures ms[k] == rest[k - 1] {
        }
      } else {
        ResumeAfterMiss(s, i);
        assert MatchesFrom(s, i) == MatchesFrom(s, i + 1);
        MatchesStartWords(s, i + 1);
      }
    }
  }

  /** Position `q` lies inside the match `m`. */
  predicate Covers(m: Span, q: nat)
  {
    m.start <= q < m.end
  }

  /** No match is skipped: every position from `i` on where the pattern
      matches lies inside a match found. */
  lemma {:induction false} MatchesComplete(s: string, i: nat, q: nat)
    requires i <= q && IsMatchAt(s, q)
    ensures exists k :: 0 <= k < |MatchesFrom(s, i)| && Covers(MatchesFrom(s, i)[k], q)
    decreases |s| - i
  {
    if IsMatchAt(s, i) {
      var e := WordEnd(s, i + 1);
      var rest := MatchesFrom(s, e);
      var ms := MatchesFrom(s, i);
      assert ms == [Span(i, e)] + rest;
      if q < e {
        assert Covers(ms[0], q);
      } else {
        MatchesComplete(s, e, q);
        var k :| 0 <= k < |rest| && Covers(rest[k], q);
        assert ms[k + 1] == rest[k];
      }
    } else {
      assert q != i;
      assert MatchesFrom(s, i) == MatchesFrom(s, i + 1);
      MatchesComplete(s, i + 1, q);
    }
  }

  /** Inside a full match, every position but the first follows a word
      character. */
  lemma InsideMatch(s: string, m: Span, q: nat)
    requires IsFullMatch(s, m) && m.start <= q < m.end
    ensures q == m.start || IsWordChar(s[q - 1])
  {
    if m.start + 1 < q {
      assert q - 1 < WordEnd(s, m.start + 1);
    }
  }

  /** A match that begins a word, right after a character that is not a
      letter or hyphen, is found as it is. */
  lemma WordStartIsToken(s: string, q: nat)
    requires IsMatchAt(s, q) && (q == 0 || !IsWordChar(s[q - 1]))
    ensures exists k ::
      0 <= k < |MatchesFrom(s, 0)| && MatchesFrom(s, 0)[k] == Span(q, WordEnd(s, q + 1))
  {
    var ms := MatchesFrom(s, 0);
    MatchesComplete(s, 0, q);
    var k :| 0 <= k < |ms| && Covers(ms[k], q);
    var m := ms[k];
    assert IsFullMatch(s, m) by {
      MatchesAreFull(s, 0);
    }
    InsideMatch(s, m, q);
  }

  /** What every token looks like. */
  predicate IsTokenShape(w: string)
  {
    |w| >= 3 && IsLetter(w[0]) && forall k :: 0 <= k < |w| ==> IsWordChar(w[k])
  }

  /** What every keyword looks like: a lower-case token. */
  predicate IsKeywordShape(w: string)
  {
    |w| >= 3 && IsLower(w[0]) && forall k :: 0 <= k < |w| ==> IsLower(w[k]) || w[k] == '-'
  }

  predicate NoUpper(s: string)
  {
    forall k :: 0 <= k < |s| ==> !IsUpper(s[k])
  }

  /** Every token is at least three characters of letters and hyphens, starts
      with a letter, and has no upper-case letter when the text has none. */
  lemma TokensShape(s: string)
    ensures forall i :: 0 <= i < |Tokens(s)| ==> IsTokenShape(Tokens(s)[i])
    ensures NoUpper(s) ==> forall i :: 0 <= i < |Tokens(s)| ==> IsKeywordShape(Tokens(s)[i])
  {
    var ms, ts := MatchesFrom(s, 0), Tokens(s);
    MatchesAreMaximal(s, 0);
    forall i | 0 <= i < |ts|
      ensures IsTokenShape(ts[i]) && (NoUpper(s) ==> IsKeywordShape(ts[i]))
    {
      var m := ms[i];
      var w := ts[i];
      assert w == s[m.start..m.end];
      assert forall k :: 0 <= k < |w| ==> w[k] == s[m.start + k];
    }
  }

  /** The text lower-cased has no upper-case letter. */
  lemma LowerHasNoUpper(s: string)
    ensures NoUpper(Lower(s))
  {
  }

  // ---------------------------------------------------------------------------
  // Counting: freq = {}; for t in tokens: if t in stop: continue; freq[t] = freq.get(t, 0) + 1
  // ---------------------------------------------------------------------------

  /** How many times `w` occurs in `ts`. */
  function Occurrences(ts: seq<string>, w: string): nat
  {
    if ts == [] then 0
    else Occurrences(ts[..|ts| - 1], w) + (if ts[|ts| - 1] == w then 1 else 0)
  }

  /** A word that does not occur is counted zero times. */
  lemma {:induction false} OccurrencesAbsent(ts: seq<string>, w: string)
    requires w !in ts
    ensures Occurrences(ts, w) == 0
  {
    if ts != [] {
      OccurrencesAbsent(ts[..|ts| - 1], w);
    }
  }

  /** The distinct tokens that are not stop-words, in order of first
      occurrence: the key order of the dictionary. */
  function FirstSeen(ts: seq<string>, stop: set<string>): seq<string>
  {
    if ts == [] then []
    else
      var init, last := ts[..|ts| - 1], ts[|ts| - 1];
      FirstSeen(init, stop) + (if last in stop || last in init then [] else [last])
  }

  /** Position of the first occurrence of `w` in `ts`. */
  function FirstIndex(ts: seq<string>, w: string): (k: nat)
    requires w in ts
    ensures k < |ts| && ts[k] == w
    ensures forall j :: 0 <= j < k ==> ts[j] != w
  {
    var init := ts[..|ts| - 1];
    if w in init then
      var k := FirstIndex(init, w);
      assert forall j :: 0 <= j <= k ==> ts[j] == init[j];
      k
    else
      assert forall j :: 0 <= j < |ts| - 1 ==> ts[j] == init[j];
      |ts| - 1
  }

  /** The keys are exactly the non-stop tokens. */
  lemma {:induction false} FirstSeenMembers(ts: seq<string>, stop: set<string>)
    ensures forall w :: w in FirstSeen(ts, stop) <==> w in ts && w !in stop
  {
    if ts != [] {
      var init, last := ts[..|ts| - 1], ts[|ts| - 1];
      FirstSeenMembers(init, stop);
      assert ts == init + [last];
    }
  }

  /** `FirstSeen(ts, stop)[i]` occurs in `ts`, and its first occurrence is
      before that of every later key. */
  predicate KeysInFirstOccurrenceOrder(ts: seq<string>, keys: seq<string>)
  {
    (forall i :: 0 <= i < |keys| ==> keys[i] in ts) &&
    forall i, j :: 0 <= i < j < |keys| && keys[i] in ts && keys[j] in ts ==>
      FirstIndex(ts, keys[i]) < FirstIndex(ts, keys[j])
  }

  /** The keys are listed in order of first occurrence, hence distinct. */
  lemma {:induction false} FirstSeenOrder(ts: seq<string>, stop: set<string>)
    ensures KeysInFirstOccurrenceOrder(ts, FirstSeen(ts, stop))
    ensures forall i, j :: 0 <= i < j < |FirstSeen(ts, stop)| ==>
      FirstSeen(ts, stop)[i] != FirstSeen(ts, stop)[j]
  {
    if ts != [] {
      var init, last := ts[..|ts| - 1], ts[|ts| - 1];
      FirstSeenOrder(init, stop);
      var prev, fs := FirstSeen(init, stop), FirstSeen(ts, stop);
      assert forall w :: w in init ==> w in ts;
      forall w | w in init ensures FirstIndex(ts, w) == FirstIndex(init, w) {
        var k := FirstIndex(init, w);
        assert ts[k] == w;
        assert forall j :: 0 <= j < k ==> ts[j] == init[j];
      }
      assert fs == prev + (if last in stop || last in init then [] else [last]);
      forall i, j | 0 <= i < j < |fs|
        ensures fs[i] in ts && fs[j] in ts && FirstIndex(ts, fs[i]) < FirstIndex(ts, fs[j])
      {
        assert fs[i] == prev[i] && prev[i] in init;
        if j < |prev| {
          assert fs[j] == prev[j] && prev[j] in init;
          assert FirstIndex(init, prev[i]) < FirstIndex(init, prev[j]);
        } else {
          assert fs[j] == last && last !in init;
          assert FirstIndex(ts, last) == |ts| - 1;
        }
      }
      assert forall i :: 0 <= i < |fs| ==> fs[i] in ts by {
        forall i | 0 <= i < |fs| ensures fs[i] in ts {
          if i < |prev| { assert fs[i] == prev[i] && prev[i] in init; }
        }
      }
    }
  }

  /** What one more token does to the specification of the dictionary. */
  lemma CountSnoc(ts: seq<string>, t: string, stop: set<string>)
    ensures FirstSeen(ts + [t], stop) == FirstSeen(ts, stop) + (if t in stop || t in ts then [] else [t])
    ensures forall w :: Occurrences(ts + [t], w) == Occurrences(ts, w) + (if t == w then 1 else 0)
  {
    assert (ts + [t])[..|ts|] == ts;
  }

  /** One dictionary entry: a word and its count. */
  datatype Entry = Entry(word: string, count: nat)

  /** `list(freq.items())` as the specification has it: every non-stop token
      once, in first-occurrence order, with its number of occurrences. */
  function FreqItems(ts: seq<string>, stop: set<string>): seq<Entry>
  {
    var keys := FirstSeen(ts, stop);
    seq(|keys|, i requires 0 <= i < |keys| => Entry(keys[i], Occurrences(ts, keys[i])))
  }

  /** `keys` and `freq` are the dictionary after counting `ts`: its keys in
      insertion order, and the count of each key. */
  ghost predicate Counted(ts: seq<string>, stop: set<string>, keys: seq<string>, freq: map<string, nat>)
  {
    && keys == FirstSeen(ts, stop)
    && (forall w :: w in freq <==> w in keys)
    && (forall w :: w in freq ==> freq[w] == Occurrences(ts, w))
  }

  /** One iteration of the counting loop: a stop-word is skipped; any other
      token is appended to the keys when new and has its count raised by one. */
  lemma CountStep(ts: seq<string>, t: string, stop: set<string>, keys: seq<string>, freq: map<string, nat>)
    requires Counted(ts, stop, keys, freq)
    ensures t in stop ==> Counted(ts + [t], stop, keys, freq)
    ensures t !in stop ==>
      Counted(ts + [t], stop,
              keys + (if t in freq then [] else [t]),
              freq[t := (if t in freq then freq[t] else 0) + 1])
  {
    FirstSeenMembers(ts, stop);
    CountSnoc(ts, t, stop);
    if t !in stop && t !in freq {
      OccurrencesAbsent(ts, t);
    }
  }

  /** The counting loop. The dictionary is a map with its keys kept in
      insertion order beside it. */
  method CountTokens(tokens: seq<string>, stop: set<string>) returns (keys: seq<string>, freq: map<string, nat>)
    ensures keys == FirstSeen(tokens, stop)
    ensures forall w :: w in freq <==> w in keys
    ensures forall w :: w in freq ==> freq[w] == Occurrences(tokens, w)
  {
    keys, freq := [], map[];
    var i := 0;
    while i < |tokens|
      invariant 0 <= i <= |tokens|
      invariant Counted(tokens[..i], stop, keys, freq)
    {
      var t := tokens[i];
      CountStep(tokens[..i], t, stop, keys, freq);
      TakeSnoc(tokens, i);
      if t !in stop {
        if t !in freq {
          keys := keys + [t];
        }
        freq := freq[t := (if t in freq then freq[t] else 0) + 1];
      }
      i := i + 1;
    }
    assert tokens[..i] == tokens;
  }

  // ---------------------------------------------------------------------------
  // sorted(freq.items(), key=lambda x: x[1], reverse=True): a stable sort by
  // descending count
  // ---------------------------------------------------------------------------

  /** Puts `e` before the first entry whose count is not larger than its own,
      so that it stays ahead of the entries it tied with. */
  function InsertByCount(e: Entry, sorted: seq<Entry>): seq<Entry>
  {
    if sorted == [] || sorted[0].count <= e.count then [e] + sorted
    else [sorted[0]] + InsertByCount(e, sorted[1..])
  }

  function SortByCount(es: seq<Entry>): seq<Entry>
  {
    if es == [] then [] else InsertByCount(es[0], SortByCount(es[1..]))
  }

  predicate DescendingCounts(es: seq<Entry>)
  {
    forall i, j :: 0 <= i < j < |es| ==> es[i].count >= es[j].count
  }

  /** The entries with count `c`, in their order. */
  function WithCount(es: seq<Entry>, c: nat): seq<Entry>
  {
    if es == [] then []
    else (if es[0].count == c then [es[0]] else []) + WithCount(es[1..], c)
  }

  lemma {:induction false} InsertKeepsEntries(e: Entry, s: seq<Entry>)
    ensures multiset(InsertByCount(e, s)) == multiset(s) + multiset{e}
  {
    if s != [] && s[0].count > e.count {
      InsertKeepsEntries(e, s[1..]);
      assert s == [s[0]] + s[1..];
    }
  }

  lemma {:induction false} InsertMembers(e: Entry, s: seq<Entry>)
    ensures forall x :: x in InsertByCount(e, s) <==> x == e || x in s
  {
    if s != [] && s[0].count > e.count {
      InsertMembers(e, s[1..]);
      assert s == [s[0]] + s[1..];
    }
  }

  lemma {:induction false} InsertKeepsOrder(e: Entry, s: seq<Entry>)
    requires DescendingCounts(s)
    ensures DescendingCounts(InsertByCount(e, s))
  {
    if s != [] && s[0].count > e.count {
      var r := InsertByCount(e, s[1..]);
      InsertKeepsOrder(e, s[1..]);
      InsertMembers(e, s[1..]);
      var out := InsertByCount(e, s);
      assert out == [s[0]] + r;
      forall i, j | 0 <= i < j < |out| ensures out[i].count >= out[j].count {
        if i == 0 {
          assert out[j] == r[j - 1] && r[j - 1] in r;
          if r[j - 1] != e {
            var k :| 0 <= k < |s[1..]| && s[1..][k] == r[j - 1];
            assert s[k + 1] == r[j - 1];
          }
        } else {
          assert out[i] == r[i - 1] && out[j] == r[j - 1];
        }
      }
    }
  }

  lemma WithCountCons(x: Entry, s: seq<Entry>, c: nat)
    ensures WithCount([x] + s, c) == (if x.count == c then [x] else []) + WithCount(s, c)
  {
    assert ([x] + s)[1..] == s;
  }

  lemma {:induction false} InsertKeepsTies(e: Entry, s: seq<Entry>, c: nat)
    ensures WithCount(InsertByCount(e, s), c) == (if e.count == c then [e] else []) + WithCount(s, c)
  {
    if s == [] || s[0].count <= e.count {
      WithCountCons(e, s, c);
    } else {
      var r := InsertByCount(e, s[1..]);
      assert InsertByCount(e, s) == [s[0]] + r;
      InsertKeepsTies(e, s[1..], c);
      WithCountCons(s[0], r, c);
      assert s == [s[0]] + s[1..];
      WithCountCons(s[0], s[1..], c);
      if e.count == c {
        assert s[0].count != c;
      }
    }
  }

  /** The sort returns the same entries. */
  lemma {:induction false} SortKeepsEntries(es: seq<Entry>)
    ensures multiset(SortByCount(es)) == multiset(es)
  {
    if es != [] {
      SortKeepsEntries(es[1..]);
      InsertKeepsEntries(es[0], SortByCount(es[1..]));
      assert es == [es[0]] + es[1..];
    }
  }

  /** The sort returns its entries in descending order of count. */
  lemma {:induction false} SortKeepsOrder(es: seq<Entry>)
    ensures DescendingCounts(SortByCount(es))
  {
    if es != [] {
      SortKeepsOrder(es[1..]);
      InsertKeepsOrder(es[0], SortByCount(es[1..]));
    }
  }

  /** For every count, the entries with that count keep their input order. */
  lemma {:induction false} SortKeepsTies(es: seq<Entry>, c: nat)
    ensures WithCount(SortByCount(es), c) == WithCount(es, c)
  {
    if es != [] {
      SortKeepsTies(es[1..], c);
      InsertKeepsTies(es[0], SortByCount(es[1..]), c);
    }
  }

  /** The sort returns the same entries, in descending order of count, and
      for every count the entries with that count stay in their input order
      (Python's sort is stable, also with `reverse=True`). */
  lemma SortByCountSpec(es: seq<Entry>)
    ensures multiset(SortByCount(es)) == multiset(es)
    ensures DescendingCounts(SortByCount(es))
    ensures forall c :: WithCount(SortByCount(es), c) == WithCount(es, c)
  {
    SortKeepsEntries(es);
    SortKeepsOrder(es);
    forall c ensures WithCount(SortByCount(es), c) == WithCount(es, c) {
      SortKeepsTies(es, c);
    }
  }

  // ---------------------------------------------------------------------------
  // The extractor
  // ---------------------------------------------------------------------------

  function Words(es: seq<Entry>): (ws: seq<string>)
    ensures |ws| == |es| && forall i :: 0 <= i < |es| ==> ws[i] == es[i].word
  {
    seq(|es|, i requires 0 <= i < |es| => es[i].word)
  }

  /** The entries that make it into the answer. */
  function TopEntries(text: string, topK: int): seq<Entry>
  {
    PyTake(SortByCount(FreqItems(Tokens(Lower(text)), StopWords)), topK)
  }

  /** The keywords, before they are joined. */
  function KeywordList(text: string, topK: int): seq<string>
  {
    Words(TopEntries(text, topK))
  }

  /** `_extract_keywords(text, top_k=12)`. */
  method ExtractKeywords(text: string, topK: int := DefaultTopK) returns (result: string)
    ensures result == Join(", ", KeywordList(text, topK))
  {
    var tokens := Tokens(Lower(text));
    var keys, freq := CountTokens(tokens, StopWords);
    var items := seq(|keys|, i requires 0 <= i < |keys| => Entry(keys[i], freq[keys[i]]));
    assert items == FreqItems(tokens, StopWords);
    var ranked := SortByCount(items);
    result := Join(", ", Words(PyTake(ranked, topK)));
  }

  // ---------------------------------------------------------------------------
  // What the extractor promises
  // ---------------------------------------------------------------------------

  predicate DistinctWords(es: seq<Entry>)
  {
    forall i, j :: 0 <= i < j < |es| ==> es[i].word != es[j].word
  }

  /** Every dictionary entry is a non-stop token with its exact number of
      occurrences; the words are distinct and in first-occurrence order. */
  lemma FreqItemsSpec(ts: seq<string>, stop: set<string>)
    ensures DistinctWords(FreqItems(ts, stop))
    ensures KeysInFirstOccurrenceOrder(ts, Words(FreqItems(ts, stop)))
    ensures forall x :: x in FreqItems(ts, stop) ==>
      x.word in ts && x.word !in stop && x.count == Occurrences(ts, x.word) && x.count >= 1
    ensures forall w :: w in ts && w !in stop ==> Entry(w, Occurrences(ts, w)) in FreqItems(ts, stop)
  {
    var keys, items := FirstSeen(ts, stop), FreqItems(ts, stop);
    assert DistinctWords(items) && KeysInFirstOccurrenceOrder(ts, Words(items)) by {
      FirstSeenOrder(ts, stop);
      assert Words(items) == keys;
    }
    FirstSeenMembers(ts, stop);
    forall x | x in items
      ensures x.word in ts && x.word !in stop && x.count == Occurrences(ts, x.word) && x.count >= 1
    {
      var i :| 0 <= i < |items| && items[i] == x;
      assert x.word == keys[i] && keys[i] in keys;
      OccurrencesPositive(ts, x.word);
    }
    forall w | w in ts && w !in stop ensures Entry(w, Occurrences(ts, w)) in items {
      var i :| 0 <= i < |keys| && keys[i] == w;
      assert items[i] == Entry(w, Occurrences(ts, w));
    }
  }

  /** A word that occurs is counted at least once. */
  lemma {:induction false} OccurrencesPositive(ts: seq<string>, w: string)
    requires w in ts
    ensures Occurrences(ts, w) >= 1
  {
    var init := ts[..|ts| - 1];
    if ts[|ts| - 1] != w {
      assert w in init;
      OccurrencesPositive(init, w);
    }
  }

  lemma {:induction false} InsertKeepsDistinct(e: Entry, s: seq<Entry>)
    requires DistinctWords(s)
    requires forall x :: x in s ==> x.word != e.word
    ensures DistinctWords(InsertByCount(e, s))
  {
    if s != [] && s[0].count > e.count {
      var r := InsertByCount(e, s[1..]);
      InsertKeepsDistinct(e, s[1..]);
      InsertMembers(e, s[1..]);
      var out := InsertByCount(e, s);
      assert out == [s[0]] + r;
      forall i, j | 0 <= i < j < |out| ensures out[i].word != out[j].word {
        if i == 0 {
          assert out[j] == r[j - 1] && r[j - 1] in r;
          if r[j - 1] != e {
            var k :| 0 <= k < |s[1..]| && s[1..][k] == r[j - 1];
            assert s[k + 1] == r[j - 1];
          }
        } else {
          assert out[i] == r[i - 1] && out[j] == r[j - 1];
        }
      }
    }
  }

  /** Sorting entries with distinct words keeps the words distinct. */
  lemma {:induction false} SortKeepsDistinct(es: seq<Entry>)
    requires DistinctWords(es)
    ensures DistinctWords(SortByCount(es))
  {
    if es != [] {
      SortKeepsDistinct(es[1..]);
      SortByCountSpec(es[1..]);
      forall x | x in SortByCount(es[1..]) ensures x.word != es[0].word {
        assert x in multiset(es[1..]);
        var k :| 0 <= k < |es[1..]| && es[1..][k] == x;
        assert es[k + 1] == x;
      }
      InsertKeepsDistinct(es[0], SortByCount(es[1..]));
    }
  }

  /** Filtering a prefix gives a prefix of the filtered sequence. */
  lemma {:induction false} WithCountPrefix(es: seq<Entry>, n: nat, c: nat)
    requires n <= |es|
    ensures var p, q := WithCount(es[..n], c), WithCount(es, c); |p| <= |q| && p == q[..|p|]
  {
    if n > 0 {
      WithCountPrefix(es[1..], n - 1, c);
      assert es[..n][1..] == es[1..][..n - 1];
    }
  }

  /** For a non-negative `topK` the answer holds exactly `topK` keywords, or
      every distinct non-stop token when there are fewer; they are distinct,
      and each is a lower-case token, at least three characters of
      letters and hyphens starting with a letter, and not a stop-word. */
  lemma KeywordsShape(text: string, topK: int)
    ensures var distinct := |FirstSeen(Tokens(Lower(text)), StopWords)|;
      && (topK >= 0 ==> |KeywordList(text, topK)| == if topK < distinct then topK else distinct)
      && |KeywordList(text, topK)| <= distinct
    ensures forall i, j :: 0 <= i < j < |KeywordList(text, topK)| ==>
      KeywordList(text, topK)[i] != KeywordList(text, topK)[j]
    ensures forall i :: 0 <= i < |KeywordList(text, topK)| ==>
      KeywordList(text, topK)[i] !in StopWords && IsKeywordShape(KeywordList(text, topK)[i])
  {
    var ts := Tokens(Lower(text));
    var items := FreqItems(ts, StopWords);
    var sorted := SortByCount(items);
    var top := TopEntries(text, topK);
    var ws := KeywordList(text, topK);
    FreqItemsSpec(ts, StopWords);
    SortByCountSpec(items);
    SortKeepsDistinct(items);
    LowerHasNoUpper(text);
    TokensShape(Lower(text));
    assert |sorted| == |multiset(sorted)| == |multiset(items)| == |items|;
    assert top == sorted[..|top|];
    forall i | 0 <= i < |ws| ensures ws[i] !in StopWords && IsKeywordShape(ws[i]) {
      assert ws[i] == top[i].word && top[i] == sorted[i];
      assert sorted[i] in multiset(items);
      assert sorted[i] in items;
      var k :| 0 <= k < |ts| && ts[k] == ws[i];
    }
    forall i, j | 0 <= i < j < |ws| ensures ws[i] != ws[j] {
      assert top[i] == sorted[i] && top[j] == sorted[j];
    }
  }

  /** The chosen entries carry the true count of their word, come in
      non-increasing order of count, and among equal counts keep the order in
      which the words first occurred in the text. */
  lemma KeywordsRanked(text: string, topK: int)
    ensures forall i :: 0 <= i < |TopEntries(text, topK)| ==>
      TopEntries(text, topK)[i].count == Occurrences(Tokens(Lower(text)), TopEntries(text, topK)[i].word)
    ensures DescendingCounts(TopEntries(text, topK))
    ensures forall c ::
      && |WithCount(TopEntries(text, topK), c)| <= |WithCount(FreqItems(Tokens(Lower(text)), StopWords), c)|
      && WithCount(TopEntries(text, topK), c) ==
         WithCount(FreqItems(Tokens(Lower(text)), StopWords), c)[..|WithCount(TopEntries(text, topK), c)|]
  {
    var ts := Tokens(Lower(text));
    var items := FreqItems(ts, StopWords);
    var sorted := SortByCount(items);
    var top := TopEntries(text, topK);
    assert top == sorted[..|top|];
    SortByCountSpec(items);
    assert forall i :: 0 <= i < |top| ==> top[i].count == Occurrences(ts, top[i].word) by {
      FreqItemsSpec(ts, StopWords);
      forall i | 0 <= i < |top| ensures top[i].count == Occurrences(ts, top[i].word) {
        assert top[i] == sorted[i] && sorted[i] in multiset(items);
      }
    }
    forall c ensures |WithCount(top, c)| <= |WithCount(items, c)| &&
      WithCount(top, c) == WithCount(items, c)[..|WithCount(top, c)|]
    {
      WithCountPrefix(sorted, |top|, c);
    }
  }

  /** In a list sorted by descending count, an entry outside a prefix counts
      no more than any entry inside it. */
  lemma PrefixOutranks(sorted: seq<Entry>, n: nat, e: Entry)
    requires DescendingCounts(sorted) && n <= |sorted|
    requires e in sorted && e !in sorted[..n]
    ensures forall i :: 0 <= i < n ==> e.count <= sorted[i].count
  {
    var j :| 0 <= j < |sorted| && sorted[j] == e;
    assert forall k :: 0 <= k < n ==> sorted[..n][k] == sorted[k];
  }

  /** The chosen keywords are the most frequent ones: a non-stop token that
      was left out occurs no more often than any chosen keyword. */
  lemma KeywordsAreMostFrequent(text: string, topK: int, w: string)
    requires w in Tokens(Lower(text)) && w !in StopWords && w !in KeywordList(text, topK)
    ensures forall i :: 0 <= i < |TopEntries(text, topK)| ==>
      Occurrences(Tokens(Lower(text)), w) <= TopEntries(text, topK)[i].count
  {
    var ts := Tokens(Lower(text));
    var items := FreqItems(ts, StopWords);
    var sorted := SortByCount(items);
    var top := TopEntries(text, topK);
    var e := Entry(w, Occurrences(ts, w));
    assert e in sorted by {
      FreqItemsSpec(ts, StopWords);
      SortByCountSpec(items);
      assert e in multiset(items);
    }
    assert e !in top by {
      forall i | 0 <= i < |top| ensures top[i].word != w {
        var ws := KeywordList(text, topK);
        assert ws[i] == top[i].word && ws[i] in ws;
      }
    }
    assert DescendingCounts(sorted) by {
      SortByCountSpec(items);
    }
    PrefixOutranks(sorted, |top|, e);
  }
}
