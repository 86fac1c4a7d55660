/** The extractive summariser: `re.split(r'(?<=[.!?])\s+', text)`, keep the
    stripped pieces longer than 40 characters, take the first
    `max_sentences` of them and join them with single spaces. */
module Summary {
  import opened Text

  /** Sentence-final punctuation, the class `[.!?]` of the look-behind. */
  predicate IsTerminator(c: char)
  {
    c == '.' || c == '!' || c == '?'
  }

  /** Position `j` of `s` is where the split pattern matches: the character
      before it is a terminator and the character at it is whitespace. Position
      0 never matches, because the look-behind has nothing to look at. */
  predicate IsBreak(s: string, j: int)
  {
    1 <= j < |s| && IsTerminator(s[j - 1]) && IsSpace(s[j])
  }

  /** `p` is non-empty and ends with a terminator. */
  predicate EndsWithTerminator(p: string)
  {
    p != [] && IsTerminator(p[|p| - 1])
  }

  /** No match of the pattern starts strictly inside `p`. */
  predicate NoBreakInside(p: string)
  {
    forall q :: 1 <= q < |p| ==> !(IsTerminator(p[q - 1]) && IsSpace(p[q]))
  }

  /** The first match position at or after `k`, or `|s|` when there is none. */
  function FindBreak(s: string, k: nat): (b: nat)
    requires k <= |s|
    ensures k <= b <= |s|
    ensures b < |s| ==> IsBreak(s, b)
    ensures forall j :: k <= j < b ==> !IsBreak(s, j)
    decreases |s| - k
  {
    if k == |s| || IsBreak(s, k) then k else FindBreak(s, k + 1)
  }

  /** The pieces of a split and the whitespace runs the pattern consumed
      between them. */
  datatype Split = Split(sentences: seq<string>, gaps: seq<string>)

  /** Puts a split back together: piece, gap, piece, ..., piece. */
  function Weave(ps: seq<string>, gs: seq<string>): string
    requires |ps| == |gs| + 1
  {
    if gs == [] then ps[0] else ps[0] + gs[0] + Weave(ps[1..], gs[1..])
  }

  /** The split of `s[i..]` when the scan of `re.split(r'(?<=[.!?])\s+', s)`
      resumes at `i`. The look-behind sees the whole string. A match starts
      right after a terminator and, `\s+` being greedy, takes the whole
      whitespace run; the scan then resumes after the run. */
  function SplitFrom(s: string, i: nat): (r: Split)
    requires i <= |s|
    ensures |r.sentences| == |r.gaps| + 1
    decreases |s| - i
  {
    var k := FindBreak(s, i);
    if k == |s| then Split([s[i..]], [])
    else
      var j := SpaceRunEnd(s, k);
      assert j > k by { assert IsSpace(s[k]); }
      var rest := SplitFrom(s, j);
      Split([s[i..k]] + rest.sentences, [s[k..j]] + rest.gaps)
  }

  /** `re.split(r'(?<=[.!?])\s+', s)`. */
  function SplitSentences(s: string): Split
  {
    SplitFrom(s, 0)
  }

  /** Where the scan may resume: the start, or just after whitespace. */
  predicate ScanStart(s: string, i: nat)
  {
    i <= |s| && (i == 0 || IsSpace(s[i - 1]))
  }

  /** Weaving a piece and a gap in front of a split. */
  lemma WeaveCons(p: string, g: string, ps: seq<string>, gs: seq<string>)
    requires |ps| == |gs| + 1
    ensures Weave([p] + ps, [g] + gs) == p + g + Weave(ps, gs)
  {
    assert ([p] + ps)[1..] == ps && ([g] + gs)[1..] == gs;
  }

  /** Woven back with its gaps, the split gives the scanned text again. */
  lemma {:induction false} SplitWeave(s: string, i: nat)
    requires i <= |s|
    ensures Weave(SplitFrom(s, i).sentences, SplitFrom(s, i).gaps) == s[i..]
    decreases |s| - i
  {
    var k := FindBreak(s, i);
    if k < |s| {
      var j := SpaceRunEnd(s, k);
      var rest := SplitFrom(s, j);
      assert SplitFrom(s, i) == Split([s[i..k]] + rest.sentences, [s[k..j]] + rest.gaps);
      SplitWeave(s, j);
      WeaveCons(s[i..k], s[k..j], rest.sentences, rest.gaps);
      SliceConcat(s, i, k, j);
    }
  }

  /** Every gap is a non-empty run of whitespace. */
  lemma {:induction false} SplitGapsAreSpace(s: string, i: nat)
    requires i <= |s|
    ensures forall g :: 0 <= g < |SplitFrom(s, i).gaps| ==>
      SplitFrom(s, i).gaps[g] != [] && AllSpace(SplitFrom(s, i).gaps[g])
    decreases |s| - i
  {
    var k := FindBreak(s, i);
    if k < |s| {
      var j := SpaceRunEnd(s, k);
      var rest := SplitFrom(s, j);
      SplitGapsAreSpace(s, j);
      var gap := s[k..j];
      assert SplitFrom(s, i).gaps == [gap] + rest.gaps;
      assert gap != [] && AllSpace(gap) by {
        assert IsSpace(s[k]);
        forall q | 0 <= q < |gap| ensures IsSpace(gap[q]) {
          assert gap[q] == s[k + q];
        }
      }
    }
  }

  /** The gaps are taken whole: no piece after the first starts with
      whitespace. */
  lemma {:induction false} SplitGapsMaximal(s: string, i: nat)
    requires i <= |s|
    ensures forall p :: 1 <= p < |SplitFrom(s, i).sentences| ==>
      SplitFrom(s, i).sentences[p] == [] || !IsSpace(SplitFrom(s, i).sentences[p][0])
    decreases |s| - i
  {
    var k := FindBreak(s, i);
    if k < |s| {
      var j := SpaceRunEnd(s, k);
      var rest := SplitFrom(s, j);
      SplitGapsMaximal(s, j);
      var ps := SplitFrom(s, i).sentences;
      assert ps == [s[i..k]] + rest.sentences;
      var first := rest.sentences[0];
      assert first == [] || first[0] == s[j] by {
        var k' := FindBreak(s, j);
        if k' < |s| {
          assert first == s[j..k'];
        } else {
          assert first == s[j..];
        }
      }
      forall p | 1 <= p < |ps| ensures ps[p] == [] || !IsSpace(ps[p][0]) {
        assert ps[p] == rest.sentences[p - 1];
      }
    }
  }

  /** The text from `i` to the next match holds no match inside. */
  lemma NoBreakBefore(s: string, i: nat)
    requires i <= |s|
    ensures NoBreakInside(s[i..FindBreak(s, i)])
  {
    var k := FindBreak(s, i);
    var piece := s[i..k];
    forall q | 1 <= q < |piece| ensures !(IsTerminator(piece[q - 1]) && IsSpace(piece[q])) {
      assert piece[q - 1] == s[i + q - 1] && piece[q] == s[i + q];
      assert !IsBreak(s, i + q);
    }
  }

  /** Every piece but the last ends with a terminator. */
  lemma {:induction false} SplitPiecesEnd(s: string, i: nat)
    requires ScanStart(s, i)
    ensures forall p :: 0 <= p < |SplitFrom(s, i).gaps| ==> EndsWithTerminator(SplitFrom(s, i).sentences[p])
    decreases |s| - i
  {
    var k := FindBreak(s, i);
    if k < |s| {
      var piece := s[i..k];
      var j := SpaceRunEnd(s, k);
      var rest := SplitFrom(s, j);
      var r := SplitFrom(s, i);
      assert r == Split([piece] + rest.sentences, [s[k..j]] + rest.gaps);
      assert EndsWithTerminator(piece) by {
        assert k != i by { assert IsTerminator(s[k - 1]); }
        assert piece[|piece| - 1] == s[k - 1];
      }
      assert ScanStart(s, j) by { assert IsSpace(s[j - 1]); }
      SplitPiecesEnd(s, j);
      forall p | 1 <= p < |r.gaps| ensures EndsWithTerminator(r.sentences[p]) {
        assert r.sentences[p] == rest.sentences[p - 1];
      }
    }
  }

  /** No piece contains a match of the pattern. */
  lemma {:induction false} SplitPiecesNoBreak(s: string, i: nat)
    requires i <= |s|
    ensures forall p :: 0 <= p < |SplitFrom(s, i).sentences| ==> NoBreakInside(SplitFrom(s, i).sentences[p])
    decreases |s| - i
  {
    var k := FindBreak(s, i);
    var piece := s[i..k];
    NoBreakBefore(s, i);
    if k == |s| {
      assert piece == s[i..];
      assert SplitFrom(s, i).sentences == [piece];
    } else {
      var j := SpaceRunEnd(s, k);
      var rest := SplitFrom(s, j);
      var r := SplitFrom(s, i);
      assert r.sentences == [piece] + rest.sentences;
      SplitPiecesNoBreak(s, j);
      forall p | 1 <= p < |r.sentences| ensures NoBreakInside(r.sentences[p]) {
        assert r.sentences[p] == rest.sentences[p - 1];
      }
    }
  }

  /** Every piece of a woven string occurs in it. */
  lemma {:induction false} WeaveInfix(ps: seq<string>, gs: seq<string>, i: nat)
    requires |ps| == |gs| + 1 && i < |ps|
    ensures exists off :: InfixAt(ps[i], Weave(ps, gs), off)
  {
    var w := Weave(ps, gs);
    if i == 0 {
      if gs != [] {
        assert w[..|ps[0]|] == ps[0];
      } else {
        assert w[0..|ps[0]|] == ps[0];
      }
      assert InfixAt(ps[0], w, 0);
    } else {
      var w' := Weave(ps[1..], gs[1..]);
      WeaveInfix(ps[1..], gs[1..], i - 1);
      var off :| InfixAt(ps[1..][i - 1], w', off);
      var pre := ps[0] + gs[0];
      assert w == pre + w';
      assert w[|pre| + off..|pre| + off + |ps[i]|] == w'[off..off + |ps[i]|];
      assert InfixAt(ps[i], w, |pre| + off);
    }
  }

  /** Pieces must be longer than this, once stripped, to be kept. */
  const MinSentenceLength: nat := 40
  /** `max_sentences` when the tool is called without one. */
  const DefaultMaxSentences: int := 5

  predicate LongEnough(p: string)
  {
    |Strip(p)| > MinSentenceLength
  }

  /** `[s.strip() for s in pieces if len(s.strip()) > 40]`. */
  function KeptSentences(pieces: seq<string>): seq<string>
  {
    if pieces == [] then []
    else
      var last := pieces[|pieces| - 1];
      KeptSentences(pieces[..|pieces| - 1]) + (if LongEnough(last) then [Strip(last)] else [])
  }

  /** Positions of the pieces that are kept, in increasing order. */
  function KeptIndices(pieces: seq<string>): (idx: seq<nat>)
    ensures forall i :: 0 <= i < |idx| ==> idx[i] < |pieces| && LongEnough(pieces[idx[i]])
    ensures forall i, j :: 0 <= i < j < |idx| ==> idx[i] < idx[j]
  {
    if pieces == [] then []
    else
      var n := |pieces| - 1;
      var prev := KeptIndices(pieces[..n]);
      assert forall i :: 0 <= i < |prev| ==> pieces[prev[i]] == pieces[..n][prev[i]];
      assert forall j :: 0 <= j < n ==> pieces[j] == pieces[..n][j];
      prev + (if LongEnough(pieces[n]) then [n] else [])
  }

  /** Every long enough piece is kept. */
  lemma {:induction false} KeptIndicesComplete(pieces: seq<string>, j: nat)
    requires j < |pieces| && LongEnough(pieces[j])
    ensures j in KeptIndices(pieces)
  {
    var n := |pieces| - 1;
    if j < n {
      KeptIndicesComplete(pieces[..n], j);
    }
  }

  /** The kept sentences are the stripped long pieces, in their original
      order. */
  lemma {:induction false} KeptAt(pieces: seq<string>)
    ensures |KeptSentences(pieces)| == |KeptIndices(pieces)|
    ensures forall i :: 0 <= i < |KeptSentences(pieces)| ==>
      KeptSentences(pieces)[i] == Strip(pieces[KeptIndices(pieces)[i]])
  {
    if pieces != [] {
      var n := |pieces| - 1;
      var prefix := pieces[..n];
      var kept, prev := KeptSentences(prefix), KeptIndices(prefix);
      KeptAt(prefix);
      assert KeptSentences(pieces) == kept + (if LongEnough(pieces[n]) then [Strip(pieces[n])] else []);
      assert KeptIndices(pieces) == prev + (if LongEnough(pieces[n]) then [n] else []);
      forall i | 0 <= i < |KeptSentences(pieces)|
        ensures KeptSentences(pieces)[i] == Strip(pieces[KeptIndices(pieces)[i]])
      {
        if i < |kept| {
          assert kept[i] == Strip(prefix[prev[i]]);
          assert prefix[prev[i]] == pieces[prev[i]];
        }
      }
    }
  }

  /** The sentences the summary is made of. */
  function ChosenSentences(text: string, maxSentences: int): seq<string>
  {
    PyTake(KeptSentences(SplitSentences(text).sentences), maxSentences)
  }

  /** `_summarize_text(text, max_sentences=5)`. */
  function Summarize(text: string, maxSentences: int := DefaultMaxSentences): string
  {
    Join(" ", ChosenSentences(text, maxSentences))
  }

  /** The summary holds at most `maxSentences` sentences (none for a
      non-positive count only when it removes all of them, as Python's slice
      does), each stripped and longer than 40 characters, and they are the
      first kept sentences in text order. */
  lemma SummaryShape(text: string, maxSentences: int)
    ensures var chosen, kept := ChosenSentences(text, maxSentences), KeptSentences(SplitSentences(text).sentences);
      && chosen == kept[..|chosen|]
      && (maxSentences >= 0 ==> |chosen| == if maxSentences < |kept| then maxSentences else |kept|)
      && (forall i :: 0 <= i < |chosen| ==> |chosen[i]| > MinSentenceLength && Strip(chosen[i]) == chosen[i])
  {
    var pieces := SplitSentences(text).sentences;
    var chosen, kept := ChosenSentences(text, maxSentences), KeptSentences(pieces);
    KeptAt(pieces);
    forall i | 0 <= i < |chosen|
      ensures |chosen[i]| > MinSentenceLength && Strip(chosen[i]) == chosen[i]
    {
      assert chosen[i] == kept[i];
      StripIdempotent(pieces[KeptIndices(pieces)[i]]);
    }
  }

  /** The summary is empty exactly when no sentence is chosen; otherwise it
      is the chosen sentences with one space between each pair, nothing
      added and nothing lost. */
  lemma SummaryEmptyIff(text: string, maxSentences: int)
    ensures Summarize(text, maxSentences) == "" <==> ChosenSentences(text, maxSentences) == []
    ensures ChosenSentences(text, maxSentences) != [] ==>
      |Summarize(text, maxSentences)| ==
        SumLengths(ChosenSentences(text, maxSentences)) + |ChosenSentences(text, maxSentences)| - 1
  {
    var chosen := ChosenSentences(text, maxSentences);
    if chosen != [] {
      SummaryShape(text, maxSentences);
      JoinLength(" ", chosen);
      assert SumLengths(chosen) >= |chosen[0]| > MinSentenceLength;
    }
  }

  /** An occurrence of an occurrence is an occurrence. */
  lemma InfixTrans(x: string, y: string, z: string, a: int, b: int)
    requires InfixAt(x, y, a) && InfixAt(y, z, b)
    ensures InfixAt(x, z, b + a)
  {
    forall q | 0 <= q < |x| ensures z[b + a + q] == x[q] {
      assert x[q] == y[a..a + |x|][q] == y[a + q];
      assert y[a + q] == z[b..b + |y|][a + q] == z[b + a + q];
    }
    assert z[b + a..b + a + |x|] == x;
  }

  /** The summary is extractive: every sentence in it occurs verbatim in the
      input text. */
  lemma SummaryIsExtractive(text: string, maxSentences: int, i: nat)
    requires i < |ChosenSentences(text, maxSentences)|
    ensures exists off :: InfixAt(ChosenSentences(text, maxSentences)[i], text, off)
  {
    var sp := SplitSentences(text);
    var pieces := sp.sentences;
    var c := ChosenSentences(text, maxSentences)[i];
    KeptAt(pieces);
    var k := KeptIndices(pieces)[i];
    var p := pieces[k];
    assert c == Strip(p);
    assert exists o :: InfixAt(p, text, o) by {
      SplitWeave(text, 0);
      assert text[0..] == text;
      WeaveInfix(pieces, sp.gaps, k);
    }
    var off :| InfixAt(p, text, off);
    assert InfixAt(c, p, StripStart(p)) by {
      StripSpec(p);
    }
    InfixTrans(c, p, text, StripStart(p), off);
  }
}
