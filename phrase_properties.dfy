/** What the extractor of src/lib.rs guarantees, proved about `Scan`, `Segment` and `Collect`. */
module PhraseProperties {
  import opened Wrappers
  import opened Documents
  import opened Phrases

  /** The search was cut off by the length cap or the document end rather than by a miss. */
  ghost predicate Capped(tokens: seq<Token>, start: nat, queryLen: nat, maxLen: nat) {
    queryLen > maxLen || start + queryLen > |tokens|
  }

  /** When the query grew, the last confirmed query `[start, start + queryLen - 1)` is
      contained in one of the relevant documents: growth happens only right after a
      successful containment test. */
  lemma {:induction false} ScanConfirms(tokens: seq<Token>, start: nat, relevant: seq<Document>, queryLen: nat, found: bool, maxLen: nat)
    requires start + queryLen <= |tokens|
    ensures var p := Scan(tokens, start, relevant, queryLen, found, maxLen);
      queryLen < p.queryLen ==> Confirmed(relevant, tokens[start..start + p.queryLen - 1])
    decreases |relevant|, |tokens| - (start + queryLen)
  {
    if relevant != [] {
      var p := Scan(tokens, start, relevant, queryLen, found, maxLen);
      if relevant[0].Contains(tokens[start..start + queryLen]) {
        ScanContains(tokens, start, relevant, queryLen, found, maxLen);
        if !(queryLen + 1 > maxLen || start + queryLen + 1 > |tokens|) {
          ScanConfirms(tokens, start, relevant, queryLen + 1, true, maxLen);
        }
      } else {
        ScanMisses(tokens, start, relevant, queryLen, found, maxLen);
        ScanConfirms(tokens, start, relevant[1..], queryLen, found, maxLen);
        if queryLen < p.queryLen {
          ConfirmedByTail(relevant, tokens[start..start + p.queryLen - 1]);
        }
      }
    }
  }

  /** A phrase confirmed by the documents after the first is confirmed by all of them. */
  lemma ConfirmedByTail(relevant: seq<Document>, phrase: seq<Token>)
    requires relevant != [] && Confirmed(relevant[1..], phrase)
    ensures Confirmed(relevant, phrase)
  {
    var j :| 0 <= j < |relevant[1..]| && relevant[1..][j].Contains(phrase);
    assert relevant[1..][j] == relevant[j + 1];
  }

  /** Unless it was cut off, the search ends on a query that relevant document `j` does not contain. */
  lemma {:induction false} ScanStopsOnMiss(tokens: seq<Token>, start: nat, relevant: seq<Document>, queryLen: nat, found: bool, maxLen: nat, j: nat)
    requires start + queryLen <= |tokens| && j < |relevant|
    ensures var p := Scan(tokens, start, relevant, queryLen, found, maxLen);
      (p.queryLen == queryLen || !Capped(tokens, start, p.queryLen, maxLen)) ==>
        !relevant[j].Contains(tokens[start..start + p.queryLen])
    decreases |relevant|, |tokens| - (start + queryLen)
  {
    var p := Scan(tokens, start, relevant, queryLen, found, maxLen);
    if relevant[0].Contains(tokens[start..start + queryLen]) {
      ScanContains(tokens, start, relevant, queryLen, found, maxLen);
      if queryLen + 1 > maxLen || start + queryLen + 1 > |tokens| {
        assert Capped(tokens, start, p.queryLen, maxLen) && p.queryLen != queryLen;
      } else {
        ScanStopsOnMiss(tokens, start, relevant, queryLen + 1, true, maxLen, j);
      }
    } else {
      ScanMisses(tokens, start, relevant, queryLen, found, maxLen);
      if p.queryLen == queryLen || !Capped(tokens, start, p.queryLen, maxLen) {
        var q := tokens[start..start + p.queryLen];
        if j == 0 {
          assert q[..queryLen] == tokens[start..start + queryLen];
          ContainsPrefix(relevant[0], q, queryLen);
        } else {
          ScanStopsOnMiss(tokens, start, relevant[1..], queryLen, found, maxLen, j - 1);
          assert relevant[1..][j - 1] == relevant[j];
        }
        assert !relevant[j].Contains(q);
      }
    }
  }

  /** Something is found exactly when some relevant document contains the seed query. */
  lemma ScanFoundIffSeedConfirmed(tokens: seq<Token>, start: nat, relevant: seq<Document>, minLen: nat, maxLen: nat)
    requires start + minLen <= |tokens|
    ensures var p := Scan(tokens, start, relevant, minLen, false, maxLen);
      && (p.found <==> Confirmed(relevant, tokens[start..start + minLen]))
      && (p.found ==> Confirmed(relevant, tokens[start..start + p.queryLen - 1]))
  {
    var p := Scan(tokens, start, relevant, minLen, false, maxLen);
    ScanConfirms(tokens, start, relevant, minLen, false, maxLen);
    if p.found {
      var q := tokens[start..start + p.queryLen - 1];
      var j :| 0 <= j < |relevant| && relevant[j].Contains(q);
      ContainsRunOfPattern(relevant[j], q, 0, minLen);
      assert q[0..minLen] == tokens[start..start + minLen];
    } else {
      forall j | 0 <= j < |relevant|
        ensures !relevant[j].Contains(tokens[start..start + minLen])
      {
        ScanStopsOnMiss(tokens, start, relevant, minLen, false, maxLen, j);
      }
    }
  }

  /** No run from `start` at least as long as the final query and within the caps is
      contained in any relevant document. */
  lemma ScanHasNoLongerMatch(tokens: seq<Token>, start: nat, relevant: seq<Document>, minLen: nat, maxLen: nat, end: nat)
    requires start + minLen <= |tokens|
    ensures var p := Scan(tokens, start, relevant, minLen, false, maxLen);
      start + p.queryLen <= end <= |tokens| && end - start <= maxLen ==> !Confirmed(relevant, tokens[start..end])
  {
    var p := Scan(tokens, start, relevant, minLen, false, maxLen);
    if start + p.queryLen <= end <= |tokens| && end - start <= maxLen {
      assert !Capped(tokens, start, p.queryLen, maxLen);
      forall j | 0 <= j < |relevant|
        ensures !relevant[j].Contains(tokens[start..end])
      {
        ScanStopsOnMiss(tokens, start, relevant, minLen, false, maxLen, j);
        assert tokens[start..end][..p.queryLen] == tokens[start..start + p.queryLen];
        ContainsPrefix(relevant[j], tokens[start..end], p.queryLen);
      }
    }
  }

  /** The hand-off between relevant documents finds the longest match over all of them:
      the seed is confirmed iff something is found, the reported phrase is confirmed, and
      no longer run from `start` within the caps is contained in any relevant document. */
  lemma ScanIsLongestMatch(tokens: seq<Token>, start: nat, relevant: seq<Document>, minLen: nat, maxLen: nat)
    requires start + minLen <= |tokens|
    ensures var p := Scan(tokens, start, relevant, minLen, false, maxLen);
      && (p.found <==> Confirmed(relevant, tokens[start..start + minLen]))
      && (p.found ==> Confirmed(relevant, tokens[start..start + p.queryLen - 1]))
      && forall end :: start + p.queryLen <= end <= |tokens| && end - start <= maxLen ==>
           !Confirmed(relevant, tokens[start..end])
  {
    ScanFoundIffSeedConfirmed(tokens, start, relevant, minLen, maxLen);
    forall end: nat
      ensures var p := Scan(tokens, start, relevant, minLen, false, maxLen);
        start + p.queryLen <= end <= |tokens| && end - start <= maxLen ==> !Confirmed(relevant, tokens[start..end])
    {
      ScanHasNoLongerMatch(tokens, start, relevant, minLen, maxLen, end);
    }
  }

  /** Boundaries lie in the document at or after the cursor, have a length between the
      minimum and the maximum (exactly the minimum when the maximum is smaller), and are
      non-overlapping and strictly left to right. */
  lemma {:induction false} SegmentBounds(tokens: seq<Token>, relevant: seq<Document>, minLen: nat, maxLen: nat, start: nat)
    requires 1 <= minLen && start <= |tokens|
    requires Segment(tokens, relevant, minLen, maxLen, start).Done?
    ensures var bs := Segment(tokens, relevant, minLen, maxLen, start).bounds;
      && (forall i :: 0 <= i < |bs| ==>
            && start <= bs[i].start
            && bs[i].start + minLen <= bs[i].end <= |tokens|
            && (bs[i].end - bs[i].start <= maxLen || bs[i].end - bs[i].start == minLen))
      && (forall i, j :: 0 <= i < j < |bs| ==> bs[i].end <= bs[j].start)
    decreases |tokens| - start
  {
    if start < |tokens| {
      var p := Scan(tokens, start, relevant, minLen, false, maxLen);
      if p.found {
        var end := start + p.queryLen - 1;
        SegmentBounds(tokens, relevant, minLen, maxLen, end);
        var rest := Segment(tokens, relevant, minLen, maxLen, end).bounds;
        var bs := Segment(tokens, relevant, minLen, maxLen, start).bounds;
        assert bs == [Boundary(start, end)] + rest;
        assert forall i :: 1 <= i < |bs| ==> bs[i] == rest[i - 1];
      } else {
        SegmentBounds(tokens, relevant, minLen, maxLen, start + 1);
      }
    }
  }

  /** Every boundary is a maximal match: its phrase is contained in some relevant document,
      and no longer run from the same start within the caps is contained in any. */
  lemma {:induction false} SegmentPhrasesAreMaximal(tokens: seq<Token>, relevant: seq<Document>, minLen: nat, maxLen: nat, start: nat)
    requires 1 <= minLen && start <= |tokens|
    requires Segment(tokens, relevant, minLen, maxLen, start).Done?
    ensures var bs := Segment(tokens, relevant, minLen, maxLen, start).bounds;
      forall i :: 0 <= i < |bs| ==>
        && bs[i].start <= bs[i].end <= |tokens|
        && Confirmed(relevant, tokens[bs[i].start..bs[i].end])
        && forall end :: bs[i].end < end <= |tokens| && end - bs[i].start <= maxLen ==>
             !Confirmed(relevant, tokens[bs[i].start..end])
    decreases |tokens| - start
  {
    if start < |tokens| {
      var p := Scan(tokens, start, relevant, minLen, false, maxLen);
      if p.found {
        var end := start + p.queryLen - 1;
        ScanIsLongestMatch(tokens, start, relevant, minLen, maxLen);
        SegmentPhrasesAreMaximal(tokens, relevant, minLen, maxLen, end);
        var rest := Segment(tokens, relevant, minLen, maxLen, end).bounds;
        var bs := Segment(tokens, relevant, minLen, maxLen, start).bounds;
        assert bs == [Boundary(start, end)] + rest;
        assert forall i :: 1 <= i < |bs| ==> bs[i] == rest[i - 1];
      } else {
        SegmentPhrasesAreMaximal(tokens, relevant, minLen, maxLen, start + 1);
      }
    }
  }

  /** Position `pos` lies in none of the boundaries. */
  ghost predicate Uncovered(bs: seq<Boundary>, pos: nat) {
    forall i :: 0 <= i < |bs| ==> pos < bs[i].start || bs[i].end <= pos
  }

  /** A single-token skip: the seed query at `pos` fits and no relevant document contains it. */
  ghost predicate Skip(tokens: seq<Token>, relevant: seq<Document>, minLen: nat, pos: nat) {
    pos + minLen <= |tokens| && !Confirmed(relevant, tokens[pos..pos + minLen])
  }

  /** Coverage: from the cursor on, every position outside all boundaries is a skip, so the
      boundaries and the skips together cover the rest of the document. */
  lemma {:induction false} SegmentCoverage(tokens: seq<Token>, relevant: seq<Document>, minLen: nat, maxLen: nat, start: nat)
    requires 1 <= minLen && start <= |tokens|
    requires Segment(tokens, relevant, minLen, maxLen, start).Done?
    ensures var bs := Segment(tokens, relevant, minLen, maxLen, start).bounds;
      forall pos :: start <= pos < |tokens| && Uncovered(bs, pos) ==> Skip(tokens, relevant, minLen, pos)
    decreases |tokens| - start
  {
    if start < |tokens| {
      var p := Scan(tokens, start, relevant, minLen, false, maxLen);
      var bs := Segment(tokens, relevant, minLen, maxLen, start).bounds;
      ScanIsLongestMatch(tokens, start, relevant, minLen, maxLen);
      if p.found {
        var end := start + p.queryLen - 1;
        SegmentCoverage(tokens, relevant, minLen, maxLen, end);
        var rest := Segment(tokens, relevant, minLen, maxLen, end).bounds;
        assert bs == [Boundary(start, end)] + rest;
        forall pos | start <= pos < |tokens| && Uncovered(bs, pos)
          ensures Skip(tokens, relevant, minLen, pos)
        {
          assert !(bs[0].start <= pos < bs[0].end);
          forall i | 0 <= i < |rest|
            ensures pos < rest[i].start || rest[i].end <= pos
          {
            assert rest[i] == bs[i + 1];
          }
        }
      } else {
        SegmentCoverage(tokens, relevant, minLen, maxLen, start + 1);
      }
    }
  }

  /** With no relevant documents nothing is ever found: the cursor moves one token at a
      time, no boundary is produced, and the call returns only if the minimum length is 1
      (or nothing is left); otherwise the seed slice near the end panics. */
  lemma {:induction false} NoRelevantDocuments(tokens: seq<Token>, minLen: nat, maxLen: nat, start: nat)
    requires 1 <= minLen && start <= |tokens|
    ensures var r := Segment(tokens, [], minLen, maxLen, start);
      && (r.Done? <==> start == |tokens| || minLen == 1)
      && (r.Done? ==> r.bounds == [])
    decreases |tokens| - start
  {
    if start < |tokens| && start + minLen <= |tokens| {
      NoRelevantDocuments(tokens, minLen, maxLen, start + 1);
    }
  }

  /** The returned set holds exactly the slices of all entries' boundaries, deduplicated by content. */
  lemma {:induction false} CollectContents(entries: seq<Entry>, minLen: nat, maxLen: nat, ph: seq<Token>)
    requires 1 <= minLen
    requires Collect(entries, minLen, maxLen).Some?
    ensures forall k :: 0 <= k < |entries| ==> Extract(entries[k].0, entries[k].1, minLen, maxLen).Done?
    ensures ph in Collect(entries, minLen, maxLen).value <==>
      exists k :: 0 <= k < |entries| &&
        ph in PhrasesOf(entries[k].0.tokens, Extract(entries[k].0, entries[k].1, minLen, maxLen).bounds)
    decreases |entries|
  {
    if entries != [] {
      var init := entries[..|entries| - 1];
      CollectContents(init, minLen, maxLen, ph);
      assert forall k :: 0 <= k < |init| ==> init[k] == entries[k];
    }
  }

  /** `ph` is the slice `[s, e)` of `tokens`. */
  ghost predicate SliceAt(tokens: seq<Token>, ph: seq<Token>, s: nat, e: nat) {
    s <= e <= |tokens| && ph == tokens[s..e]
  }

  /** `ph` could be a phrase of the entry: a contiguous slice of its document, confirmed by
      one of its relevant documents, of an admissible length. */
  ghost predicate PhraseOf(entry: Entry, ph: seq<Token>, minLen: nat, maxLen: nat) {
    && (exists s, e :: SliceAt(entry.0.tokens, ph, s, e))
    && Confirmed(entry.1, ph)
    && minLen <= |ph|
    && (|ph| <= maxLen || |ph| == minLen)
  }

  /** Every returned phrase is a contiguous slice of one of the documents, contained in one of
      that document's relevant documents, between the minimum and maximum length. */
  lemma CollectedPhrasesAreSound(entries: seq<Entry>, minLen: nat, maxLen: nat, ph: seq<Token>)
    requires 1 <= minLen
    requires Collect(entries, minLen, maxLen).Some? && ph in Collect(entries, minLen, maxLen).value
    ensures exists k :: 0 <= k < |entries| && PhraseOf(entries[k], ph, minLen, maxLen)
  {
    CollectContents(entries, minLen, maxLen, ph);
    var k :| 0 <= k < |entries| &&
      ph in PhrasesOf(entries[k].0.tokens, Extract(entries[k].0, entries[k].1, minLen, maxLen).bounds);
    var tokens := entries[k].0.tokens;
    var bs := Extract(entries[k].0, entries[k].1, minLen, maxLen).bounds;
    SegmentBounds(tokens, entries[k].1, minLen, maxLen, 0);
    SegmentPhrasesAreMaximal(tokens, entries[k].1, minLen, maxLen, 0);
    var i :| 0 <= i < |bs| && bs[i].start <= bs[i].end <= |tokens| && ph == tokens[bs[i].start..bs[i].end];
    assert SliceAt(tokens, ph, bs[i].start, bs[i].end);
    assert PhraseOf(entries[k], ph, minLen, maxLen);
  }

  /** With a one-token seed the seed slice always fits, so the cursor loop never panics. */
  lemma {:induction false} UnitSeedSucceeds(tokens: seq<Token>, relevant: seq<Document>, maxLen: nat, start: nat)
    requires start <= |tokens|
    ensures Segment(tokens, relevant, 1, maxLen, start).Done?
    decreases |tokens| - start
  {
    if start < |tokens| {
      var p := Scan(tokens, start, relevant, 1, false, maxLen);
      if p.found {
        UnitSeedSucceeds(tokens, relevant, maxLen, start + p.queryLen - 1);
      } else {
        UnitSeedSucceeds(tokens, relevant, maxLen, start + 1);
      }
    }
  }

  /** When the cursor loop completes, every position of the last `min_phrase_len - 1`
      tokens from the cursor on lies inside a phrase: the cursor never stopped where the
      seed would not fit. */
  lemma TailIsCovered(tokens: seq<Token>, relevant: seq<Document>, minLen: nat, maxLen: nat, start: nat, pos: nat)
    requires 1 <= minLen && start <= pos < |tokens| < pos + minLen
    requires Segment(tokens, relevant, minLen, maxLen, start).Done?
    ensures var bs := Segment(tokens, relevant, minLen, maxLen, start).bounds;
      exists i :: 0 <= i < |bs| && bs[i].start <= pos < bs[i].end
  {
    SegmentCoverage(tokens, relevant, minLen, maxLen, start);
    var bs := Segment(tokens, relevant, minLen, maxLen, start).bounds;
    assert !Skip(tokens, relevant, minLen, pos);
    assert !Uncovered(bs, pos);
    var i :| 0 <= i < |bs| && !(pos < bs[i].start || bs[i].end <= pos);
  }

  /** A document of three tokens with no relevant documents and a two-token seed: the
      cursor reaches position 2, where the seed slice `[2, 4)` is out of range. */
  lemma TestShortTailPanics()
    ensures Extract(Document([0, 1, 2]), [], 2, 100) == SeedOutOfBounds(2)
  {
    NoRelevantDocuments([0, 1, 2], 2, 100, 0);
  }

  /** With irreflexivity (the contract of `LexLess`), `LexLess` is a strict total order on phrases,
      so the returned set has one iteration order. */
  lemma {:induction false} LexLessTransitive(a: seq<Token>, b: seq<Token>, c: seq<Token>)
    requires LexLess(a, b) && LexLess(b, c)
    ensures LexLess(a, c)
    decreases |a|
  {
    if a != [] && a[0] == b[0] && b[0] == c[0] {
      LexLessTransitive(a[1..], b[1..], c[1..]);
    }
  }

  lemma {:induction false} LexLessTotal(a: seq<Token>, b: seq<Token>)
    requires a != b
    ensures LexLess(a, b) || LexLess(b, a)
    decreases |a|
  {
    if a != [] && b != [] && a[0] == b[0] {
      assert a == [a[0]] + a[1..] && b == [b[0]] + b[1..];
      LexLessTotal(a[1..], b[1..]);
    }
  }

  // ----- The unit test of src/lib.rs, as lemmas -----

  /** Document `[0, 1, 2, 3]` at cursor 0: the first relevant document confirms `[0, 1]`,
      neither contains `[0, 1, 2]`. */
  lemma TestScanFirstDocumentAt0()
    ensures Scan([0, 1, 2, 3], 0, [Document([0, 0, 1, 1]), Document([0, 2, 3, 3])], 2, false, 100) == Probe(3, true)
  {
    var t: seq<Token> := [0, 1, 2, 3];
    var a, b := Document([0, 0, 1, 1]), Document([0, 2, 3, 3]);
    var rel := [a, b];
    TestContainmentAt0();
    assert t[0..2] == [0, 1];
    assert t[0..3] == [0, 1, 2];
    ScanContains(t, 0, rel, 2, false, 100);
    ScanMisses(t, 0, rel, 3, true, 100);
    assert rel[1..] == [b] && [b][1..] == [];
    ScanMisses(t, 0, [b], 3, true, 100);
  }

  /** The containment tests the search makes at cursor 0 of the first test document. */
  lemma TestContainmentAt0()
    ensures Document([0, 0, 1, 1]).Contains([0, 1])
    ensures !Document([0, 0, 1, 1]).Contains([0, 1, 2]) && !Document([0, 2, 3, 3]).Contains([0, 1, 2])
  {
    var a, b := Document([0, 0, 1, 1]), Document([0, 2, 3, 3]);
    EveryRunIsContained(a, 1, 3);
    assert a.tokens[1..3] == [0, 1];
    AbsentTokenNotContained(a, [0, 1, 2], 2);
    AbsentTokenNotContained(b, [0, 1, 2], 1);
  }

  /** Document `[0, 1, 2, 3]` at cursor 2: the first relevant document lacks `[2, 3]`, the
      hand-off to the second one confirms it and the document end stops the search. */
  lemma TestScanFirstDocumentAt2()
    ensures Scan([0, 1, 2, 3], 2, [Document([0, 0, 1, 1]), Document([0, 2, 3, 3])], 2, false, 100) == Probe(3, true)
  {
    var t: seq<Token> := [0, 1, 2, 3];
    var a, b := Document([0, 0, 1, 1]), Document([0, 2, 3, 3]);
    var rel := [a, b];
    assert rel[1..] == [b];
    assert t[2..4] == [2, 3];
    AbsentTokenNotContained(a, [2, 3], 0);
    EveryRunIsContained(b, 1, 3);
    assert b.tokens[1..3] == [2, 3];
    ScanMisses(t, 2, rel, 2, false, 100);
    ScanContains(t, 2, [b], 2, false, 100);
  }

  lemma TestSegmentFirstDocument()
    ensures Extract(Document([0, 1, 2, 3]), [Document([0, 0, 1, 1]), Document([0, 2, 3, 3])], 2, 100)
         == Done([Boundary(0, 2), Boundary(2, 4)])
  {
    var t: seq<Token> := [0, 1, 2, 3];
    var rel := [Document([0, 0, 1, 1]), Document([0, 2, 3, 3])];
    TestScanFirstDocumentAt0();
    TestScanFirstDocumentAt2();
    SegmentEmits(t, rel, 2, 100, 0, 3);
    SegmentEmits(t, rel, 2, 100, 2, 3);
    assert Segment(t, rel, 2, 100, 4) == Done([]);
    assert [Boundary(0, 2)] + ([Boundary(2, 4)] + []) == [Boundary(0, 2), Boundary(2, 4)];
  }

  /** The containment tests the search makes on the second test document. */
  lemma TestContainmentSecondDocument()
    ensures !Document([5, 6, 7, 8]).Contains([4, 5])
    ensures var d := Document([4, 5, 6, 7]); d.Contains([4, 5]) && d.Contains([4, 5, 6]) && d.Contains([4, 5, 6, 7])
  {
    var c, d := Document([5, 6, 7, 8]), Document([4, 5, 6, 7]);
    AbsentTokenNotContained(c, [4, 5], 0);
    EveryRunIsContained(d, 0, 2);
    assert d.tokens[0..2] == [4, 5];
    EveryRunIsContained(d, 0, 3);
    assert d.tokens[0..3] == [4, 5, 6];
    EveryRunIsContained(d, 0, 4);
    assert d.tokens[0..4] == d.tokens;
  }

  /** Document `[4, 5, 6, 7]`: the first relevant document lacks `[4, 5]`, the second one
      then confirms the query up to the whole document. */
  lemma TestScanSecondDocument()
    ensures Scan([4, 5, 6, 7], 0, [Document([5, 6, 7, 8]), Document([4, 5, 6, 7])], 2, false, 100) == Probe(5, true)
  {
    var t: seq<Token> := [4, 5, 6, 7];
    var c, d := Document([5, 6, 7, 8]), Document([4, 5, 6, 7]);
    var rel := [c, d];
    assert rel[1..] == [d];
    TestContainmentSecondDocument();
    assert t[0..2] == [4, 5];
    assert t[0..3] == [4, 5, 6];
    assert t[0..4] == t;
    ScanMisses(t, 0, rel, 2, false, 100);
    ScanContains(t, 0, [d], 2, false, 100);
    ScanContains(t, 0, [d], 3, true, 100);
    ScanContains(t, 0, [d], 4, true, 100);
  }

  lemma TestSegmentSecondDocument()
    ensures Extract(Document([4, 5, 6, 7]), [Document([5, 6, 7, 8]), Document([4, 5, 6, 7])], 2, 100)
         == Done([Boundary(0, 4)])
  {
    var t: seq<Token> := [4, 5, 6, 7];
    var rel := [Document([5, 6, 7, 8]), Document([4, 5, 6, 7])];
    TestScanSecondDocument();
    SegmentEmits(t, rel, 2, 100, 0, 5);
    assert Segment(t, rel, 2, 100, 4) == Done([]);
    assert [Boundary(0, 4)] + [] == [Boundary(0, 4)];
  }

  lemma PhrasesOfTwo(tokens: seq<Token>, b0: Boundary, b1: Boundary)
    requires b0.start <= b0.end <= |tokens| && b1.start <= b1.end <= |tokens|
    ensures PhrasesOf(tokens, [b0, b1]) == {tokens[b0.start..b0.end], tokens[b1.start..b1.end]}
  {
    PhrasesOfAppend(tokens, [b0], b1);
    PhrasesOfAppend(tokens, [], b0);
    assert [b0] + [b1] == [b0, b1] && [] + [b0] == [b0];
  }

  lemma CollectAppend(entries: seq<Entry>, e: Entry, minLen: nat, maxLen: nat)
    requires 1 <= minLen
    requires Collect(entries, minLen, maxLen).Some? && Extract(e.0, e.1, minLen, maxLen).Done?
    ensures Collect(entries + [e], minLen, maxLen)
         == Some(Collect(entries, minLen, maxLen).value + PhrasesOf(e.0.tokens, Extract(e.0, e.1, minLen, maxLen).bounds))
  {
    assert (entries + [e])[..|entries|] == entries;
  }

  /** The phrases the first test document contributes. */
  lemma TestPhrasesFirstDocument()
    ensures PhrasesOf([0, 1, 2, 3], [Boundary(0, 2), Boundary(2, 4)]) == {[0, 1], [2, 3]}
  {
    var t: seq<Token> := [0, 1, 2, 3];
    PhrasesOfTwo(t, Boundary(0, 2), Boundary(2, 4));
    assert t[0..2] == [0, 1] && t[2..4] == [2, 3];
  }

  /** The phrases the second test document contributes. */
  lemma TestPhrasesSecondDocument()
    ensures PhrasesOf([4, 5, 6, 7], [Boundary(0, 4)]) == {[4, 5, 6, 7]}
  {
    var t: seq<Token> := [4, 5, 6, 7];
    PhrasesOfAppend(t, [], Boundary(0, 4));
    assert [] + [Boundary(0, 4)] == [Boundary(0, 4)] && t[0..4] == t;
  }

  /** Running the extractor on both test documents with lengths 2 to 100 yields exactly the
      three phrases `[0, 1]`, `[2, 3]` and `[4, 5, 6, 7]`. */
  lemma TestCollectPhrases()
    ensures Collect([(Document([0, 1, 2, 3]), [Document([0, 0, 1, 1]), Document([0, 2, 3, 3])]),
                     (Document([4, 5, 6, 7]), [Document([5, 6, 7, 8]), Document([4, 5, 6, 7])])], 2, 100)
         == Some({[0, 1], [2, 3], [4, 5, 6, 7]})
  {
    var e1: Entry := (Document([0, 1, 2, 3]), [Document([0, 0, 1, 1]), Document([0, 2, 3, 3])]);
    var e2: Entry := (Document([4, 5, 6, 7]), [Document([5, 6, 7, 8]), Document([4, 5, 6, 7])]);
    TestSegmentFirstDocument();
    TestSegmentSecondDocument();
    TestPhrasesFirstDocument();
    TestPhrasesSecondDocument();
    CollectAppend([], e1, 2, 100);
    assert [] + [e1] == [e1];
    CollectAppend([e1], e2, 2, 100);
    assert [e1] + [e2] == [e1, e2];
    assert ({} + {[0, 1], [2, 3]}) + {[4, 5, 6, 7]} == {[0, 1], [2, 3], [4, 5, 6, 7]};
  }

  /** The test takes the phrases out in this order: `[0, 1]`, `[2, 3]`, `[4, 5, 6, 7]`. */
  lemma TestPhraseOrder()
    ensures LexLess([0, 1], [2, 3]) && LexLess([2, 3], [4, 5, 6, 7])
  {
  }
}
