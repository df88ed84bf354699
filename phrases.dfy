/** The greedy phrase extractor of src/lib.rs: for every document a cursor walks left to
    right, grows a query while the relevant documents contain it, and records the last
    confirmed slice. `Scan` and `Segment` state what one document's loops compute,
    `Collect` what the whole call returns; `CollectPhrases` is the loop program itself. */
module Phrases {
  import opened Wrappers
  import opened Documents

  /** A half-open range `[start, end)` of token positions of one document. */
  datatype Boundary = Boundary(start: nat, end: nat)

  /** Where the search at one cursor position ends: the final `query_len` and whether
      any relevant document contained a query. */
  datatype Probe = Probe(queryLen: nat, found: bool)

  /** The boundaries one document yields left to right, or the cursor position at which
      the seed slice `[at, at + min_phrase_len)` runs past the end and the original panics. */
  datatype Extraction = Done(bounds: seq<Boundary>) | SeedOutOfBounds(at: nat)

  /** One item of the document set: a document and its relevant documents, in order. */
  type Entry = (Document, seq<Document>)

  function Max(a: int, b: int): int {
    if a < b then b else a
  }

  /** Some relevant document contains `phrase`. */
  ghost predicate Confirmed(relevant: seq<Document>, phrase: seq<Token>) {
    exists j :: 0 <= j < |relevant| && relevant[j].Contains(phrase)
  }

  /** The relevant-document loop at cursor `start`, from the state where `relevant` are the
      documents still to visit and the query is `tokens[start..start + queryLen]`: while the
      current document contains the query it is extended by one token, and once the
      increment passes `maxLen` or the document end the whole search stops. */
  function Scan(tokens: seq<Token>, start: nat, relevant: seq<Document>, queryLen: nat, found: bool, maxLen: nat): (p: Probe)
    requires start + queryLen <= |tokens|
    ensures queryLen <= p.queryLen <= Max(queryLen, maxLen) + 1
    ensures start + p.queryLen <= |tokens| + 1
    ensures p.found <==> found || queryLen < p.queryLen
    decreases |relevant|, |tokens| - (start + queryLen)
  {
    if relevant == [] then
      Probe(queryLen, found)
    else if relevant[0].Contains(tokens[start..start + queryLen]) then
      if queryLen + 1 > maxLen || start + queryLen + 1 > |tokens| then
        Probe(queryLen + 1, true)
      else
        Scan(tokens, start, relevant, queryLen + 1, true, maxLen)
    else
      Scan(tokens, start, relevant[1..], queryLen, found, maxLen)
  }

  function PrependAll(bs: seq<Boundary>, r: Extraction): Extraction {
    match r
    case Done(rest) => Done(bs + rest)
    case SeedOutOfBounds(_) => r
  }

  /** The cursor loop of one document from position `start` on. */
  function Segment(tokens: seq<Token>, relevant: seq<Document>, minLen: nat, maxLen: nat, start: nat): (r: Extraction)
    requires 1 <= minLen && start <= |tokens|
    ensures r.SeedOutOfBounds? ==> start <= r.at < |tokens| < r.at + minLen
    decreases |tokens| - start
  {
    if start == |tokens| then
      Done([])
    else if start + minLen > |tokens| then
      SeedOutOfBounds(start)
    else
      var p := Scan(tokens, start, relevant, minLen, false, maxLen);
      if p.found then
        var end := start + p.queryLen - 1;
        PrependAll([Boundary(start, end)], Segment(tokens, relevant, minLen, maxLen, end))
      else
        Segment(tokens, relevant, minLen, maxLen, start + 1)
  }

  /** What one document contributes: its boundaries, or the position where it panics. */
  function Extract(document: Document, relevant: seq<Document>, minLen: nat, maxLen: nat): (r: Extraction)
    requires 1 <= minLen
    ensures r.SeedOutOfBounds? ==> r.at < |document.tokens| < r.at + minLen
    ensures document.tokens == [] ==> r == Done([])
  {
    Segment(document.tokens, relevant, minLen, maxLen, 0)
  }

  /** The distinct phrase contents the boundaries `bs` cut out of `tokens`. */
  function PhrasesOf(tokens: seq<Token>, bs: seq<Boundary>): set<seq<Token>> {
    set i | 0 <= i < |bs| && bs[i].start <= bs[i].end <= |tokens| :: tokens[bs[i].start..bs[i].end]
  }

  /** The order the returned set iterates in: lexicographic on tokens, a proper prefix first. */
  predicate LexLess(a: seq<Token>, b: seq<Token>)
    ensures LexLess(a, b) ==> a != b
    decreases |a|
  {
    if a == [] then b != []
    else if b == [] then false
    else a[0] < b[0] || (a[0] == b[0] && LexLess(a[1..], b[1..]))
  }

  /** The phrase set the whole call returns for the entries in order, or `None` if one of
      them panics. */
  function Collect(entries: seq<Entry>, minLen: nat, maxLen: nat): (r: Option<set<seq<Token>>>)
    requires 1 <= minLen
    ensures r.Some? <==> forall k :: 0 <= k < |entries| ==> Extract(entries[k].0, entries[k].1, minLen, maxLen).Done?
    decreases |entries|
  {
    if entries == [] then
      Some({})
    else
      var last := entries[|entries| - 1];
      var init := entries[..|entries| - 1];
      assert forall k :: 0 <= k < |init| ==> init[k] == entries[k];
      match Collect(init, minLen, maxLen)
      case None => None
      case Some(found) => Absorb(found, last.0.tokens, Extract(last.0, last.1, minLen, maxLen))
  }

  /** Adds what one document yields to the phrases found so far; a panic discards them. */
  function Absorb(phrases: set<seq<Token>>, tokens: seq<Token>, e: Extraction): Option<set<seq<Token>>> {
    match e
    case SeedOutOfBounds(_) => None
    case Done(bs) => Some(phrases + PhrasesOf(tokens, bs))
  }

  lemma PrependAllAppend(emitted: seq<Boundary>, b: Boundary, r: Extraction)
    ensures PrependAll(emitted, PrependAll([b], r)) == PrependAll(emitted + [b], r)
  {
    if r.Done? {
      assert emitted + ([b] + r.bounds) == (emitted + [b]) + r.bounds;
    }
  }

  lemma PhrasesOfAppend(tokens: seq<Token>, bs: seq<Boundary>, b: Boundary)
    requires b.start <= b.end <= |tokens|
    ensures PhrasesOf(tokens, bs + [b]) == PhrasesOf(tokens, bs) + {tokens[b.start..b.end]}
  {
    var bs' := bs + [b];
    assert bs'[|bs|] == b;
    forall ph | ph in PhrasesOf(tokens, bs')
      ensures ph in PhrasesOf(tokens, bs) + {tokens[b.start..b.end]}
    {
      var i :| 0 <= i < |bs'| && bs'[i].start <= bs'[i].end <= |tokens| && ph == tokens[bs'[i].start..bs'[i].end];
      if i < |bs| {
        assert bs'[i] == bs[i];
      }
    }
    forall ph | ph in PhrasesOf(tokens, bs)
      ensures ph in PhrasesOf(tokens, bs')
    {
      var i :| 0 <= i < |bs| && bs[i].start <= bs[i].end <= |tokens| && ph == tokens[bs[i].start..bs[i].end];
      assert bs'[i] == bs[i];
    }
  }

  /** Once one entry panics, the whole call does. */
  lemma {:induction false} CollectAbortPersists(entries: seq<Entry>, n: nat, minLen: nat, maxLen: nat)
    requires 1 <= minLen && n <= |entries|
    requires Collect(entries[..n], minLen, maxLen) == None
    ensures Collect(entries, minLen, maxLen) == None
    decreases |entries| - n
  {
    if n == |entries| {
      assert entries[..n] == entries;
    } else {
      assert entries[..n + 1][..n] == entries[..n];
      CollectAbortPersists(entries, n + 1, minLen, maxLen);
    }
  }

  lemma ScanContains(tokens: seq<Token>, start: nat, relevant: seq<Document>, queryLen: nat, found: bool, maxLen: nat)
    requires start + queryLen <= |tokens|
    requires relevant != [] && relevant[0].Contains(tokens[start..start + queryLen])
    ensures Scan(tokens, start, relevant, queryLen, found, maxLen)
         == if queryLen + 1 > maxLen || start + queryLen + 1 > |tokens| then Probe(queryLen + 1, true)
            else Scan(tokens, start, relevant, queryLen + 1, true, maxLen)
  {
  }

  lemma ScanMisses(tokens: seq<Token>, start: nat, relevant: seq<Document>, queryLen: nat, found: bool, maxLen: nat)
    requires start + queryLen <= |tokens|
    requires relevant != [] && !relevant[0].Contains(tokens[start..start + queryLen])
    ensures Scan(tokens, start, relevant, queryLen, found, maxLen) == Scan(tokens, start, relevant[1..], queryLen, found, maxLen)
  {
  }

  /** A cursor step that finds a phrase emits it and resumes at its end. */
  lemma SegmentEmits(tokens: seq<Token>, relevant: seq<Document>, minLen: nat, maxLen: nat, start: nat, queryLen: nat)
    requires 1 <= minLen && start + minLen <= |tokens|
    requires Scan(tokens, start, relevant, minLen, false, maxLen) == Probe(queryLen, true)
    ensures start < start + queryLen - 1 <= |tokens|
    ensures Segment(tokens, relevant, minLen, maxLen, start)
         == PrependAll([Boundary(start, start + queryLen - 1)], Segment(tokens, relevant, minLen, maxLen, start + queryLen - 1))
  {
  }

  /** A cursor step that finds nothing moves on by one token. */
  lemma SegmentSkips(tokens: seq<Token>, relevant: seq<Document>, minLen: nat, maxLen: nat, start: nat)
    requires 1 <= minLen && start + minLen <= |tokens|
    requires !Scan(tokens, start, relevant, minLen, false, maxLen).found
    ensures Segment(tokens, relevant, minLen, maxLen, start) == Segment(tokens, relevant, minLen, maxLen, start + 1)
  {
  }

  /** The cursor loop's invariant survives a step that emits the phrase `[start, end)`. */
  lemma EmitKeepsExtraction(tokens: seq<Token>, relevant: seq<Document>, minLen: nat, maxLen: nat, start: nat, end: nat,
                            emitted: seq<Boundary>, whole: Extraction)
    requires 1 <= minLen && start <= end <= |tokens|
    requires Segment(tokens, relevant, minLen, maxLen, start)
          == PrependAll([Boundary(start, end)], Segment(tokens, relevant, minLen, maxLen, end))
    requires whole == PrependAll(emitted, Segment(tokens, relevant, minLen, maxLen, start))
    ensures whole == PrependAll(emitted + [Boundary(start, end)], Segment(tokens, relevant, minLen, maxLen, end))
  {
    PrependAllAppend(emitted, Boundary(start, end), Segment(tokens, relevant, minLen, maxLen, end));
  }

  /** A cursor that reached the document end has emitted the whole extraction. */
  lemma EndCompletesExtraction(tokens: seq<Token>, relevant: seq<Document>, minLen: nat, maxLen: nat,
                               emitted: seq<Boundary>, whole: Extraction)
    requires 1 <= minLen
    requires whole == PrependAll(emitted, Segment(tokens, relevant, minLen, maxLen, |tokens|))
    ensures whole == Done(emitted)
  {
    assert emitted + [] == emitted;
  }

  /** A cursor whose seed does not fit ends the extraction in a panic. */
  lemma OverrunPanics(tokens: seq<Token>, relevant: seq<Document>, minLen: nat, maxLen: nat, start: nat,
                      emitted: seq<Boundary>, whole: Extraction)
    requires 1 <= minLen && start < |tokens| < start + minLen
    requires whole == PrependAll(emitted, Segment(tokens, relevant, minLen, maxLen, start))
    ensures whole.SeedOutOfBounds?
  {
    SegmentPanics(tokens, relevant, minLen, maxLen, start);
  }

  /** Inserting the slice of a new boundary keeps the phrase set equal to that of all boundaries so far. */
  lemma InsertKeepsPhrases(tokens: seq<Token>, emitted: seq<Boundary>, b: Boundary, phrases: set<seq<Token>>, added: set<seq<Token>>)
    requires b.start <= b.end <= |tokens|
    requires added == phrases + PhrasesOf(tokens, emitted)
    ensures added + {tokens[b.start..b.end]} == phrases + PhrasesOf(tokens, emitted + [b])
  {
    PhrasesOfAppend(tokens, emitted, b);
  }

  /** The cursor loop stops with a panic where the seed no longer fits. */
  lemma SegmentPanics(tokens: seq<Token>, relevant: seq<Document>, minLen: nat, maxLen: nat, start: nat)
    requires 1 <= minLen && start < |tokens| < start + minLen
    ensures Segment(tokens, relevant, minLen, maxLen, start) == SeedOutOfBounds(start)
  {
  }

  /** The search at cursor `start` (src/lib.rs, the seed query and the relevant-document
      loops with their labelled break): `None` where the seed slice panics, otherwise the
      final `query_len` and `found` as `Scan` states them. */
  method SearchAt(document: Document, relevantDocuments: seq<Document>, start: nat, minLen: nat, maxLen: nat)
    returns (r: Option<Probe>)
    ensures r.None? <==> start + minLen > |document.tokens|
    ensures r.Some? ==> r.value == Scan(document.tokens, start, relevantDocuments, minLen, false, maxLen)
  {
    ghost var tokens := document.tokens;
    var queryLen: nat := minLen;
    var slice := document.GetSlice(start, start + queryLen);
    if slice.None? {
      return None;
    }
    var query := slice.value;
    assert query == tokens[start..start + queryLen];
    var found := false;
    ghost var probe := Scan(tokens, start, relevantDocuments, minLen, false, maxLen);
    label outer: for i := 0 to |relevantDocuments|
      invariant start + queryLen <= |tokens|
      invariant query == tokens[start..start + queryLen]
      invariant Scan(tokens, start, relevantDocuments[i..], queryLen, found, maxLen) == probe
    {
      while relevantDocuments[i].Contains(query)
        invariant start + queryLen <= |tokens|
        invariant query == tokens[start..start + queryLen]
        invariant Scan(tokens, start, relevantDocuments[i..], queryLen, found, maxLen) == probe
        decreases |tokens| - (start + queryLen)
      {
        ScanContains(tokens, start, relevantDocuments[i..], queryLen, found, maxLen);
        found := true;
        queryLen := queryLen + 1;
        if queryLen > maxLen || start + queryLen > document.Len() {
          break outer;
        }
        query := document.GetSlice(start, start + queryLen).value;
      }
      ScanMisses(tokens, start, relevantDocuments[i..], queryLen, found, maxLen);
      assert relevantDocuments[i..][1..] == relevantDocuments[i + 1..];
    }
    return Some(Probe(queryLen, found));
  }

  /** One turn of the cursor loop at `start` (src/lib.rs, the body of the `while` loop
      without the insert): the search, then the next cursor position and whether the
      phrase `[start, next)` is recorded. `None` where the seed slice panics. */
  method Advance(document: Document, relevantDocuments: seq<Document>, start: nat, minLen: nat, maxLen: nat)
    returns (r: Option<(nat, bool)>)
    requires 1 <= minLen && start < |document.tokens|
    ensures r.None? <==> start + minLen > |document.tokens|
    ensures r.Some? ==> start < r.value.0 <= |document.tokens|
    ensures r.Some? && r.value.1 ==>
      Segment(document.tokens, relevantDocuments, minLen, maxLen, start)
      == PrependAll([Boundary(start, r.value.0)], Segment(document.tokens, relevantDocuments, minLen, maxLen, r.value.0))
    ensures r.Some? && !r.value.1 ==>
      r.value.0 == start + 1
      && Segment(document.tokens, relevantDocuments, minLen, maxLen, start)
         == Segment(document.tokens, relevantDocuments, minLen, maxLen, start + 1)
  {
    var probe := SearchAt(document, relevantDocuments, start, minLen, maxLen);
    if probe.None? {
      return None;
    }
    var queryLen, found := probe.value.queryLen, probe.value.found;
    if found {
      SegmentEmits(document.tokens, relevantDocuments, minLen, maxLen, start, queryLen);
      return Some((start + queryLen - 1, true));
    } else {
      SegmentSkips(document.tokens, relevantDocuments, minLen, maxLen, start);
      return Some((start + 1, false));
    }
  }

  /** The cursor loop over one document (src/lib.rs, the `while` loop): adds the document's
      phrases to `phrases`, or returns `None` where the original panics. */
  method AddPhrasesOf(document: Document, relevantDocuments: seq<Document>, minLen: nat, maxLen: nat, phrases: set<seq<Token>>)
    returns (r: Option<set<seq<Token>>>)
    requires 1 <= minLen
    ensures r == Absorb(phrases, document.tokens, Extract(document, relevantDocuments, minLen, maxLen))
  {
    ghost var tokens := document.tokens;
    ghost var whole := Extract(document, relevantDocuments, minLen, maxLen);
    ghost var emitted: seq<Boundary> := [];
    var added := phrases;
    var start := 0;
    while start < document.Len()
      invariant start <= |tokens|
      invariant whole == PrependAll(emitted, Segment(tokens, relevantDocuments, minLen, maxLen, start))
      invariant added == phrases + PhrasesOf(tokens, emitted)
      decreases |tokens| - start
    {
      var step := Advance(document, relevantDocuments, start, minLen, maxLen);
      if step.None? {
        // the seed slice is out of range: the original panics here
        OverrunPanics(tokens, relevantDocuments, minLen, maxLen, start, emitted, whole);
        return None;
      }
      var (next, found) := step.value;
      if found {
        EmitKeepsExtraction(tokens, relevantDocuments, minLen, maxLen, start, next, emitted, whole);
        var phrase := document.GetSlice(start, next);
        assert phrase.value == tokens[start..next];
        InsertKeepsPhrases(tokens, emitted, Boundary(start, next), phrases, added);
        added := added + {phrase.value};
        emitted := emitted + [Boundary(start, next)];
      }
      start := next;
    }
    EndCompletesExtraction(tokens, relevantDocuments, minLen, maxLen, emitted, whole);
    return Some(added);
  }

  /** `collect_phrases`: the loop over the document set, with a panic returned as `None`. */
  method CollectPhrases(documentSet: seq<Entry>, minLen: nat, maxLen: nat) returns (r: Option<set<seq<Token>>>)
    requires 1 <= minLen
    ensures r == Collect(documentSet, minLen, maxLen)
  {
    var phrases: set<seq<Token>> := {};
    for k := 0 to |documentSet|
      invariant Collect(documentSet[..k], minLen, maxLen) == Some(phrases)
    {
      var (document, relevantDocuments) := documentSet[k];
      assert documentSet[..k + 1][..k] == documentSet[..k];
      assert documentSet[..k + 1][k] == (document, relevantDocuments);
      var next := AddPhrasesOf(document, relevantDocuments, minLen, maxLen, phrases);
      if next.None? {
        CollectAbortPersists(documentSet, k + 1, minLen, maxLen);
        return None;
      }
      phrases := next.value;
    }
    assert documentSet[..|documentSet|] == documentSet;
    return Some(phrases);
  }
}
