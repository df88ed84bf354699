/** A document: a read-only token vector with containment and slicing queries
    (src/document.rs). `Contains` is token-granular containment: the pattern is a prefix
    of some suffix of the token sequence. The original's suffix array asks this question
    over the bytes of the tokens; that byte search is `ContainsAsWritten`. */
module Documents {
  import opened Wrappers

  /** A token is an unsigned 16-bit vocabulary id. */
  type Token = t: int | 0 <= t < 0x1_0000

  /** A byte of the little-endian encoding the suffix array is built over. */
  type Byte = b: int | 0 <= b < 0x100

  /** `pat` occurs in `s` starting at offset `i`. */
  ghost predicate OccursAt<T>(pat: seq<T>, s: seq<T>, i: int) {
    0 <= i && i + |pat| <= |s| && s[i..i + |pat|] == pat
  }

  /** `pat` occurs in `s` as a contiguous run. */
  ghost predicate Occurs<T>(pat: seq<T>, s: seq<T>) {
    exists i :: OccursAt(pat, s, i)
  }

  /** `pat` is a prefix of `s`, compared token by token. */
  predicate IsPrefix(pat: seq<Token>, s: seq<Token>)
    decreases |pat|
  {
    |pat| == 0 || (|s| != 0 && pat[0] == s[0] && IsPrefix(pat[1..], s[1..]))
  }

  lemma {:induction false} IsPrefixIffOccursAtStart(pat: seq<Token>, s: seq<Token>)
    ensures IsPrefix(pat, s) <==> OccursAt(pat, s, 0)
    decreases |pat|
  {
    if |pat| != 0 && |s| != 0 {
      IsPrefixIffOccursAtStart(pat[1..], s[1..]);
      if OccursAt(pat, s, 0) {
        assert s[1..][0..|pat| - 1] == s[0..|pat|][1..];
      }
      if pat[0] == s[0] && OccursAt(pat[1..], s[1..], 0) {
        assert s[0..|pat|] == [s[0]] + s[1..][0..|pat| - 1];
        assert pat == [pat[0]] + pat[1..];
      }
    }
  }

  /** The question a suffix array over the token sequence `s` would answer: does some suffix of `s` start with `pat`? */
  predicate PrefixOfSomeSuffix(pat: seq<Token>, s: seq<Token>)
    decreases |s|
  {
    IsPrefix(pat, s) || (s != [] && PrefixOfSomeSuffix(pat, s[1..]))
  }

  /** A document owns its tokens; being a value, it can never be changed after it is built. */
  datatype Document = Document(tokens: seq<Token>) {

    /** Token-granular containment: `pat` starts at a token boundary of some suffix. */
    predicate Contains(pat: seq<Token>) {
      PrefixOfSomeSuffix(pat, tokens)
    }

    /** The tokens in `[start, end)`, or `None` where the original panics. */
    function GetSlice(start: nat, end: nat): (r: Option<seq<Token>>)
      ensures r.Some? <==> start <= end <= |tokens|
      ensures r.Some? ==> |r.value| == end - start
      ensures r.Some? ==> forall i :: 0 <= i < end - start ==> r.value[i] == tokens[start + i]
    {
      if start <= end <= |tokens| then Some(tokens[start..end]) else None
    }

    /** The number of tokens: the whole range `[0, n)` slices to all tokens and no end past it is valid. */
    function Len(): (n: nat)
      ensures n == |tokens|
      ensures GetSlice(0, n) == Some(tokens)
      ensures forall end: nat :: n < end ==> GetSlice(0, end).None?
    {
      assert tokens[0..|tokens|] == tokens;
      |tokens|
    }

    predicate IsEmpty()
      ensures IsEmpty() <==> Len() == 0
    {
      tokens == []
    }
  }

  /** Builds a document; every later slice and length reflects exactly `tokens`. */
  function FromTokens(tokens: seq<Token>): (d: Document)
    ensures d.Len() == |tokens|
    ensures forall start: nat, end: nat :: start <= end <= |tokens| ==> d.GetSlice(start, end) == Some(tokens[start..end])
  {
    Document(tokens)
  }

  lemma SliceOfTail(s: seq<Token>, i: nat, n: nat)
    requires s != [] && i + n <= |s| - 1
    ensures s[1..][i..i + n] == s[i + 1..i + 1 + n]
  {
  }

  lemma {:induction false} PrefixOfSomeSuffixIffOccurs(pat: seq<Token>, s: seq<Token>)
    ensures PrefixOfSomeSuffix(pat, s) <==> Occurs(pat, s)
    decreases |s|
  {
    if s == [] {
      if pat == [] {
        assert OccursAt(pat, s, 0);
      }
      if Occurs(pat, s) {
        var i :| OccursAt(pat, s, i);
        assert |pat| == 0;
      }
    } else {
      PrefixOfSomeSuffixIffOccurs(pat, s[1..]);
      IsPrefixIffOccursAtStart(pat, s);
      if IsPrefix(pat, s) {
        assert OccursAt(pat, s, 0);
      } else if PrefixOfSomeSuffix(pat, s[1..]) {
        var i :| OccursAt(pat, s[1..], i);
        SliceOfTail(s, i, |pat|);
        assert OccursAt(pat, s, i + 1);
      }
      if Occurs(pat, s) {
        var i :| OccursAt(pat, s, i);
        if i == 0 {
          assert IsPrefix(pat, s);
        } else {
          SliceOfTail(s, i - 1, |pat|);
          assert OccursAt(pat, s[1..], i - 1);
        }
      }
    }
  }

  /** `contains` holds exactly when the pattern occurs as a contiguous run of whole tokens. */
  lemma ContainsIffOccurs(d: Document, pat: seq<Token>)
    ensures d.Contains(pat) <==> Occurs(pat, d.tokens)
  {
    PrefixOfSomeSuffixIffOccurs(pat, d.tokens);
  }

  /** Every contiguous run of the document's own tokens is contained. */
  lemma EveryRunIsContained(d: Document, start: nat, end: nat)
    requires start <= end <= |d.tokens|
    ensures d.Contains(d.tokens[start..end])
  {
    assert OccursAt(d.tokens[start..end], d.tokens, start);
    ContainsIffOccurs(d, d.tokens[start..end]);
  }

  /** Containment is closed under taking runs of the pattern: in particular of its prefixes. */
  lemma ContainsRunOfPattern(d: Document, pat: seq<Token>, start: nat, end: nat)
    requires d.Contains(pat)
    requires start <= end <= |pat|
    ensures d.Contains(pat[start..end])
  {
    ContainsIffOccurs(d, pat);
    var i :| OccursAt(pat, d.tokens, i);
    assert d.tokens[i..i + |pat|][start..end] == d.tokens[i + start..i + end];
    assert OccursAt(pat[start..end], d.tokens, i + start);
    ContainsIffOccurs(d, pat[start..end]);
  }

  /** A document that contains a pattern contains each of its prefixes. */
  lemma ContainsPrefix(d: Document, pat: seq<Token>, k: nat)
    requires k <= |pat|
    ensures d.Contains(pat) ==> d.Contains(pat[..k])
  {
    if d.Contains(pat) {
      ContainsRunOfPattern(d, pat, 0, k);
      assert pat[0..k] == pat[..k];
    }
  }

  /** Every document contains the empty pattern; an empty document contains nothing else. */
  lemma EmptyDocumentContainsOnlyEmpty(d: Document, pat: seq<Token>)
    ensures d.Contains([])
    ensures d.IsEmpty() ==> (d.Contains(pat) <==> pat == [])
  {
    ContainsIffOccurs(d, []);
    assert OccursAt([], d.tokens, 0);
    ContainsIffOccurs(d, pat);
  }

  // ----- The byte representation the original search runs on -----

  /** The 2-byte little-endian representation of one token. */
  function EncodeToken(t: Token): (bs: seq<Byte>)
    ensures |bs| == 2 && bs[0] as int + 0x100 * bs[1] as int == t
  {
    assert t / 0x100 < 0x100;
    [t % 0x100, t / 0x100]
  }

  /** The byte view of a token slice, as an in-memory reinterpretation yields on a little-endian target. */
  function Encode(ts: seq<Token>): (bs: seq<Byte>)
    ensures |bs| == 2 * |ts|
    ensures forall i :: 0 <= i < |ts| ==> bs[2 * i] == ts[i] % 0x100 && bs[2 * i + 1] == ts[i] / 0x100
  {
    if ts == [] then []
    else
      var rest := Encode(ts[1..]);
      assert forall i :: 1 <= i < |ts| ==> ts[i] == ts[1..][i - 1];
      EncodeToken(ts[0]) + rest
  }

  /** The original `contains`: a byte substring search of the encoded pattern in the encoded tokens. */
  ghost predicate ContainsAsWritten(d: Document, pat: seq<Token>) {
    Occurs(Encode(pat), Encode(d.tokens))
  }

  lemma {:induction false} EncodeConcat(a: seq<Token>, b: seq<Token>)
    ensures Encode(a + b) == Encode(a) + Encode(b)
    decreases |a|
  {
    if a != [] {
      assert (a + b)[1..] == a[1..] + b;
      EncodeConcat(a[1..], b);
    } else {
      assert a + b == b;
    }
  }

  /** Token containment implies the byte search succeeds, at the even offset of the token match. */
  lemma ContainsImpliesByteContains(d: Document, pat: seq<Token>)
    ensures d.Contains(pat) ==> ContainsAsWritten(d, pat)
  {
    ContainsIffOccurs(d, pat);
    if d.Contains(pat) {
      var i :| OccursAt(pat, d.tokens, i);
      var pre, post := d.tokens[..i], d.tokens[i + |pat|..];
      assert d.tokens == pre + pat + post;
      EncodeConcat(pre + pat, post);
      EncodeConcat(pre, pat);
      var s := Encode(d.tokens);
      assert s == Encode(pre) + Encode(pat) + Encode(post);
      assert s[2 * i..2 * i + |Encode(pat)|] == Encode(pat);
      assert OccursAt(Encode(pat), s, 2 * i);
    }
  }

  /** A byte match at an even offset is a token match: the alignment check that makes the
      byte search token-granular. */
  lemma AlignedByteMatchIsTokenMatch(d: Document, pat: seq<Token>, i: nat)
    requires OccursAt(Encode(pat), Encode(d.tokens), 2 * i)
    ensures d.Contains(pat)
  {
    var s, p := Encode(d.tokens), Encode(pat);
    forall k | 0 <= k < |pat|
      ensures d.tokens[i + k] == pat[k]
    {
      assert s[2 * (i + k)] == p[2 * k] && s[2 * (i + k) + 1] == p[2 * k + 1];
      var t, u := d.tokens[i + k], pat[k];
      assert t % 0x100 == u % 0x100 && t / 0x100 == u / 0x100;
      assert t == 0x100 * (t / 0x100) + t % 0x100;
      assert u == 0x100 * (u / 0x100) + u % 0x100;
    }
    assert d.tokens[i..i + |pat|] == pat;
    assert OccursAt(pat, d.tokens, i);
    ContainsIffOccurs(d, pat);
  }

  /** The byte search of the original reports a match that straddles two tokens:
      `[256, 0]` is bytes `00 01 00 00`, which hold `[1]` (bytes `01 00`) at offset 1. */
  lemma MisalignedMatch()
    ensures ContainsAsWritten(Document([256, 0]), [1])
    ensures !Document([256, 0]).Contains([1])
  {
    var d := Document([256, 0]);
    assert Encode([1]) == [1, 0];
    assert Encode(d.tokens) == [0, 1, 0, 0];
    assert Encode(d.tokens)[1..3] == [1, 0];
    assert OccursAt(Encode([1]), Encode(d.tokens), 1);
  }

  // ----- The unit tests of src/document.rs, as lemmas -----

  /** A pattern holding a token value the document lacks is not contained. */
  lemma AbsentTokenNotContained(d: Document, pat: seq<Token>, k: nat)
    requires k < |pat| && pat[k] !in d.tokens
    ensures !d.Contains(pat)
  {
    ContainsIffOccurs(d, pat);
  }

  /** A pair of tokens that is never adjacent in the document is not contained. */
  lemma NonAdjacentPairNotContained(d: Document, a: Token, b: Token)
    requires forall i :: 0 <= i < |d.tokens| - 1 ==> d.tokens[i] != a || d.tokens[i + 1] != b
    ensures !d.Contains([a, b])
  {
    forall i | 0 <= i && i + 2 <= |d.tokens|
      ensures !OccursAt([a, b], d.tokens, i)
    {
      assert d.tokens[i..i + 2][0] == d.tokens[i] && d.tokens[i..i + 2][1] == d.tokens[i + 1];
    }
    ContainsIffOccurs(d, [a, b]);
  }

  lemma TestContainsRuns()
    ensures var d := FromTokens([0, 255, 256, 65535]);
      && d.Contains([0]) && d.Contains([255]) && d.Contains([256]) && d.Contains([65535])
      && d.Contains([0, 255]) && d.Contains([0, 255, 256]) && d.Contains([0, 255, 256, 65535])
  {
    var d := FromTokens([0, 255, 256, 65535]);
    EveryRunIsContained(d, 0, 1);
    assert d.tokens[0..1] == [0];
    EveryRunIsContained(d, 1, 2);
    assert d.tokens[1..2] == [255];
    EveryRunIsContained(d, 2, 3);
    assert d.tokens[2..3] == [256];
    EveryRunIsContained(d, 3, 4);
    assert d.tokens[3..4] == [65535];
    EveryRunIsContained(d, 0, 2);
    assert d.tokens[0..2] == [0, 255];
    EveryRunIsContained(d, 0, 3);
    assert d.tokens[0..3] == [0, 255, 256];
    EveryRunIsContained(d, 0, 4);
    assert d.tokens[0..4] == d.tokens;
  }

  lemma TestContainsAbsent()
    ensures var d := FromTokens([0, 255, 256, 65535]);
      && !d.Contains([1]) && !d.Contains([65534])
      && !d.Contains([0, 256]) && !d.Contains([0, 65535]) && !d.Contains([255, 65535])
  {
    var d := FromTokens([0, 255, 256, 65535]);
    AbsentTokenNotContained(d, [1], 0);
    AbsentTokenNotContained(d, [65534], 0);
    NonAdjacentPairNotContained(d, 0, 256);
    NonAdjacentPairNotContained(d, 0, 65535);
    NonAdjacentPairNotContained(d, 255, 65535);
  }

  lemma TestGetSlice()
    ensures var d := FromTokens([0, 1, 2]);
      && d.GetSlice(0, 1) == Some([0]) && d.GetSlice(0, 2) == Some([0, 1])
      && d.GetSlice(0, 3) == Some([0, 1, 2]) && d.GetSlice(1, 2) == Some([1])
      && d.GetSlice(1, 3) == Some([1, 2]) && d.GetSlice(2, 3) == Some([2])
  {
    var t: seq<Token> := [0, 1, 2];
    assert t[0..1] == [0] && t[0..2] == [0, 1] && t[0..3] == t;
    assert t[1..2] == [1] && t[1..3] == [1, 2] && t[2..3] == [2];
  }
}
