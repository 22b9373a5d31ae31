/** Pattern search over a byte buffer. The repository's own search lives in
    src/memory/signature.rs, which is not part of this model: all the rest of
    the model relies on is the contract of `FindSignature` (the lowest offset
    at which every concrete byte agrees and every wildcard matches anything).
    The body below is a plain left-to-right reference search. */
module SignatureSearch {
  import opened MemoryBase

  /** The pattern matches `haystack` when laid down at `offset`. */
  predicate MatchesAt(haystack: seq<byte>, sign: Signature, offset: nat)
  {
    offset + |sign| <= |haystack|
    && forall j :: 0 <= j < |sign| ==> (sign[j].Exact? ==> haystack[offset + j] == sign[j].b)
  }

  /** `find_signature(buff, sign)`: the first offset where the pattern
      matches, or `None` when it matches nowhere. */
  function FindSignature(haystack: seq<byte>, sign: Signature): (r: Option<nat>)
    ensures r.Some? ==> MatchesAt(haystack, sign, r.value)
    ensures r.Some? ==> forall k :: 0 <= k < r.value ==> !MatchesAt(haystack, sign, k)
    ensures r.None? ==> forall k :: 0 <= k ==> !MatchesAt(haystack, sign, k)
  {
    SearchFrom(haystack, sign, 0)
  }

  /** The first match at or after `start`, given that none lies before it. */
  function SearchFrom(haystack: seq<byte>, sign: Signature, start: nat): (r: Option<nat>)
    requires forall k :: 0 <= k < start ==> !MatchesAt(haystack, sign, k)
    ensures r.Some? ==> start <= r.value && MatchesAt(haystack, sign, r.value)
    ensures r.Some? ==> forall k :: 0 <= k < r.value ==> !MatchesAt(haystack, sign, k)
    ensures r.None? ==> forall k :: 0 <= k ==> !MatchesAt(haystack, sign, k)
    decreases |haystack| - start
  {
    if start + |sign| > |haystack| then None
    else if MatchesAt(haystack, sign, start) then Some(start)
    else SearchFrom(haystack, sign, start + 1)
  }

  /** The worked example of the search: in [1, 2, 3, 4, 5] the pattern
      [2, ??, 4] is found at offset 1, and [9] is found nowhere. */
  lemma SearchExamples()
    ensures FindSignature([1, 2, 3, 4, 5], [Exact(2), Wildcard, Exact(4)]) == Some(1)
    ensures FindSignature([1, 2, 3, 4, 5], [Exact(9)]) == None
  {
    var h: seq<byte> := [1, 2, 3, 4, 5];
    var p: Signature := [Exact(2), Wildcard, Exact(4)];
    assert p[0].Exact? && h[0 + 0] != p[0].b;
    assert MatchesAt(h, p, 1);
    var q: Signature := [Exact(9)];
    forall k | 0 <= k
      ensures !MatchesAt(h, q, k)
    {
      if k < 5 { assert q[0].Exact? && h[k + 0] != q[0].b; }
    }
  }
}
