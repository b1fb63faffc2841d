/** The brace-balanced substring scan: every `{` of the text is a candidate
    start, and a depth counter walks forward to the first place the depth
    comes back to zero. The scan has no notion of JSON strings, so braces
    inside string literals count like any other. */
module BraceScan {
  import opened Wrappers

  /** Occurrences of `c` in `w`. */
  function Count(w: string, c: char): nat {
    if w == [] then 0
    else Count(w[..|w| - 1], c) + (if w[|w| - 1] == c then 1 else 0)
  }

  /** Nesting depth reached after reading `w`: opening minus closing braces. */
  function Depth(w: string): int {
    Count(w, '{') - Count(w, '}')
  }

  lemma DepthSnoc(w: string, c: char)
    ensures Depth(w + [c]) == Depth(w) + (if c == '{' then 1 else if c == '}' then -1 else 0)
  {
    assert (w + [c])[..|w|] == w;
  }

  /** `w` is what the scan yields: it opens with `{`, closes with `}`, holds
      as many `{` as `}`, and every non-empty proper prefix holds strictly
      more `{` than `}`. */
  predicate IsBalancedCandidate(w: string) {
    && |w| >= 2 && w[0] == '{' && w[|w| - 1] == '}'
    && Count(w, '{') == Count(w, '}')
    && forall j :: 0 < j < |w| ==> Count(w[..j], '{') > Count(w[..j], '}')
  }

  /** The depth walk from the `{` at `s` first returns to zero at `e`. */
  predicate ClosesAt(text: string, s: nat, e: nat) {
    && s <= e < |text| && text[s] == '{'
    && Depth(text[s..e + 1]) == 0
    && forall j :: s < j <= e ==> Depth(text[s..j]) > 0
  }

  /** The inner loop of the scan from position `idx` with the current depth:
      the index where the depth drops back to zero, if any. */
  function ScanClose(text: string, idx: nat, depth: int): (r: Option<nat>)
    requires idx <= |text|
    ensures r.Some? ==> idx <= r.value < |text| && text[r.value] == '}'
    decreases |text| - idx
  {
    if idx == |text| then None
    else if text[idx] == '{' then ScanClose(text, idx + 1, depth + 1)
    else if text[idx] == '}' then
      if depth - 1 == 0 then Some(idx) else ScanClose(text, idx + 1, depth - 1)
    else ScanClose(text, idx + 1, depth)
  }

  /** Where the candidate starting at `start` ends: the scan begins at depth
      zero on the `{` itself. */
  function MatchEnd(text: string, start: nat): Option<nat>
    requires start < |text|
  {
    ScanClose(text, start, 0)
  }

  /** Loop invariant of the inner scan: with the depth equal to the brace
      balance read so far, and positive since the start, the scan ends
      exactly where the walk first returns to zero. */
  lemma {:induction false} ScanCloseFindsFirstReturn(text: string, start: nat, idx: nat, depth: int)
    requires start < |text| && text[start] == '{'
    requires start <= idx <= |text|
    requires depth == Depth(text[start..idx])
    requires forall j :: start < j <= idx ==> Depth(text[start..j]) > 0
    ensures forall e: nat :: ScanClose(text, idx, depth) == Some(e) <==> ClosesAt(text, start, e)
    decreases |text| - idx
  {
    if idx < |text| {
      var c := text[idx];
      var d := depth + (if c == '{' then 1 else if c == '}' then -1 else 0);
      assert text[start..idx + 1] == text[start..idx] + [c];
      DepthSnoc(text[start..idx], c);
      assert Depth(text[start..idx + 1]) == d;
      assert idx > start ==> depth > 0;
      if c == '}' && d == 0 {
        assert ScanClose(text, idx, depth) == Some(idx);
        assert ClosesAt(text, start, idx);
      } else {
        assert d > 0;
        assert ScanClose(text, idx, depth) == ScanClose(text, idx + 1, d);
        ScanCloseFindsFirstReturn(text, start, idx + 1, d);
      }
    }
  }

  /** The scan from a `{` ends exactly at the first return to depth zero. */
  lemma MatchEndIsFirstReturn(text: string, start: nat)
    requires start < |text| && text[start] == '{'
    ensures forall e: nat :: MatchEnd(text, start) == Some(e) <==> ClosesAt(text, start, e)
  {
    assert text[start..start] == [];
    ScanCloseFindsFirstReturn(text, start, start, 0);
  }

  /** The slice from a start to its first return to zero is a balanced
      candidate. */
  lemma {:induction false} ClosesAtIsBalanced(text: string, s: nat, e: nat)
    requires ClosesAt(text, s, e)
    ensures IsBalancedCandidate(text[s..e + 1])
  {
    var w := text[s..e + 1];
    assert w[..1] == [text[s]];
    assert [text[s]] == [] + [text[s]];
    DepthSnoc([], text[s]);
    assert e > s;
    assert text[s..e + 1] == text[s..e] + [text[e]];
    DepthSnoc(text[s..e], text[e]);
    assert Depth(text[s..e]) > 0;
    forall j | 0 < j < |w|
      ensures Count(w[..j], '{') > Count(w[..j], '}')
    {
      assert w[..j] == text[s..s + j];
    }
  }

  /** Spans `(start, end)` of the candidates whose start is at or after `s`,
      in increasing start order: the outer loop over `{` positions. */
  function SpansFrom(text: string, s: nat): (r: seq<(nat, nat)>)
    requires s <= |text|
    ensures |r| <= |text| - s
    decreases |text| - s
  {
    if s == |text| then []
    else
      var rest := SpansFrom(text, s + 1);
      if text[s] == '{' then
        match MatchEnd(text, s)
        case Some(e) => [(s, e)] + rest
        case None => rest
      else rest
  }

  /** The spans from `s` on start at or after `s`, in strictly increasing
      order, and each ends at the first return of its `{` to depth zero. */
  lemma {:induction false} SpansFromSound(text: string, s: nat)
    requires s <= |text|
    ensures forall k :: 0 <= k < |SpansFrom(text, s)| ==>
              s <= SpansFrom(text, s)[k].0 && ClosesAt(text, SpansFrom(text, s)[k].0, SpansFrom(text, s)[k].1)
    ensures forall k, l :: 0 <= k < l < |SpansFrom(text, s)| ==>
              SpansFrom(text, s)[k].0 < SpansFrom(text, s)[l].0
    decreases |text| - s
  {
    if s < |text| {
      SpansFromSound(text, s + 1);
      var rest := SpansFrom(text, s + 1);
      if text[s] == '{' && MatchEnd(text, s).Some? {
        var e := MatchEnd(text, s).value;
        MatchEndIsFirstReturn(text, s);
        var r := [(s, e)] + rest;
        assert SpansFrom(text, s) == r;
        assert forall k :: 0 < k < |r| ==> r[k] == rest[k - 1];
      } else {
        assert SpansFrom(text, s) == rest;
      }
    }
  }

  /** Every `{` at or after `s` whose depth returns to zero has its span in
      the list. */
  lemma {:induction false} SpanListed(text: string, s: nat, a: nat, e: nat)
    requires s <= a && ClosesAt(text, a, e)
    ensures exists k :: 0 <= k < |SpansFrom(text, s)| && SpansFrom(text, s)[k] == (a, e)
    decreases a - s
  {
    var rest := SpansFrom(text, s + 1);
    var r := SpansFrom(text, s);
    if a == s {
      MatchEndIsFirstReturn(text, s);
      assert r == [(a, e)] + rest;
      assert r[0] == (a, e);
    } else {
      SpanListed(text, s + 1, a, e);
      var k :| 0 <= k < |rest| && rest[k] == (a, e);
      if text[s] == '{' && MatchEnd(text, s).Some? {
        assert r == [(s, MatchEnd(text, s).value)] + rest;
        assert r[k + 1] == (a, e);
      } else {
        assert r == rest;
      }
    }
  }

  /** Without any `{` the scan yields no span. */
  lemma {:induction false} NoBraceNoSpans(text: string, s: nat)
    requires s <= |text| && '{' !in text
    ensures SpansFrom(text, s) == []
    decreases |text| - s
  {
    if s < |text| {
      assert text[s] in text;
      NoBraceNoSpans(text, s + 1);
    }
  }

  /** `_iter_json_substrings(text)` as the list of `(start, end)` spans it
      yields, end inclusive. */
  function BraceSpans(text: string): (r: seq<(nat, nat)>)
    ensures forall k :: 0 <= k < |r| ==> ClosesAt(text, r[k].0, r[k].1)
    ensures forall k, l :: 0 <= k < l < |r| ==> r[k].0 < r[l].0
    ensures forall a: nat, e: nat :: ClosesAt(text, a, e) ==> exists k :: 0 <= k < |r| && r[k] == (a, e)
  {
    SpansFromSound(text, 0);
    forall a: nat, e: nat | ClosesAt(text, a, e)
      ensures exists k :: 0 <= k < |SpansFrom(text, 0)| && SpansFrom(text, 0)[k] == (a, e)
    {
      SpanListed(text, 0, a, e);
    }
    SpansFrom(text, 0)
  }

  /** The substrings the scan yields, in order. */
  function BraceCandidates(text: string): (r: seq<string>)
    ensures |r| == |BraceSpans(text)|
    ensures forall k :: 0 <= k < |r| ==>
              var sp := BraceSpans(text)[k];
              sp.0 <= sp.1 < |text| && r[k] == text[sp.0..sp.1 + 1]
  {
    var spans := BraceSpans(text);
    seq(|spans|, k requires 0 <= k < |spans| => text[spans[k].0..spans[k].1 + 1])
  }

  /** Every yielded substring is a balanced candidate. */
  lemma BraceCandidatesBalanced(text: string)
    ensures forall k :: 0 <= k < |BraceCandidates(text)| ==> IsBalancedCandidate(BraceCandidates(text)[k])
  {
    var spans := BraceSpans(text);
    var candidates := BraceCandidates(text);
    forall k | 0 <= k < |spans|
      ensures IsBalancedCandidate(candidates[k])
    {
      var s := spans[k].0;
      var e := spans[k].1;
      assert ClosesAt(text, s, e);
      assert candidates[k] == text[s..e + 1];
      ClosesAtIsBalanced(text, s, e);
    }
  }

  /** A `{` whose depth never returns to zero yields nothing. */
  lemma UnclosedBraceYieldsNothing(text: string, a: nat)
    requires a < |text| && text[a] == '{'
    requires forall e: nat :: !ClosesAt(text, a, e)
    ensures forall k :: 0 <= k < |BraceSpans(text)| ==> BraceSpans(text)[k].0 != a
  {
  }

  /** Text without `{` yields no candidate at all. */
  lemma NoOpeningBraceNoCandidates(text: string)
    requires '{' !in text
    ensures BraceCandidates(text) == []
  {
    NoBraceNoSpans(text, 0);
  }
}
