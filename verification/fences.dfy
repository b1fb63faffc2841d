/** The fenced-code-block scan: the pattern "```", an optional
    case-insensitive `json` tag, optional whitespace, then the shortest body
    up to the next "```", matched repeatedly from left to right without
    overlap. It is written here as an explicit scanner. */
module Fences {
  import opened Wrappers
  import opened Strings

  /** Three backticks start at `k`. */
  predicate IsFence(text: string, k: nat) {
    k + 3 <= |text| && text[k] == '`' && text[k + 1] == '`' && text[k + 2] == '`'
  }

  /** Characters the case-insensitive `json` tag accepts at each position.
      Python's case-insensitive matching also equates `s` with U+017F
      (LATIN SMALL LETTER LONG S). */
  predicate IsTagLetter(c: char, i: nat) {
    match i
    case 0 => c == 'j' || c == 'J'
    case 1 => c == 's' || c == 'S' || c == '\U{17F}'
    case 2 => c == 'o' || c == 'O'
    case _ => c == 'n' || c == 'N'
  }

  /** A `json` tag, in any letter case, starts at `p`. */
  predicate HasJsonTag(text: string, p: nat) {
    && p + 4 <= |text|
    && IsTagLetter(text[p], 0) && IsTagLetter(text[p + 1], 1)
    && IsTagLetter(text[p + 2], 2) && IsTagLetter(text[p + 3], 3)
  }

  /** The first fence at or after `from`. */
  function FindFence(text: string, from: nat): (r: Option<nat>)
    requires from <= |text|
    ensures r.Some? ==> from <= r.value && IsFence(text, r.value)
    ensures r.Some? ==> forall j :: from <= j < r.value ==> !IsFence(text, j)
    ensures r.None? ==> forall j :: from <= j ==> !IsFence(text, j)
    decreases |text| - from
  {
    if from + 3 > |text| then None
    else if IsFence(text, from) then Some(from)
    else FindFence(text, from + 1)
  }

  /** Where the body of a block opened at `open` begins: after the fence, and
      after the `json` tag exactly when one follows the fence. The tag holds
      no backtick, so skipping it never skips part of a fence. Leading
      whitespace stays in the body; it is stripped later anyway. */
  function BodyStart(text: string, open: nat): (b: nat)
    requires IsFence(text, open)
    ensures b <= |text|
    ensures b == open + 3 || b == open + 7
    ensures b == open + 7 <==> HasJsonTag(text, open + 3)
  {
    if HasJsonTag(text, open + 3) then open + 7 else open + 3
  }

  /** A complete block can be found from `p`: a first fence at or after `p`,
      and a later fence after that fence's body start. */
  predicate HasBlock(text: string, p: nat)
    requires p <= |text|
  {
    FindFence(text, p).Some? && FindFence(text, BodyStart(text, FindFence(text, p).value)).Some?
  }

  /** The first fence at or after `p` opens a block whose body starts at
      `b`. */
  predicate OpensAt(text: string, p: nat, b: nat) {
    p <= |text| && FindFence(text, p).Some? && b == BodyStart(text, FindFence(text, p).value)
  }

  /** The span `(start, end)` of the next block body at or after `p`, end
      exclusive: the first fence opens the block, and the first fence after
      its body start closes it. */
  function NextBlock(text: string, p: nat): (r: Option<(nat, nat)>)
    requires p <= |text|
    ensures r.Some? <==> HasBlock(text, p)
    ensures r.Some? ==> OpensAt(text, p, r.value.0)
    ensures r.Some? ==>
              && p + 3 <= r.value.0 <= r.value.1
              && IsFence(text, r.value.1)
              && forall j :: r.value.0 <= j < r.value.1 ==> !IsFence(text, j)
  {
    match FindFence(text, p)
    case None => None
    case Some(open) =>
      var b := BodyStart(text, open);
      match FindFence(text, b)
      case None => None
      case Some(close) => Some((b, close))
  }

  /** Spans of the block bodies found at or after `from`. Scanning resumes
      after each closing fence. An opening fence with no later fence ends
      the scan: no later start can match either. */
  function BodySpans(text: string, from: nat): seq<(nat, nat)>
    requires from <= |text|
    decreases |text| - from
  {
    match NextBlock(text, from)
    case None => []
    case Some(span) => [span] + BodySpans(text, span.1 + 3)
  }

  /** Each block takes two fences, so the scan finds at most one body per
      six characters scanned. */
  lemma {:induction false} BodySpansCount(text: string, from: nat)
    requires from <= |text|
    ensures 6 * |BodySpans(text, from)| <= |text| - from
    decreases |text| - from
  {
    match NextBlock(text, from)
    case None =>
    case Some(span) =>
      var rest := BodySpans(text, span.1 + 3);
      assert BodySpans(text, from) == [span] + rest;
      BodySpansCount(text, span.1 + 3);
      assert from + 3 <= span.1;
      assert 6 * |rest| + 6 <= |text| - from;
  }

  /** Where the search for the opening fence of block `k` starts: at `from`
      for the first block, right after the previous closing fence otherwise. */
  function Resume(from: nat, spans: seq<(nat, nat)>, k: nat): nat
    requires k <= |spans|
  {
    if k == 0 then from else spans[k - 1].1 + 3
  }

  /** Where body `k` starts: after the first fence (and its optional tag)
      from where the previous block closed. */
  lemma {:induction false} BodySpanOpener(text: string, from: nat, k: nat)
    requires from <= |text| && k < |BodySpans(text, from)|
    ensures OpensAt(text, Resume(from, BodySpans(text, from), k), BodySpans(text, from)[k].0)
    decreases k
  {
    match NextBlock(text, from)
    case Some(span) =>
      var rest := BodySpans(text, span.1 + 3);
      var all := [span] + rest;
      assert BodySpans(text, from) == all;
      if k == 0 {
        assert all[0] == span;
      } else {
        BodySpanOpener(text, span.1 + 3, k - 1);
        var p := Resume(span.1 + 3, rest, k - 1);
        if k > 1 {
          assert all[k - 1] == rest[k - 2];
        }
        assert Resume(from, all, k) == p;
        assert all[k] == rest[k - 1];
      }
  }

  /** Where the scan stops: the first position, reached by resuming after
      each closing fence, from which no complete block can be found. */
  function ScanEnd(text: string, from: nat): (p: nat)
    requires from <= |text|
    ensures from <= p <= |text|
    ensures !HasBlock(text, p)
    decreases |text| - from
  {
    match NextBlock(text, from)
    case None => from
    case Some(span) => ScanEnd(text, span.1 + 3)
  }

  /** The scan resumes after its last closing fence exactly where
      `ScanEnd` stops. */
  lemma {:induction false} ResumeAtScanEnd(text: string, from: nat)
    requires from <= |text|
    ensures Resume(from, BodySpans(text, from), |BodySpans(text, from)|) == ScanEnd(text, from)
    decreases |text| - from
  {
    match NextBlock(text, from)
    case None =>
      assert BodySpans(text, from) == [];
    case Some(span) =>
      var rest := BodySpans(text, span.1 + 3);
      var all := [span] + rest;
      assert BodySpans(text, from) == all;
      ResumeAtScanEnd(text, span.1 + 3);
      if rest == [] {
        assert Resume(from, all, |all|) == span.1 + 3;
      } else {
        assert all[|all| - 1] == rest[|rest| - 1];
      }
      assert Resume(from, all, |all|) == Resume(span.1 + 3, rest, |rest|);
  }

  /** The scan stops only when no complete block follows the last body. */
  lemma BodySpansStop(text: string, from: nat)
    requires from <= |text|
    ensures Resume(from, BodySpans(text, from), |BodySpans(text, from)|) <= |text|
    ensures !HasBlock(text, Resume(from, BodySpans(text, from), |BodySpans(text, from)|))
  {
    ResumeAtScanEnd(text, from);
  }

  /** Where each body ends: at the first fence after its start, so that it
      contains no fence; every body lies inside the text, at least a fence
      past `from`. */
  lemma {:induction false} BodySpansClosers(text: string, from: nat)
    requires from <= |text|
    ensures forall k :: 0 <= k < |BodySpans(text, from)| ==>
              && from + 3 <= BodySpans(text, from)[k].0 <= BodySpans(text, from)[k].1
              && IsFence(text, BodySpans(text, from)[k].1)
              && (forall j :: BodySpans(text, from)[k].0 <= j < BodySpans(text, from)[k].1 ==> !IsFence(text, j))
    decreases |text| - from
  {
    match NextBlock(text, from)
    case None =>
    case Some(span) =>
      BodySpansClosers(text, span.1 + 3);
      var rest := BodySpans(text, span.1 + 3);
      var all := [span] + rest;
      assert BodySpans(text, from) == all;
      assert forall k :: 0 < k < |all| ==> all[k] == rest[k - 1];
  }

  /** The scan pairs fences greedily from left to right: the body of block
      `k` starts after the first fence (and its optional tag) from where the
      previous block closed, it ends at the first fence after its start, it
      contains no fence, and once no complete block follows the last one the
      scan stops. */
  lemma BodySpansBetweenFences(text: string, from: nat)
    requires from <= |text|
    ensures forall k :: 0 <= k < |BodySpans(text, from)| ==>
              OpensAt(text, Resume(from, BodySpans(text, from), k), BodySpans(text, from)[k].0)
    ensures forall k :: 0 <= k < |BodySpans(text, from)| ==>
              && IsFence(text, BodySpans(text, from)[k].1)
              && (forall j :: BodySpans(text, from)[k].0 <= j < BodySpans(text, from)[k].1 ==> !IsFence(text, j))
    ensures Resume(from, BodySpans(text, from), |BodySpans(text, from)|) <= |text|
    ensures !HasBlock(text, Resume(from, BodySpans(text, from), |BodySpans(text, from)|))
  {
    forall k | 0 <= k < |BodySpans(text, from)|
      ensures OpensAt(text, Resume(from, BodySpans(text, from), k), BodySpans(text, from)[k].0)
    {
      BodySpanOpener(text, from, k);
    }
    BodySpansStop(text, from);
    BodySpansClosers(text, from);
  }

  /** Bodies come in text order, each at least one fence past the end of
      the previous one, so they never overlap. */
  lemma {:induction false} BodySpansInOrder(text: string, from: nat)
    requires from <= |text|
    ensures forall k :: 0 <= k < |BodySpans(text, from)| - 1 ==>
              BodySpans(text, from)[k].1 + 3 <= BodySpans(text, from)[k + 1].0
    decreases |text| - from
  {
    match NextBlock(text, from)
    case None =>
    case Some(span) =>
      BodySpansInOrder(text, span.1 + 3);
      var rest := BodySpans(text, span.1 + 3);
      var all := [span] + rest;
      assert BodySpans(text, from) == all;
      assert forall k :: 0 < k < |all| ==> all[k] == rest[k - 1];
  }

  /** The stripped bodies of the blocks the scan finds, in span order. */
  function BlockBodies(text: string): (r: seq<string>)
    ensures |r| == |BodySpans(text, 0)|
    ensures forall k :: 0 <= k < |r| ==>
              && BodySpans(text, 0)[k].0 <= BodySpans(text, 0)[k].1 <= |text|
              && r[k] == Strip(text[BodySpans(text, 0)[k].0..BodySpans(text, 0)[k].1])
  {
    var spans := BodySpans(text, 0);
    BodySpansClosers(text, 0);
    seq(|spans|, k requires 0 <= k < |spans| => Strip(text[spans[k].0..spans[k].1]))
  }

  /** Drops the empty strings: every non-empty string is kept as often as it
      occurs, and nothing else is kept. */
  function NonEmpty(xs: seq<string>): (r: seq<string>)
    ensures forall x :: x in r <==> x in xs && x != []
    ensures multiset(r) == multiset(xs)[[] := 0]
  {
    if xs == [] then []
    else
      assert xs == [xs[0]] + xs[1..];
      (if xs[0] == [] then [] else [xs[0]]) + NonEmpty(xs[1..])
  }

  /** Dropping empty strings keeps the order of what remains: whatever is
      kept from a first part comes before whatever is kept from the rest. */
  lemma {:induction false} NonEmptyAppend(xs: seq<string>, ys: seq<string>)
    ensures NonEmpty(xs + ys) == NonEmpty(xs) + NonEmpty(ys)
  {
    if xs == [] {
      assert xs + ys == ys;
    } else {
      assert (xs + ys)[0] == xs[0];
      assert (xs + ys)[1..] == xs[1..] + ys;
      NonEmptyAppend(xs[1..], ys);
    }
  }

  /** The tier-one candidates: the stripped block bodies in span order,
      each non-empty one kept as often as it occurs, the empty ones
      dropped. */
  function FencedCandidates(text: string): (r: seq<string>)
    ensures forall c :: c in r ==> c != [] && IsStripped(c)
    ensures forall c :: c in r <==> c != [] && c in BlockBodies(text)
    ensures multiset(r) == multiset(BlockBodies(text))[[] := 0]
  {
    NonEmpty(BlockBodies(text))
  }

  /** Text without a backtick holds no fenced block. */
  lemma NoBacktickNoFences(text: string)
    requires '`' !in text
    ensures FencedCandidates(text) == []
  {
    assert forall k :: 0 <= k < |text| ==> text[k] != '`';
    assert FindFence(text, 0).None?;
    assert BodySpans(text, 0) == [];
    assert BlockBodies(text) == [];
  }
}
