/** `extract_json_payload`: finds the JSON object an agent meant as its
    answer in free text, trying fenced blocks, then the whole text, then
    brace-balanced substrings, and returning the first candidate that decodes
    to an object. */
module Extractor {
  import opened Wrappers
  import opened Json
  import opened Strings
  import opened BraceScan
  import opened Fences

  /** `json.loads` as an oracle: `None` stands for a decode error. The
      decoder's grammar is not modelled. */
  type Decoder = string -> Option<Json>

  /** `_try_load_json`: the decoded value when it is an object, otherwise
      nothing; lists, strings, numbers, booleans and null are rejected. */
  function TryLoadJson(parse: Decoder, candidate: string): (r: Option<Obj>)
    ensures r.Some? <==> parse(candidate).Some? && parse(candidate).value.JObj?
    ensures r.Some? ==> parse(candidate) == Some(JObj(r.value))
  {
    match parse(candidate)
    case Some(JObj(fields)) => Some(fields)
    case _ => None
  }

  /** A successful extraction: the payload and the candidate text it was
      decoded from. */
  datatype Extraction = Extraction(payload: Obj, source: string)

  /** The first candidate that decodes to an object, tried in order. */
  function FirstAccepted(parse: Decoder, candidates: seq<string>): (r: Option<Extraction>)
    ensures r.None? <==> forall i :: 0 <= i < |candidates| ==> TryLoadJson(parse, candidates[i]).None?
    ensures r.Some? ==>
              exists i :: (&& 0 <= i < |candidates|
                           && candidates[i] == r.value.source
                           && TryLoadJson(parse, candidates[i]) == Some(r.value.payload)
                           && forall j :: 0 <= j < i ==> TryLoadJson(parse, candidates[j]).None?)
  {
    if candidates == [] then None
    else
      match TryLoadJson(parse, candidates[0])
      case Some(payload) => Some(Extraction(payload, candidates[0]))
      case None =>
        var r := FirstAccepted(parse, candidates[1..]);
        assert forall i :: 0 < i < |candidates| ==> candidates[i] == candidates[1..][i - 1];
        if r.Some? then
          var i :| 0 <= i < |candidates[1..]|
                   && candidates[1..][i] == r.value.source
                   && TryLoadJson(parse, candidates[1..][i]) == Some(r.value.payload)
                   && forall j :: 0 <= j < i ==> TryLoadJson(parse, candidates[1..][j]).None?;
          assert candidates[i + 1] == r.value.source;
          r
        else
          r
  }

  /** Trying two lists one after the other is trying their concatenation. */
  lemma {:induction false} FirstAcceptedAppend(parse: Decoder, xs: seq<string>, ys: seq<string>)
    ensures FirstAccepted(parse, xs + ys)
            == (if FirstAccepted(parse, xs).Some? then FirstAccepted(parse, xs) else FirstAccepted(parse, ys))
  {
    if xs != [] {
      assert (xs + ys)[0] == xs[0];
      assert (xs + ys)[1..] == xs[1..] + ys;
      FirstAcceptedAppend(parse, xs[1..], ys);
    } else {
      assert xs + ys == ys;
    }
  }

  /** Tiers one and two: the fenced bodies, or the whole stripped text when
      there is no non-empty fenced body. */
  function PrimaryCandidates(text: string): (r: seq<string>)
    ensures |r| > 0
    ensures forall c :: c in r ==> IsStripped(c)
    ensures FencedCandidates(text) != [] ==> r == FencedCandidates(text)
    ensures FencedCandidates(text) == [] ==> r == [Strip(text)]
  {
    var fenced := FencedCandidates(text);
    if fenced == [] then [Strip(text)] else fenced
  }

  /** Every candidate in the order the extractor tries them. */
  function AllCandidates(text: string): seq<string> {
    PrimaryCandidates(text) + BraceCandidates(text)
  }

  /** `extract_json_payload(text)`; `None` is the `(None, None)` result. */
  function ExtractJsonPayload(parse: Decoder, text: string): (r: Option<Extraction>)
    ensures text == [] ==> r.None?
    ensures r.Some? ==> parse(r.value.source) == Some(JObj(r.value.payload))
    ensures r.Some? ==> r.value.source in AllCandidates(text)
  {
    if text == [] then None
    else
      var primary := FirstAccepted(parse, PrimaryCandidates(text));
      if primary.Some? then primary
      else FirstAccepted(parse, BraceCandidates(text))
  }

  /** The extractor returns the first candidate, in tier order, that decodes
      to an object; fenced bodies come before the whole text, which comes
      before the brace scan, and a later candidate is reached only when every
      earlier one failed. */
  lemma ExtractIsFirstAcceptedCandidate(parse: Decoder, text: string)
    requires text != []
    ensures ExtractJsonPayload(parse, text) == FirstAccepted(parse, AllCandidates(text))
  {
    FirstAcceptedAppend(parse, PrimaryCandidates(text), BraceCandidates(text));
  }

  /** When some fenced body is non-empty, the whole text is never tried as a
      candidate: the result comes from a fenced body or from the brace scan. */
  lemma FencesShadowWholeText(parse: Decoder, text: string)
    requires FencedCandidates(text) != []
    ensures var r := ExtractJsonPayload(parse, text);
            r.Some? ==> r.value.source in FencedCandidates(text) || r.value.source in BraceCandidates(text)
  {
  }

  /** The brace scan is consulted only after every earlier candidate failed:
      if any fenced body (or the whole text) decodes to an object, the result
      is the first such one. */
  lemma BraceScanOnlyAsLastResort(parse: Decoder, text: string, i: nat)
    requires text != []
    requires i < |PrimaryCandidates(text)| && TryLoadJson(parse, PrimaryCandidates(text)[i]).Some?
    ensures ExtractJsonPayload(parse, text) == FirstAccepted(parse, PrimaryCandidates(text))
    ensures ExtractJsonPayload(parse, text).Some?
  {
  }

  /** A text with exactly one non-empty fenced body that decodes to an object
      yields that object, whatever prose surrounds it. */
  lemma SingleFencedObjectFound(parse: Decoder, text: string, body: string, payload: Obj)
    requires FencedCandidates(text) == [body]
    requires parse(body) == Some(JObj(payload))
    ensures ExtractJsonPayload(parse, text) == Some(Extraction(payload, body))
  {
  }

  /** Whitespace holds neither a backtick nor an opening brace. */
  lemma SpaceHoldsNoMarkup(text: string)
    requires AllSpace(text)
    ensures '`' !in text && '{' !in text
  {
    forall k | 0 <= k < |text| ensures text[k] != '`' && text[k] != '{' {
      assert IsSpace(text[k]);
    }
  }

  /** Whitespace-only text yields nothing when the decoder rejects the empty
      string, as `json.loads` does: it holds no fence and no brace. */
  lemma BlankTextYieldsNothing(parse: Decoder, text: string)
    requires AllSpace(text)
    requires TryLoadJson(parse, "").None?
    ensures ExtractJsonPayload(parse, text).None?
  {
    if text != [] {
      SpaceHoldsNoMarkup(text);
      NoBacktickNoFences(text);
      StripEmptyIffAllSpace(text);
      var primary := PrimaryCandidates(text);
      assert primary == [""];
      assert FirstAccepted(parse, primary).None?;
      NoOpeningBraceNoCandidates(text);
      assert FirstAccepted(parse, BraceCandidates(text)).None?;
    }
  }

  /** A brace-balanced object embedded in prose is recovered by the scan when
      no fence is present and the whole text does not decode to an object:
      the result is the first scanned substring that does. */
  lemma BraceScanRecovers(parse: Decoder, text: string, k: nat)
    requires text != [] && FencedCandidates(text) == []
    requires TryLoadJson(parse, Strip(text)).None?
    requires k < |BraceCandidates(text)| && TryLoadJson(parse, BraceCandidates(text)[k]).Some?
    ensures ExtractJsonPayload(parse, text) == FirstAccepted(parse, BraceCandidates(text))
    ensures ExtractJsonPayload(parse, text).Some?
  {
  }
}
