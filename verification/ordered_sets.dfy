/** Ordered sets of strings as both tools build them: a list plus a `seen`
    set, keeping each value at its first occurrence. */
module OrderedSets {

  predicate NoDups(s: seq<string>) {
    forall i, j :: 0 <= i < j < |s| ==> s[i] != s[j]
  }

  function Elements(s: seq<string>): set<string> {
    set x | x in s
  }

  /** Position of the first occurrence of `x` in `s`. */
  function IndexOf(s: seq<string>, x: string): (i: nat)
    requires x in s
    ensures i < |s| && s[i] == x
    ensures x !in s[..i]
  {
    if s[0] == x then 0
    else
      var i := 1 + IndexOf(s[1..], x);
      assert s[..i] == [s[0]] + s[1..][..i - 1];
      i
  }

  /** Reference definition: the values of `s`, each kept where it first
      occurs. Written from the back so that it does not share its shape with
      the single-pass loop below. */
  function FirstOccurrences(s: seq<string>): seq<string>
  {
    if s == [] then []
    else
      var init := s[..|s| - 1];
      var last := s[|s| - 1];
      FirstOccurrences(init) + (if last in init then [] else [last])
  }

  /** One more value at the back is kept exactly when it is new. */
  lemma FirstOccurrencesSnoc(s: seq<string>, x: string)
    ensures FirstOccurrences(s + [x]) == FirstOccurrences(s) + (if x in s then [] else [x])
  {
    assert (s + [x])[..|s|] == s;
  }

  /** The reference holds every value of `s` exactly once. */
  lemma {:induction false} FirstOccurrencesSpec(s: seq<string>)
    ensures NoDups(FirstOccurrences(s))
    ensures forall x :: x in FirstOccurrences(s) <==> x in s
  {
    if s != [] {
      var init := s[..|s| - 1];
      assert s == init + [s[|s| - 1]];
      FirstOccurrencesSpec(init);
    }
  }

  /** The reference lists values in the order of their first occurrences. */
  lemma {:induction false} FirstOccurrencesOrder(s: seq<string>)
    ensures forall i, j :: 0 <= i < j < |FirstOccurrences(s)| ==>
              && FirstOccurrences(s)[i] in s && FirstOccurrences(s)[j] in s
              && IndexOf(s, FirstOccurrences(s)[i]) < IndexOf(s, FirstOccurrences(s)[j])
  {
    if s != [] {
      var init := s[..|s| - 1];
      var last := s[|s| - 1];
      assert s == init + [last];
      FirstOccurrencesSpec(init);
      FirstOccurrencesOrder(init);
      var fo := FirstOccurrences(init);
      assert forall k :: 0 <= k < |fo| ==> fo[k] in init;
      forall y | y in init
        ensures IndexOf(s, y) == IndexOf(init, y)
      {
        IndexOfPrefix(init, last, y);
      }
      if last !in init {
        assert s[..|init|] == init;
        assert IndexOf(s, last) == |init|;
      }
      var fs := FirstOccurrences(s);
      assert fs == fo + (if last in init then [] else [last]);
      forall i, j | 0 <= i < j < |fs|
        ensures fs[i] in s && fs[j] in s && IndexOf(s, fs[i]) < IndexOf(s, fs[j])
      {
        assert fs[i] == fo[i] && fo[i] in fo && fo[i] in init;
        assert IndexOf(s, fo[i]) == IndexOf(init, fo[i]) < |init|;
        if j < |fo| {
          assert fs[j] == fo[j] && fo[j] in fo && fo[j] in init;
          assert IndexOf(s, fo[j]) == IndexOf(init, fo[j]);
          assert IndexOf(init, fo[i]) < IndexOf(init, fo[j]);
        } else {
          assert fs[j] == last && last !in init;
          assert IndexOf(s, last) == |init|;
        }
      }
    } else {
      assert FirstOccurrences(s) == [];
    }
  }

  lemma IndexOfPrefix(init: seq<string>, last: string, y: string)
    requires y in init
    ensures IndexOf(init + [last], y) == IndexOf(init, y)
  {
    var s := init + [last];
    var k := IndexOf(init, y);
    assert s[k] == y;
    assert s[..k] == init[..k];
  }

  /** The single-pass loop of both tools: skip a value already in `seen`,
      otherwise append it and remember it. */
  function DedupFold(xs: seq<string>, result: seq<string>, seen: set<string>): (r: seq<string>)
    ensures |result| <= |r| <= |result| + |xs|
    ensures r[..|result|] == result
    ensures forall k :: |result| <= k < |r| ==> r[k] in xs && r[k] !in seen
    decreases |xs|
  {
    if xs == [] then result
    else if xs[0] in seen then DedupFold(xs[1..], result, seen)
    else DedupFold(xs[1..], result + [xs[0]], seen + {xs[0]})
  }

  /** Loop invariant of the single pass: after consuming `done`, the output is
      the reference applied to `done`, and `seen` is what `done` contains. */
  lemma {:induction false} DedupFoldMatchesReference(done: seq<string>, xs: seq<string>)
    ensures DedupFold(xs, FirstOccurrences(done), Elements(done))
            == FirstOccurrences(done + xs)
    decreases |xs|
  {
    if xs == [] {
      assert done + xs == done;
    } else {
      var x := xs[0];
      var next := done + [x];
      assert next[..|next| - 1] == done;
      assert x in Elements(done) <==> x in done;
      if x in done {
        assert Elements(next) == Elements(done);
        assert FirstOccurrences(next) == FirstOccurrences(done);
      } else {
        assert Elements(next) == Elements(done) + {x};
        assert FirstOccurrences(next) == FirstOccurrences(done) + [x];
      }
      DedupFoldMatchesReference(next, xs[1..]);
      assert next + xs[1..] == done + xs;
    }
  }

  /** The ordered set of `xs`: duplicates dropped, first occurrences kept in
      input order. */
  function Dedup(xs: seq<string>): (r: seq<string>)
    ensures r == FirstOccurrences(xs)
    ensures NoDups(r)
    ensures forall x :: x in r <==> x in xs
  {
    DedupFoldMatchesReference([], xs);
    assert [] + xs == xs;
    assert Elements([]) == {};
    FirstOccurrencesSpec(xs);
    DedupFold(xs, [], {})
  }

  /** A duplicate-free sequence is its own ordered set. */
  lemma {:induction false} FirstOccurrencesOfNoDups(s: seq<string>)
    requires NoDups(s)
    ensures FirstOccurrences(s) == s
  {
    if s != [] {
      var init := s[..|s| - 1];
      assert s == init + [s[|s| - 1]];
      assert NoDups(init);
      FirstOccurrencesOfNoDups(init);
    }
  }

  lemma DedupIdempotent(xs: seq<string>)
    ensures Dedup(Dedup(xs)) == Dedup(xs)
  {
    FirstOccurrencesOfNoDups(Dedup(xs));
  }
}
