/** The result normaliser: `normalize_list` and `entities_to_modules`. */
module Normalize {
  import opened Json
  import opened Strings
  import opened OrderedSets

  /** The list `normalize_list` walks: nothing for a falsy value, a list as it
      is, any other value as a one-element list. */
  function Items(value: Json): seq<Json> {
    if !IsTruthy(value) then []
    else if value.JArr? then value.items
    else [value]
  }

  /** `x` is what item `item` contributes: the item is a string that strips
      to the non-empty `x`. */
  predicate Contributes(item: Json, x: string) {
    item.JStr? && x != [] && Strip(item.s) == x
  }

  /** The per-item filter of the loop: non-strings skipped, strings stripped,
      empty results skipped. */
  function Cleaned(items: seq<Json>): (r: seq<string>)
    ensures |r| <= |items|
  {
    if items == [] then []
    else
      var head := if items[0].JStr? && Strip(items[0].s) != [] then [Strip(items[0].s)] else [];
      head + Cleaned(items[1..])
  }

  /** The cleaned strings are exactly what the items contribute. */
  lemma {:induction false} CleanedMembers(items: seq<Json>)
    ensures forall x :: x in Cleaned(items) <==> exists i :: 0 <= i < |items| && Contributes(items[i], x)
  {
    if items != [] {
      CleanedMembers(items[1..]);
      assert forall i :: 0 < i < |items| ==> items[i] == items[1..][i - 1];
      forall x | exists i :: 0 <= i < |items| && Contributes(items[i], x)
        ensures x in Cleaned(items)
      {
        var i :| 0 <= i < |items| && Contributes(items[i], x);
        if i > 0 { assert Contributes(items[1..][i - 1], x); }
      }
    }
  }

  /** `normalize_list(value)`: the trimmed, non-empty strings of `value`,
      each once, in the order they first appear. */
  function NormalizeList(value: Json): (r: seq<string>)
    ensures NoDups(r)
    ensures forall x :: x in r ==> x != [] && IsStripped(x)
    ensures forall x :: x in r <==> exists i :: 0 <= i < |Items(value)| && Contributes(Items(value)[i], x)
    ensures !IsTruthy(value) ==> r == []
    ensures !value.JArr? && !value.JStr? ==> r == []
    ensures value.JStr? && Strip(value.s) != [] ==> r == [Strip(value.s)]
  {
    var items := Items(value);
    CleanedMembers(items);
    var r := Dedup(Cleaned(items));
    if value.JStr? && Strip(value.s) != [] then
      assert Cleaned(items) == [Strip(value.s)];
      FirstOccurrencesOfNoDups([Strip(value.s)]);
      r
    else
      r
  }

  /** The output of `normalize_list` lists the strings in the order their
      first cleaned occurrence appears in the input. */
  lemma NormalizeListOrder(value: Json)
    ensures var r := NormalizeList(value);
            var c := Cleaned(Items(value));
            forall i, j :: 0 <= i < j < |r| ==>
              r[i] in c && r[j] in c && IndexOf(c, r[i]) < IndexOf(c, r[j])
  {
    FirstOccurrencesOrder(Cleaned(Items(value)));
  }

  /** A list of strings as a decoded JSON array. */
  function AsJsonList(xs: seq<string>): (r: Json)
    ensures r.JArr? && |r.items| == |xs|
    ensures forall i :: 0 <= i < |xs| ==> r.items[i] == JStr(xs[i])
  {
    JArr(seq(|xs|, i requires 0 <= i < |xs| => JStr(xs[i])))
  }

  /** Strings that are already non-empty and stripped pass the item filter
      unchanged. */
  lemma {:induction false} CleanedOfStripped(xs: seq<string>)
    requires forall x :: x in xs ==> x != [] && IsStripped(x)
    ensures Cleaned(AsJsonList(xs).items) == xs
  {
    if xs != [] {
      var items := AsJsonList(xs).items;
      StrippedIsFixpoint(xs[0]);
      assert items[1..] == AsJsonList(xs[1..]).items;
      assert forall x :: x in xs[1..] ==> x in xs;
      CleanedOfStripped(xs[1..]);
    }
  }

  /** `normalize_list` is idempotent: feeding its output back in returns that
      output unchanged. */
  lemma NormalizeListIdempotent(value: Json)
    ensures NormalizeList(AsJsonList(NormalizeList(value))) == NormalizeList(value)
  {
    var r := NormalizeList(value);
    var again := AsJsonList(r);
    if r != [] {
      assert IsTruthy(again) && Items(again) == again.items;
      CleanedOfStripped(r);
      FirstOccurrencesOfNoDups(r);
      assert Dedup(Cleaned(again.items)) == r;
    } else {
      assert !IsTruthy(again);
    }
  }

  /** The module id of an entity `file:Qualified.name`: `file:Qualified`, or
      just `file` when the qualified name starts with a dot or is empty. */
  function ModuleId(entity: string): (id: string)
    requires ':' in entity
    ensures BeforeFirst(id, ':') == BeforeFirst(entity, ':')
    ensures id <= entity
  {
    var file := BeforeFirst(entity, ':');
    var name := AfterFirst(entity, ':');
    var moduleName := BeforeFirst(name, '.');
    SplitFirstRejoins(entity, ':');
    if moduleName == [] then
      BeforeFirstWithoutSeparator(file, ':');
      file
    else
      var id := file + ":" + moduleName;
      assert id[..|file|] == file && id[|file|] == ':';
      assert FirstIndex(id, ':') == |file|;
      id
  }

  /** The module id keeps the file part whole and takes at most the first
      dot-separated segment of the qualified name. */
  lemma ModuleIdShape(entity: string)
    requires ':' in entity
    ensures var file := BeforeFirst(entity, ':');
            var moduleName := BeforeFirst(AfterFirst(entity, ':'), '.');
            && (moduleName == [] ==> ModuleId(entity) == file)
            && (moduleName != [] ==> ModuleId(entity) == file + [':'] + moduleName)
            && '.' !in moduleName
  {
  }

  /** Module ids of the entities that carry a `:`, in order. */
  function ModuleIds(entities: seq<string>): seq<string>
  {
    if entities == [] then []
    else
      var head := if ':' in entities[0] then [ModuleId(entities[0])] else [];
      head + ModuleIds(entities[1..])
  }

  /** The module ids are exactly those of the entities that carry a `:`. */
  lemma {:induction false} ModuleIdsMembers(entities: seq<string>)
    ensures forall x :: x in ModuleIds(entities) <==>
              exists i :: 0 <= i < |entities| && ':' in entities[i] && ModuleId(entities[i]) == x
  {
    if entities != [] {
      ModuleIdsMembers(entities[1..]);
      assert forall i :: 0 < i < |entities| ==> entities[i] == entities[1..][i - 1];
      forall x | exists i :: 0 <= i < |entities| && ':' in entities[i] && ModuleId(entities[i]) == x
        ensures x in ModuleIds(entities)
      {
        var i :| 0 <= i < |entities| && ':' in entities[i] && ModuleId(entities[i]) == x;
        if i > 0 { assert entities[1..][i - 1] == entities[i]; }
      }
    }
  }

  /** `entities_to_modules(found_entities)`: one module id per entity with a
      `:`, duplicates dropped, first-seen order kept. */
  function EntitiesToModules(entities: seq<string>): (r: seq<string>)
    ensures r == FirstOccurrences(ModuleIds(entities))
    ensures NoDups(r)
    ensures forall x :: x in r <==> exists i :: 0 <= i < |entities| && ':' in entities[i] && ModuleId(entities[i]) == x
    ensures (forall i :: 0 <= i < |entities| ==> ':' !in entities[i]) ==> r == []
  {
    ModuleIdsMembers(entities);
    var r := Dedup(ModuleIds(entities));
    assert r != [] ==> r[0] in r;
    r
  }

  /** The module ids come out in the order in which each first appears
      among the entities' ids. */
  lemma EntitiesToModulesOrder(entities: seq<string>)
    ensures var r := EntitiesToModules(entities);
            var ids := ModuleIds(entities);
            forall i, j :: 0 <= i < j < |r| ==>
              r[i] in ids && r[j] in ids && IndexOf(ids, r[i]) < IndexOf(ids, r[j])
  {
    FirstOccurrencesOrder(ModuleIds(entities));
  }

  /** An entity `file:Seg.rest` maps to `file:Seg`. */
  lemma ModuleIdOfDotted(file: string, seg: string, rest: string)
    requires ':' !in file && '.' !in seg && seg != []
    ensures ModuleId(file + ":" + seg + "." + rest) == file + ":" + seg
  {
    var name := seg + "." + rest;
    assert file + ":" + seg + "." + rest == file + [':'] + name;
    SplitFirstOfJoin(file, ':', name);
    SplitFirstOfJoin(seg, '.', rest);
  }

  /** An entity `file:Seg` with no dot maps to itself. */
  lemma ModuleIdOfUndotted(file: string, seg: string)
    requires ':' !in file && '.' !in seg && seg != []
    ensures ModuleId(file + ":" + seg) == file + ":" + seg
  {
    SplitFirstOfJoin(file, ':', seg);
    BeforeFirstWithoutSeparator(seg, '.');
  }

  /** The worked example of the module derivation, for any file paths and
      names of its shape: `[f:M.x, f:M.y, g:Q]` gives `[f:M, g:Q]`. */
  lemma EntitiesToModulesExample(f: string, g: string, m: string, x: string, y: string, q: string)
    requires ':' !in f && ':' !in g && f != g
    requires '.' !in m && '.' !in q && m != [] && q != []
    ensures EntitiesToModules([f + ":" + m + "." + x, f + ":" + m + "." + y, g + ":" + q])
            == [f + ":" + m, g + ":" + q]
  {
    ExampleModuleIds(f, g, m, x, y, q);
    DistinctFilesDistinctIds(f, g, m, q);
    DedupRepeatedHead(f + ":" + m, g + ":" + q);
  }

  lemma DistinctFilesDistinctIds(f: string, g: string, m: string, q: string)
    requires ':' !in f && ':' !in g && f != g
    ensures f + ":" + m != g + ":" + q
  {
    SplitFirstOfJoin(f, ':', m);
    SplitFirstOfJoin(g, ':', q);
    assert f + ":" + m == f + [':'] + m && g + ":" + q == g + [':'] + q;
  }

  lemma DedupRepeatedHead(a: string, b: string)
    requires a != b
    ensures Dedup([a, a, b]) == [a, b]
  {
    var one, two, three := [a], [a, a], [a, a, b];
    assert FirstOccurrences(one) == [a] by {
      FirstOccurrencesSnoc([], a);
      assert [] + [a] == one;
    }
    assert FirstOccurrences(two) == [a] by {
      FirstOccurrencesSnoc(one, a);
      assert one + [a] == two;
    }
    assert FirstOccurrences(three) == [a, b] by {
      FirstOccurrencesSnoc(two, b);
      assert two + [b] == three;
      assert b !in two;
    }
  }

  lemma ExampleModuleIds(f: string, g: string, m: string, x: string, y: string, q: string)
    requires ':' !in f && ':' !in g
    requires '.' !in m && '.' !in q && m != [] && q != []
    ensures ModuleIds([f + ":" + m + "." + x, f + ":" + m + "." + y, g + ":" + q])
            == [f + ":" + m, f + ":" + m, g + ":" + q]
  {
    var e1, e2, e3 := f + ":" + m + "." + x, f + ":" + m + "." + y, g + ":" + q;
    ModuleIdOfDotted(f, m, x);
    ModuleIdOfDotted(f, m, y);
    ModuleIdOfUndotted(g, q);
    assert e1[|f|] == ':' && e2[|f|] == ':' && e3[|g|] == ':';
    ModuleIdsCons(e3, []);
    ModuleIdsCons(e2, [e3]);
    ModuleIdsCons(e1, [e2, e3]);
  }

  lemma ModuleIdsCons(e: string, rest: seq<string>)
    ensures ModuleIds([e] + rest) == (if ':' in e then [ModuleId(e)] else []) + ModuleIds(rest)
  {
    assert ([e] + rest)[1..] == rest;
  }

  /** File parts of the entities that carry a `:`, as the converter collects
      them before normalising. */
  function EntityFiles(entities: seq<string>): seq<string>
  {
    if entities == [] then []
    else
      var head := if ':' in entities[0] then [BeforeFirst(entities[0], ':')] else [];
      head + EntityFiles(entities[1..])
  }

  /** The collected file parts are exactly those of the entities that carry
      a `:`. */
  lemma {:induction false} EntityFilesMembers(entities: seq<string>)
    ensures forall x :: x in EntityFiles(entities) <==>
              exists i :: 0 <= i < |entities| && ':' in entities[i] && BeforeFirst(entities[i], ':') == x
  {
    if entities != [] {
      EntityFilesMembers(entities[1..]);
      assert forall i :: 0 < i < |entities| ==> entities[i] == entities[1..][i - 1];
      forall x | exists i :: 0 <= i < |entities| && ':' in entities[i] && BeforeFirst(entities[i], ':') == x
        ensures x in EntityFiles(entities)
      {
        var i :| 0 <= i < |entities| && ':' in entities[i] && BeforeFirst(entities[i], ':') == x;
        if i > 0 { assert entities[1..][i - 1] == entities[i]; }
      }
    }
  }
}
