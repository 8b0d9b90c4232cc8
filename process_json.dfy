/**
 * Milkweed projects by neighbourhood: `count_milkweed_by_neighborhood` and
 * the report written by `process_json_file`.
 *
 * The input is the already-decoded JSON document (`json.load`); the
 * analysis walks its top-level list, keeps the records whose "MILKWEED"
 * value is truthy and whose "NEIGHBORHOOD" is present and not blank, and
 * counts the stripped neighbourhood names.
 */
module MilkweedJson {
  import opened PyText
  import opened Frequency

  /** A decoded JSON value, as `json.load` gives it: None, bool, int,
      float, str, list or dict. */
  datatype JVal =
    | JNull
    | JBool(b: bool)
    | JInt(i: int)
    | JFloat(x: real)
    | JStr(s: string)
    | JArr(items: seq<JVal>)
    | JObj(fields: map<string, JVal>)

  /** What opening and decoding the file gave: the file is absent
      (`FileNotFoundError`), it is not valid JSON (`json.JSONDecodeError`),
      reading it failed in some other way (caught by the generic handler),
      or it decoded to a document. */
  datatype JsonSource = FileMissing | BadJson | ReadFailed | Loaded(root: JVal)

  /** Python truthiness: None, False, zero, and empty strings, lists and
      dicts are false; everything else is true. */
  predicate Truthy(v: JVal) {
    match v
    case JNull => false
    case JBool(b) => b
    case JInt(i) => i != 0
    case JFloat(x) => x != 0.0
    case JStr(s) => s != []
    case JArr(a) => a != []
    case JObj(m) => m != map[]
  }

  /** `d.get(key)`: None when the key is absent. */
  function Get(m: map<string, JVal>, key: string): JVal {
    if key in m then m[key] else JNull
  }

  /** `str(v)`. For None, booleans, integers and strings it is computed;
      for floats, lists and dicts Python's rendering is taken as the
      parameter `render`. */
  function Text(v: JVal, render: JVal -> string): string {
    match v
    case JNull => "None"
    case JBool(b) => if b then "True" else "False"
    case JInt(i) => IntText(i)
    case JStr(s) => s
    case _ => render(v)
  }

  /** What one element of the top-level list does to the scan. A non-dict
      has no `.get`, and the `AttributeError` ends the whole analysis. A
      record contributes exactly when its "MILKWEED" value is truthy and its
      "NEIGHBORHOOD" value is not None and not blank once stripped; the
      key is then the stripped text. */
  function ClassifyProject(project: JVal, render: JVal -> string): (o: Outcome<string>)
    ensures o.Aborted? <==> !project.JObj?
    ensures o.Counted? ==> Truthy(Get(project.fields, "MILKWEED"))
    ensures o.Counted? ==>
      var raw := Get(project.fields, "NEIGHBORHOOD");
      !raw.JNull? && o.key == Strip(Text(raw, render))
    ensures o.Counted? ==> o.key != [] && !IsSpace(o.key[0]) && !IsSpace(o.key[|o.key| - 1])
    ensures project.JObj? && Truthy(Get(project.fields, "MILKWEED")) && o.Skipped? ==>
      var raw := Get(project.fields, "NEIGHBORHOOD");
      raw.JNull? || AllSpace(Text(raw, render))
  {
    if !project.JObj? then Aborted
    else if !Truthy(Get(project.fields, "MILKWEED")) then Skipped
    else
      var raw := Get(project.fields, "NEIGHBORHOOD");
      if raw.JNull? then Skipped
      else
        var name := Strip(Text(raw, render));
        if name == "" then Skipped else Counted(name)
  }

  /** The outcome of every element of the list, in list order. */
  function ProjectOutcomes(items: seq<JVal>, render: JVal -> string): (os: seq<Outcome<string>>)
    ensures |os| == |items|
  {
    if items == [] then []
    else ProjectOutcomes(items[..|items| - 1], render) + [ClassifyProject(items[|items| - 1], render)]
  }

  /** Each outcome is the classification of the element at its position. */
  lemma {:induction false} ProjectOutcomesAt(items: seq<JVal>, render: JVal -> string, i: nat)
    requires i < |items|
    ensures ProjectOutcomes(items, render)[i] == ClassifyProject(items[i], render)
  {
    if i < |items| - 1 {
      ProjectOutcomesAt(items[..|items| - 1], render, i);
    }
  }

  lemma ProjectOutcomesAll(items: seq<JVal>, render: JVal -> string)
    ensures forall i :: 0 <= i < |items| ==> ProjectOutcomes(items, render)[i] == ClassifyProject(items[i], render)
  {
    forall i | 0 <= i < |items| ensures ProjectOutcomes(items, render)[i] == ClassifyProject(items[i], render) {
      ProjectOutcomesAt(items, render, i);
    }
  }

  /** The dictionary `count_milkweed_by_neighborhood` returns, as its
      sequence of items. */
  function MilkweedCounts(src: JsonSource, render: JVal -> string): seq<Entry<string>> {
    match src
    case FileMissing => []
    case BadJson => []
    case ReadFailed => []
    case Loaded(root) =>
      if !root.JArr? || root.items == [] then []
      else
        match Collect(ProjectOutcomes(root.items, render))
        case None => []
        case Some(names) => CountSorted(names)
  }

  /** `count_milkweed_by_neighborhood`: the scan appends each contributing
      record's neighbourhood to a list, then counts and sorts it. */
  method CountMilkweedByNeighborhood(src: JsonSource, render: JVal -> string)
    returns (counts: seq<Entry<string>>)
    ensures counts == MilkweedCounts(src, render)
  {
    if !src.Loaded? {
      return [];
    }
    var root := src.root;
    if !root.JArr? {
      return [];
    }
    var items := root.items;
    if |items| == 0 {
      return [];
    }
    var names: seq<string> := [];
    var i := 0;
    while i < |items|
      invariant 0 <= i <= |items|
      invariant Collect(ProjectOutcomes(items[..i], render)) == Some(names)
    {
      ProjectStep(items, i, names, render);
      var project := items[i];
      if !project.JObj? {
        ProjectAborts(items, i, render);
        return [];
      }
      var isMilkweed := Get(project.fields, "MILKWEED");
      if Truthy(isMilkweed) {
        var raw := Get(project.fields, "NEIGHBORHOOD");
        if !raw.JNull? && Strip(Text(raw, render)) != "" {
          var neighborhood := Strip(Text(raw, render));
          names := names + [neighborhood];
        }
      }
      i := i + 1;
    }
    assert items[..i] == items;
    counts := CountSorted(names);
  }

  /** An element that is not an object discards the whole result. */
  lemma ProjectAborts(items: seq<JVal>, i: nat, render: JVal -> string)
    requires i < |items| && !items[i].JObj?
    ensures Collect(ProjectOutcomes(items, render)).None?
  {
    ProjectOutcomesAt(items, render, i);
  }

  /** What scanning one more element does to the list built so far. */
  lemma ProjectStep(items: seq<JVal>, i: nat, names: seq<string>, render: JVal -> string)
    requires i < |items| && Collect(ProjectOutcomes(items[..i], render)) == Some(names)
    ensures var o := ClassifyProject(items[i], render);
      Collect(ProjectOutcomes(items[..i + 1], render))
        == if o.Aborted? then None else if o.Counted? then Some(names + [o.key]) else Some(names)
  {
    assert items[..i + 1][..i] == items[..i];
    CollectAppendOne(ProjectOutcomes(items[..i], render), ClassifyProject(items[i], render));
  }

  // ---- The report ----

  const Title := "Milkweed Project Counts by Neighborhood (Least to Greatest):\n"
  const NoData := "No milkweed project data found or processed (check JSON structure and 'MILKWEED' values, or 'NEIGHBORHOOD' values).\n"

  function NeighborhoodLine(e: Entry<string>): string {
    "Neighborhood '" + e.key + "': " + NatText(e.count) + " projects\n"
  }

  /** One line per entry, in entry order. */
  function NeighborhoodLines(es: seq<Entry<string>>): seq<string> {
    if es == [] then [] else NeighborhoodLines(es[..|es| - 1]) + [NeighborhoodLine(es[|es| - 1])]
  }

  /** The lines `process_json_file` writes for the result `counts`. */
  function MilkweedReport(counts: seq<Entry<string>>): seq<string> {
    [Title] + if counts == [] then [NoData] else NeighborhoodLines(counts)
  }

  /** The writing loop of `process_json_file`. */
  method RenderMilkweedReport(counts: seq<Entry<string>>) returns (lines: seq<string>)
    ensures lines == MilkweedReport(counts)
  {
    lines := [Title];
    if counts == [] {
      lines := lines + [NoData];
      return;
    }
    var i := 0;
    while i < |counts|
      invariant 0 <= i <= |counts|
      invariant lines == [Title] + NeighborhoodLines(counts[..i])
    {
      assert counts[..i + 1][..i] == counts[..i];
      lines := lines + [NeighborhoodLine(counts[i])];
      i := i + 1;
    }
    assert counts[..i] == counts;
  }

  /** `process_json_file`: count, then render. */
  method ProcessJsonFile(src: JsonSource, render: JVal -> string) returns (lines: seq<string>)
    ensures lines == MilkweedReport(MilkweedCounts(src, render))
  {
    var counts := CountMilkweedByNeighborhood(src, render);
    lines := RenderMilkweedReport(counts);
  }

  // ---- Lemmas: classification ----

  /** The values that never make a record a milkweed project. */
  lemma FalsyValues(v: JVal)
    ensures !Truthy(v) <==> v in {JNull, JBool(false), JInt(0), JFloat(0.0), JStr(""), JArr([]), JObj(map[])}
  {
  }

  /** Whitespace around a neighbourhood name does not change the key:
      " Shaw " and "Shaw" are counted together. */
  lemma PaddingIgnored(m: map<string, JVal>, p: string, s: string, q: string, render: JVal -> string)
    requires AllSpace(p) && AllSpace(q)
    ensures ClassifyProject(JObj(m["NEIGHBORHOOD" := JStr(p + s + q)]), render)
         == ClassifyProject(JObj(m["NEIGHBORHOOD" := JStr(s)]), render)
  {
    var m1 := m["NEIGHBORHOOD" := JStr(p + s + q)];
    var m2 := m["NEIGHBORHOOD" := JStr(s)];
    assert Get(m1, "MILKWEED") == Get(m2, "MILKWEED") by {
      assert |"MILKWEED"| != |"NEIGHBORHOOD"|;
    }
    StripIgnoresPadding(p, s, q);
    SameNameSameOutcome(m1, m2, p + s + q, s, render);
  }

  lemma SameNameSameOutcome(m1: map<string, JVal>, m2: map<string, JVal>, s1: string, s2: string, render: JVal -> string)
    requires Get(m1, "MILKWEED") == Get(m2, "MILKWEED")
    requires Get(m1, "NEIGHBORHOOD") == JStr(s1) && Get(m2, "NEIGHBORHOOD") == JStr(s2)
    requires Strip(s1) == Strip(s2)
    ensures ClassifyProject(JObj(m1), render) == ClassifyProject(JObj(m2), render)
  {
  }

  /** For a record with a truthy "MILKWEED" and a string neighbourhood, it
      contributes exactly when the string is not all whitespace. */
  lemma StringNeighborhood(m: map<string, JVal>, s: string, render: JVal -> string)
    requires Truthy(Get(m, "MILKWEED")) && Get(m, "NEIGHBORHOOD") == JStr(s)
    ensures ClassifyProject(JObj(m), render) == if AllSpace(s) then Skipped else Counted(Strip(s))
  {
  }

  lemma ProjectOutcomesOne(p: JVal, render: JVal -> string)
    ensures ProjectOutcomes([p], render) == [ClassifyProject(p, render)]
  {
    assert [p][..0] == [];
  }

  lemma {:induction false} ProjectOutcomesAppend(a: seq<JVal>, b: seq<JVal>, render: JVal -> string)
    ensures ProjectOutcomes(a + b, render) == ProjectOutcomes(a, render) + ProjectOutcomes(b, render)
    decreases |b|
  {
    if b == [] {
      assert a + b == a;
    } else {
      var b' := b[..|b| - 1];
      assert (a + b)[..|a + b| - 1] == a + b';
      ProjectOutcomesAppend(a, b', render);
    }
  }

  /** The positions that contribute are the dicts whose "MILKWEED" is
      truthy and whose "NEIGHBORHOOD" is present and not blank. */
  lemma ContributingProjects(items: seq<JVal>, render: JVal -> string)
    ensures CountedIndices(ProjectOutcomes(items, render)) ==
      set i | 0 <= i < |items| && items[i].JObj? && Truthy(Get(items[i].fields, "MILKWEED"))
                && !Get(items[i].fields, "NEIGHBORHOOD").JNull?
                && !AllSpace(Text(Get(items[i].fields, "NEIGHBORHOOD"), render))
  {
    ProjectOutcomesAll(items, render);
  }

  // ---- Lemmas: the analysis ----

  /** For a list of records, the result holds each contributing
      neighbourhood once, with the number of records naming it; the counts
      add up to the number of contributing records, ascend, and equal
      counts keep the order of first appearance. Every key is a non-blank,
      stripped name. */
  lemma MilkweedCountsSpec(items: seq<JVal>, render: JVal -> string)
    requires forall i :: 0 <= i < |items| ==> items[i].JObj?
    ensures IsFrequencyReport(MilkweedCounts(Loaded(JArr(items)), render), ProjectOutcomes(items, render))
    ensures forall e :: e in MilkweedCounts(Loaded(JArr(items)), render) ==>
      e.key != [] && Strip(e.key) == e.key
  {
    var os := ProjectOutcomes(items, render);
    var r := MilkweedCounts(Loaded(JArr(items)), render);
    if items == [] {
      assert CountedKeys(os) == {};
      assert CountedIndices(os) == {};
    } else {
      forall i | 0 <= i < |os| ensures os[i] != Aborted {
        ProjectOutcomesAt(items, render, i);
      }
      FrequencyOfOutcomes(os);
      forall e | e in r ensures e.key != [] && Strip(e.key) == e.key {
        var k :| 0 <= k < |r| && r[k] == e;
        var j :| 0 <= j < |os| && os[j] == Counted(e.key);
        ProjectOutcomesAt(items, render, j);
        assert ClassifyProject(items[j], render) == Counted(e.key);
        StripIdempotent(Text(Get(items[j].fields, "NEIGHBORHOOD"), render));
      }
    }
  }

  /** The result is empty exactly when the file could not be read or
      decoded, the document is not a list, some element is not a dict, or no
      record contributes. */
  lemma MilkweedCountsEmptyIff(src: JsonSource, render: JVal -> string)
    ensures MilkweedCounts(src, render) == [] <==>
      || !src.Loaded?
      || !src.root.JArr?
      || (exists i :: 0 <= i < |src.root.items| && !src.root.items[i].JObj?)
      || (forall i :: 0 <= i < |src.root.items| ==> !ClassifyProject(src.root.items[i], render).Counted?)
  {
    if src.Loaded? && src.root.JArr? && src.root.items != [] {
      var items := src.root.items;
      var os := ProjectOutcomes(items, render);
      assert Aborted in os <==> exists i :: 0 <= i < |items| && !items[i].JObj? by {
        AbortedIff(items, render);
      }
      if Aborted !in os {
        var names := Collect(os).value;
        assert MilkweedCounts(src, render) == CountSorted(names);
        assert names == [] <==> forall i :: 0 <= i < |items| ==> !ClassifyProject(items[i], render).Counted? by {
          NoKeysIff(items, render, names);
        }
        CountSortedEmptyIff(names);
      }
    }
  }

  /** The scan aborts exactly when some element is not a dict. */
  lemma AbortedIff(items: seq<JVal>, render: JVal -> string)
    ensures Aborted in ProjectOutcomes(items, render) <==> exists i :: 0 <= i < |items| && !items[i].JObj?
  {
    var os := ProjectOutcomes(items, render);
    if Aborted in os {
      var i :| 0 <= i < |os| && os[i] == Aborted;
      ProjectOutcomesAt(items, render, i);
    }
    if exists i :: 0 <= i < |items| && !items[i].JObj? {
      var i :| 0 <= i < |items| && !items[i].JObj?;
      ProjectOutcomesAt(items, render, i);
      assert os[i] == Aborted;
    }
  }

  lemma NoKeysIff(items: seq<JVal>, render: JVal -> string, names: seq<string>)
    requires Collect(ProjectOutcomes(items, render)) == Some(names)
    ensures names == [] <==> forall i :: 0 <= i < |items| ==> !ClassifyProject(items[i], render).Counted?
  {
    if names == [] {
      NoKeysNoContributor(items, render, names);
    } else {
      var i := SomeKeySomeContributor(items, render, names);
    }
  }

  lemma NoKeysNoContributor(items: seq<JVal>, render: JVal -> string, names: seq<string>)
    requires Collect(ProjectOutcomes(items, render)) == Some(names) && names == []
    ensures forall i :: 0 <= i < |items| ==> !ClassifyProject(items[i], render).Counted?
  {
    ProjectOutcomesAll(items, render);
    CollectEmptyIff(ProjectOutcomes(items, render), names);
  }

  lemma SomeKeySomeContributor(items: seq<JVal>, render: JVal -> string, names: seq<string>) returns (i: nat)
    requires Collect(ProjectOutcomes(items, render)) == Some(names) && names != []
    ensures i < |items| && ClassifyProject(items[i], render).Counted?
  {
    var os := ProjectOutcomes(items, render);
    CollectEmptyIff(os, names);
    i :| 0 <= i < |os| && os[i].Counted?;
    ProjectOutcomesAt(items, render, i);
  }

  /** A record that does not contribute can be removed without changing
      the result. */
  lemma SkippedProjectIrrelevant(a: seq<JVal>, project: JVal, b: seq<JVal>, render: JVal -> string)
    requires ClassifyProject(project, render).Skipped?
    ensures MilkweedCounts(Loaded(JArr(a + [project] + b)), render) == MilkweedCounts(Loaded(JArr(a + b)), render)
  {
    ProjectOutcomesAppend(a + [project], b, render);
    ProjectOutcomesAppend(a, [project], render);
    ProjectOutcomesAppend(a, b, render);
    assert ProjectOutcomes([project], render) == [Skipped];
    CollectDropSkipped(ProjectOutcomes(a, render), ProjectOutcomes(b, render));
    if a + b == [] {
      assert ProjectOutcomes(a, render) + ProjectOutcomes(b, render) == [];
    }
  }

  /** The worked example: two truthy records, neighbourhoods "Shaw" and
      " Shaw ", and one with a false "MILKWEED", give a single entry. */
  lemma ShawExample(p1: JVal, p2: JVal, p3: JVal, render: JVal -> string)
    requires p1 == JObj(map["MILKWEED" := JBool(true), "NEIGHBORHOOD" := JStr("Shaw")])
    requires p2 == JObj(map["MILKWEED" := JBool(false), "NEIGHBORHOOD" := JStr("Shaw")])
    requires p3 == JObj(map["MILKWEED" := JStr("yes"), "NEIGHBORHOOD" := JStr(" Shaw ")])
    ensures MilkweedCounts(Loaded(JArr([p1, p2, p3])), render) == [Entry("Shaw", 2)]
  {
    ShawTrue(render);
    ShawFalse(render);
    ShawPadded(render);
    ShawOutcomeList(p1, p2, p3, render);
    ShawCollected(ProjectOutcomes([p1, p2, p3], render));
    ShawCounted();
  }

  lemma ShawOutcomeList(p1: JVal, p2: JVal, p3: JVal, render: JVal -> string)
    requires ClassifyProject(p1, render) == Counted("Shaw")
    requires ClassifyProject(p2, render) == Skipped
    requires ClassifyProject(p3, render) == Counted("Shaw")
    ensures ProjectOutcomes([p1, p2, p3], render) == [Counted("Shaw"), Skipped, Counted("Shaw")]
  {
    assert ProjectOutcomes([p1], render) == [Counted("Shaw")] by {
      ProjectOutcomesOne(p1, render);
    }
    assert ProjectOutcomes([p1, p2], render) == [Counted("Shaw"), Skipped] by {
      assert [p1, p2][..1] == [p1];
    }
    assert [p1, p2, p3][..2] == [p1, p2];
  }

  lemma ShawCollected(os: seq<Outcome<string>>)
    requires os == [Counted("Shaw"), Skipped, Counted("Shaw")]
    ensures Collect(os) == Some(["Shaw", "Shaw"])
  {
    var e: seq<Outcome<string>> := [];
    assert Collect(e) == Some([]);
    CollectAppendOne(e, Counted("Shaw"));
    CollectAppendOne(e + [Counted("Shaw")], Skipped);
    CollectAppendOne(e + [Counted("Shaw")] + [Skipped], Counted("Shaw"));
    assert e + [Counted("Shaw")] + [Skipped] + [Counted("Shaw")] == os;
    assert [] + ["Shaw"] + ["Shaw"] == ["Shaw", "Shaw"];
  }

  lemma ShawCounted()
    ensures CountSorted(["Shaw", "Shaw"]) == [Entry("Shaw", 2)]
  {
    assert ["Shaw", "Shaw"][..1] == ["Shaw"];
    assert ["Shaw"][..0] == [];
    assert Tally(["Shaw", "Shaw"]) == [Entry("Shaw", 2)];
  }

  lemma ShawTrue(render: JVal -> string)
    ensures ClassifyProject(JObj(map["MILKWEED" := JBool(true), "NEIGHBORHOOD" := JStr("Shaw")]), render) == Counted("Shaw")
  {
    var m := map["MILKWEED" := JBool(true), "NEIGHBORHOOD" := JStr("Shaw")];
    assert Get(m, "MILKWEED") == JBool(true) && Get(m, "NEIGHBORHOOD") == JStr("Shaw");
    StringNeighborhood(m, "Shaw", render);
    ShawStripped();
    assert !IsSpace("Shaw"[0]);
  }

  lemma ShawFalse(render: JVal -> string)
    ensures ClassifyProject(JObj(map["MILKWEED" := JBool(false), "NEIGHBORHOOD" := JStr("Shaw")]), render) == Skipped
  {
    var m := map["MILKWEED" := JBool(false), "NEIGHBORHOOD" := JStr("Shaw")];
    assert Get(m, "MILKWEED") == JBool(false);
  }

  lemma ShawPadded(render: JVal -> string)
    ensures ClassifyProject(JObj(map["MILKWEED" := JStr("yes"), "NEIGHBORHOOD" := JStr(" Shaw ")]), render) == Counted("Shaw")
  {
    var m := map["MILKWEED" := JStr("yes"), "NEIGHBORHOOD" := JStr(" Shaw ")];
    assert Get(m, "MILKWEED") == JStr("yes") && Get(m, "NEIGHBORHOOD") == JStr(" Shaw ");
    StringNeighborhood(m, " Shaw ", render);
    PaddedShawStripped();
    assert !IsSpace(" Shaw "[1]);
  }

  // ---- Lemmas: the report ----

  lemma {:induction false} NeighborhoodLinesAt(es: seq<Entry<string>>, k: nat)
    requires k < |es|
    ensures |NeighborhoodLines(es)| == |es| && NeighborhoodLines(es)[k] == NeighborhoodLine(es[k])
  {
    NeighborhoodLinesLength(es[..|es| - 1]);
    if k < |es| - 1 {
      NeighborhoodLinesAt(es[..|es| - 1], k);
    }
  }

  lemma {:induction false} NeighborhoodLinesLength(es: seq<Entry<string>>)
    ensures |NeighborhoodLines(es)| == |es|
  {
    if es != [] {
      NeighborhoodLinesLength(es[..|es| - 1]);
    }
  }

  /** The report is the title and then, for an empty result, only the
      no-data line; otherwise one line per entry, in result order. */
  lemma MilkweedReportShape(counts: seq<Entry<string>>)
    ensures var r := MilkweedReport(counts);
      && r[0] == Title
      && (counts == [] ==> r == [Title, NoData])
      && (counts != [] ==>
            |r| == |counts| + 1 && forall k :: 0 <= k < |counts| ==> r[k + 1] == NeighborhoodLine(counts[k]))
  {
    if counts != [] {
      NeighborhoodLinesLength(counts);
      forall k | 0 <= k < |counts| ensures MilkweedReport(counts)[k + 1] == NeighborhoodLine(counts[k]) {
        NeighborhoodLinesAt(counts, k);
      }
    }
  }

  /** A report line names its entry unambiguously: the count is the run of
      digits before " projects", and what precedes it is the name. */
  lemma NeighborhoodLineInjective(e1: Entry<string>, e2: Entry<string>)
    requires NeighborhoodLine(e1) == NeighborhoodLine(e2)
    ensures e1 == e2
  {
    var l1, l2 := NeighborhoodLine(e1), NeighborhoodLine(e2);
    var d1, d2 := NatText(e1.count), NatText(e2.count);
    var u := " projects\n";
    var h1, h2 := "Neighborhood '" + e1.key + "': ", "Neighborhood '" + e2.key + "': ";
    assert l1 == (h1 + d1) + u && l2 == (h2 + d2) + u;
    assert h1 + d1 == l1[..|l1| - |u|];
    assert h2 + d2 == l2[..|l2| - |u|];
    DigitsAfterSpace(h1, d1, h2, d2);
    NatTextValue(e1.count);
    NatTextValue(e2.count);
    assert e1.key == h1[14..|h1| - 3];
    assert e2.key == h2[14..|h2| - 3];
  }

  /** Different results give different reports. */
  lemma MilkweedReportInjective(a: seq<Entry<string>>, b: seq<Entry<string>>)
    requires MilkweedReport(a) == MilkweedReport(b)
    ensures a == b
  {
    MilkweedReportShape(a);
    MilkweedReportShape(b);
    if a == [] && b != [] {
      NoDataIsNotALine(b[0]);
    } else if a != [] && b == [] {
      NoDataIsNotALine(a[0]);
    } else if a != [] {
      forall k | 0 <= k < |a| ensures a[k] == b[k] {
        NeighborhoodLineInjective(a[k], b[k]);
      }
    }
  }

  lemma NoDataIsNotALine(e: Entry<string>)
    ensures NeighborhoodLine(e) != NoData
  {
    var l := NeighborhoodLine(e);
    assert l[|l| - 2] == 's';
    assert NoData[|NoData| - 2] == '.';
  }
  // ---- Lemmas: the written text ----

  /** An entry line is one line of the file when the name holds no line
      break. */
  lemma NeighborhoodLineIsLine(e: Entry<string>)
    requires '\n' !in e.key
    ensures IsLine(NeighborhoodLine(e))
  {
    var digits := NatText(e.count);
    assert '\n' !in digits;
    var body := "Neighborhood '" + e.key + "': " + digits + " projects";
    assert NeighborhoodLine(e) == body + "\n";
    LineOf(body);
  }

  lemma NeighborhoodLinesAreLines(es: seq<Entry<string>>)
    requires forall e :: e in es ==> '\n' !in e.key
    ensures forall i :: 0 <= i < |NeighborhoodLines(es)| ==> IsLine(NeighborhoodLines(es)[i])
  {
    NeighborhoodLinesLength(es);
    forall i | 0 <= i < |es| ensures IsLine(NeighborhoodLines(es)[i]) {
      NeighborhoodLinesAt(es, i);
      NeighborhoodLineIsLine(es[i]);
    }
  }

  /** The entry lines of a non-empty result never spell the no-data line:
      they end in "s\n", it ends in ".\n". */
  lemma EntryTextIsNotNoData(es: seq<Entry<string>>)
    requires es != []
    ensures Concat(NeighborhoodLines(es)) != NoData
  {
    var ls := NeighborhoodLines(es);
    NeighborhoodLinesAt(es, |es| - 1);
    ConcatSnoc(ls);
    var last := ls[|ls| - 1];
    var text := Concat(ls);
    assert last[|last| - 2] == 's';
    assert text[|text| - 2] == last[|last| - 2];
    assert NoData[|NoData| - 2] == '.';
  }

  /** The file without its title: the no-data line or the entry lines. */
  lemma MilkweedTextBody(counts: seq<Entry<string>>)
    ensures Concat(MilkweedReport(counts)) ==
      Title + (if counts == [] then NoData else Concat(NeighborhoodLines(counts)))
  {
    ConcatCons(Title, if counts == [] then [NoData] else NeighborhoodLines(counts));
    ConcatCons(NoData, []);
  }

  /** When no neighbourhood name holds a line break, the file written by
      `process_json_file` determines the result it was written from. */
  lemma MilkweedTextInjective(a: seq<Entry<string>>, b: seq<Entry<string>>)
    requires forall e :: e in a ==> '\n' !in e.key
    requires forall e :: e in b ==> '\n' !in e.key
    requires Concat(MilkweedReport(a)) == Concat(MilkweedReport(b))
    ensures a == b
  {
    MilkweedTextBody(a);
    MilkweedTextBody(b);
    var ta := if a == [] then NoData else Concat(NeighborhoodLines(a));
    var tb := if b == [] then NoData else Concat(NeighborhoodLines(b));
    assert ta == (Title + ta)[|Title|..] && tb == (Title + tb)[|Title|..];
    if a != [] { EntryTextIsNotNoData(a); }
    if b != [] { EntryTextIsNotNoData(b); }
    if a != [] && b != [] {
      NeighborhoodLinesAreLines(a);
      NeighborhoodLinesAreLines(b);
      ConcatLinesInjective(NeighborhoodLines(a), NeighborhoodLines(b));
      MilkweedReportInjective(a, b);
    }
  }

  /** `strip()` keeps line breaks inside a name, so a single record can
      be counted under a name that spans two report lines. */
  lemma CollidingNameCounted(render: JVal -> string)
    ensures ClassifyProject(JObj(map["MILKWEED" := JBool(true), "NEIGHBORHOOD" := JStr(CollidingName)]), render)
         == Counted(CollidingName)
  {
    var m := map["MILKWEED" := JBool(true), "NEIGHBORHOOD" := JStr(CollidingName)];
    assert Get(m, "MILKWEED") == JBool(true) && Get(m, "NEIGHBORHOOD") == JStr(CollidingName);
    assert StripStart(CollidingName) == CollidingName;
    assert StripEnd(CollidingName) == CollidingName;
    assert !IsSpace(CollidingName[0]);
    StringNeighborhood(m, CollidingName, render);
  }

  /** The name "a': 1 projects", a line break and "Neighborhood 'b",
      written in the pieces an entry line is built from. */
  const CollidingName := "a" + "': " + "1" + " projects\n" + "Neighborhood '" + "b"

  /** The entry line of the colliding name is the two entry lines of "a"
      and "b". */
  lemma CollidingLine()
    ensures NeighborhoodLine(Entry(CollidingName, 1))
         == NeighborhoodLine(Entry("a", 1)) + NeighborhoodLine(Entry("b", 1))
  {
    assert NatText(1) == "1";
  }

  /** Two different results write the same file: one neighbourhood whose
      name holds a line break, and two neighbourhoods "a" and "b". */
  lemma MilkweedTextCollision()
    ensures [Entry(CollidingName, 1)] != [Entry("a", 1), Entry("b", 1)]
    ensures Concat(MilkweedReport([Entry(CollidingName, 1)]))
         == Concat(MilkweedReport([Entry("a", 1), Entry("b", 1)]))
  {
    var one, two := [Entry(CollidingName, 1)], [Entry("a", 1), Entry("b", 1)];
    MilkweedTextBody(one);
    MilkweedTextBody(two);
    NeighborhoodLinesLength(one);
    NeighborhoodLinesLength(two);
    NeighborhoodLinesAt(one, 0);
    NeighborhoodLinesAt(two, 0);
    NeighborhoodLinesAt(two, 1);
    var l, l0, l1 := NeighborhoodLine(one[0]), NeighborhoodLine(two[0]), NeighborhoodLine(two[1]);
    assert NeighborhoodLines(one) == [l];
    assert NeighborhoodLines(two) == [l0] + [l1];
    ConcatCons(l, []);
    ConcatCons(l0, [l1]);
    ConcatCons(l1, []);
    CollidingLine();
  }
}
