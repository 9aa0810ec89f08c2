/**
 * Resource aggregation: the notebook-wide `textbook` dictionary that the
 * per-cell handlers update in place (glossary, formulas, goal functions and
 * the section index).
 */
module Resources {
  import opened Wrappers
  import opened Strings
  import opened Notebook
  import Scanner

  /** An index entry; entries at the top level may have subsections, subsections never do. */
  datatype IndexNode = IndexNode(id: string, title: string, subsections: seq<IndexNode>)

  /** `{top_section: index}`. */
  datatype Index = Index(top: string, entries: seq<IndexNode>)

  /** The contents of `resources["textbook"]`; a field is `None` when its key is absent. */
  datatype Textbook = Textbook(
    glossary: Option<map<string, string>>,
    formulas: Option<map<string, string>>,
    functions: Option<string>,
    index: Option<Index>,
    id: Option<string>,
    section: Option<string>,
    isProblemSet: Option<bool>,
    includeOutput: Option<bool>)

  // ---------------------------------------------------------------------------
  // Glossary and formulas

  /** `{**acc, **add}` when `add` is present and non-empty; otherwise nothing changes. */
  function Merge(acc: Option<map<string, string>>, add: Option<map<string, string>>): (r: Option<map<string, string>>)
    ensures add.None? || add.value == map[] ==> r == acc
    ensures add.Some? && add.value != map[] ==>
      && r.Some?
      && r.value.Keys == (if acc.Some? then acc.value.Keys else {}) + add.value.Keys
      && (forall k :: k in add.value ==> r.value[k] == add.value[k])
      && (forall k :: acc.Some? && k in acc.value && k !in add.value ==> r.value[k] == acc.value[k])
  {
    if add.None? || add.value == map[] then acc
    else Some((if acc.Some? then acc.value else map[]) + add.value)
  }

  function GlossaryStep(t: Textbook, md: Metadata): Textbook {
    t.(glossary := Merge(t.glossary, md.gloss))
  }

  function FormulasStep(t: Textbook, md: Metadata): Textbook {
    t.(formulas := Merge(t.formulas, md.formulas))
  }

  /** Merging never loses a key: what a glossary held before, it still holds afterwards. */
  lemma MergeKeepsKeys(acc: Option<map<string, string>>, add: Option<map<string, string>>, k: string)
    requires acc.Some? && k in acc.value
    ensures Merge(acc, add).Some? && k in Merge(acc, add).value
  {
  }

  // ---------------------------------------------------------------------------
  // Goals

  /** The line of both goal templates that looks up the goal's element. */
  function ElementLookup(elt: string, selector: string): string {
    "const " + elt + " = $section.$(\"" + selector + "\");"
  }

  /** The line of both goal templates that scores the goal. */
  function Score(id: string): string {
    "$section.score(\"" + id + "\");"
  }

  /** The pieces of `JS_CLICK_GOAL` filled in. */
  function ClickGoalParts(elt: string, selector: string, id: string): seq<string> {
    ["\n    ", ElementLookup(elt, selector), "\n    if (", elt, ") {\n      ",
     elt, ".on(\"click\", () => {\n        ", Score(id), "\n      });\n    }\n"]
  }

  /** `JS_CLICK_GOAL` filled in. */
  function ClickGoal(elt: string, selector: string, id: string): string {
    Concat(ClickGoalParts(elt, selector, id))
  }

  /** The pieces of `JS_VALUE_GOAL` filled in. */
  function ValueGoalParts(elt: string, selector: string, id: string, value: string): seq<string> {
    ["\n    ", ElementLookup(elt, selector), "\n    if (", elt, ") {\n      ",
     elt, ".on(\"change keyup input paste\", (e) => {\n        if (", elt, ".value === \"", value,
     "\" || (\"", value, "\" === \"checked\" && ", elt, ".checked)) {\n          e.preventDefault();\n          ",
     Score(id), "\n        }\n      });\n    }\n"]
  }

  /** `JS_VALUE_GOAL` filled in. */
  function ValueGoal(elt: string, selector: string, id: string, value: string): string {
    Concat(ValueGoalParts(elt, selector, id, value))
  }

  /** A click handler looks up the goal's element and scores the goal. */
  lemma ClickGoalNames(elt: string, selector: string, id: string)
    ensures Contains(ClickGoal(elt, selector, id), ElementLookup(elt, selector))
    ensures Contains(ClickGoal(elt, selector, id), Score(id))
  {
    ConcatContainsPart(ClickGoalParts(elt, selector, id), 1);
    ConcatContainsPart(ClickGoalParts(elt, selector, id), 7);
  }

  /** A value handler looks up the goal's element and scores the goal. */
  lemma ValueGoalNames(elt: string, selector: string, id: string, value: string)
    ensures Contains(ValueGoal(elt, selector, id, value), ElementLookup(elt, selector))
    ensures Contains(ValueGoal(elt, selector, id, value), Score(id))
  {
    ConcatContainsPart(ValueGoalParts(elt, selector, id, value), 1);
    ConcatContainsPart(ValueGoalParts(elt, selector, id, value), 15);
  }

  /** The actions for the goal at position `count`: a click handler, then a value handler, each if asked for. */
  function GoalBlock(count: nat, g: Goal): seq<string> {
    var elt := "elt" + NatToString(count);
    (if g.click then [ClickGoal(elt, g.selector, g.id)] else [])
    + (if g.value.Some? then [ValueGoal(elt, g.selector, g.id, g.value.value)] else [])
  }

  function GoalBlocks(goals: seq<Goal>): seq<string>
    decreases |goals|
  {
    if goals == [] then []
    else GoalBlocks(goals[..|goals| - 1]) + GoalBlock(|goals| - 1, goals[|goals| - 1])
  }

  /** The exported function for a cell's goals. */
  function GoalsScript(id: string, goals: seq<Goal>): string {
    Join(["export function " + id + "($section: Step) { ", "  setTimeout(() => {"] + GoalBlocks(goals)
         + ["  }, 250);", "}\n"], "\n")
  }

  /** The goal ids, each once, in order of first appearance. */
  function DistinctIds(goals: seq<Goal>): (ids: seq<string>)
    decreases |goals|
    ensures forall i, j :: 0 <= i < j < |ids| ==> ids[i] != ids[j]
    ensures forall x :: x in ids <==> exists k :: 0 <= k < |goals| && goals[k].id == x
  {
    if goals == [] then []
    else
      var init, last := goals[..|goals| - 1], goals[|goals| - 1];
      var ids := DistinctIds(init);
      assert forall k :: 0 <= k < |init| ==> goals[k] == init[k];
      if last.id in ids then ids else ids + [last.id]
  }

  lemma GoalsStepFacts(goals: seq<Goal>, count: nat)
    requires count < |goals|
    ensures GoalBlocks(goals[..count + 1]) == GoalBlocks(goals[..count]) + GoalBlock(count, goals[count])
    ensures DistinctIds(goals[..count + 1])
         == if goals[count].id in DistinctIds(goals[..count]) then DistinctIds(goals[..count])
            else DistinctIds(goals[..count]) + [goals[count].id]
  {
    assert goals[..count + 1][..count] == goals[..count];
  }

  /**
   * The handlers for one goal: a click handler, then a value handler, each if
   * the goal asks for it; every handler looks up element `elt<count>` by the
   * goal's selector and scores the goal's id.
   */
  method GoalHandlers(count: nat, goal: Goal) returns (block: seq<string>)
    ensures block == GoalBlock(count, goal)
    ensures |block| == (if goal.click then 1 else 0) + (if goal.value.Some? then 1 else 0)
    ensures goal.click ==> block[0] == ClickGoal("elt" + NatToString(count), goal.selector, goal.id)
    ensures goal.value.Some? ==>
      block[|block| - 1] == ValueGoal("elt" + NatToString(count), goal.selector, goal.id, goal.value.value)
    ensures forall k :: 0 <= k < |block| ==>
      && Contains(block[k], ElementLookup("elt" + NatToString(count), goal.selector))
      && Contains(block[k], Score(goal.id))
  {
    var elt := "elt" + NatToString(count);
    block := [];
    if goal.click {
      block := block + [ClickGoal(elt, goal.selector, goal.id)];
    }
    if goal.value.Some? {
      block := block + [ValueGoal(elt, goal.selector, goal.id, goal.value.value)];
    }
    ClickGoalNames(elt, goal.selector, goal.id);
    if goal.value.Some? {
      ValueGoalNames(elt, goal.selector, goal.id, goal.value.value);
    }
  }

  /** The loop of `handle_cell_goals`: one block of handlers per goal, and the goal ids seen. */
  method GoalActions(meta: seq<Goal>) returns (blocks: seq<string>, ids: seq<string>)
    ensures blocks == GoalBlocks(meta)
    ensures ids == DistinctIds(meta)
  {
    blocks, ids := [], [];
    var count := 0;
    assert meta[..0] == [];
    while count < |meta|
      invariant 0 <= count <= |meta|
      invariant blocks == GoalBlocks(meta[..count])
      invariant ids == DistinctIds(meta[..count])
    {
      GoalsStepFacts(meta, count);
      var block := GoalHandlers(count, meta[count]);
      blocks := blocks + block;
      if meta[count].id !in ids {
        ids := ids + [meta[count].id];
      }
      count := count + 1;
    }
    assert meta[..count] == meta;
  }

  /** Whether the metadata holds a non-empty goals list. */
  predicate HasGoals(md: Metadata) {
    md.goals.Some? && |md.goals.value| > 0
  }

  /** The ids `handle_cell_goals` returns. */
  function CellGoalIds(md: Metadata): seq<string> {
    if HasGoals(md) then DistinctIds(md.goals.value) else []
  }

  /** The script is appended to `functions`, which starts out empty. */
  function GoalsStep(t: Textbook, id: string, md: Metadata): Textbook {
    if HasGoals(md) then t.(functions := Some(t.functions.GetOr("") + GoalsScript(id, md.goals.value))) else t
  }

  /** Goal functions are only ever appended: earlier functions stay a prefix. */
  lemma GoalsAppendOnly(t: Textbook, id: string, md: Metadata)
    requires t.functions.Some?
    ensures GoalsStep(t, id, md).functions.Some?
    ensures StartsWith(GoalsStep(t, id, md).functions.value, t.functions.value)
  {
    if HasGoals(md) {
      var f := t.functions.value;
      assert (f + GoalsScript(id, md.goals.value))[..|f|] == f;
    }
  }

  // ---------------------------------------------------------------------------
  // The index

  /** The variables of `handle_index`'s loop. */
  datatype IndexState = IndexState(top: string, entries: seq<IndexNode>, lastLevel: int)

  /** No subsection has subsections of its own. */
  predicate Shallow(entries: seq<IndexNode>) {
    forall i, j :: 0 <= i < |entries| && 0 <= j < |entries[i].subsections| ==> entries[i].subsections[j].subsections == []
  }

  /** One heading: dropped below level 3; the first becomes the top; then a new entry or a subsection of the last. */
  function IndexStep(st: IndexState, h: Scanner.HeadingEntry): IndexState {
    var node := IndexNode(h.id, h.title, []);
    if h.level > 3 then st
    else if st.top == "" then st.(top := h.id)
    else if h.level <= st.lastLevel || |st.entries| == 0 then IndexState(st.top, st.entries + [node], h.level)
    else
      var n := |st.entries|;
      var e := st.entries[n - 1];
      st.(entries := st.entries[..n - 1] + [IndexNode(e.id, e.title, e.subsections + [node])])
  }

  function IndexFold(headers: seq<Scanner.HeadingEntry>): (st: IndexState)
    decreases |headers|
    ensures Shallow(st.entries)
  {
    if headers == [] then IndexState("", [], -1)
    else
      var st := IndexFold(headers[..|headers| - 1]);
      var r := IndexStep(st, headers[|headers| - 1]);
      assert forall i :: 0 <= i < |st.entries| - 1 ==> r.entries[i] == st.entries[i];
      r
  }

  /** The specification of the index `handle_index` builds. */
  function IndexOf(headers: seq<Scanner.HeadingEntry>): Index {
    Index(IndexFold(headers).top, IndexFold(headers).entries)
  }

  /** The index is stored only when there is none yet. */
  function IndexSet(t: Textbook, index: Index): Textbook {
    if t.index.Some? then t else t.(index := Some(index))
  }

  // Reference definitions for what the index lists

  /** The headings of level at most 3. */
  function Kept(headers: seq<Scanner.HeadingEntry>): (ks: seq<Scanner.HeadingEntry>)
    decreases |headers|
    ensures forall k :: 0 <= k < |ks| ==> ks[k].level <= 3
  {
    if headers == [] then []
    else
      var last := headers[|headers| - 1];
      Kept(headers[..|headers| - 1]) + (if last.level <= 3 then [last] else [])
  }

  /** The id of the first heading with a non-empty id, or `""`. */
  function TopOf(ks: seq<Scanner.HeadingEntry>): string {
    if ks == [] then "" else if ks[0].id != "" then ks[0].id else TopOf(ks[1..])
  }

  /** The headings after that first one. */
  function AfterTop(ks: seq<Scanner.HeadingEntry>): seq<Scanner.HeadingEntry> {
    if ks == [] then [] else if ks[0].id != "" then ks[1..] else AfterTop(ks[1..])
  }

  /** The `(id, title)` of each heading. */
  function Pairs(hs: seq<Scanner.HeadingEntry>): (r: seq<(string, string)>)
    decreases |hs|
    ensures |r| == |hs|
  {
    if hs == [] then [] else Pairs(hs[..|hs| - 1]) + [(hs[|hs| - 1].id, hs[|hs| - 1].title)]
  }

  /** The `(id, title)` of each node. */
  function Titles(nodes: seq<IndexNode>): seq<(string, string)>
    decreases |nodes|
  {
    if nodes == [] then [] else Titles(nodes[..|nodes| - 1]) + [(nodes[|nodes| - 1].id, nodes[|nodes| - 1].title)]
  }

  /** The index read in order: each entry, then its subsections. */
  function Flatten(entries: seq<IndexNode>): seq<(string, string)>
    decreases |entries|
  {
    if entries == [] then []
    else
      var last := entries[|entries| - 1];
      Flatten(entries[..|entries| - 1]) + [(last.id, last.title)] + Titles(last.subsections)
  }

  lemma {:induction false} TopOfAppend(ks: seq<Scanner.HeadingEntry>, x: Scanner.HeadingEntry)
    ensures TopOf(ks + [x]) == if TopOf(ks) != "" then TopOf(ks) else x.id
    ensures AfterTop(ks + [x]) == if TopOf(ks) != "" then AfterTop(ks) + [x] else []
  {
    if ks != [] {
      assert (ks + [x])[0] == ks[0];
      assert (ks + [x])[1..] == ks[1..] + [x];
      TopOfAppend(ks[1..], x);
    }
  }

  lemma FlattenNewEntry(entries: seq<IndexNode>, node: IndexNode)
    requires node.subsections == []
    ensures Flatten(entries + [node]) == Flatten(entries) + [(node.id, node.title)]
  {
    assert (entries + [node])[..|entries|] == entries;
  }

  lemma FlattenNewSubsection(front: seq<IndexNode>, e: IndexNode, node: IndexNode)
    ensures Flatten(front + [IndexNode(e.id, e.title, e.subsections + [node])])
         == Flatten(front + [e]) + [(node.id, node.title)]
  {
    assert (front + [e])[..|front|] == front;
    assert (front + [IndexNode(e.id, e.title, e.subsections + [node])])[..|front|] == front;
    TitlesAppend(e.subsections, node);
  }

  lemma TitlesAppend(nodes: seq<IndexNode>, node: IndexNode)
    ensures Titles(nodes + [node]) == Titles(nodes) + [(node.id, node.title)]
  {
    assert (nodes + [node])[..|nodes|] == nodes;
  }

  /**
   * The index lists every kept heading after the top one exactly once, in
   * order, and the top section is the first kept heading with an id.
   */
  lemma {:induction false} IndexContents(headers: seq<Scanner.HeadingEntry>)
    ensures IndexOf(headers).top == TopOf(Kept(headers))
    ensures IndexOf(headers).top == "" ==> IndexOf(headers).entries == []
    ensures Flatten(IndexOf(headers).entries) == Pairs(AfterTop(Kept(headers)))
    decreases |headers|
  {
    if headers != [] {
      var init, h := headers[..|headers| - 1], headers[|headers| - 1];
      IndexContents(init);
      var st := IndexFold(init);
      var ks := Kept(init);
      if h.level <= 3 {
        assert Kept(headers) == ks + [h];
        TopOfAppend(ks, h);
        var node := IndexNode(h.id, h.title, []);
        if st.top != "" {
          assert (AfterTop(ks) + [h])[..|AfterTop(ks)|] == AfterTop(ks);
          if h.level <= st.lastLevel || |st.entries| == 0 {
            FlattenNewEntry(st.entries, node);
          } else {
            var n := |st.entries|;
            assert st.entries == st.entries[..n - 1] + [st.entries[n - 1]];
            FlattenNewSubsection(st.entries[..n - 1], st.entries[n - 1], node);
          }
        }
      } else {
        assert Kept(headers) == ks;
      }
    }
  }

  /** Every entry and subsection of the index comes from a heading of level at most 3. */
  lemma IndexDropsDeepHeadings(headers: seq<Scanner.HeadingEntry>, pair: (string, string))
    requires pair in Flatten(IndexOf(headers).entries)
    ensures exists k :: 0 <= k < |headers| && headers[k].level <= 3 && (headers[k].id, headers[k].title) == pair
  {
    IndexContents(headers);
    var after := AfterTop(Kept(headers));
    AfterTopIsSuffix(Kept(headers));
    PairsMember(after, pair);
    var x :| x in after && (x.id, x.title) == pair;
    KeptFrom(headers, x);
  }

  lemma {:induction false} PairsMember(hs: seq<Scanner.HeadingEntry>, pair: (string, string))
    requires pair in Pairs(hs)
    ensures exists x :: x in hs && (x.id, x.title) == pair
    decreases |hs|
  {
    var init, last := hs[..|hs| - 1], hs[|hs| - 1];
    if pair in Pairs(init) {
      PairsMember(init, pair);
      var x :| x in init && (x.id, x.title) == pair;
      assert x in hs;
    } else {
      assert last in hs;
    }
  }

  lemma {:induction false} AfterTopIsSuffix(ks: seq<Scanner.HeadingEntry>)
    ensures forall x :: x in AfterTop(ks) ==> x in ks
  {
    if ks != [] {
      AfterTopIsSuffix(ks[1..]);
    }
  }

  lemma {:induction false} KeptFrom(headers: seq<Scanner.HeadingEntry>, x: Scanner.HeadingEntry)
    requires x in Kept(headers)
    ensures x.level <= 3 && exists k :: 0 <= k < |headers| && headers[k] == x
    decreases |headers|
  {
    var init := headers[..|headers| - 1];
    if x in Kept(init) {
      KeptFrom(init, x);
      var k :| 0 <= k < |init| && init[k] == x;
      assert headers[k] == x;
    } else {
      assert headers[|headers| - 1] == x;
    }
  }

  /** Headings (a,2), (b,3), (c,2): `a` is the top section and `b`, `c` are both top-level entries. */
  lemma IndexExampleFlat()
    ensures IndexOf([Scanner.HeadingEntry("a", 2, "A"), Scanner.HeadingEntry("b", 3, "B"), Scanner.HeadingEntry("c", 2, "C")])
         == Index("a", [IndexNode("b", "B", []), IndexNode("c", "C", [])])
  {
    var hs := [Scanner.HeadingEntry("a", 2, "A"), Scanner.HeadingEntry("b", 3, "B"), Scanner.HeadingEntry("c", 2, "C")];
    assert hs[..2][..1] == hs[..1];
    assert IndexFold(hs[..1]) == IndexState("a", [], -1);
    assert IndexFold(hs[..2]) == IndexState("a", [IndexNode("b", "B", [])], 3);
  }

  /** Headings (a,1), (b,2), (c,3), (d,2): `c` is nested under `b`. */
  lemma IndexExampleNested()
    ensures IndexOf([Scanner.HeadingEntry("a", 1, "A"), Scanner.HeadingEntry("b", 2, "B"),
                     Scanner.HeadingEntry("c", 3, "C"), Scanner.HeadingEntry("d", 2, "D")])
         == Index("a", [IndexNode("b", "B", [IndexNode("c", "C", [])]), IndexNode("d", "D", [])])
  {
    var hs := [Scanner.HeadingEntry("a", 1, "A"), Scanner.HeadingEntry("b", 2, "B"),
               Scanner.HeadingEntry("c", 3, "C"), Scanner.HeadingEntry("d", 2, "D")];
    assert hs[..3][..2] == hs[..2];
    assert hs[..2][..1] == hs[..1];
    assert IndexFold(hs[..1]) == IndexState("a", [], -1);
    assert IndexFold(hs[..2]) == IndexState("a", [IndexNode("b", "B", [])], 2);
    var b := IndexNode("b", "B", []);
    var c := IndexNode("c", "C", []);
    assert IndexStep(IndexState("a", [b], 2), hs[2]) == IndexState("a", [IndexNode("b", "B", [c])], 2) by {
      assert [b][..0] == [] && [] + [c] == [c];
    }
    assert IndexFold(hs[..3]) == IndexState("a", [IndexNode("b", "B", [c])], 2);
  }

  // ---------------------------------------------------------------------------
  // The dictionary, updated in place

  class ResourceBag {
    var glossary: Option<map<string, string>>
    var formulas: Option<map<string, string>>
    var functions: Option<string>
    var index: Option<Index>
    var id: Option<string>
    var section: Option<string>
    var isProblemSet: Option<bool>
    var includeOutput: Option<bool>

    function Value(): Textbook
      reads this
    {
      Textbook(glossary, formulas, functions, index, id, section, isProblemSet, includeOutput)
    }

    constructor(t: Textbook)
      ensures Value() == t
    {
      glossary, formulas, functions, index := t.glossary, t.formulas, t.functions, t.index;
      id, section, isProblemSet, includeOutput := t.id, t.section, t.isProblemSet, t.includeOutput;
    }

    /** `handle_cell_glossary`. */
    method HandleCellGlossary(cell: Cell)
      modifies this
      ensures Value() == GlossaryStep(old(Value()), cell.metadata)
    {
      var gloss := cell.metadata.gloss;
      if gloss.Some? && gloss.value != map[] {
        var g := if glossary.Some? then glossary.value else map[];
        glossary := Some(g + gloss.value);
      }
    }

    /** `handle_cell_formulas`. */
    method HandleCellFormulas(cell: Cell)
      modifies this
      ensures Value() == FormulasStep(old(Value()), cell.metadata)
    {
      var add := cell.metadata.formulas;
      if add.Some? && add.value != map[] {
        var f := if formulas.Some? then formulas.value else map[];
        formulas := Some(f + add.value);
      }
    }

    /** `handle_cell_goals`: one action per click or value goal, joined into an exported function. */
    method HandleCellGoals(fid: string, cell: Cell) returns (goals: seq<string>)
      modifies this
      ensures goals == CellGoalIds(cell.metadata)
      ensures Value() == GoalsStep(old(Value()), fid, cell.metadata)
    {
      goals := [];
      if HasGoals(cell.metadata) {
        var meta := cell.metadata.goals.value;
        var blocks;
        blocks, goals := GoalActions(meta);
        var actions := ["export function " + fid + "($section: Step) { ", "  setTimeout(() => {"]
          + blocks + ["  }, 250);", "}\n"];
        var previous := if functions.Some? then functions.value else "";
        functions := Some(previous + Join(actions, "\n"));
      }
    }

    /** `handle_index`: builds the index and stores it unless one is already there. */
    method HandleIndex(headers: seq<Scanner.HeadingEntry>) returns (result: Index)
      modifies this
      ensures result == IndexOf(headers)
      ensures Value() == IndexSet(old(Value()), result)
    {
      var top := "";
      var entries: seq<IndexNode> := [];
      var lastLevel: int := -1;
      var i := 0;
      while i < |headers|
        invariant 0 <= i <= |headers|
        invariant IndexState(top, entries, lastLevel) == IndexFold(headers[..i])
      {
        assert headers[..i + 1][..i] == headers[..i];
        var h := headers[i];
        if h.level <= 3 {
          if top == "" {
            top := h.id;
          } else if h.level <= lastLevel || |entries| == 0 {
            entries := entries + [IndexNode(h.id, h.title, [])];
            lastLevel := h.level;
          } else {
            var last := entries[|entries| - 1];
            entries := entries[..|entries| - 1] + [IndexNode(last.id, last.title, last.subsections + [IndexNode(h.id, h.title, [])])];
          }
        }
        i := i + 1;
      }
      assert headers[..i] == headers;
      result := Index(top, entries);
      if index.None? {
        index := Some(result);
      }
    }
  }
}
