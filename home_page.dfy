/** The home page's session controller: the state it keeps for one client
    (templates, active template, answers, last-saved snapshot, hidden fields,
    notes) and the steps that change it, together with the pure transforms
    those steps are built from. */
module HomePage {
  import opened Wrappers
  import opened Fields
  import opened Answers
  import Layout
  import StableSort
  import JsString
  import Recommendations
  import QuestionModal
  import TemplateLoad
  import Notes

  // ---------------------------------------------------------------------
  // Layout overrides saved from the grid

  /** The override saved for a grid item: its position, its size and its
      index in reading order; `hidden` is not written. */
  function OverrideOf(item: Layout.LayoutItem, idx: int): TemplateLoad.Override {
    TemplateLoad.Override(Some(idx), Some(item.x), Some(item.y), item.w, item.h, None)
  }

  /** The record the `forEach` fills from the sorted items: item `idx`
      writes the entry of its id, so a later item with the same id
      overwrites an earlier one. */
  function OverrideMapOf(sorted: seq<Layout.LayoutItem>): map<string, TemplateLoad.Override> {
    if sorted == [] then map[]
    else
      var last := |sorted| - 1;
      OverrideMapOf(sorted[..last])[sorted[last].i := OverrideOf(sorted[last], last)]
  }

  /** The body of `saveClientLayoutDebounced`'s timer, without the write:
      the layout is copied, sorted by row and then column, and each item's
      override is stored under its id. */
  method LayoutOverrides(layout: seq<Layout.LayoutItem>) returns (m: map<string, TemplateLoad.Override>)
    ensures m == OverrideMapOf(Layout.ReadingOrder(layout))
  {
    var sorted := Layout.ReadingOrder(layout);
    m := map[];
    var idx := 0;
    while idx < |sorted|
      invariant 0 <= idx <= |sorted|
      invariant m == OverrideMapOf(sorted[..idx])
    {
      assert sorted[..idx + 1][..idx] == sorted[..idx];
      m := m[sorted[idx].i := OverrideOf(sorted[idx], idx)];
      idx := idx + 1;
    }
    assert sorted[..idx] == sorted;
  }

  predicate UniqueKeys(items: seq<Layout.LayoutItem>) {
    forall a, b :: 0 <= a < b < |items| ==> items[a].i != items[b].i
  }

  /** The map has an entry for exactly the ids of the items. */
  lemma {:induction false} OverrideMapKeys(sorted: seq<Layout.LayoutItem>)
    ensures forall id :: id in OverrideMapOf(sorted) <==> exists k :: 0 <= k < |sorted| && sorted[k].i == id
  {
    if sorted != [] {
      var last := |sorted| - 1;
      OverrideMapKeys(sorted[..last]);
      forall id | id in OverrideMapOf(sorted) ensures exists k :: 0 <= k < |sorted| && sorted[k].i == id {
        if id != sorted[last].i {
          assert id in OverrideMapOf(sorted[..last]);
          var k :| 0 <= k < |sorted[..last]| && sorted[..last][k].i == id;
          assert sorted[k].i == id;
        }
      }
      forall id | exists k :: 0 <= k < |sorted| && sorted[k].i == id ensures id in OverrideMapOf(sorted) {
        var k :| 0 <= k < |sorted| && sorted[k].i == id;
        if k < last {
          assert sorted[..last][k].i == id;
        }
      }
    }
  }

  /** Last write wins: the entry of an id is the override of the last item
      with that id, at that item's index. */
  lemma {:induction false} OverrideMapLastWins(sorted: seq<Layout.LayoutItem>, k: nat)
    requires k < |sorted|
    requires forall j :: k < j < |sorted| ==> sorted[j].i != sorted[k].i
    ensures sorted[k].i in OverrideMapOf(sorted)
    ensures OverrideMapOf(sorted)[sorted[k].i] == OverrideOf(sorted[k], k)
  {
    var last := |sorted| - 1;
    if k < last {
      assert sorted[..last][k] == sorted[k];
      OverrideMapLastWins(sorted[..last], k);
    }
  }

  /** A list of distinct elements holds each once. */
  lemma {:induction false} DistinctOnce(s: seq<Layout.LayoutItem>, x: Layout.LayoutItem)
    requires forall a, b :: 0 <= a < b < |s| ==> s[a] != s[b]
    ensures multiset(s)[x] <= 1
  {
    if s != [] {
      assert s == [s[0]] + s[1..];
      DistinctOnce(s[1..], x);
      if x == s[0] {
        assert x !in s[1..];
      }
    }
  }

  /** Reordering keeps the ids distinct. */
  lemma PermutationKeepsUniqueKeys(a: seq<Layout.LayoutItem>, b: seq<Layout.LayoutItem>)
    requires multiset(a) == multiset(b) && UniqueKeys(a)
    ensures UniqueKeys(b)
  {
    forall p, q | 0 <= p < q < |b| ensures b[p].i != b[q].i {
      assert b[p] in multiset(a) && b[q] in multiset(a);
      var ip :| 0 <= ip < |a| && a[ip] == b[p];
      var iq :| 0 <= iq < |a| && a[iq] == b[q];
      if b[p] == b[q] {
        DistinctOnce(a, b[p]);
        TwiceInMultiset(b, p, q);
      }
    }
  }

  lemma TwiceInMultiset(b: seq<Layout.LayoutItem>, p: nat, q: nat)
    requires p < q < |b| && b[p] == b[q]
    ensures multiset(b)[b[p]] >= 2
  {
    assert b == b[..q] + b[q..];
    assert b[p] in b[..q] && b[q] in b[q..];
    assert multiset(b)[b[p]] == multiset(b[..q])[b[p]] + multiset(b[q..])[b[p]];
  }

  /** With distinct ids, the saved orders are the reading-order indexes:
      the item at index `k` gets `order` k and keeps its position and size,
      so the orders are 0 to n-1, each once, and they follow the rows and
      columns of the grid. */
  lemma OverrideOrdersDense(layout: seq<Layout.LayoutItem>)
    requires UniqueKeys(layout)
    ensures var sorted := Layout.ReadingOrder(layout);
            var m := OverrideMapOf(sorted);
            |sorted| == |layout| &&
            (forall id :: id in m <==> exists l :: l in layout && l.i == id) &&
            (forall k :: 0 <= k < |sorted| ==>
               sorted[k].i in m && m[sorted[k].i] == OverrideOf(sorted[k], k)) &&
            (forall id1, id2 :: id1 in m && id2 in m && id1 != id2 ==> m[id1].order != m[id2].order) &&
            (forall id :: id in m ==> m[id].order.Some? && 0 <= m[id].order.value < |layout|)
  {
    var sorted := Layout.ReadingOrder(layout);
    var m := OverrideMapOf(sorted);
    Layout.ReadingOrderSpec(layout);
    StableSort.SortByPermutes(layout, Layout.ReadingKey);
    PermutationKeepsUniqueKeys(layout, sorted);
    OverrideMapKeys(sorted);
    forall k | 0 <= k < |sorted| ensures sorted[k].i in m && m[sorted[k].i] == OverrideOf(sorted[k], k) {
      OverrideMapLastWins(sorted, k);
    }
    forall id ensures id in m <==> exists l :: l in layout && l.i == id {
      if id in m {
        var k :| 0 <= k < |sorted| && sorted[k].i == id;
        assert sorted[k] in multiset(layout);
      }
      if exists l :: l in layout && l.i == id {
        var l :| l in layout && l.i == id;
        assert l in multiset(sorted);
        var k :| 0 <= k < |sorted| && sorted[k] == l;
      }
    }
  }

  // ---------------------------------------------------------------------
  // Template switch

  /** `lastSavedRef`: the JSON text of the answers last saved or received,
      or '' for none. No JSON text of an object is '', so the snapshot is
      either nothing or the answers the text spells out. */
  datatype Snapshot = NoSnapshot | SavedAnswers(answers: Answers)

  /** The answers `JSON.stringify` writes out: a property whose value is
      `undefined` does not appear in the text. */
  function Serialized(a: Answers): (r: Answers)
    ensures r.Keys == set k | k in a && !a[k].Undefined?
    ensures forall k :: k in r ==> r[k] == a[k] && !r[k].Undefined?
  {
    map k | k in a && !a[k].Undefined? :: a[k]
  }

  /** The snapshot of a set of answers, `JSON.stringify(answers)`. */
  function SnapshotOf(a: Answers): Snapshot {
    SavedAnswers(Serialized(a))
  }

  /** What reading `answers[id]` gives: a missing property reads as
      `undefined`. */
  function ReadAnswer(a: Answers, id: string): Value {
    if id in a then a[id] else Undefined
  }

  /** Two sets of answers have the same snapshot exactly when every field
      reads the same in both, so an answer set to `undefined` and a missing
      answer are not told apart. */
  lemma SnapshotIff(a: Answers, b: Answers)
    ensures SnapshotOf(a) == SnapshotOf(b) <==> forall id :: ReadAnswer(a, id) == ReadAnswer(b, id)
  {
    if forall id :: ReadAnswer(a, id) == ReadAnswer(b, id) {
      assert Serialized(a).Keys == Serialized(b).Keys by {
        forall id ensures id in Serialized(a) <==> id in Serialized(b) {
          assert ReadAnswer(a, id) == ReadAnswer(b, id);
        }
      }
      forall id | id in Serialized(a) ensures Serialized(a)[id] == Serialized(b)[id] {
        assert ReadAnswer(a, id) == ReadAnswer(b, id);
      }
    }
    if SnapshotOf(a) == SnapshotOf(b) {
      forall id ensures ReadAnswer(a, id) == ReadAnswer(b, id) {
        assert id in Serialized(a) <==> id in Serialized(b);
      }
    }
  }

  /** Setting an answer to `undefined` leaves the same snapshot as removing
      it. */
  lemma SnapshotIgnoresUndefined(a: Answers, id: string)
    ensures SnapshotOf(a[id := Undefined]) == SnapshotOf(a - {id})
  {
    assert Serialized(a[id := Undefined]) == Serialized(a - {id});
  }

  /** The template list with every template whose id is the latest one's
      replaced by the latest one. */
  function ReplaceById(templates: seq<Template>, latest: Template): (r: seq<Template>)
    ensures |r| == |templates|
    ensures forall k :: 0 <= k < |r| ==> r[k] == (if templates[k].id == latest.id then latest else templates[k])
  {
    if templates == [] then []
    else [if templates[0].id == latest.id then latest else templates[0]] + ReplaceById(templates[1..], latest)
  }

  /** Replacing keeps the list's ids in place, installs the latest template
      under its id, and is a no-op when no template has the id. */
  lemma ReplaceByIdSpec(templates: seq<Template>, latest: Template)
    ensures forall k :: 0 <= k < |templates| ==> ReplaceById(templates, latest)[k].id == templates[k].id
    ensures forall t :: t in ReplaceById(templates, latest) && t.id == latest.id ==> t == latest
    ensures ReplaceById(ReplaceById(templates, latest), latest) == ReplaceById(templates, latest)
    ensures (forall t :: t in templates ==> t.id != latest.id) ==> ReplaceById(templates, latest) == templates
  {
    var r := ReplaceById(templates, latest);
    assert forall k :: 0 <= k < |r| ==> ReplaceById(r, latest)[k] == r[k];
  }

  // ---------------------------------------------------------------------
  // Label map and the save score

  /** The key a field is found under: its trimmed label. */
  function LabelOf(f: Field): string { JsString.Trim(f.caption) }

  /** The map from each field's key to its id, a later field overwriting an
      earlier one with the same key. */
  function KeyedIds(fields: seq<Field>, key: Field -> string): map<string, string> {
    if fields == [] then map[]
    else
      var last := fields[|fields| - 1];
      KeyedIds(fields[..|fields| - 1], key)[key(last) := last.id]
  }

  /** The label map memo: each field's trimmed label maps to its id, a
      later field overwriting an earlier one with the same trimmed label. */
  function LabelMapOf(fields: seq<Field>): Recommendations.LabelMap {
    KeyedIds(fields, LabelOf)
  }

  /** The memo's `forEach`, on the active template or on none. */
  method BuildLabelMap(tpl: Option<Template>) returns (m: Recommendations.LabelMap)
    ensures m == if tpl.Some? then LabelMapOf(tpl.value.fields) else map[]
  {
    m := map[];
    if tpl.Some? {
      var fields := tpl.value.fields;
      var k := 0;
      while k < |fields|
        invariant 0 <= k <= |fields|
        invariant m == KeyedIds(fields[..k], LabelOf)
      {
        var f := fields[k];
        ghost var next := fields[..k + 1];
        assert next[..|next| - 1] == fields[..k] && next[|next| - 1] == f;
        m := m[LabelOf(f) := f.id];
        k := k + 1;
      }
      assert fields[..k] == fields;
    }
  }

  predicate UniqueBy(fields: seq<Field>, key: Field -> string) {
    forall a, b :: 0 <= a < b < |fields| ==> key(fields[a]) != key(fields[b])
  }

  /** No two fields share a trimmed label. */
  predicate UniqueLabels(fields: seq<Field>) { UniqueBy(fields, LabelOf) }

  /** Every entry is the key of a field mapped to that field's id. */
  lemma {:induction false} KeyedIdsEntries(fields: seq<Field>, key: Field -> string)
    ensures forall k :: k in KeyedIds(fields, key) ==>
              exists j :: 0 <= j < |fields| && key(fields[j]) == k && KeyedIds(fields, key)[k] == fields[j].id
  {
    if fields != [] {
      var n := |fields| - 1;
      var init := fields[..n];
      KeyedIdsEntries(init, key);
      forall k | k in KeyedIds(fields, key)
        ensures exists j :: 0 <= j < |fields| && key(fields[j]) == k && KeyedIds(fields, key)[k] == fields[j].id
      {
        if k != key(fields[n]) {
          var j :| 0 <= j < n && key(init[j]) == k && KeyedIds(init, key)[k] == init[j].id;
          assert init[j] == fields[j];
        }
      }
    }
  }

  /** With distinct keys, each field's key maps to its id. */
  lemma {:induction false} KeyedIdsUnique(fields: seq<Field>, key: Field -> string)
    requires UniqueBy(fields, key)
    ensures forall j :: 0 <= j < |fields| ==> key(fields[j]) in KeyedIds(fields, key) && KeyedIds(fields, key)[key(fields[j])] == fields[j].id
  {
    if fields != [] {
      var n := |fields| - 1;
      var init := fields[..n];
      assert forall j :: 0 <= j < n ==> init[j] == fields[j];
      KeyedIdsUnique(init, key);
    }
  }

  /** On a template with distinct trimmed labels and non-empty ids, the
      label-map lookup finds the same answer as the first-match scan of the
      template. */
  lemma LookupAgrees(answers: Answers, tpl: Template, caption: string)
    requires UniqueLabels(tpl.fields)
    requires forall f :: f in tpl.fields ==> f.id != ""
    ensures Recommendations.Get(answers, LabelMapOf(tpl.fields), caption) ==
            Recommendations.GetByTemplate(answers, Some(tpl), caption)
  {
    var key := JsString.Trim(caption);
    match Recommendations.FirstWithLabel(tpl.fields, key)
    case Some(f) => LookupFound(answers, tpl.fields, key, f);
    case None => LookupMissing(tpl.fields, key);
  }

  /** The field the scan finds is the one the label map names. */
  lemma LookupFound(answers: Answers, fields: seq<Field>, key: string, f: Field)
    requires UniqueLabels(fields)
    requires forall g :: g in fields ==> g.id != ""
    requires f in fields && LabelOf(f) == key
    ensures key in LabelMapOf(fields) && LabelMapOf(fields)[key] == f.id && f.id != ""
  {
    KeyedIdsEntries(fields, LabelOf);
    KeyedIdsUnique(fields, LabelOf);
    var k :| 0 <= k < |fields| && fields[k] == f;
    assert LabelOf(fields[k]) == key;
  }

  /** A label no field has is not in the label map. */
  lemma LookupMissing(fields: seq<Field>, key: string)
    requires forall g :: g in fields ==> LabelOf(g) != key
    ensures key !in LabelMapOf(fields)
  {
    KeyedIdsEntries(fields, LabelOf);
  }

  /** The recommendations of the reference implementation in the test: the
      same rules over answers found by scanning the template's labels. */
  function ReferenceRecommendations(answers: Answers, tpl: Option<Template>): seq<Recommendations.Recommendation> {
    Recommendations.Recommend(Recommendations.ReadSignals(caption => Recommendations.GetByTemplate(answers, tpl, caption)))
  }

  /** On a template with distinct trimmed labels and non-empty ids, the
      engine fed the page's label map gives what the reference gives. */
  lemma AgreesWithReference(answers: Answers, tpl: Template)
    requires UniqueLabels(tpl.fields)
    requires forall f :: f in tpl.fields ==> f.id != ""
    ensures Recommendations.Recommend(Recommendations.SignalsOf(answers, LabelMapOf(tpl.fields))) ==
            ReferenceRecommendations(answers, Some(tpl))
  {
    LookupAgrees(answers, tpl, Recommendations.PainLabel);
    LookupAgrees(answers, tpl, Recommendations.VolumeLabel);
    LookupAgrees(answers, tpl, Recommendations.BudgetLabel);
    LookupAgrees(answers, tpl, Recommendations.InstrumentsLabel);
    LookupAgrees(answers, tpl, Recommendations.ClientTypeLabel);
  }

  /** The total of the recommendations' scores. */
  function ScoreSum(recs: seq<Recommendations.Recommendation>): nat {
    if recs == [] then 0 else ScoreSum(recs[..|recs| - 1]) + recs[|recs| - 1].score
  }

  lemma {:induction false} ScoreSumAppend(a: seq<Recommendations.Recommendation>, b: seq<Recommendations.Recommendation>)
    ensures ScoreSum(a + b) == ScoreSum(a) + ScoreSum(b)
  {
    if b != [] {
      var n := |b| - 1;
      assert (a + b)[..|a + b| - 1] == a + b[..n];
      ScoreSumAppend(a, b[..n]);
    } else {
      assert a + b == a;
    }
  }

  /** The sum does not depend on the order of the recommendations. */
  lemma {:induction false} ScoreSumPermutation(a: seq<Recommendations.Recommendation>, b: seq<Recommendations.Recommendation>)
    requires multiset(a) == multiset(b)
    ensures ScoreSum(a) == ScoreSum(b)
    decreases |a|
  {
    if a != [] {
      var n := |a| - 1;
      var x := a[n];
      assert a == a[..n] + [x];
      assert x in multiset(b);
      var j :| 0 <= j < |b| && b[j] == x;
      var rest := b[..j] + b[j + 1..];
      RemoveAt(b, j);
      assert multiset(a[..n]) == multiset(a) - multiset{x} by {
        assert multiset(a) == multiset(a[..n]) + multiset{x};
      }
      ScoreSumPermutation(a[..n], rest);
      ScoreSumRemoveAt(b, j);
    }
  }

  /** Removing one element takes exactly that element out of the multiset. */
  lemma RemoveAt<T>(b: seq<T>, j: nat)
    requires j < |b|
    ensures multiset(b[..j] + b[j + 1..]) == multiset(b) - multiset{b[j]}
  {
    assert b == b[..j] + [b[j]] + b[j + 1..];
  }

  /** Removing one recommendation takes its score off the sum. */
  lemma ScoreSumRemoveAt(b: seq<Recommendations.Recommendation>, j: nat)
    requires j < |b|
    ensures ScoreSum(b) == ScoreSum(b[..j] + b[j + 1..]) + b[j].score
  {
    var x, p, q := b[j], b[..j], b[j + 1..];
    assert b == (p + [x]) + q;
    ScoreSumAppend(p + [x], q);
    ScoreSumAppend(p, q);
    assert ScoreSum(p + [x]) == ScoreSum(p) + x.score by {
      assert (p + [x])[..|p + [x]| - 1] == p;
    }
  }

  /** The rules' own scores, one per fired rule. */
  lemma PushedScore(rule: Recommendations.Rule, s: Recommendations.Signals)
    ensures ScoreSum(Recommendations.Pushed(rule, s)) ==
            if Recommendations.Fires(rule, s) then Recommendations.Score(rule) else 0
  {
    var p := Recommendations.Pushed(rule, s);
    if p != [] {
      assert p[..0] == [];
    }
  }

  lemma ScoreSumFive(p1: seq<Recommendations.Recommendation>, p2: seq<Recommendations.Recommendation>,
                     p3: seq<Recommendations.Recommendation>, p4: seq<Recommendations.Recommendation>,
                     p5: seq<Recommendations.Recommendation>)
    ensures ScoreSum(p1 + p2 + p3 + p4 + p5) == ScoreSum(p1) + ScoreSum(p2) + ScoreSum(p3) + ScoreSum(p4) + ScoreSum(p5)
  {
    ScoreSumAppend(p1, p2);
    ScoreSumAppend(p1 + p2, p3);
    ScoreSumAppend(p1 + p2 + p3, p4);
    ScoreSumAppend(p1 + p2 + p3 + p4, p5);
  }

  /** A rule's share of the total: its score when it fires. */
  function RuleShare(rule: Recommendations.Rule, s: Recommendations.Signals): nat {
    if Recommendations.Fires(rule, s) then Recommendations.Score(rule) else 0
  }

  /** The fired recommendations add up to the shares of the five rules. */
  lemma FiredTotal(s: Recommendations.Signals)
    ensures ScoreSum(Recommendations.Fired(s)) ==
            RuleShare(Recommendations.LowSpreads, s) + RuleShare(Recommendations.FastServer, s) +
            RuleShare(Recommendations.EcnRebate, s) + RuleShare(Recommendations.CopyPro, s) +
            RuleShare(Recommendations.GoldRoutes, s)
  {
    Recommendations.FiredUnfold(s);
    PushedScore(Recommendations.LowSpreads, s);
    PushedScore(Recommendations.FastServer, s);
    PushedScore(Recommendations.EcnRebate, s);
    PushedScore(Recommendations.CopyPro, s);
    PushedScore(Recommendations.GoldRoutes, s);
    ScoreSumFive(Recommendations.Pushed(Recommendations.LowSpreads, s), Recommendations.Pushed(Recommendations.FastServer, s),
                 Recommendations.Pushed(Recommendations.EcnRebate, s), Recommendations.Pushed(Recommendations.CopyPro, s),
                 Recommendations.Pushed(Recommendations.GoldRoutes, s));
  }

  /** The persisted score: 8 exactly when no rule fires, otherwise the sum
      of the fired rules' scores, at least 12 and at most 97. */
  lemma ScoreBounds(s: Recommendations.Signals)
    ensures var total := ScoreSum(Recommendations.Recommend(s));
            (total == 8 <==> Recommendations.Fired(s) == []) &&
            (Recommendations.Fired(s) != [] ==> total == ScoreSum(Recommendations.Fired(s)) && 12 <= total <= 97)
  {
    var fired := Recommendations.Fired(s);
    var fallback := Recommendations.WithFallback(fired);
    StableSort.SortByPermutes(fallback, Recommendations.ByScore);
    ScoreSumPermutation(Recommendations.Recommend(s), fallback);
    if fired == [] {
      assert fallback == [Recommendations.Onboarding];
      assert fallback[..0] == [];
    } else {
      FiredTotal(s);
      Recommendations.FiredUnfold(s);
      FiredShares(s);
    }
  }

  /** Some rule fires when anything was fired. */
  lemma FiredShares(s: Recommendations.Signals)
    requires Recommendations.Fired(s) != []
    ensures 12 <= RuleShare(Recommendations.LowSpreads, s) + RuleShare(Recommendations.FastServer, s) +
                  RuleShare(Recommendations.EcnRebate, s) + RuleShare(Recommendations.CopyPro, s) +
                  RuleShare(Recommendations.GoldRoutes, s) <= 97
  {
    Recommendations.FiredUnfold(s);
  }

  // ---------------------------------------------------------------------
  // Adding and editing a question

  /** The row just below a field, its height defaulting to DEFAULT_H. */
  function Bottom(f: Field): int { f.y + f.h.GetOr(Layout.DefaultH) }

  /** The lowest bottom edge of the fields, a missing height counting as
      the default one; 0 for no fields. */
  function MaxBottom(fields: seq<Field>): int {
    if fields == [] then 0
    else
      var m := MaxBottom(fields[..|fields| - 1]);
      var b := Bottom(fields[|fields| - 1]);
      if m < b then b else m
  }

  /** The fold is the largest bottom, or 0 when that is larger. */
  lemma {:induction false} MaxBottomSpec(fields: seq<Field>)
    ensures MaxBottom(fields) >= 0
    ensures forall f :: f in fields ==> Bottom(f) <= MaxBottom(fields)
    ensures MaxBottom(fields) == 0 || exists f :: f in fields && Bottom(f) == MaxBottom(fields)
  {
    if fields != [] {
      var init := fields[..|fields| - 1];
      MaxBottomSpec(init);
      assert fields == init + [fields[|fields| - 1]];
    }
  }

  /** The field a new question becomes: the question's id, label, type and
      options, placed at column 1 one row below the lowest field, with the
      default size and the next order. */
  function NewField(tpl: Option<Template>, q: QuestionModal.Question): Field {
    var maxY := if tpl.Some? then MaxBottom(tpl.value.fields) else 0;
    var order := if tpl.Some? then |tpl.value.fields| else 0;
    Field(q.id, q.caption, q.kind, q.options, 1, maxY + 1, order, Some(Layout.DefaultW), Some(Layout.DefaultH))
  }

  /** The cells a field takes in the grid, with the default size for a
      missing width or height. */
  function GridCells(f: Field): set<Layout.Cell> {
    Layout.Rect(f.x, f.y, f.w.GetOr(Layout.DefaultW), f.h.GetOr(Layout.DefaultH))
  }

  /** The new field lies below every existing field, so it overlaps none in
      the grid, and its order is the number of fields before it. */
  lemma NewFieldClear(t: Template, q: QuestionModal.Question)
    ensures var f := NewField(Some(t), q);
            f.y >= 1 &&
            (forall g :: g in t.fields ==> Bottom(g) < f.y && GridCells(g) * GridCells(f) == {}) &&
            f.order == |t.fields|
  {
    MaxBottomSpec(t.fields);
    var f := NewField(Some(t), q);
    forall g | g in t.fields ensures GridCells(g) * GridCells(f) == {} {
      forall c | c in GridCells(g) ensures c !in GridCells(f) {
        assert c.row < Bottom(g);
      }
    }
  }

  /** The template after a new question: the field is appended; no
      template, nothing changes. */
  function AddQuestion(tpl: Option<Template>, q: QuestionModal.Question): (r: Option<Template>)
    ensures r.None? <==> tpl.None?
    ensures r.Some? ==> r.value.id == tpl.value.id && r.value.name == tpl.value.name &&
                        |r.value.fields| == |tpl.value.fields| + 1 &&
                        r.value.fields[..|tpl.value.fields|] == tpl.value.fields &&
                        r.value.fields[|tpl.value.fields|] == NewField(tpl, q)
  {
    match tpl
    case None => None
    case Some(t) =>
      var fields := t.fields + [NewField(tpl, q)];
      assert fields[..|t.fields|] == t.fields;
      Some(t.(fields := fields))
  }

  /** The field after an edit: the question's label, type and options;
      `options` is dropped when the payload has none. */
  function Edited(f: Field, q: QuestionModal.Question): Field {
    if f.id == q.id then f.(caption := q.caption, kind := q.kind, options := q.options) else f
  }

  function EditFields(fields: seq<Field>, q: QuestionModal.Question): (r: seq<Field>)
    ensures |r| == |fields|
    ensures forall k :: 0 <= k < |r| ==> r[k] == Edited(fields[k], q)
  {
    if fields == [] then [] else [Edited(fields[0], q)] + EditFields(fields[1..], q)
  }

  /** The template after an edit. */
  function EditQuestion(tpl: Option<Template>, q: QuestionModal.Question): Option<Template> {
    match tpl
    case None => None
    case Some(t) => Some(t.(fields := EditFields(t.fields, q)))
  }

  /** The question a field shows in the editor. */
  function QuestionOf(f: Field): QuestionModal.Question {
    QuestionModal.Question(f.id, f.caption, f.kind, f.options)
  }

  /** An edit keeps every field's id, place, size and order, touches only
      the fields with the question's id, leaves each of them showing the
      question, and done twice is done once. */
  lemma EditSpec(t: Template, q: QuestionModal.Question)
    ensures var r := EditQuestion(Some(t), q).value;
            r.id == t.id && r.name == t.name && |r.fields| == |t.fields| &&
            (forall k :: 0 <= k < |r.fields| ==>
               r.fields[k].id == t.fields[k].id && r.fields[k].x == t.fields[k].x && r.fields[k].y == t.fields[k].y &&
               r.fields[k].w == t.fields[k].w && r.fields[k].h == t.fields[k].h && r.fields[k].order == t.fields[k].order) &&
            (forall k :: 0 <= k < |r.fields| && t.fields[k].id != q.id ==> r.fields[k] == t.fields[k]) &&
            (forall k :: 0 <= k < |r.fields| && t.fields[k].id == q.id ==> QuestionOf(r.fields[k]) == q) &&
            EditQuestion(EditQuestion(Some(t), q), q) == EditQuestion(Some(t), q)
  {
    var r := EditFields(t.fields, q);
    assert EditFields(r, q) == r;
  }

  // ---------------------------------------------------------------------
  // The page state

  /** What a save sends: the template, answers, score, recommendations and
      fields of `saveClientRecord`. */
  datatype SavedRecord = SavedRecord(
    templateId: string, answers: Answers, score: nat,
    recs: seq<Recommendations.Recommendation>, fields: seq<Field>)

  class Session {
    /** The `client` query parameter, or '' when the URL has none; every
        handler treats '' as no client. */
    var clientId: string
    var templates: seq<Template>
    var tpl: Option<Template>
    /** The answers, also mirrored in `latestAnswers`. */
    var answers: Answers
    var lastSaved: Snapshot
    var hidden: set<string>
    var notes: Notes.NotesByField

    /** The initial state: nothing loaded. */
    constructor (clientId: string)
      ensures this.clientId == clientId
      ensures templates == [] && tpl.None? && answers == map[] && lastSaved == NoSnapshot
      ensures hidden == {} && notes == map[]
    {
      this.clientId := clientId;
      templates := [];
      tpl := None;
      answers := map[];
      lastSaved := NoSnapshot;
      hidden := {};
      notes := map[];
    }

    /** `loadAll` once the fetches have returned. Without a client nothing
        is loaded. Otherwise the templates are prepared, the template chosen
        and laid out (kept as it was when the list is empty), answers and
        snapshot taken from the latest record, hidden fields from the
        overrides and the notes grouped by field. */
    method Load(list: seq<Template>, recordTemplateId: Option<string>, recordAnswers: Option<Answers>,
                overrides: map<string, TemplateLoad.Override>, notesList: seq<Notes.Note>,
                normalize: Template -> Template)
      modifies this`templates, this`tpl, this`answers, this`lastSaved, this`hidden, this`notes
      ensures clientId == "" ==>
                templates == old(templates) && tpl == old(tpl) && answers == old(answers) &&
                lastSaved == old(lastSaved) && hidden == old(hidden) && notes == old(notes)
      ensures clientId != "" ==>
                var loaded := TemplateLoad.LoadTemplate(list, recordTemplateId, overrides, normalize);
                templates == loaded.templates && tpl == (if loaded.tpl.Some? then loaded.tpl else old(tpl)) &&
                hidden == loaded.hidden
      ensures clientId != "" ==>
                answers == (if recordAnswers.Some? then recordAnswers.value else map[]) &&
                lastSaved == (if recordAnswers.Some? then SnapshotOf(recordAnswers.value) else NoSnapshot)
      ensures clientId != "" ==>
                notes.Keys == (set n | n in notesList :: n.fieldId) &&
                forall fid :: fid in notes ==> notes[fid] == Notes.NotesOf(notesList, fid)
    {
      if clientId == "" {
        return;
      }
      LoadTemplates(list, recordTemplateId, overrides, normalize);
      LoadRecord(recordAnswers, notesList);
    }

    /** The template half of `loadAll`. */
    method LoadTemplates(list: seq<Template>, recordTemplateId: Option<string>,
                         overrides: map<string, TemplateLoad.Override>, normalize: Template -> Template)
      modifies this`templates, this`tpl, this`hidden
      ensures var loaded := TemplateLoad.LoadTemplate(list, recordTemplateId, overrides, normalize);
              templates == loaded.templates && tpl == (if loaded.tpl.Some? then loaded.tpl else old(tpl)) &&
              hidden == loaded.hidden
    {
      var loaded := TemplateLoad.LoadTemplate(list, recordTemplateId, overrides, normalize);
      templates := loaded.templates;
      hidden := loaded.hidden;
      if loaded.tpl.Some? {
        tpl := loaded.tpl;
      }
    }

    /** The record and notes half of `loadAll`. */
    method LoadRecord(recordAnswers: Option<Answers>, notesList: seq<Notes.Note>)
      modifies this`answers, this`lastSaved, this`notes
      ensures answers == (if recordAnswers.Some? then recordAnswers.value else map[])
      ensures lastSaved == (if recordAnswers.Some? then SnapshotOf(recordAnswers.value) else NoSnapshot)
      ensures notes.Keys == set n | n in notesList :: n.fieldId
      ensures forall fid :: fid in notes ==> notes[fid] == Notes.NotesOf(notesList, fid)
    {
      if recordAnswers.Some? {
        answers := recordAnswers.value;
        lastSaved := SnapshotOf(recordAnswers.value);
      } else {
        answers := map[];
        lastSaved := NoSnapshot;
      }
      notes := Notes.GroupNotes(notesList);
    }

    /** The effect run once a template is shown: with a client, an active
        template with an id and nothing loading, the overrides fetched again
        give the hidden fields and, when there is any, are laid over the
        active template's fields again; after `Load` with the same
        overrides this changes no field (`TemplateLoad.ApplyOverridesIdempotent`). */
    method RefreshOverrides(loading: bool, overrides: map<string, TemplateLoad.Override>)
      modifies this`hidden, this`tpl
      ensures var skip := loading || clientId == "" || old(tpl).None? || old(tpl).value.id == "";
              hidden == (if skip then old(hidden) else TemplateLoad.HiddenFields(overrides)) &&
              tpl == if skip || overrides == map[] then old(tpl)
                     else Some(old(tpl).value.(fields := TemplateLoad.ApplyOverrides(old(tpl).value.fields, overrides)))
    {
      if loading || clientId == "" || tpl.None? || tpl.value.id == "" {
        return;
      }
      hidden := TemplateLoad.HiddenFields(overrides);
      if overrides != map[] {
        var prev := tpl.value;
        tpl := Some(prev.(fields := TemplateLoad.ApplyOverrides(prev.fields, overrides)));
      }
    }

    /** A live update of the client record: answers it carries replace the
        local ones and become the snapshot; otherwise the record is fetched
        again, which the result asks for. */
    method OnRecordChange(recordAnswers: Option<Answers>) returns (refetch: bool)
      modifies this`answers, this`lastSaved
      ensures refetch <==> recordAnswers.None?
      ensures recordAnswers.Some? ==> answers == recordAnswers.value && lastSaved == SnapshotOf(recordAnswers.value)
      ensures recordAnswers.None? ==> answers == old(answers) && lastSaved == old(lastSaved)
    {
      if recordAnswers.Some? {
        answers := recordAnswers.value;
        lastSaved := SnapshotOf(recordAnswers.value);
        refetch := false;
      } else {
        refetch := true;
      }
    }

    /** A live change of a note: the note's field list is copied, the note
        spliced out, replaced or pushed, and the copy stored; a payload
        without a note or a field asks for the notes to be fetched again. */
    method OnNoteChange(event: Notes.EventType, newNote: Option<Notes.Note>, oldNote: Option<Notes.Note>)
      returns (refetch: bool)
      modifies this`notes
      ensures var p := Notes.PatchNotes(old(notes), event, newNote, oldNote);
              refetch == p.Refetch? && notes == (if p.Patched? then p.notes else old(notes))
    {
      var note := if newNote.Some? then newNote else oldNote;
      assert note == Notes.PayloadNote(newNote, oldNote);
      if note.Some? && note.value.fieldId != "" {
        var n := note.value;
        var copy := notes;
        var arr := if n.fieldId in copy then copy[n.fieldId] else [];
        arr := Notes.PatchList(arr, event, n);
        copy := copy[n.fieldId := arr];
        notes := copy;
        refetch := false;
      } else {
        refetch := true;
      }
    }

    /** `onSelectTemplate` once the template and the client's last record
        for it have been fetched. Without a client, or once the page is no
        longer mounted, nothing changes. Otherwise the template is
        normalized and sorted, becomes the active one and replaces its
        namesake in the list, and the answers become the merge of the
        record's answers with the local ones over the new fields, local
        answers winning. */
    method SwitchTemplate(mounted: bool, tplData: Template, recordAnswers: Option<Answers>,
                          normalize: Template -> Template)
      modifies this`tpl, this`templates, this`answers, this`lastSaved
      ensures clientId == "" || !mounted ==>
                tpl == old(tpl) && templates == old(templates) && answers == old(answers) && lastSaved == old(lastSaved)
      ensures clientId != "" && mounted ==>
                var sorted := TemplateLoad.SortTplFields(normalize(tplData));
                var ids := set f | f in sorted.fields :: f.id;
                tpl == Some(sorted) && templates == ReplaceById(old(templates), sorted) &&
                answers == Merged(if recordAnswers.Some? then recordAnswers.value else map[], old(answers), ids) &&
                (forall id :: id in ids && id in old(answers) ==> id in answers && answers[id] == old(answers)[id])
      ensures clientId != "" && mounted ==>
                lastSaved == (if recordAnswers.Some? then SnapshotOf(recordAnswers.value) else NoSnapshot)
    {
      if clientId == "" || !mounted {
        return;
      }
      var sorted := ShowTemplate(tplData, normalize);
      var saved := if recordAnswers.Some? then recordAnswers.value else map[];
      FieldIdsSet(sorted.fields);
      answers := MergeAnswers(saved, answers, FieldIds(sorted.fields));
      lastSaved := if recordAnswers.Some? then SnapshotOf(recordAnswers.value) else NoSnapshot;
    }

    /** The template half of `onSelectTemplate`: the fetched template is
        normalized and sorted, becomes the active one and replaces its
        namesake in the list. */
    method ShowTemplate(tplData: Template, normalize: Template -> Template) returns (sorted: Template)
      modifies this`tpl, this`templates
      ensures sorted == TemplateLoad.SortTplFields(normalize(tplData))
      ensures tpl == Some(sorted) && templates == ReplaceById(old(templates), sorted)
    {
      sorted := TemplateLoad.SortTplFields(normalize(tplData));
      tpl := Some(sorted);
      templates := ReplaceById(templates, sorted);
    }

    /** `save(force)`: nothing happens without a client or a template, or
        when an unforced save finds the answers' snapshot equal to the last
        one; otherwise the recommendations and their score sum are computed
        and sent, and the snapshot moves to the answers once the write has
        succeeded (`written`). */
    method Save(force: bool, written: bool) returns (sent: Option<SavedRecord>)
      modifies this`lastSaved
      ensures sent.None? <==> clientId == "" || tpl.None? || (!force && SnapshotOf(answers) == old(lastSaved))
      ensures sent.Some? ==>
                var recs := Recommendations.Recommend(Recommendations.SignalsOf(answers, LabelMapOf(tpl.value.fields)));
                sent.value == SavedRecord(tpl.value.id, answers, ScoreSum(recs), recs, tpl.value.fields)
      ensures lastSaved == if sent.Some? && written then SnapshotOf(answers) else old(lastSaved)
    {
      if clientId == "" || tpl.None? {
        return None;
      }
      var current := SnapshotOf(answers);
      if !force && current == lastSaved {
        return None;
      }
      var labelMap := BuildLabelMap(tpl);
      var recs := Recommendations.ComputeRecommendations(answers, labelMap);
      var score := ScoreSum(recs);
      sent := Some(SavedRecord(tpl.value.id, answers, score, recs, tpl.value.fields));
      if written {
        lastSaved := current;
      }
    }

    /** `handleHideField`: with a client, the field joins the hidden ones
        once the write has succeeded. */
    method HideField(fieldId: string, written: bool)
      modifies this`hidden
      ensures hidden == if clientId != "" && written then old(hidden) + {fieldId} else old(hidden)
    {
      if clientId != "" && written {
        hidden := hidden + {fieldId};
      }
    }

    /** The question editor's `onSubmit`: an edit rewrites the fields with
        the question's id, a new question is appended below the others. */
    method SubmitQuestion(editing: bool, q: QuestionModal.Question)
      modifies this`tpl
      ensures tpl == if editing then EditQuestion(old(tpl), q) else AddQuestion(old(tpl), q)
    {
      if editing {
        tpl := EditQuestion(tpl, q);
      } else {
        tpl := AddQuestion(tpl, q);
      }
    }
  }

  /** Two saves in a row, the first one written: the second, unforced,
      sends nothing, whatever the first did. */
  method SaveTwice(s: Session, force: bool) returns (first: Option<SavedRecord>, second: Option<SavedRecord>)
    modifies s
    ensures second.None?
  {
    first := s.Save(force, true);
    second := s.Save(false, true);
  }
}
