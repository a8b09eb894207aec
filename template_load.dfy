/** How the home page loads a client's form: templates with their fields in
    `order`, the template the latest record names, and the client's layout
    overrides laid over its fields. `normalizeTemplate` is not part of this
    model and is taken as a parameter. */
module TemplateLoad {
  import opened Wrappers
  import opened Fields
  import StableSort

  /** The comparator `a.order - b.order`. */
  function OrderKey(f: Field): seq<int> { [f.order] }

  /** `sortTplFields`: the same template with its fields in `order`, ties
      kept in their old order, nothing lost or added. */
  function SortTplFields(tpl: Template): (r: Template)
    ensures r.id == tpl.id && r.name == tpl.name
    ensures multiset(r.fields) == multiset(tpl.fields)
    ensures forall i, j :: 0 <= i < j < |r.fields| ==> r.fields[i].order <= r.fields[j].order
    ensures forall k :: StableSort.WithKey(r.fields, OrderKey, k) == StableSort.WithKey(tpl.fields, OrderKey, k)
  {
    SortedByOrder(tpl.fields);
    tpl.(fields := StableSort.SortBy(tpl.fields, OrderKey))
  }

  lemma SortedByOrder(fields: seq<Field>)
    ensures multiset(StableSort.SortBy(fields, OrderKey)) == multiset(fields)
    ensures forall i, j :: 0 <= i < j < |StableSort.SortBy(fields, OrderKey)| ==>
              StableSort.SortBy(fields, OrderKey)[i].order <= StableSort.SortBy(fields, OrderKey)[j].order
    ensures forall k :: StableSort.WithKey(StableSort.SortBy(fields, OrderKey), OrderKey, k) == StableSort.WithKey(fields, OrderKey, k)
  {
    var s := StableSort.SortBy(fields, OrderKey);
    StableSort.SortByPermutes(fields, OrderKey);
    StableSort.SortBySorted(fields, OrderKey);
    forall k { StableSort.SortByStable(fields, OrderKey, k); }
    forall i, j | 0 <= i < j < |s| ensures s[i].order <= s[j].order {
      assert StableSort.LexLe(OrderKey(s[i]), OrderKey(s[j]));
      StableSort.LexLeSingle(s[i].order, s[j].order);
    }
  }

  /** Every fetched template normalized and its fields sorted, in list
      order. */
  function PrepareTemplates(list: seq<Template>, normalize: Template -> Template): (r: seq<Template>)
    ensures |r| == |list|
    ensures forall k :: 0 <= k < |list| ==> r[k] == SortTplFields(normalize(list[k]))
  {
    if list == [] then [] else [SortTplFields(normalize(list[0]))] + PrepareTemplates(list[1..], normalize)
  }

  /** The first template with the id. */
  function FindTemplate(ts: seq<Template>, id: string): (r: Option<Template>)
    ensures r.None? <==> forall t :: t in ts ==> t.id != id
    ensures r.Some? ==> r.value in ts && r.value.id == id
  {
    if ts == [] then None
    else if ts[0].id == id then Some(ts[0])
    else FindTemplate(ts[1..], id)
  }

  /** `find` returns the first template with the id. */
  lemma {:induction false} FindTemplateFirst(ts: seq<Template>, id: string, k: nat)
    requires k < |ts| && ts[k].id == id
    requires forall j :: 0 <= j < k ==> ts[j].id != id
    ensures FindTemplate(ts, id) == Some(ts[k])
  {
    if k > 0 {
      FindTemplateFirst(ts[1..], id, k - 1);
    }
  }

  /** The template chosen on load. `rec?.template_id` counts only when it is
      a non-empty string. */
  function ChooseTemplate(sorted: seq<Template>, recordTemplateId: Option<string>): (r: Option<Template>)
    ensures r.None? <==> sorted == []
    ensures r.Some? ==> r.value in sorted
  {
    var first := if |sorted| > 0 then Some(sorted[0]) else None;
    if recordTemplateId.Some? && recordTemplateId.value != "" then
      match FindTemplate(sorted, recordTemplateId.value)
      case Some(t) => Some(t)
      case None => first
    else first
  }

  /** The template the latest record names wins when it is in the list;
      otherwise the first template is taken. */
  lemma ChooseTemplateSpec(sorted: seq<Template>, recordTemplateId: Option<string>)
    ensures var named := recordTemplateId.Some? && recordTemplateId.value != "" &&
                         exists k :: 0 <= k < |sorted| && sorted[k].id == recordTemplateId.value;
            (named ==> ChooseTemplate(sorted, recordTemplateId).Some? &&
                       ChooseTemplate(sorted, recordTemplateId).value.id == recordTemplateId.value) &&
            (!named && sorted != [] ==> ChooseTemplate(sorted, recordTemplateId) == Some(sorted[0]))
  {
  }

  /** A client's layout override for one field, as it is used: each entry is
      `None` when missing or null. */
  datatype Override = Override(
    order: Option<int>, x: Option<int>, y: Option<int>, w: Option<int>, h: Option<int>, hidden: Option<bool>)

  /** `a ?? b` on optional sizes. */
  function OrElse(a: Option<int>, b: Option<int>): Option<int> { if a.Some? then a else b }

  /** One field with its override, if any, laid over it: each of order, x, y,
      w and h takes the override's value when it has one. */
  function Superimpose(f: Field, overrides: map<string, Override>): Field {
    if f.id in overrides then
      var ov := overrides[f.id];
      f.(order := ov.order.GetOr(f.order), x := ov.x.GetOr(f.x), y := ov.y.GetOr(f.y),
         w := OrElse(ov.w, f.w), h := OrElse(ov.h, f.h))
    else f
  }

  /** Only the layout attributes change; a field without an override is kept
      as it is; laying the same overrides over twice is laying them once. */
  lemma SuperimposeSpec(f: Field, overrides: map<string, Override>)
    ensures var g := Superimpose(f, overrides);
            g.id == f.id && g.caption == f.caption && g.kind == f.kind && g.options == f.options &&
            (f.id !in overrides ==> g == f) &&
            Superimpose(g, overrides) == g
  {
  }

  /** Every field with its override laid over it, in field order. */
  function SuperimposeAll(fields: seq<Field>, overrides: map<string, Override>): (r: seq<Field>)
    ensures |r| == |fields|
    ensures forall k :: 0 <= k < |fields| ==> r[k] == Superimpose(fields[k], overrides)
  {
    if fields == [] then [] else [Superimpose(fields[0], overrides)] + SuperimposeAll(fields[1..], overrides)
  }

  /** The comparator on order, then y, then x. The `?? 0` fallbacks never
      apply: the three attributes are always present. */
  function LayoutKey(f: Field): seq<int> { [f.order, f.y, f.x] }

  predicate LayoutBefore(f: Field, g: Field) {
    f.order < g.order || (f.order == g.order && (f.y < g.y || (f.y == g.y && f.x <= g.x)))
  }

  /** The overrides laid over every field, then the fields sorted. */
  function ApplyOverrides(fields: seq<Field>, overrides: map<string, Override>): (r: seq<Field>)
    ensures multiset(r) == multiset(SuperimposeAll(fields, overrides))
    ensures forall i, j :: 0 <= i < j < |r| ==> LayoutBefore(r[i], r[j])
    ensures forall k :: StableSort.WithKey(r, LayoutKey, k) == StableSort.WithKey(SuperimposeAll(fields, overrides), LayoutKey, k)
  {
    var laid := SuperimposeAll(fields, overrides);
    SortedByLayout(laid);
    forall k {
      StableSort.SortByStable(laid, LayoutKey, k);
    }
    StableSort.SortBy(laid, LayoutKey)
  }

  lemma SortedByLayout(fields: seq<Field>)
    ensures multiset(StableSort.SortBy(fields, LayoutKey)) == multiset(fields)
    ensures forall i, j :: 0 <= i < j < |StableSort.SortBy(fields, LayoutKey)| ==>
              LayoutBefore(StableSort.SortBy(fields, LayoutKey)[i], StableSort.SortBy(fields, LayoutKey)[j])
  {
    var s := StableSort.SortBy(fields, LayoutKey);
    StableSort.SortByPermutes(fields, LayoutKey);
    StableSort.SortBySorted(fields, LayoutKey);
    forall i, j | 0 <= i < j < |s| ensures LayoutBefore(s[i], s[j]) {
      assert StableSort.LexLe(LayoutKey(s[i]), LayoutKey(s[j]));
      StableSort.LexLeTriple(s[i].order, s[i].y, s[i].x, s[j].order, s[j].y, s[j].x);
    }
  }

  /** The overrides are laid over twice, once on load and once when they are
      fetched again; the second time changes nothing. */
  lemma ApplyOverridesIdempotent(fields: seq<Field>, overrides: map<string, Override>)
    ensures ApplyOverrides(ApplyOverrides(fields, overrides), overrides) == ApplyOverrides(fields, overrides)
  {
    var r := ApplyOverrides(fields, overrides);
    var laid := SuperimposeAll(fields, overrides);
    forall k | 0 <= k < |r| ensures Superimpose(r[k], overrides) == r[k] {
      assert r[k] in multiset(laid);
      var j :| 0 <= j < |laid| && laid[j] == r[k];
      SuperimposeSpec(fields[j], overrides);
    }
    assert SuperimposeAll(r, overrides) == r;
    assert StableSort.SortedBy(r, LayoutKey) by {
      forall i, j | 0 <= i < j < |r| ensures StableSort.LexLe(LayoutKey(r[i]), LayoutKey(r[j])) {
        StableSort.LexLeTriple(r[i].order, r[i].y, r[i].x, r[j].order, r[j].y, r[j].x);
      }
    }
    StableSort.SortBySortedIdentity(r, LayoutKey);
  }

  /** With no overrides the fields are only sorted, and fields already in
      (order, y, x) order come back unchanged. */
  lemma NoOverridesKeepsSorted(fields: seq<Field>)
    requires forall i, j :: 0 <= i < j < |fields| ==> LayoutBefore(fields[i], fields[j])
    ensures ApplyOverrides(fields, map[]) == fields
  {
    assert SuperimposeAll(fields, map[]) == fields;
    assert StableSort.SortedBy(fields, LayoutKey) by {
      forall i, j | 0 <= i < j < |fields| ensures StableSort.LexLe(LayoutKey(fields[i]), LayoutKey(fields[j])) {
        StableSort.LexLeTriple(fields[i].order, fields[i].y, fields[i].x, fields[j].order, fields[j].y, fields[j].x);
      }
    }
    StableSort.SortBySortedIdentity(fields, LayoutKey);
  }

  /** The ids of the overrides whose `hidden` is true. */
  function HiddenFields(overrides: map<string, Override>): set<string> {
    set id | id in overrides && overrides[id].hidden == Some(true)
  }

  /** The fields whose id is not hidden, in their order. */
  function WithoutHidden(fields: seq<Field>, hidden: set<string>): (r: seq<Field>)
    ensures |r| <= |fields|
    ensures forall f :: f in r <==> f in fields && f.id !in hidden
  {
    if fields == [] then []
    else (if fields[0].id in hidden then [] else [fields[0]]) + WithoutHidden(fields[1..], hidden)
  }

  /** `visibleFields`: no template shows nothing. */
  function VisibleFields(tpl: Option<Template>, hidden: set<string>): (r: seq<Field>)
    ensures tpl.None? ==> r == []
    ensures tpl.Some? ==> forall f :: f in r <==> f in tpl.value.fields && f.id !in hidden
  {
    if tpl.Some? then WithoutHidden(tpl.value.fields, hidden) else []
  }

  /** A field is visible exactly when it is in the template and no override
      hides it. */
  lemma VisibleIff(tpl: Template, overrides: map<string, Override>, f: Field)
    ensures f in VisibleFields(Some(tpl), HiddenFields(overrides)) <==>
            f in tpl.fields && !(f.id in overrides && overrides[f.id].hidden == Some(true))
  {
  }

  /** Hiding keeps the template's order: the visible fields of two runs of
      fields are those of each run, one after the other. */
  lemma {:induction false} WithoutHiddenAppend(a: seq<Field>, b: seq<Field>, hidden: set<string>)
    ensures WithoutHidden(a + b, hidden) == WithoutHidden(a, hidden) + WithoutHidden(b, hidden)
  {
    if a == [] {
      assert a + b == b;
    } else {
      assert (a + b)[0] == a[0] && (a + b)[1..] == a[1..] + b;
      WithoutHiddenAppend(a[1..], b, hidden);
    }
  }

  /** Nothing hidden: every field is visible, in its place. */
  lemma {:induction false} NothingHidden(fields: seq<Field>, hidden: set<string>)
    requires forall k :: 0 <= k < |fields| ==> fields[k].id !in hidden
    ensures WithoutHidden(fields, hidden) == fields
  {
    if fields != [] {
      NothingHidden(fields[1..], hidden);
      assert fields == [fields[0]] + fields[1..];
    }
  }

  /** What `loadAll` derives from the fetched templates, latest record and
      overrides. */
  datatype Loaded = Loaded(templates: seq<Template>, tpl: Option<Template>, hidden: set<string>)

  function LoadTemplate(list: seq<Template>, recordTemplateId: Option<string>,
                        overrides: map<string, Override>, normalize: Template -> Template): (r: Loaded)
    ensures r.templates == PrepareTemplates(list, normalize)
    ensures r.tpl.None? <==> list == []
    ensures r.hidden == HiddenFields(overrides)
    ensures r.tpl.Some? ==>
              ChooseTemplate(r.templates, recordTemplateId).Some? &&
              var c := ChooseTemplate(r.templates, recordTemplateId).value;
              c in r.templates && r.tpl.value.id == normalize(c).id && r.tpl.value.name == normalize(c).name &&
              multiset(r.tpl.value.fields) == multiset(SuperimposeAll(normalize(c).fields, overrides))
    ensures r.tpl.Some? ==> forall i, j :: 0 <= i < j < |r.tpl.value.fields| ==> LayoutBefore(r.tpl.value.fields[i], r.tpl.value.fields[j])
  {
    var sorted := PrepareTemplates(list, normalize);
    var chosen := ChooseTemplate(sorted, recordTemplateId);
    var tpl := match chosen
      case None => None
      case Some(c) =>
        var n := normalize(c);
        Some(n.(fields := ApplyOverrides(n.fields, overrides)));
    Loaded(sorted, tpl, HiddenFields(overrides))
  }
}
