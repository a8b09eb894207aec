/** The question editor: the form prefill and the payload `handleSubmit`
    builds from the form's label, type and comma-separated options. */
module QuestionModal {
  import opened Wrappers
  import opened Fields
  import JsString

  /** A submitted question (`caption` stands for the `label` property). */
  datatype Question = Question(id: string, caption: string, kind: FieldType, options: Option<seq<string>>)

  /** The three form inputs: label, type and the options text. */
  datatype Draft = Draft(caption: string, kind: FieldType, optionsText: string)

  predicate HasOptions(kind: FieldType) { kind == Select || kind == MultiSelect }

  /** The form state set when the modal opens: the edited question's label
      and type, its options joined with ',', or an empty text question. */
  function Prefill(field: Option<Question>): (d: Draft)
    ensures field.None? ==> d == Draft("", Text, "")
  {
    match field
    case None => Draft("", Text, "")
    case Some(q) => Draft(q.caption, q.kind, if q.options.Some? then JsString.Join(q.options.value, ',') else "")
  }

  /** The pieces trimmed, with the blank ones dropped. */
  function TrimmedNonBlank(pieces: seq<string>): seq<string>
  {
    if pieces == [] then [] else Kept(pieces[0]) + TrimmedNonBlank(pieces[1..])
  }

  /** The options text split at commas, each piece trimmed and the blank
      ones dropped. */
  function CleanOptions(text: string): (opts: seq<string>)
    ensures forall k :: 0 <= k < |opts| ==> opts[k] != "" && JsString.IsTrimmed(opts[k]) && ',' !in opts[k]
  {
    var pieces := JsString.Split(text, ',');
    TrimmedNonBlankShape(pieces);
    TrimmedOptionsCommaFree(pieces);
    TrimmedNonBlank(pieces)
  }

  /** Every kept option is non-empty and trimmed, and none is invented. */
  lemma {:induction false} TrimmedNonBlankShape(pieces: seq<string>)
    ensures |TrimmedNonBlank(pieces)| <= |pieces|
    ensures forall k :: 0 <= k < |TrimmedNonBlank(pieces)| ==>
              TrimmedNonBlank(pieces)[k] != "" && JsString.IsTrimmed(TrimmedNonBlank(pieces)[k])
  {
    if pieces != [] {
      TrimmedNonBlankShape(pieces[1..]);
      var t := JsString.Trim(pieces[0]);
      assert t != "" ==> JsString.IsTrimmed(t);
    }
  }

  lemma {:induction false} TrimmedOptionsCommaFree(pieces: seq<string>)
    requires forall k :: 0 <= k < |pieces| ==> ',' !in pieces[k]
    ensures forall k :: 0 <= k < |TrimmedNonBlank(pieces)| ==> ',' !in TrimmedNonBlank(pieces)[k]
  {
    if pieces != [] {
      TrimmedOptionsCommaFree(pieces[1..]);
      JsString.TrimInside(pieces[0]);
    }
  }

  /** `handleSubmit`: nothing is submitted for a blank label; otherwise the
      payload keeps the edited question's id (or takes the fresh one), the
      trimmed label, the type, and the cleaned options for the two select
      types only. */
  function HandleSubmit(d: Draft, field: Option<Question>, freshId: string): (r: Option<Question>)
    ensures r.None? <==> JsString.Trim(d.caption) == ""
    ensures r.Some? ==> r.value.caption == JsString.Trim(d.caption) && r.value.kind == d.kind
    ensures r.Some? ==> r.value.id == (if field.Some? then field.value.id else freshId)
    ensures r.Some? ==> (r.value.options.Some? <==> HasOptions(d.kind))
    ensures r.Some? && r.value.options.Some? ==> r.value.options.value == CleanOptions(d.optionsText)
  {
    var caption := JsString.Trim(d.caption);
    if caption == "" then None
    else
      var id := if field.Some? then field.value.id else freshId;
      Some(Question(id, caption, d.kind, if HasOptions(d.kind) then Some(CleanOptions(d.optionsText)) else None))
  }

  /** A label made of white space only is rejected, and only such a label. */
  lemma BlankRejected(d: Draft, field: Option<Question>, freshId: string)
    ensures HandleSubmit(d, field, freshId).None? <==>
            forall i :: 0 <= i < |d.caption| ==> JsString.IsWhitespace(d.caption[i])
  {
    JsString.TrimBlank(d.caption);
  }

  /** Cleaning keeps the input order: the options of a concatenation are the
      options of each part, one after the other. */
  lemma {:induction false} TrimmedNonBlankAppend(a: seq<string>, b: seq<string>)
    ensures TrimmedNonBlank(a + b) == TrimmedNonBlank(a) + TrimmedNonBlank(b)
  {
    if a == [] {
      assert a + b == b;
    } else {
      var rest := a[1..];
      assert a + b == [a[0]] + (rest + b);
      TrimmedNonBlankCons(a[0], rest + b);
      TrimmedNonBlankAppend(rest, b);
      assert a == [a[0]] + rest;
      TrimmedNonBlankCons(a[0], rest);
      Associate(Kept(a[0]), TrimmedNonBlank(rest), TrimmedNonBlank(b));
    }
  }

  /** The options one piece contributes. */
  function Kept(piece: string): seq<string> {
    var t := JsString.Trim(piece);
    if t == "" then [] else [t]
  }

  lemma TrimmedNonBlankCons(piece: string, rest: seq<string>)
    ensures TrimmedNonBlank([piece] + rest) == Kept(piece) + TrimmedNonBlank(rest)
  {
    assert ([piece] + rest)[0] == piece && ([piece] + rest)[1..] == rest;
  }

  lemma Associate<T>(x: seq<T>, y: seq<T>, z: seq<T>)
    ensures (x + y) + z == x + (y + z)
  {
  }

  /** Options that are already clean pass through unchanged. */
  lemma {:induction false} TrimmedNonBlankClean(opts: seq<string>)
    requires forall k :: 0 <= k < |opts| ==> opts[k] != "" && JsString.IsTrimmed(opts[k])
    ensures TrimmedNonBlank(opts) == opts
  {
    if opts != [] {
      JsString.TrimFixesTrimmed(opts[0]);
      TrimmedNonBlankClean(opts[1..]);
    }
  }

  predicate CleanOption(o: string) { o != "" && JsString.IsTrimmed(o) && ',' !in o }

  /** Joining with ',' for the prefill and cleaning on submit gives back the
      options, when each is trimmed, non-empty and free of commas. */
  lemma OptionsRoundTrip(opts: seq<string>)
    requires forall k :: 0 <= k < |opts| ==> CleanOption(opts[k])
    ensures CleanOptions(JsString.Join(opts, ',')) == opts
  {
    if opts == [] {
      assert JsString.Split("", ',') == [""];
      assert JsString.Trim("") == "";
    } else {
      JsString.SplitJoin(opts, ',');
      TrimmedNonBlankClean(opts);
    }
  }

  /** A question that the form could have produced comes back unchanged
      when it is opened for editing and submitted as it is. */
  lemma EditRoundTrip(q: Question, freshId: string)
    requires q.caption != "" && JsString.IsTrimmed(q.caption)
    requires HasOptions(q.kind) <==> q.options.Some?
    requires q.options.Some? ==> forall k :: 0 <= k < |q.options.value| ==> CleanOption(q.options.value[k])
    ensures HandleSubmit(Prefill(Some(q)), Some(q), freshId) == Some(q)
  {
    JsString.TrimFixesTrimmed(q.caption);
    if q.options.Some? {
      OptionsRoundTrip(q.options.value);
    }
  }
}
