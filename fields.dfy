/** The template and field records of the home page. */
module Fields {
  import opened Wrappers

  /** The closed set of question types. */
  datatype FieldType = Text | Number | Select | MultiSelect | Currency | Note | Date

  /** One question of a template: its id, label (`caption`, as `label` is a
      Dafny keyword), type, options (select and
      multi-select only), grid position, display order and optional size. */
  datatype Field = Field(
    id: string, caption: string, kind: FieldType, options: Option<seq<string>>,
    x: int, y: int, order: int, w: Option<int>, h: Option<int>)

  datatype Template = Template(id: string, name: string, fields: seq<Field>)

  /** The ids of the fields, in their order. */
  function FieldIds(fields: seq<Field>): (ids: seq<string>)
    ensures |ids| == |fields|
    ensures forall k :: 0 <= k < |fields| ==> ids[k] == fields[k].id
  {
    if fields == [] then [] else [fields[0].id] + FieldIds(fields[1..])
  }

  /** The ids listed are the ids of the fields. */
  lemma FieldIdsSet(fields: seq<Field>)
    ensures (set id | id in FieldIds(fields)) == set f | f in fields :: f.id
  {
    var ids := FieldIds(fields);
    forall id | id in ids ensures id in (set f | f in fields :: f.id) {
      var k :| 0 <= k < |ids| && ids[k] == id;
      assert fields[k] in fields;
    }
  }
}
