/**
 ParsedData of parser3.h. The template list of fields is a sequence of
 descriptors; the members of the fields are two arrays, the present flags and
 the values.
 */
module Fields {
  import opened Text
  import opened Obis
  import opened Decoder

  datatype Field = Field(id: ObisId, shape: Shape)

  predicate ValidFields(fields: seq<Field>) {
    forall i :: 0 <= i < |fields| ==> fields[i].shape.Valid()
  }

  /** The contents of a ParsedData object. */
  datatype Data = Data(present: seq<bool>, values: seq<Value>)

  predicate Sized(fields: seq<Field>, d: Data) {
    |d.present| == |d.values| == |fields|
  }

  /** The first field from position k on that has the id, or the number of fields. */
  function IndexOf(fields: seq<Field>, id: ObisId, k: nat): (i: nat)
    requires k <= |fields|
    ensures k <= i <= |fields|
    ensures i < |fields| ==> fields[i].id == id
    ensures forall j :: k <= j < i ==> fields[j].id != id
    decreases |fields| - k
  {
    if k == |fields| || fields[k].id == id then k else IndexOf(fields, id, k + 1)
  }

  /** What a line with the given id does to its field; s is the text after the id. */
  function ParseField(fields: seq<Field>, d: Data, i: nat, s: string, rest: string): (r: (Data, Parsed<()>))
    requires ValidFields(fields) && Sized(fields, d) && i <= |fields|
    ensures Sized(fields, r.0)
  {
    if i == |fields| then (d, Ok((), 0))
    else if d.present[i] then (d, Fail(DuplicateField, 0))
    else
      var r := Decode(fields[i].shape, d.values[i], s, rest);
      (Data(d.present[i := r.result.Ok? && !r.absent], d.values[i := r.value]), r.result)
  }

  function Cleared(fields: seq<Field>, d: Data, i: nat): (r: Data)
    requires Sized(fields, d) && i <= |fields|
    ensures Sized(fields, r)
  {
    if i == |fields| then d else d.(present := d.present[i := false])
  }

  class ParsedData {
    const fields: seq<Field>
    const present: array<bool>
    const values: array<Value>

    ghost predicate Valid() {
      ValidFields(fields) && present.Length == values.Length == |fields|
    }

    ghost function Contents(): (d: Data)
      reads present, values
      ensures Valid() ==> Sized(fields, d)
    {
      Data(present[..], values[..])
    }

    constructor (fields: seq<Field>)
      requires ValidFields(fields)
      ensures Valid() && this.fields == fields && fresh(present) && fresh(values)
      ensures forall i :: 0 <= i < |fields| ==> !present[i] && values[i] == BLANK
    {
      this.fields := fields;
      present := new bool[|fields|](_ => false);
      values := new Value[|fields|](_ => BLANK);
    }

    /** Try the fields from position k on, as the recursion over the template list does. */
    method ParseLineInlined(k: nat, id: ObisId, s: string, rest: string) returns (res: Parsed<()>)
      requires Valid() && k <= |fields|
      modifies present, values
      ensures (Contents(), res) == ParseField(fields, old(Contents()), IndexOf(fields, id, k), s, rest)
      decreases |fields| - k
    {
      if k == |fields| {
        return Ok((), 0);
      }
      if id == fields[k].id {
        if present[k] {
          return Fail(DuplicateField, 0);
        }
        present[k] := true;
        var decoded := DecodeField(fields[k].shape, values[k], s, rest);
        values[k] := decoded.value;
        if decoded.absent {
          present[k] := false;
        }
        res := decoded.result;
        if res.Fail? {
          present[k] := false;
        }
        assert present[..] == old(present[..])[k := res.Ok? && !decoded.absent];
        assert values[..] == old(values[..])[k := decoded.value];
      } else {
        res := ParseLineInlined(k + 1, id, s, rest);
      }
    }

    method ParseLine(id: ObisId, s: string, rest: string) returns (res: Parsed<()>)
      requires Valid()
      modifies present, values
      ensures (Contents(), res) == ParseField(fields, old(Contents()), IndexOf(fields, id, 0), s, rest)
    {
      res := ParseLineInlined(0, id, s, rest);
    }

    method ClearPresent(k: nat, id: ObisId)
      requires Valid() && k <= |fields|
      modifies present
      ensures Contents() == Cleared(fields, old(Contents()), IndexOf(fields, id, k))
      decreases |fields| - k
    {
      if k < |fields| {
        if id == fields[k].id {
          present[k] := false;
        } else {
          ClearPresent(k + 1, id);
        }
      }
    }
  }
}
