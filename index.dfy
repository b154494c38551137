/** The records of the index document and what the streaming decoder hands to
    the pipeline. The token-level JSON reader is not modelled: a document is the
    sequence of its top-level fields as the decoder reports them, each target
    field holding its array elements, and each read whose error the program
    checks is a constructor of its own. */
module Index {

  /** One `reporting_plans` entry: its `plan_name`. */
  datatype ReportingPlan = ReportingPlan(planName: string)

  /** One `in_network_files` entry: its `location`. */
  datatype InNetworkFile = InNetworkFile(location: string)

  /** One element of the `reporting_structure` array. A sub-field missing from
      the JSON decodes as an empty sequence. */
  datatype ReportingStructure =
    ReportingStructure(inNetworkFiles: seq<InNetworkFile>, reportingPlans: seq<ReportingPlan>)

  /** The only top-level field whose value is decoded. */
  const TargetField: string := "reporting_structure"

  /** An array element: decoded into a record, or rejected by the decoder. */
  datatype Element = Decoded(structure: ReportingStructure) | Undecodable

  /** The value of a top-level field. It is looked at only for the target field:
      either the array's opening token could not be read, or the array's elements. */
  datatype FieldValue = ArrayStartError | ArrayValue(elements: seq<Element>)

  /** A top-level field: its name could not be read, or a name and a value. */
  datatype Field = FieldNameError | Field(name: string, value: FieldValue)

  /** The whole document: the opening of the top-level object could not be read,
      or the object's fields in stream order. */
  datatype Document = ObjectStartError | Document(fields: seq<Field>)

  /** The reading step that failed; each ends the run. */
  datatype Stage = ObjectStartStage | FieldNameStage | ArrayStartStage | DecodeStage

  datatype Status = Completed | Fatal(stage: Stage)

  /** The records the decoder delivers before it stops, and why it stopped. */
  datatype Decoding = Decoding(records: seq<ReportingStructure>, status: Status)

  /** The inner loop over the target array: records up to the first element
      that fails to decode, which ends the run. */
  function DecodeElements(elements: seq<Element>): Decoding
  {
    if elements == [] then Decoding([], Completed)
    else match elements[0]
      case Undecodable => Decoding([], Fatal(DecodeStage))
      case Decoded(rs) =>
        var rest := DecodeElements(elements[1..]);
        Decoding([rs] + rest.records, rest.status)
  }

  /** A field takes part in decoding when its name is the target, or when its
      name could not be read. */
  predicate TakesPart(f: Field)
  {
    f.FieldNameError? || f.name == TargetField
  }

  /** The outer loop over the top-level fields. Fields with other names are
      passed over. The first target field ends the loop: the inner loop stops
      in front of the array's closing bracket without reading it, so the next
      test for more top-level fields sees that bracket and fails. */
  function DecodeFields(fields: seq<Field>): (d: Decoding)
    ensures (forall k :: 0 <= k < |fields| ==> !TakesPart(fields[k])) ==> d == Decoding([], Completed)
    ensures forall m :: 0 <= m < |d.records| ==>
              exists k :: 0 <= k < |fields| && fields[k].Field? && fields[k].name == TargetField &&
                          fields[k].value.ArrayValue? && Decoded(d.records[m]) in fields[k].value.elements
  {
    if fields == [] then Decoding([], Completed)
    else match fields[0]
      case FieldNameError => Decoding([], Fatal(FieldNameStage))
      case Field(name, value) =>
        if name != TargetField then
          var rest := DecodeFields(fields[1..]);
          assert forall k :: 1 <= k < |fields| ==> fields[k] == fields[1..][k - 1];
          rest
        else match value
          case ArrayStartError => Decoding([], Fatal(ArrayStartStage))
          case ArrayValue(elements) =>
            var here := DecodeElements(elements);
            DecodedRecordsComeFromElements(elements);
            assert forall m :: 0 <= m < |here.records| ==> elements[m] == Decoded(here.records[m]);
            here
  }

  /** What the decoder delivers for a whole document: nothing when the object
      cannot be opened, and otherwise only elements of a target array. */
  function Decode(doc: Document): (d: Decoding)
    ensures doc.ObjectStartError? ==> d.status == Fatal(ObjectStartStage)
    ensures forall m :: 0 <= m < |d.records| ==>
              doc.Document? &&
              exists k :: 0 <= k < |doc.fields| && doc.fields[k].Field? && doc.fields[k].name == TargetField &&
                          doc.fields[k].value.ArrayValue? && Decoded(d.records[m]) in doc.fields[k].value.elements
  {
    match doc
    case ObjectStartError => Decoding([], Fatal(ObjectStartStage))
    case Document(fields) =>
      var d := DecodeFields(fields);
      forall m | 0 <= m < |d.records|
        ensures exists k :: 0 <= k < |doc.fields| && doc.fields[k].Field? && doc.fields[k].name == TargetField &&
                            doc.fields[k].value.ArrayValue? && Decoded(d.records[m]) in doc.fields[k].value.elements
      {
        var k :| 0 <= k < |fields| && fields[k].Field? && fields[k].name == TargetField &&
                 fields[k].value.ArrayValue? && Decoded(d.records[m]) in fields[k].value.elements;
        assert doc.fields[k] == fields[k];
      }
      d
  }

  /** Decoding an array in two parts: once the first part decodes, the second
      one continues it. */
  lemma {:induction false} DecodeElementsAppend(a: seq<Element>, b: seq<Element>)
    requires DecodeElements(a).status == Completed
    ensures DecodeElements(a + b) == Decoding(DecodeElements(a).records + DecodeElements(b).records, DecodeElements(b).status)
  {
    if a == [] {
      assert a + b == b;
    } else {
      assert (a + b)[0] == a[0] && (a + b)[1..] == a[1..] + b;
      DecodeElementsAppend(a[1..], b);
    }
  }

  /** A failed element ends the array: nothing after it is decoded. */
  lemma {:induction false} DecodeElementsFailure(a: seq<Element>, b: seq<Element>)
    requires DecodeElements(a).status.Fatal?
    ensures DecodeElements(a + b) == DecodeElements(a)
  {
    assert a != [];
    assert (a + b)[0] == a[0] && (a + b)[1..] == a[1..] + b;
    if a[0].Decoded? {
      DecodeElementsFailure(a[1..], b);
    }
  }

  /** Fields that do not take part can be dropped from the front: decoding
      goes on with what follows them. */
  lemma {:induction false} DecodeFieldsAppend(a: seq<Field>, b: seq<Field>)
    requires forall k :: 0 <= k < |a| ==> !TakesPart(a[k])
    ensures DecodeFields(a + b) == DecodeFields(b)
  {
    if a == [] {
      assert a + b == b;
    } else {
      assert (a + b)[0] == a[0] && (a + b)[1..] == a[1..] + b;
      assert forall k :: 0 <= k < |a[1..]| ==> a[1..][k] == a[k + 1];
      DecodeFieldsAppend(a[1..], b);
    }
  }

  /** Once a field that takes part has been read, decoding is over: whatever
      comes after it is never read. */
  lemma {:induction false} DecodeFieldsEnds(a: seq<Field>, b: seq<Field>)
    requires exists k :: 0 <= k < |a| && TakesPart(a[k])
    ensures DecodeFields(a + b) == DecodeFields(a)
  {
    var k :| 0 <= k < |a| && TakesPart(a[k]);
    assert (a + b)[0] == a[0] && (a + b)[1..] == a[1..] + b;
    if !TakesPart(a[0]) {
      assert a[1..][k - 1] == a[k];
      DecodeFieldsEnds(a[1..], b);
    }
  }

  /** A failure in the first part of the fields ends decoding there. */
  lemma DecodeFieldsFailure(a: seq<Field>, b: seq<Field>)
    requires DecodeFields(a).status.Fatal?
    ensures DecodeFields(a + b) == DecodeFields(a)
  {
    DecodeFieldsEnds(a, b);
  }

  /** The records of a document are exactly those of its first target array:
      the fields before it have other names, and the fields after it are never
      read. */
  lemma DecodeReadsFirstTargetArray(before: seq<Field>, elements: seq<Element>, after: seq<Field>)
    requires forall k :: 0 <= k < |before| ==> !TakesPart(before[k])
    ensures Decode(Document(before + [Field(TargetField, ArrayValue(elements))] + after)) == DecodeElements(elements)
  {
    var target := Field(TargetField, ArrayValue(elements));
    assert before + [target] + after == before + ([target] + after);
    DecodeFieldsAppend(before, [target] + after);
    assert ([target] + after)[0] == target;
  }

  /** What one more element contributes, once those before it have decoded. */
  lemma DecodeElementsStep(elements: seq<Element>, j: int)
    requires 0 <= j < |elements| && DecodeElements(elements[..j]).status == Completed
    ensures elements[j].Undecodable? ==>
              DecodeElements(elements) == Decoding(DecodeElements(elements[..j]).records, Fatal(DecodeStage))
    ensures elements[j].Decoded? ==>
              DecodeElements(elements[..j + 1]) ==
              Decoding(DecodeElements(elements[..j]).records + [elements[j].structure], Completed)
  {
    var before := DecodeElements(elements[..j]).records;
    if elements[j].Undecodable? {
      assert elements == elements[..j] + elements[j..];
      DecodeElementsAppend(elements[..j], elements[j..]);
      assert elements[j..][0] == elements[j];
      assert before + [] == before;
    } else {
      assert elements[..j + 1] == elements[..j] + [elements[j]];
      DecodeElementsAppend(elements[..j], [elements[j]]);
      assert [elements[j]][1..] == [];
    }
  }

  /** Once the fields before `i` have all been passed over, the field at `i`
      decides the outcome alone; when there is none, decoding completes with
      no records. */
  lemma DecodeFieldsStep(fields: seq<Field>, i: int)
    requires 0 <= i <= |fields|
    requires forall k :: 0 <= k < i ==> !TakesPart(fields[k])
    ensures i == |fields| ==> DecodeFields(fields) == Decoding([], Completed)
    ensures i < |fields| ==>
              match fields[i]
              case FieldNameError => DecodeFields(fields) == Decoding([], Fatal(FieldNameStage))
              case Field(name, value) =>
                name == TargetField ==>
                  match value
                  case ArrayStartError => DecodeFields(fields) == Decoding([], Fatal(ArrayStartStage))
                  case ArrayValue(elements) => DecodeFields(fields) == DecodeElements(elements)
  {
    assert fields == fields[..i] + fields[i..];
    DecodeFieldsAppend(fields[..i], fields[i..]);
    if i < |fields| {
      assert fields[i..][0] == fields[i];
    }
  }

  function FieldsTakingPart(fields: seq<Field>): (kept: seq<Field>)
    ensures forall k :: 0 <= k < |kept| ==> TakesPart(kept[k])
  {
    if fields == [] then []
    else if TakesPart(fields[0]) then [fields[0]] + FieldsTakingPart(fields[1..])
    else FieldsTakingPart(fields[1..])
  }

  /** Only the target field feeds the pipeline: the other fields, their names and
      their values play no part in what is decoded. */
  lemma {:induction false} OnlyTargetFieldsDecoded(fields: seq<Field>)
    ensures DecodeFields(fields) == DecodeFields(FieldsTakingPart(fields))
  {
    if fields != [] {
      OnlyTargetFieldsDecoded(fields[1..]);
      if TakesPart(fields[0]) {
        var kept := FieldsTakingPart(fields);
        assert kept[0] == fields[0] && kept[1..] == FieldsTakingPart(fields[1..]);
      }
    }
  }

  /** The records delivered are the array's elements, in order, up to the first
      one that fails to decode; decoding completes exactly when every element
      decodes, and then every element has given its record. */
  lemma {:induction false} DecodedRecordsComeFromElements(elements: seq<Element>)
    ensures |DecodeElements(elements).records| <= |elements|
    ensures forall k :: 0 <= k < |DecodeElements(elements).records| ==>
              elements[k] == Decoded(DecodeElements(elements).records[k])
    ensures var d := DecodeElements(elements);
            |d.records| < |elements| ==> elements[|d.records|].Undecodable? && d.status == Fatal(DecodeStage)
    ensures DecodeElements(elements).status == Completed <==>
              (forall k :: 0 <= k < |elements| ==> elements[k].Decoded?)
    ensures DecodeElements(elements).status == Completed <==> |DecodeElements(elements).records| == |elements|
  {
    if elements != [] && elements[0].Decoded? {
      DecodedRecordsComeFromElements(elements[1..]);
      assert forall k :: 1 <= k < |elements| ==> elements[k] == elements[1..][k - 1];
    }
  }
}
