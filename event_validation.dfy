/**
 * `validate_event_details`: an accept/reject check of the event record the
 * vision model produced. It requires the keys "summary", "start" and "end",
 * in that order; then, for "start" and then "end", a "dateTime" entry that
 * `datetime.fromisoformat` accepts once every 'Z' is rewritten to "+00:00".
 * On success it hands back its input unchanged.
 *
 * Python's operators are modelled as Python evaluates them on a decoded JSON
 * value: `in` on a str is a substring test and on a list an element test,
 * and indexing a str or list by a str, `in` on a number, or `.replace` on a
 * non-str raise TypeError or AttributeError, which the validator does not
 * catch.
 */
module EventValidation {
  import opened Wrappers
  import opened JsonValues
  import opened IsoDateTime

  /** The exception `validate_event_details` raises, with the field it concerns. */
  datatype ValidationError =
    | MissingField(field: string)       // ValueError "Missing required field: <field>"
    | MissingDateTime(field: string)    // ValueError "Missing dateTime in <field>"
    | InvalidDateTime(field: string)    // ValueError "Invalid datetime format in <field>: ..."
    | TypeError(field: string)          // `in` or `[...]` applied to a value of the wrong kind
    | AttributeError(field: string)     // `.replace` on a "dateTime" that is not a str

  const RequiredFields: seq<string> := ["summary", "start", "end"]
  const TimeFields: seq<string> := ["start", "end"]

  /**
   * `str(e)` for the three ValueErrors the validator raises itself; for the
   * third, the text up to `fromisoformat`'s own detail, which is not modelled.
   */
  function Message(e: ValidationError): (m: string)
    ensures e.MissingField? ==> m == "Missing required field: " + e.field
    ensures e.MissingDateTime? ==> m == "Missing dateTime in " + e.field
    ensures e.InvalidDateTime? ==> m == "Invalid datetime format in " + e.field + ": "
  {
    match e
    case MissingField(f) => "Missing required field: " + f
    case MissingDateTime(f) => "Missing dateTime in " + f
    case InvalidDateTime(f) => "Invalid datetime format in " + f + ": "
    case TypeError(f) => "TypeError at " + f
    case AttributeError(f) => "AttributeError at " + f
  }

  /** The loop over the required fields: the first one `d` lacks, in order. */
  function CheckRequired(d: Json, fields: seq<string>): (r: Result<(), ValidationError>)
    ensures r.Ok? <==> forall i :: 0 <= i < |fields| ==> PyContains(d, fields[i]) == Some(true)
  {
    if fields == [] then Ok(())
    else
      match PyContains(d, fields[0])
      case None => Err(TypeError(fields[0]))
      case Some(false) => Err(MissingField(fields[0]))
      case Some(true) => CheckRequired(d, fields[1..])
  }

  /** `fields[i]` is the first of `fields` that `key in d` does not confirm. */
  predicate FirstFailure(d: Json, fields: seq<string>, i: nat)
    requires i < |fields|
  {
    PyContains(d, fields[i]) != Some(true)
    && forall j :: 0 <= j < i ==> PyContains(d, fields[j]) == Some(true)
  }

  /** The error `key in d` draws for `key`: TypeError when it raises, else a missing field. */
  function RequiredError(d: Json, key: string): ValidationError
  {
    if PyContains(d, key).None? then TypeError(key) else MissingField(key)
  }

  /** The check stops at the first field that is not confirmed, and reports that one. */
  lemma {:induction false} FirstFailureReported(d: Json, fields: seq<string>, i: nat)
    requires i < |fields| && FirstFailure(d, fields, i)
    ensures CheckRequired(d, fields) == Err(RequiredError(d, fields[i]))
  {
    if i > 0 {
      assert PyContains(d, fields[0]) == Some(true);
      assert FirstFailure(d, fields[1..], i - 1) by {
        forall j | 0 <= j < i - 1
          ensures PyContains(d, fields[1..][j]) == Some(true)
        {
          assert fields[1..][j] == fields[j + 1];
        }
      }
      FirstFailureReported(d, fields[1..], i - 1);
    }
  }

  /** One pass of the loop over "start" and "end"; `f` is known to be `in d`. */
  function CheckTimeField(d: Json, f: string): (r: Result<(), ValidationError>)
    requires PyContains(d, f) == Some(true)
    ensures r.Ok? <==> HasIsoDateTime(d, f)
  {
    if !d.JObj? then Err(TypeError(f))                   // a str or list indexed by a str
    else
      var v := d.fields[f];
      match PyContains(v, "dateTime")
      case None => Err(TypeError(f))
      case Some(false) => Err(MissingDateTime(f))
      case Some(true) =>
        if !v.JObj? then Err(TypeError(f))               // a str or list indexed by a str
        else
          match v.fields["dateTime"]
          case JStr(s) => if IsoFormatAccepts(s) then Ok(()) else Err(InvalidDateTime(f))
          case _ => Err(AttributeError(f))
  }

  function CheckTimeFields(d: Json, fields: seq<string>): (r: Result<(), ValidationError>)
    requires forall i :: 0 <= i < |fields| ==> PyContains(d, fields[i]) == Some(true)
    ensures r.Ok? <==> forall i :: 0 <= i < |fields| ==> HasIsoDateTime(d, fields[i])
  {
    if fields == [] then Ok(())
    else
      match CheckTimeField(d, fields[0])
      case Err(e) => Err(e)
      case Ok(_) => CheckTimeFields(d, fields[1..])
  }

  /** `d` is a dict whose entry `f` is a dict holding an ISO "dateTime" str. */
  predicate HasIsoDateTime(d: Json, f: string)
  {
    && d.JObj? && f in d.fields
    && d.fields[f].JObj? && "dateTime" in d.fields[f].fields
    && d.fields[f].fields["dateTime"].JStr?
    && IsoFormatAccepts(d.fields[f].fields["dateTime"].s)
  }

  /**
   * The records the validator accepts, stated independently of the order of
   * its checks: a dict with "summary", and with "start" and "end" entries
   * that each hold an acceptable "dateTime". Nothing relates start to end.
   */
  predicate IsEventDetails(d: Json)
  {
    d.JObj? && "summary" in d.fields && HasIsoDateTime(d, "start") && HasIsoDateTime(d, "end")
  }

  function ValidateEventDetails(d: Json): (r: Result<Json, ValidationError>)
    ensures r.Ok? ==> r.value == d
  {
    match CheckRequired(d, RequiredFields)
    case Err(e) => Err(e)
    case Ok(_) =>
      assert PyContains(d, RequiredFields[1]) == Some(true) && PyContains(d, RequiredFields[2]) == Some(true);
      match CheckTimeFields(d, TimeFields)
      case Err(e) => Err(e)
      case Ok(_) => Ok(d)
  }

  /** Validation succeeds exactly on the records `IsEventDetails` describes. */
  lemma ValidateAcceptsExactly(d: Json)
    ensures ValidateEventDetails(d).Ok? <==> IsEventDetails(d)
  {
    var req := CheckRequired(d, RequiredFields);
    if IsEventDetails(d) {
      assert forall i :: 0 <= i < |RequiredFields| ==> PyContains(d, RequiredFields[i]) == Some(true);
      assert forall i :: 0 <= i < |TimeFields| ==> HasIsoDateTime(d, TimeFields[i]);
    }
    if ValidateEventDetails(d).Ok? {
      assert req.Ok?;
      assert PyContains(d, RequiredFields[0]) == Some(true);
      assert CheckTimeFields(d, TimeFields).Ok?;
      assert HasIsoDateTime(d, TimeFields[0]) && HasIsoDateTime(d, TimeFields[1]);
    }
  }

  /**
   * When the record is a dict lacking one of "summary", "start", "end", the
   * error names the first missing one in that order.
   */
  lemma FirstMissingFieldReported(d: Json, i: nat)
    requires d.JObj? && i < |RequiredFields|
    requires RequiredFields[i] !in d.fields
    requires forall j :: 0 <= j < i ==> RequiredFields[j] in d.fields
    ensures ValidateEventDetails(d) == Err(MissingField(RequiredFields[i]))
    ensures Message(ValidateEventDetails(d).error) == "Missing required field: " + RequiredFields[i]
  {
    FirstFailureReported(d, RequiredFields, i);
  }

  /** "start" is checked completely before "end": its fault is the one reported. */
  lemma StartCheckedBeforeEnd(d: Json)
    requires d.JObj? && "summary" in d.fields && "start" in d.fields && "end" in d.fields
    requires !HasIsoDateTime(d, "start")
    ensures ValidateEventDetails(d).Err?
    ensures ValidateEventDetails(d).error == CheckTimeField(d, "start").error
  {
    assert CheckRequired(d, RequiredFields).Ok?;
    assert TimeFields[0] == "start";
    assert CheckTimeFields(d, TimeFields) == CheckTimeField(d, "start");
  }

  /**
   * A "start" or "end" dict without a "dateTime" key fails with "Missing
   * dateTime in <field>", "start" taking precedence.
   */
  lemma MissingDateTimeReported(d: Json, f: string)
    requires d.JObj? && "summary" in d.fields && "start" in d.fields && "end" in d.fields
    requires f == "start" || f == "end"
    requires d.fields[f].JObj? && "dateTime" !in d.fields[f].fields
    requires f == "end" ==> HasIsoDateTime(d, "start")
    ensures ValidateEventDetails(d) == Err(MissingDateTime(f))
  {
    assert CheckRequired(d, RequiredFields).Ok?;
    assert CheckTimeField(d, f) == Err(MissingDateTime(f));
    assert TimeFields[0] == "start" && TimeFields[1..] == ["end"];
    if f == "end" {
      assert CheckTimeField(d, "start").Ok?;
      assert CheckTimeFields(d, TimeFields) == CheckTimeFields(d, ["end"]);
    }
  }

  /**
   * A "start" or "end" dict whose "dateTime" str the date-time parser rejects
   * fails with "Invalid datetime format in <field>: ", "start" taking
   * precedence.
   */
  lemma InvalidDateTimeReported(d: Json, f: string)
    requires d.JObj? && "summary" in d.fields && "start" in d.fields && "end" in d.fields
    requires f == "start" || f == "end"
    requires d.fields[f].JObj? && "dateTime" in d.fields[f].fields
    requires d.fields[f].fields["dateTime"].JStr? && !IsoFormatAccepts(d.fields[f].fields["dateTime"].s)
    requires f == "end" ==> HasIsoDateTime(d, "start")
    ensures ValidateEventDetails(d) == Err(InvalidDateTime(f))
    ensures Message(ValidateEventDetails(d).error) == "Invalid datetime format in " + f + ": "
  {
    assert CheckRequired(d, RequiredFields).Ok?;
    assert CheckTimeField(d, f) == Err(InvalidDateTime(f));
    assert TimeFields[0] == "start" && TimeFields[1..] == ["end"];
    if f == "end" {
      assert CheckTimeField(d, "start").Ok?;
      assert CheckTimeFields(d, TimeFields) == CheckTimeFields(d, ["end"]);
    }
  }

  /**
   * A dateTime is checked only for its form, never against the other one:
   * swapping the "start" and "end" of an accepted pair is accepted too, so
   * an end before its start passes.
   */
  lemma NoOrderingBetweenStartAndEnd(summary: Json, start: Json, end: Json)
    requires start.JObj? && "dateTime" in start.fields && start.fields["dateTime"].JStr?
    requires end.JObj? && "dateTime" in end.fields && end.fields["dateTime"].JStr?
    requires IsoFormatAccepts(start.fields["dateTime"].s) && IsoFormatAccepts(end.fields["dateTime"].s)
    ensures var d := JObj(map["summary" := summary, "start" := end, "end" := start]);
      ValidateEventDetails(d) == Ok(d)
  {
    var d := JObj(map["summary" := summary, "start" := end, "end" := start]);
    ValidateAcceptsExactly(d);
  }
}
