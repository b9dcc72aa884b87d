/** `OpenApiSchemaValidator`: validates JSON text against the response schema
    resolved for one suffix. The JSON parser and the schema evaluator are
    external libraries and enter as parameters:
    - `parseJson(text)` is Jackson's `readTree`, `None` when it throws;
    - `evaluate(context, schema, instance)` is openapi4j's `SchemaValidator`,
      returning the validation items of one evaluation pass in discovery order;
      the context is the whole specification, against which `$ref`s resolve. */
module OpenApiSchemaValidator {
  import opened Results
  import opened Json
  import Strings

  /** A validator bound to a suffix, its schema fragment and the document the
      fragment's references resolve against. */
  datatype Validator = Validator(suffix: string, context: Json, schema: Json)

  /** openapi4j's `ValidationSeverity` of one validation item. */
  datatype Severity = Info | Warning | Error

  /** A `ValidationItem`: its severity and the text its `toString` renders. */
  datatype Item = Item(severity: Severity, text: string)

  type JsonParser = string -> Option<Json>
  type SchemaEvaluator = (Json, Json, Json) -> seq<Item>

  /** `ValidationData.isValid()`: no item reaches the error severity. Info and
      warning items do not make a result invalid. */
  predicate IsValid(items: seq<Item>) {
    forall i :: 0 <= i < |items| ==> items[i].severity != Error
  }

  /** The rendered text of every item, in order. */
  function Texts(items: seq<Item>): (r: seq<string>)
    ensures |r| == |items|
    ensures forall i :: 0 <= i < |items| ==> r[i] == items[i].text
  {
    if |items| == 0 then [] else [items[0].text] + Texts(items[1..])
  }

  const MalformedPrefix := "Unable to parse JSON:\n"

  /** Prefix of the schema-violation message for `suffix`. */
  function ViolationPrefix(suffix: string): string {
    "JSON invalid for suffix '" + suffix + "': "
  }

  /** `getSuffix`: the suffix the validator was built for. */
  function GetSuffix(v: Validator): (r: string)
    ensures r == v.suffix
  {
    v.suffix
  }

  /** `validate`: parse, then check against the schema. Unparsable text is
      reported with the text itself and the schema is not consulted; parsed
      text without an error-level item passes; otherwise every item, of any
      severity, is reported, one per line, after the suffix. */
  function Validate(v: Validator, text: string, parseJson: JsonParser, evaluate: SchemaEvaluator): (r: Outcome)
    ensures r.Pass? <==> parseJson(text).Some? && IsValid(evaluate(v.context, v.schema, parseJson(text).value))
    ensures r.Fail? && r.error.MalformedJson? <==> parseJson(text).None?
    ensures parseJson(text).None? ==> r.error.message == MalformedPrefix + text
    ensures r.Fail? && r.error.SchemaViolation? ==>
              && parseJson(text).Some?
              && r.error.findings == Texts(evaluate(v.context, v.schema, parseJson(text).value))
              && |r.error.findings| > 0
              && r.error.message == ViolationPrefix(v.suffix) + Strings.Join(r.error.findings, '\n')
    ensures r.Fail? ==> r.error.MalformedJson? || r.error.SchemaViolation?
  {
    match parseJson(text)
    case None => Fail(MalformedJson(MalformedPrefix + text))
    case Some(node) => ValidateAgainstSchema(v, node, evaluate)
  }

  /** `validateAgainstSchema`: passes when no item is an error, even if
      warnings were reported; fails with the text of every item otherwise. */
  function ValidateAgainstSchema(v: Validator, node: Json, evaluate: SchemaEvaluator): (r: Outcome)
    ensures r.Pass? <==> IsValid(evaluate(v.context, v.schema, node))
    ensures r.Fail? ==> && r.error.SchemaViolation?
                        && r.error.findings == Texts(evaluate(v.context, v.schema, node))
                        && |r.error.findings| > 0
                        && r.error.message == ViolationPrefix(v.suffix) + Strings.Join(r.error.findings, '\n')
  {
    var items := evaluate(v.context, v.schema, node);
    if IsValid(items) then Pass
    else
      var findings := Texts(items);
      Fail(SchemaViolation(findings, ViolationPrefix(v.suffix) + Strings.Join(findings, '\n')))
  }

  /** Warnings alone never fail a response, and a single error-level item
      fails it whatever else was reported. */
  lemma SeverityDecides(v: Validator, node: Json, evaluate: SchemaEvaluator)
    ensures (forall i :: 0 <= i < |evaluate(v.context, v.schema, node)| ==>
               evaluate(v.context, v.schema, node)[i].severity in {Info, Warning})
            ==> ValidateAgainstSchema(v, node, evaluate) == Pass
    ensures (exists i :: 0 <= i < |evaluate(v.context, v.schema, node)| &&
               evaluate(v.context, v.schema, node)[i].severity == Error)
            ==> ValidateAgainstSchema(v, node, evaluate).Fail?
  {
  }

  /** Unparsable input fails the same way whatever the schema says: the
      evaluator is never consulted. */
  lemma MalformedIgnoresSchema(v: Validator, text: string, parseJson: JsonParser, e1: SchemaEvaluator, e2: SchemaEvaluator)
    requires parseJson(text).None?
    ensures Validate(v, text, parseJson, e1) == Validate(v, text, parseJson, e2)
    ensures Validate(v, text, parseJson, e1).Fail?
  {
  }

  /** The violation message lists every finding: finding `i` appears verbatim
      after the prefix, at the offset of its line, and `k` findings are
      separated by exactly `k - 1` newlines of the join (plus any newlines the
      findings carry themselves). */
  lemma ViolationMessageContainsFindings(v: Validator, text: string, parseJson: JsonParser, evaluate: SchemaEvaluator, i: nat)
    requires Validate(v, text, parseJson, evaluate).Fail?
    requires Validate(v, text, parseJson, evaluate).error.SchemaViolation?
    requires i < |Validate(v, text, parseJson, evaluate).error.findings|
    ensures var e := Validate(v, text, parseJson, evaluate).error;
            var o := |ViolationPrefix(v.suffix)| + Strings.PartOffset(e.findings, i);
            && o + |e.findings[i]| <= |e.message|
            && e.message[o..o + |e.findings[i]|] == e.findings[i]
    ensures var e := Validate(v, text, parseJson, evaluate).error;
            Strings.Occurrences(e.message[|ViolationPrefix(v.suffix)|..], '\n')
              == |e.findings| - 1 + Strings.TotalOccurrences(e.findings, '\n')
  {
    var e := Validate(v, text, parseJson, evaluate).error;
    var prefix := ViolationPrefix(v.suffix);
    var joined := Strings.Join(e.findings, '\n');
    Strings.JoinContainsPart(e.findings, '\n', i);
    var o := Strings.PartOffset(e.findings, i);
    assert e.message == prefix + joined;
    assert e.message[|prefix| + o..|prefix| + o + |e.findings[i]|] == joined[o..o + |e.findings[i]|];
    assert e.message[|prefix|..] == joined;
    Strings.JoinSeparatorCount(e.findings, '\n');
  }

  /** When no finding spans several lines, splitting the message body at the
      newlines gives back exactly the findings, in discovery order. */
  lemma ViolationMessageSplitsIntoFindings(v: Validator, text: string, parseJson: JsonParser, evaluate: SchemaEvaluator)
    requires Validate(v, text, parseJson, evaluate).Fail?
    requires Validate(v, text, parseJson, evaluate).error.SchemaViolation?
    requires forall f :: f in Validate(v, text, parseJson, evaluate).error.findings ==> '\n' !in f
    ensures var e := Validate(v, text, parseJson, evaluate).error;
            Strings.Split(e.message[|ViolationPrefix(v.suffix)|..], '\n') == e.findings
  {
    var e := Validate(v, text, parseJson, evaluate).error;
    assert e.message[|ViolationPrefix(v.suffix)|..] == Strings.Join(e.findings, '\n');
    Strings.SplitJoin(e.findings, '\n');
  }
}
