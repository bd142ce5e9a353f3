/** Template-driven notebooks (`sciwyrm/notebook.py`): the request, the schema gate, template
    summaries, provenance metadata and the render context. */
module Notebook {
  import opened Wrappers
  import opened Json
  import Ascii
  import OrderedDict

  // ----- Template configuration -----

  datatype Author = Author(name: string, email: Option<string>)

  /** The fields of a template's configuration that the core reads. */
  datatype TemplateConfig = TemplateConfig(
    submissionName: string,
    displayName: string,
    version: string,
    authors: seq<Author>,
    parameterSchema: Value,
    templateHash: string)

  // ----- The request and the schema gate -----

  /** A request: which template, and its parameters in the order the client sent them. */
  datatype NotebookSpec = NotebookSpec(templateId: string, parameters: OrderedDict.Dict<Value>)

  /** A request together with the configuration of its template. */
  datatype NotebookSpecWithConfig = NotebookSpecWithConfig(
    templateId: string,
    parameters: OrderedDict.Dict<Value>,
    config: TemplateConfig)

  /** A step of a path into a JSON document: an object key or an array index. */
  datatype PathStep = Key(key: string) | Index(index: nat)

  /** What the JSON-Schema validator reports about the violation it raises. */
  datatype SchemaViolation = SchemaViolation(
    message: string,
    instance: Value,
    jsonPath: string,
    schema: Value,
    schemaPath: seq<PathStep>,
    validator: string,
    validatorValue: Value)

  /** What `jsonschema.validate` does: accept, raise a `ValidationError` reporting a violation, or
      raise another exception, such as the `SchemaError` of an invalid schema or the error of a
      reference it cannot resolve. */
  datatype ValidatorOutcome = Valid | Violation(violation: SchemaViolation) | Raised(exception: string)

  /** The JSON-Schema validator, given the instance and the schema. */
  type Validator = (Value, Value) -> ValidatorOutcome

  const ValidationErrorType: string := "Validation Error"
  const ValidationMessageTemplate: string := "{message}"

  /** The error that refuses a request whose parameters break the schema. */
  datatype ValidationError = ValidationError(
    errorType: string,
    messageTemplate: string,
    message: string,
    templateId: string,
    instance: Value,
    jsonPath: string,
    schema: Value,
    schemaPath: seq<PathStep>,
    validator: string,
    validatorValue: Value)

  /** How the schema gate fails: the refusal it raises for a violation, or an exception of the
      validator that it does not catch and that propagates unchanged. */
  datatype GateError = Refused(error: ValidationError) | Uncaught(exception: string)

  /** The parameters as the JSON object the validator checks. */
  function ParametersJson(parameters: OrderedDict.Dict<Value>): Value {
    JObject(parameters.values)
  }

  /** `validate_parameters`: the spec passes unchanged when the validator accepts its parameters
      under the template's schema; a reported violation, tagged with the template id, refuses it;
      any other exception of the validator escapes, since only `ValidationError` is caught. */
  function ValidateParameters(spec: NotebookSpecWithConfig, validate: Validator): (r: Result<NotebookSpecWithConfig, GateError>)
    ensures r.Success? <==> validate(ParametersJson(spec.parameters), spec.config.parameterSchema).Valid?
    ensures r.Success? ==> r.value == spec
    ensures (r.Failure? && r.error.Refused?) <==> validate(ParametersJson(spec.parameters), spec.config.parameterSchema).Violation?
    ensures r.Failure? && r.error.Refused? ==>
      var v := validate(ParametersJson(spec.parameters), spec.config.parameterSchema).violation;
      && r.error.error.errorType == ValidationErrorType && r.error.error.messageTemplate == ValidationMessageTemplate
      && r.error.error.templateId == spec.templateId
      && r.error.error.message == v.message && r.error.error.instance == v.instance && r.error.error.jsonPath == v.jsonPath
      && r.error.error.schema == v.schema && r.error.error.schemaPath == v.schemaPath
      && r.error.error.validator == v.validator && r.error.error.validatorValue == v.validatorValue
    ensures validate(ParametersJson(spec.parameters), spec.config.parameterSchema).Raised? ==>
      r == Failure(Uncaught(validate(ParametersJson(spec.parameters), spec.config.parameterSchema).exception))
  {
    match validate(ParametersJson(spec.parameters), spec.config.parameterSchema)
    case Valid => Success(spec)
    case Violation(v) =>
      Failure(Refused(ValidationError(ValidationErrorType, ValidationMessageTemplate, v.message, spec.templateId,
                                      v.instance, v.jsonPath, v.schema, v.schemaPath, v.validator, v.validatorValue)))
    case Raised(e) => Failure(Uncaught(e))
  }

  /** `with_config`: attach the configuration; constructing the result runs the schema gate. */
  function WithConfig(spec: NotebookSpec, config: TemplateConfig, validate: Validator): (r: Result<NotebookSpecWithConfig, GateError>)
    ensures r.Success? <==> validate(ParametersJson(spec.parameters), config.parameterSchema).Valid?
    ensures r.Success? ==> r.value.templateId == spec.templateId && r.value.parameters == spec.parameters && r.value.config == config
    ensures (r.Failure? && r.error.Refused?) <==> validate(ParametersJson(spec.parameters), config.parameterSchema).Violation?
    ensures r.Failure? && r.error.Refused? ==> r.error.error.templateId == spec.templateId
    ensures validate(ParametersJson(spec.parameters), config.parameterSchema).Raised? ==>
      r == Failure(Uncaught(validate(ParametersJson(spec.parameters), config.parameterSchema).exception))
  {
    ValidateParameters(NotebookSpecWithConfig(spec.templateId, spec.parameters, config), validate)
  }

  // ----- Template summaries -----

  datatype TemplateSummary = TemplateSummary(templateId: string, submissionName: string, displayName: string, version: string)

  /** `TemplateSummary.from_config`. */
  function FromConfig(templateId: string, config: TemplateConfig): (s: TemplateSummary)
    ensures s.templateId == templateId
    ensures (s.submissionName, s.displayName, s.version) == (config.submissionName, config.displayName, config.version)
  {
    TemplateSummary(templateId, config.submissionName, config.displayName, config.version)
  }

  /** `available_templates`: one summary per listed id, in listing order. `load` reads the
      configuration of one template; the first id whose configuration cannot be read aborts the
      whole listing with its error. */
  function AvailableTemplates<E>(ids: seq<string>, load: string -> Result<TemplateConfig, E>): (r: Result<seq<TemplateSummary>, E>)
    ensures r.Success? <==> forall i :: 0 <= i < |ids| ==> load(ids[i]).Success?
    ensures r.Success? ==>
      && |r.value| == |ids|
      && forall i :: 0 <= i < |ids| ==> r.value[i] == FromConfig(ids[i], load(ids[i]).value)
    ensures r.Failure? ==>
      exists i :: && 0 <= i < |ids| && load(ids[i]).Failure? && r.error == load(ids[i]).error
                  && forall j :: 0 <= j < i ==> load(ids[j]).Success?
    decreases |ids|
  {
    if ids == [] then Success([])
    else match load(ids[0])
      case Failure(e) => Failure(e)
      case Success(config) =>
        match AvailableTemplates(ids[1..], load)
        case Failure(e) => Failure(e)
        case Success(rest) => Success([FromConfig(ids[0], config)] + rest)
  }

  // ----- Provenance metadata -----

  const MetadataKeys: seq<string> := [
    "template_id",
    "template_submission_name",
    "template_display_name",
    "template_version",
    "template_authors",
    "template_rendered_at",
    "template_hash"]

  function EmailJson(email: Option<string>): Value {
    match email
    case None => JNull
    case Some(e) => JStr(e)
  }

  /** An author as its record dump: name and email. */
  function AuthorJson(a: Author): Value {
    JObject(map["name" := JStr(a.name), "email" := EmailJson(a.email)])
  }

  function AuthorsJson(authors: seq<Author>): (r: Value)
    ensures r.JArray? && |r.elems| == |authors|
    ensures forall i :: 0 <= i < |authors| ==> r.elems[i] == AuthorJson(authors[i])
  {
    JArray(seq(|authors|, i requires 0 <= i < |authors| => AuthorJson(authors[i])))
  }

  /** `notebook_metadata`: what the request did not state but the notebook records. The render
      time is an argument. */
  function NotebookMetadata(spec: NotebookSpecWithConfig, renderedAt: string): (m: OrderedDict.Dict<Value>)
    ensures m.keys == MetadataKeys
  {
    MetadataRecordWf(MetadataValues(spec, renderedAt));
    OrderedDict.RawDict(MetadataKeys, MetadataValues(spec, renderedAt))
  }

  /** The values of the metadata record, by key. */
  function MetadataValues(spec: NotebookSpecWithConfig, renderedAt: string): map<string, Value> {
    map[
      "template_id" := JStr(spec.templateId),
      "template_submission_name" := JStr(spec.config.submissionName),
      "template_display_name" := JStr(spec.config.displayName),
      "template_version" := JStr(spec.config.version),
      "template_authors" := AuthorsJson(spec.config.authors),
      "template_rendered_at" := JStr(renderedAt),
      "template_hash" := JStr(spec.config.templateHash)]
  }

  /** The seven metadata keys are distinct, so they list the keys of a record once each. */
  lemma MetadataRecordWf(values: map<string, Value>)
    requires values.Keys == {"template_id", "template_submission_name", "template_display_name", "template_version",
                             "template_authors", "template_rendered_at", "template_hash"}
    ensures OrderedDict.Wf(OrderedDict.RawDict(MetadataKeys, values))
  {
  }

  /** The provenance a metadata record states. */
  datatype Provenance = Provenance(
    templateId: string,
    submissionName: string,
    displayName: string,
    version: string,
    authors: seq<Author>,
    renderedAt: string,
    templateHash: string)

  /** The string stored under `k`, if there is one. */
  function StringField(m: map<string, Value>, k: string): Option<string> {
    if k in m && m[k].JStr? then Some(m[k].s) else None
  }

  function ReadEmail(v: Value): Option<Option<string>> {
    match v
    case JNull => Some(None)
    case JStr(e) => Some(Some(e))
    case _ => None
  }

  function ReadAuthor(v: Value): Option<Author> {
    if v.JObject? && v.fields.Keys == {"name", "email"} && v.fields["name"].JStr? && ReadEmail(v.fields["email"]).Some?
    then Some(Author(v.fields["name"].s, ReadEmail(v.fields["email"]).value))
    else None
  }

  function ReadAuthorList(vs: seq<Value>): Option<seq<Author>>
    decreases |vs|
  {
    if vs == [] then Some([])
    else
      var first, rest := ReadAuthor(vs[0]), ReadAuthorList(vs[1..]);
      if first.Some? && rest.Some? then Some([first.value] + rest.value) else None
  }

  /** Read a metadata record back; `None` unless it has exactly the seven keys, each of the right shape. */
  function ReadMetadata(m: OrderedDict.Dict<Value>): Option<Provenance> {
    if m.keys != MetadataKeys then None
    else
      var id, sub := StringField(m.values, "template_id"), StringField(m.values, "template_submission_name");
      var disp, ver := StringField(m.values, "template_display_name"), StringField(m.values, "template_version");
      var at, hash := StringField(m.values, "template_rendered_at"), StringField(m.values, "template_hash");
      var authors :=
        if "template_authors" in m.values && m.values["template_authors"].JArray?
        then ReadAuthorList(m.values["template_authors"].elems)
        else None;
      if id.Some? && sub.Some? && disp.Some? && ver.Some? && at.Some? && hash.Some? && authors.Some?
      then Some(Provenance(id.value, sub.value, disp.value, ver.value, authors.value, at.value, hash.value))
      else None
  }

  lemma {:induction false} AuthorsRoundTrip(authors: seq<Author>)
    ensures ReadAuthorList(AuthorsJson(authors).elems) == Some(authors)
    decreases |authors|
  {
    if authors != [] {
      var elems := AuthorsJson(authors).elems;
      assert elems[1..] == AuthorsJson(authors[1..]).elems;
      AuthorsRoundTrip(authors[1..]);
      var a := authors[0];
      assert AuthorJson(a).fields.Keys == {"name", "email"};
      assert ReadAuthor(elems[0]) == Some(a);
      assert [a] + authors[1..] == authors;
    }
  }

  /** The metadata record states exactly the request's template id, the configuration's names,
      version, authors (in order, with name and email) and hash, and the render time. */
  lemma MetadataRoundTrip(spec: NotebookSpecWithConfig, renderedAt: string)
    ensures ReadMetadata(NotebookMetadata(spec, renderedAt)) ==
      Some(Provenance(spec.templateId, spec.config.submissionName, spec.config.displayName, spec.config.version,
                      spec.config.authors, renderedAt, spec.config.templateHash))
  {
    MetadataNames(spec, renderedAt);
    MetadataVersion(spec, renderedAt);
    MetadataRest(spec, renderedAt);
    AuthorsRoundTrip(spec.config.authors);
  }

  /** The id and names in the metadata record. */
  lemma MetadataNames(spec: NotebookSpecWithConfig, renderedAt: string)
    ensures var m := NotebookMetadata(spec, renderedAt).values;
      && StringField(m, "template_id") == Some(spec.templateId)
      && StringField(m, "template_submission_name") == Some(spec.config.submissionName)
      && StringField(m, "template_display_name") == Some(spec.config.displayName)
  {
  }

  /** The version in the metadata record. */
  lemma MetadataVersion(spec: NotebookSpecWithConfig, renderedAt: string)
    ensures StringField(NotebookMetadata(spec, renderedAt).values, "template_version") == Some(spec.config.version)
  {
  }

  /** The render time, hash and author list in the metadata record. */
  lemma MetadataRest(spec: NotebookSpecWithConfig, renderedAt: string)
    ensures var m := NotebookMetadata(spec, renderedAt).values;
      && StringField(m, "template_rendered_at") == Some(renderedAt)
      && StringField(m, "template_hash") == Some(spec.config.templateHash)
      && "template_authors" in m && m["template_authors"] == AuthorsJson(spec.config.authors)
  {
  }

  // ----- Render context -----

  /** `render_context`: the parameters merged with the metadata (the metadata wins on a shared
      key), with every key upper-cased. Its keys are the upper-cased keys of the parameters and of
      the metadata. */
  function RenderContext(spec: NotebookSpecWithConfig, renderedAt: string): (r: OrderedDict.Dict<Value>)
    ensures r.values.Keys ==
      (set k | k in spec.parameters.values :: Ascii.Upper(k)) + (set k | k in MetadataKeys :: Ascii.Upper(k))
  {
    OrderedDict.Rekey(OrderedDict.Merge(spec.parameters, NotebookMetadata(spec, renderedAt)), Ascii.Upper)
  }

  /** Every key of the context is upper case, and upper-casing it again changes nothing. */
  lemma RenderContextUpper(spec: NotebookSpecWithConfig, renderedAt: string)
    ensures forall k :: k in RenderContext(spec, renderedAt).values ==> Ascii.IsUpper(k) && Ascii.Upper(k) == k
  {
    var merged := OrderedDict.Merge(spec.parameters, NotebookMetadata(spec, renderedAt));
    forall k | k in RenderContext(spec, renderedAt).values ensures Ascii.IsUpper(k) && Ascii.Upper(k) == k {
      var k0 :| k0 in merged.values && k == Ascii.Upper(k0);
      Ascii.UpperIdempotent(k0);
    }
  }

  /** When upper-casing merges no two keys, every value is found under its upper-cased key: the
      metadata's value on a key both define, the parameter's otherwise. */
  lemma RenderContextValues(spec: NotebookSpecWithConfig, renderedAt: string)
    requires forall a, b ::
      ((a in spec.parameters.values || a in MetadataKeys) && (b in spec.parameters.values || b in MetadataKeys) &&
       Ascii.Upper(a) == Ascii.Upper(b)) ==> a == b
    ensures forall k :: k in MetadataKeys ==>
      && Ascii.Upper(k) in RenderContext(spec, renderedAt).values
      && RenderContext(spec, renderedAt).values[Ascii.Upper(k)] == NotebookMetadata(spec, renderedAt).values[k]
    ensures forall k :: k in spec.parameters.values && k !in MetadataKeys ==>
      && Ascii.Upper(k) in RenderContext(spec, renderedAt).values
      && RenderContext(spec, renderedAt).values[Ascii.Upper(k)] == spec.parameters.values[k]
  {
    var meta := NotebookMetadata(spec, renderedAt);
    OrderedDict.RekeyInjective(OrderedDict.Merge(spec.parameters, meta), Ascii.Upper);
  }

  lemma MetadataKeysLower(k: string)
    requires k in MetadataKeys
    ensures Ascii.HasNoCapitals(k)
  {
    assert Ascii.HasNoCapitals(MetadataKeys[0]);
    assert Ascii.HasNoCapitals(MetadataKeys[1]);
    assert Ascii.HasNoCapitals(MetadataKeys[2]);
    assert Ascii.HasNoCapitals(MetadataKeys[3]);
    assert Ascii.HasNoCapitals(MetadataKeys[4]);
    assert Ascii.HasNoCapitals(MetadataKeys[5]);
    assert Ascii.HasNoCapitals(MetadataKeys[6]);
  }

  /** The metadata keys contain no capitals, so upper-casing keeps them apart. */
  lemma MetadataKeysApart(a: string, b: string)
    requires a in MetadataKeys && b in MetadataKeys && Ascii.Upper(a) == Ascii.Upper(b)
    ensures a == b
  {
    MetadataKeysLower(a);
    MetadataKeysLower(b);
    Ascii.UpperInjectiveWithoutCapitals(a, b);
  }

  /** When no parameter is literally named like a metadata field, the metadata value sits under
      its upper-cased key, even if a parameter such as "Template_Id" upper-cases to the same key:
      the metadata keys are inserted after all parameters, and the later key wins. */
  lemma RenderContextMetadataWins(spec: NotebookSpecWithConfig, renderedAt: string, k: string)
    requires forall p :: p in spec.parameters.values ==> p !in MetadataKeys
    requires k in MetadataKeys
    ensures Ascii.Upper(k) in RenderContext(spec, renderedAt).values
    ensures RenderContext(spec, renderedAt).values[Ascii.Upper(k)] == NotebookMetadata(spec, renderedAt).values[k]
  {
    var meta := NotebookMetadata(spec, renderedAt);
    forall b | b in meta.values && Ascii.Upper(b) == Ascii.Upper(k) ensures b == k {
      MetadataKeysApart(b, k);
    }
    OrderedDict.RekeyMergeRightWins(spec.parameters, meta, Ascii.Upper, k);
  }

  /** A parameter literally named like a metadata field does not protect that field: a later
      parameter that upper-cases to the same key, such as "Template_Id" after "template_id",
      supplies the context's value, because the shared key keeps the parameter's earlier place in
      the merge and the later parameter is the last key with that image. */
  lemma RenderContextParameterWins(spec: NotebookSpecWithConfig, renderedAt: string, j: nat, k: string)
    requires j < |spec.parameters.keys| && spec.parameters.keys[j] !in MetadataKeys
    requires k in MetadataKeys && k in spec.parameters.values
    requires Ascii.Upper(spec.parameters.keys[j]) == Ascii.Upper(k)
    requires forall j' :: j < j' < |spec.parameters.keys| ==> Ascii.Upper(spec.parameters.keys[j']) != Ascii.Upper(k)
    ensures Ascii.Upper(k) in RenderContext(spec, renderedAt).values
    ensures RenderContext(spec, renderedAt).values[Ascii.Upper(k)] == spec.parameters.values[spec.parameters.keys[j]]
  {
    var meta := NotebookMetadata(spec, renderedAt);
    forall b | b in meta.values && Ascii.Upper(b) == Ascii.Upper(k) ensures b in spec.parameters.values {
      MetadataKeysApart(b, k);
    }
    OrderedDict.RekeyMergeLeftWins(spec.parameters, meta, Ascii.Upper, j);
  }
}
