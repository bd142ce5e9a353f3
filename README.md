# sciwyrm core, modelled in Dafny

sciwyrm is a small HTTP service that renders parameterised Jupyter notebooks for SciCat. This
project models the deterministic core of a request:
- the two template filters `quote` and `je` (`json_escape`);
- the template path and the filter-name table;
- the version-1 notebook formatter, which writes a PID list and a SciCat URL into cells 1 and 2
  of a copy of a fixed template;
- the template-driven notebook request: the schema gate, template summaries and the catalogue
  listing, the seven-field provenance metadata and the upper-cased render context;
- the older `notebook/__init__.py` request, whose render context is the parameters under
  upper-cased keys.

The model proves properties of these parts.

Modules:
- `Wrappers`: `Option` and `Result`.
- `Json`: the JSON value type of `sciwyrm/typing.py`.
- `Ascii`: ASCII upper-casing.
- `OrderedDict`: Python's insertion-ordered `dict`. It models `d1 | d2` (right-biased) and the
  comprehension `{f(k): v for k, v in d.items()}`, in which the last key with a given image wins.
- `Filters`: `sciwyrm/filters.py`.
- `NotebookAssets`: the file-name rule of the bundled-template loader.
- `Templates`: `sciwyrm/templates.py`.
- `NotebookV1`: `sciwyrm/notebook/v1.py`.
- `Notebook`: `sciwyrm/notebook.py`.
- `NotebookInit`: `sciwyrm/notebook/__init__.py`.

The external parts are parameters:
- the JSON-Schema validator is a function from instance and schema to an outcome: accepted, a
  reported violation, or another exception (such as an invalid schema or an unresolvable reference);
- reading a template's configuration is a function from template id to a `Result`;
- the render time is a string argument.

A Python exception becomes the `Failure` case of a `Result`. The schema gate catches only the
validator's violation report. Any other exception of the validator passes through it unchanged, as
`Notebook.GateError.Uncaught`.

The v1 formatter keeps the source's imperative shape. `NotebookV1.TemplateStore` holds the
template's cells in an array that no method modifies. `FormatNotebook` copies the cells into a
fresh array with a loop, then overwrites cells 1 and 2 of the copy. Cell 2 gets the PID cell as
the code writes it, without commas (see "Findings"). Its result is the pure function
`NotebookV1.Formatted` with `corrected` false, which states that only those two sources change.
`Formatted` with `corrected` true is the formatter with the comma after each PID line.

To give the cell sources a meaning beyond their shape, `NotebookV1.ReadPidsCell` and
`NotebookV1.ReadUrlCell` read them back as Python source. They are restricted to string literals
without escapes, quotes, line breaks or NUL characters, and they apply Python's implicit concatenation of adjacent literals.

Two points about the code itself:
- `quote` does not escape quotes. It only chooses a delimiter and never changes the value. The
  delimiter is `"` when the value has no `"`, `'` when it has `"` but no `'`, and `"""` when it
  has both. In that last case the value may itself contain `"""`.
- `src/sciwyrm/templates.py` does not define the template configuration type, its lookup or the
  template listing that `src/sciwyrm/notebook.py` imports. The model takes the configuration's
  fields from their uses in `notebook.py`: submission name, display name, version, authors as
  name and optional email, parameter schema and hash.

## Model

| member | source | states |
|---|---|---|
| Filters.Quote | src/sciwyrm/filters.py:6-12 | The output is the value wrapped in one delimiter. The delimiter is `"` when the value has no `"`, and `'` when it has `"` but no `'`; a one-character delimiter never occurs in the value. When both quote characters occur, the delimiter is `"""` on each side. The length is therefore len(value)+2 or len(value)+6. |
| Filters.QuoteRoundTrip | src/sciwyrm/filters.py:8-12 | Stripping the delimiter from both ends recovers the value exactly. |
| Filters.JsonEscape | src/sciwyrm/filters.py:15-17 | The two chained replacements escape each character on its own: `\` and `"` get a backslash before them. The output is well escaped: every `\` starts an escape of `\` or `"`, and no `"` stands alone. Reading each escape back gives the input. The output is longer than the input by the number of `\` plus the number of `"`. |
| Filters.JsonEscapeIdentity | src/sciwyrm/filters.py:17 | A value with no `\` and no `"` is returned unchanged. |
| Filters.JsonEscapeIsEscapeEach | src/sciwyrm/filters.py:17 | Doubling the backslashes first and then escaping every `"` equals escaping each character on its own. |
| Filters.JsonEscapeOnto | src/sciwyrm/filters.py:17 | Every well-escaped string is the escape of its unescaping, so escaping is a bijection onto well-escaped strings. |
| Filters.JsonEscapeQuotesEscaped | src/sciwyrm/filters.py:17 | Every `"` in the output is immediately preceded by a `\`. |
| Filters.WellEscapedQuotesPreceded | src/sciwyrm/filters.py:17 | In any well-escaped string, each `"` has a `\` just before it. |
| Filters.EscapeOrderMatters | src/sciwyrm/filters.py:17 | Replacing `"` before `\` would turn `"` into three characters: backslash, backslash, quote. That does not unescape to `"`, so the order of the replacements is essential. |
| NotebookAssets.BundledFileName | src/sciwyrm/assets/templates/notebook/__init__.py:15 | The bundled template's file name starts with the name and ends with `.ipynb`. It is 8 characters longer than name and version together. |
| Templates.NotebookTemplatePath | src/sciwyrm/templates.py:21-36 | The path starts with `notebook/` and ends with `.ipynb`. Its length is len(name)+len(version)+17. The part after `notebook/` is exactly the bundled loader's file name for the same name and version. |
| Templates.PathAmbiguous | src/sciwyrm/templates.py:36 | Different name/version pairs can give the same path: ("a_v1","2") and ("a","1_v2"). |
| Templates.LookupFilter | src/sciwyrm/templates.py:51-52 | Exactly two custom filters are registered: `quote` applies `quote` and `je` applies `json_escape`. |
| NotebookV1.ParseSpecV1 | src/sciwyrm/notebook/v1.py:16-21 | A v1 request is accepted exactly when its version is absent or `"1"`; an absent version defaults to `"1"`. The PIDs and URL are taken over unchanged. Any other version is refused and the error names it. |
| NotebookV1.PidsCellSourceAsWritten | src/sciwyrm/notebook/v1.py:24-25 | As the code writes it, the code cell has len(pids)+2 lines. The first line is `input_dataset_pids = [` plus newline and the last is `]`. Line i+1 is the i-th PID in double quotes, indented, newline, with no comma. |
| NotebookV1.PidsCellAsWrittenMerges | src/sciwyrm/notebook/v1.py:25 | Read as Python, that cell defines a list with ONE element, the concatenation of all PIDs, whenever there is at least one PID. |
| NotebookV1.PidsCellAsWrittenCounterexample | src/sciwyrm/notebook/v1.py:25 | The two PIDs `7192983` and `7ca7/31a.2as` read back as the single element `71929837ca7/31a.2as`. |
| NotebookV1.PidsCellSource | src/sciwyrm/notebook/v1.py:24-25 | The corrected cell has the same header, footer and order, and each PID line ends in `",` plus newline. |
| NotebookV1.PidsCellRoundTrip | src/sciwyrm/notebook/v1.py:25 | Read as Python, the corrected cell defines exactly the list of requested PIDs, in order. |
| NotebookV1.ScicatUrlCellSource | src/sciwyrm/notebook/v1.py:28-29 | The URL cell is a single line, 15 characters longer than the URL. What it means is stated by `NotebookV1.UrlCellRoundTrip`. |
| NotebookV1.UrlCellRoundTrip | src/sciwyrm/notebook/v1.py:28-29 | The URL cell is one line, which reads as `scicat_url` bound to exactly the requested URL. |
| NotebookV1.RequestedValuesAppear | tests/notebook/notebook_v1_test.py:37-65 | Every requested PID occurs in the PID cell, both as written and corrected, each on its own line in request order. The URL occurs in the URL cell. |
| NotebookV1.Formatted | src/sciwyrm/notebook/v1.py:32-38 | The formatted notebook has as many cells as the template and the same top-level fields. Cell 1 differs from the template only in its source, which becomes the URL cell. Cell 2 likewise gets the PID cell, without commas as the code writes it, or with them in the corrected variant. Every other cell is unchanged. The template must have at least three cells. |
| NotebookV1.FormattedAsWrittenReadsBack | src/sciwyrm/notebook/v1.py:32-38 | In the notebook the code builds, cell 1 reads back as the requested URL. Cell 2 reads back as one element holding all PIDs run together, or as the empty list for no PIDs. |
| NotebookV1.FormattedReadsBack | src/sciwyrm/notebook/v1.py:36-37 | In the corrected notebook, cell 1 reads back as the requested URL and cell 2 as exactly the requested PIDs. |
| NotebookV1.TemplateStore.constructor | src/sciwyrm/notebook/v1.py:13 | The store holds the template it was given. |
| NotebookV1.TemplateStore.FormatNotebook | src/sciwyrm/notebook/v1.py:32-38 | Formatting copies the stored template and returns `Formatted` of it, with the PID cell as written. The stored template is not modified. |
| NotebookV1.FormatTwice | tests/notebook/notebook_v1_test.py:68-96 | Two successive formattings each depend only on the stored template and their own request, so the first request's PIDs cannot leak into the second result. |
| Notebook.ValidateParameters | src/sciwyrm/notebook.py:47-68 | The spec passes unchanged exactly when the validator accepts the parameters under the template's schema. It is refused exactly when the validator reports a violation. The refusal has type "Validation Error" and template "{message}", and carries the template id and the validator's message, instance, JSON path, schema, schema path, keyword and keyword value. Any other exception of the validator, such as an invalid schema's, is not caught and comes out unchanged. |
| Notebook.WithConfig | src/sciwyrm/notebook.py:31-35 | Attaching a configuration keeps the template id and the parameters and adds the configuration. It succeeds exactly when the schema gate accepts. It is refused exactly when the validator reports a violation, and a refusal names the template id. A validator exception it does not catch comes out unchanged. |
| Notebook.FromConfig | src/sciwyrm/notebook.py:79-89 | A summary takes the template id from its argument and the submission name, display name and version from the configuration. |
| Notebook.AvailableTemplates | src/sciwyrm/notebook.py:92-97 | For every listed id the result holds one summary, in listing order; the i-th is the summary of the i-th id's configuration. The listing succeeds exactly when every configuration loads. Otherwise it fails with the error of the first id that does not load. |
| Notebook.NotebookMetadata | src/sciwyrm/notebook.py:106-119 | The metadata has exactly the seven keys `template_id`, `template_submission_name`, `template_display_name`, `template_version`, `template_authors`, `template_rendered_at` and `template_hash`, in that order. |
| Notebook.AuthorsJson | src/sciwyrm/notebook.py:116 | The authors become a list with one `{name, email}` record per configured author, in order. |
| Notebook.MetadataRoundTrip | src/sciwyrm/notebook.py:111-119 | Reading the metadata back yields exactly the template id, the configuration's names, version, authors (name and email, in order) and hash, and the render time. |
| Notebook.RenderContext | src/sciwyrm/notebook.py:100-103 | The context's keys are the upper-cased keys of the parameters and of the metadata. |
| Notebook.RenderContextUpper | src/sciwyrm/notebook.py:103 | Every key of the context is upper case, and upper-casing it again changes nothing. |
| Notebook.RenderContextValues | src/sciwyrm/notebook.py:102-103 | When upper-casing merges no two keys, each metadata value is under its upper-cased key even if a parameter has the same key. Every other parameter value is under its own upper-cased key. |
| Notebook.MetadataKeysApart | src/sciwyrm/notebook.py:111-119 | No two metadata keys upper-case alike. |
| Notebook.RenderContextParameterWins | src/sciwyrm/notebook.py:102-103 | If a parameter is literally named like a metadata key, a later parameter that upper-cases onto that key, and is the last to do so, supplies the context's value. |
| Notebook.RenderContextMetadataWins | src/sciwyrm/notebook.py:102-103 | When no parameter is literally a metadata key, each metadata value is under its upper-cased key. This holds even if a parameter such as `Template_Id` upper-cases onto it. |
| NotebookInit.RenderContext | src/sciwyrm/notebook/__init__.py:18-20 | The context's keys are exactly the upper-cased parameter keys. It has at most as many entries as the parameters, and none when there are none. |
| NotebookInit.RenderContextValues | src/sciwyrm/notebook/__init__.py:20 | When upper-casing merges no two parameter keys, every value is under its upper-cased key. |
| NotebookInit.RenderContextLastWins | src/sciwyrm/notebook/__init__.py:20 | When keys collide after upper-casing, the entry the client sent last wins. |
| NotebookInit.RenderContextIgnoresTemplate | src/sciwyrm/notebook/__init__.py:10-20 | The template name and version do not enter the context. |
| NotebookInit.RenderContextUpper | src/sciwyrm/notebook/__init__.py:20 | Every key of the context is upper case, and upper-casing it again changes nothing. |
| Ascii.UpperIdempotent | src/sciwyrm/notebook.py:103 | Upper-casing twice is upper-casing once. |
| Ascii.UpperIsUpper | src/sciwyrm/notebook.py:103 | An upper-cased string has no lower-case letter. |
| Ascii.UpperInjectiveWithoutCapitals | src/sciwyrm/notebook.py:103 | Upper-casing does not merge two strings that contain no capitals. |
| OrderedDict.Merge | src/sciwyrm/notebook.py:102 | The right-biased merge of d1 with d2 maps each key to d2's value if d2 has it, and to d1's value otherwise. Its key order is d1's keys in their places, then the keys only d2 has, in d2's order. |
| OrderedDict.WithoutMembers | src/sciwyrm/notebook.py:102 | Of the keys the merge appends (d2's keys without d1's), a key is kept exactly when it occurs in the sequence and not in the removed set, and none are added. |
| OrderedDict.WithoutNone | src/sciwyrm/notebook.py:102 | Removing keys that do not occur leaves the key sequence unchanged, which gives the disjoint case of the merge. |
| OrderedDict.InsertAllKeys | src/sciwyrm/notebook.py:102 | Assigning distinct keys one after another keeps every key already present in its place and appends the new keys in assignment order. |
| OrderedDict.MergeDisjointKeys | src/sciwyrm/notebook.py:102 | With disjoint keys, the merge of d1 with d2 lists d1's keys, then d2's. |
| OrderedDict.Rekey | src/sciwyrm/notebook.py:103 | The comprehension's key set is the image of the original key set, and it has no more entries than the original. |
| OrderedDict.RekeyValue | src/sciwyrm/notebook.py:103 | An image key holds the value of the last key, in insertion order, that maps to it. |
| OrderedDict.RekeyInjective | src/sciwyrm/notebook.py:103 | When no two keys share an image, every value is under the image of its key. |
| OrderedDict.RekeyMergeLeftWins | src/sciwyrm/notebook.py:102-103 | After the merge, a d1 key that d2 lacks keeps d1's value under its image when no later d1 key has that image and every d2 key with that image is also in d1. |
| OrderedDict.RekeyMergeRightWins | src/sciwyrm/notebook.py:102-103 | After merging d2 into d1 with disjoint keys, a d2 key whose image no other d2 key shares keeps d2's value under that image. This holds even if keys of d1 have the same image. |

## Left out

- The Jinja2 engine, its autoescaping and the cached construction of the template handler (`src/sciwyrm/templates.py:16-18,39-50`) are a library. Only the filter-name table is modelled.
- JSON-Schema evaluation (`jsonschema.validate`) is a foreign library and is an abstract validator function here. Which schemas it rejects, and the exception classes it raises, are not modelled; an exception other than a violation report is kept only as a message string.
- The Pydantic and FastAPI machinery, the routes (`src/sciwyrm/main.py`) and the exception type are framework glue; errors are `Result` values.
- Settings loading (`src/sciwyrm/config.py`) is environment and file I/O.
- The file reads and caches in `src/sciwyrm/assets/__init__.py` and `src/sciwyrm/assets/templates/notebook/__init__.py` are I/O. Only the file-name rule is modelled, and the `deepcopy` of a cached template is the array copy in `NotebookV1.TemplateStore.FormatNotebook`.
- The source's own definition of the template configuration, its loading and the template listing are not part of this model. `src/sciwyrm/templates.py` does not define them, so lookup and listing are parameters. `Notebook.TemplateConfig` holds only the fields `notebook.py` reads.
- The injection of provenance into the notebook's own metadata and banner cell is not part of this model. No modelled source file contains that step; only the metadata record and the render context are modelled.
- Wall-clock time (`datetime.now`) is an argument, and its ISO-8601 format is not modelled.
- Ascii.Upper: models ASCII upper-casing only. Python's `str.upper` also maps other Unicode letters and can change a string's length.
- Concurrency, logging (`src/sciwyrm/logging.py`), notebook execution and the test seeding are side effects or external services.
- JSON floats are `real`, and JSON numbers are not range-checked.
- JSON objects (`Json.Value.JObject`) are unordered maps. The parameters handed to the validator lose their insertion order, and the author records of `Notebook.AuthorsJson` lose `model_dump`'s name-before-email order. A validator report that depends on key order is not modelled: jsonschema iterates the instance's items for `patternProperties` and `propertyNames`, and `best_match` keeps the first of equally ranked errors. The modelled validator is a function of the unordered value.
- The escaped outputs expected by the quoting tests (`tests/notebook/notebook_test.py:241-266,320-351`) depend on a template file that is not part of this model. They are not attributed to the filter functions.
- NotebookV1.ReadPidsCell: reads only string literals without backslash escapes, quotes, line breaks (`\n`, `\r`) or NUL. A PID or URL containing those is written verbatim by the source, and its reading is not modelled.
- NotebookV1.ScicatUrlCellSource: its own contract states only the shape; the content is stated by `NotebookV1.UrlCellRoundTrip`.
- NotebookV1.FormattedReadsBack: the round trip of the requested PIDs holds for the corrected formatter only. For the code as written, `NotebookV1.FormattedAsWrittenReadsBack` states what the PID cell reads back as.
- Notebook.RenderContextValues: assumes upper-casing merges no two keys. With a collision, the later key in insertion order wins. That can be a parameter that upper-cases like a metadata key, if a parameter literally named like that metadata key came before it, as `Notebook.RenderContextParameterWins` states. `OrderedDict.RekeyValue` states the general rule.
- Parameter values pass through Pydantic's `model_dump` in `with_config`. This is modelled as leaving the JSON values unchanged.

## Findings

| source | as written | input that shows it | evidently intended | confidence | as-written member | corrected member |
|---|---|---|---|---|---|---|
| src/sciwyrm/notebook/v1.py:25 | Each PID line is `    "<pid>"` plus newline, with no comma between lines. Python joins adjacent string literals, so the cell defines a one-element list. `format_notebook` (v1.py:37) writes this cell into the notebook, as `NotebookV1.FormattedAsWrittenReadsBack` states. | dataset_pids = ["7192983", "7ca7/31a.2as"] makes `input_dataset_pids == ["71929837ca7/31a.2as"]`. | One list element per PID (the two-dataset run in tests/notebook/notebook_v1_test.py:129-147 expects two datasets), i.e. a comma after each PID line | not executed | NotebookV1.PidsCellAsWrittenCounterexample | NotebookV1.PidsCellRoundTrip |
