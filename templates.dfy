/** Template naming and the custom filters of the template engine (`sciwyrm.templates`). */
module Templates {
  import opened Wrappers
  import Filters
  import NotebookAssets

  const NotebookDir: string := "notebook/"
  const NotebookExtension: string := ".ipynb"

  /** The path of a notebook template relative to the template directory. */
  function NotebookTemplatePath(name: string, version: string): (r: string)
    ensures |r| == |name| + |version| + 17
    ensures r[..|NotebookDir|] == NotebookDir
    ensures r[|r| - |NotebookExtension|..] == NotebookExtension
    ensures r[|NotebookDir|..] == NotebookAssets.BundledFileName(name, version)
  {
    NotebookDir + name + "_v" + version + NotebookExtension
  }

  /** The path is not injective: the `_v` separator may occur inside a name or a version. */
  lemma PathAmbiguous()
    ensures NotebookTemplatePath("a_v1", "2") == NotebookTemplatePath("a", "1_v2")
  {
  }

  /** The custom filters the template engine is given. */
  datatype Filter = QuoteFilter | JsonEscapeFilter

  function Apply(f: Filter, value: string): string {
    match f
    case QuoteFilter => Filters.Quote(value)
    case JsonEscapeFilter => Filters.JsonEscape(value)
  }

  /** The names under which the filters are registered. */
  const CustomFilters: map<string, Filter> := map["quote" := QuoteFilter, "je" := JsonEscapeFilter]

  /** Looking a filter up by the name a template uses. */
  function LookupFilter(name: string): (r: Option<Filter>)
    ensures r.Some? <==> name == "quote" || name == "je"
    ensures r.Some? ==> forall v :: Apply(r.value, v) == (if name == "quote" then Filters.Quote(v) else Filters.JsonEscape(v))
  {
    if name in CustomFilters then Some(CustomFilters[name]) else None
  }
}
