/** The older request shape of `sciwyrm/notebook/__init__.py`: a template named by name and
    version, with parameters that become the render context under upper-cased keys. */
module NotebookInit {
  import opened Json
  import Ascii
  import OrderedDict

  datatype NotebookSpec = NotebookSpec(templateName: string, templateVersion: string, parameters: OrderedDict.Dict<Value>)

  /** `render_context`: the parameters under upper-cased keys. Its keys are exactly the
      upper-cased parameter keys; it has no more entries than the parameters, and none at all
      when there are no parameters. */
  function RenderContext(spec: NotebookSpec): (r: OrderedDict.Dict<Value>)
    ensures r.values.Keys == set k | k in spec.parameters.values :: Ascii.Upper(k)
    ensures |r.keys| <= |spec.parameters.keys|
    ensures spec.parameters.values == map[] ==> r.values == map[]
  {
    OrderedDict.Rekey(spec.parameters, Ascii.Upper)
  }

  /** When no two parameter keys upper-case alike, every value is found under its upper-cased key. */
  lemma RenderContextValues(spec: NotebookSpec)
    requires forall a, b :: a in spec.parameters.values && b in spec.parameters.values && Ascii.Upper(a) == Ascii.Upper(b) ==> a == b
    ensures forall k :: k in spec.parameters.values ==>
      && Ascii.Upper(k) in RenderContext(spec).values
      && RenderContext(spec).values[Ascii.Upper(k)] == spec.parameters.values[k]
  {
    OrderedDict.RekeyInjective(spec.parameters, Ascii.Upper);
  }

  /** When keys such as "a" and "A" collide, the one the client sent last wins. */
  lemma RenderContextLastWins(spec: NotebookSpec, j: nat)
    requires j < |spec.parameters.keys|
    requires forall j' :: j < j' < |spec.parameters.keys| ==> Ascii.Upper(spec.parameters.keys[j']) != Ascii.Upper(spec.parameters.keys[j])
    ensures Ascii.Upper(spec.parameters.keys[j]) in RenderContext(spec).values
    ensures RenderContext(spec).values[Ascii.Upper(spec.parameters.keys[j])] == spec.parameters.values[spec.parameters.keys[j]]
  {
    OrderedDict.RekeyValue(spec.parameters, Ascii.Upper, j);
  }

  /** The template's name and version do not enter the context. */
  lemma RenderContextIgnoresTemplate(spec: NotebookSpec, name: string, version: string)
    ensures RenderContext(NotebookSpec(name, version, spec.parameters)) == RenderContext(spec)
  {
  }

  /** Every key of the context is upper case, and upper-casing it again changes nothing. */
  lemma RenderContextUpper(spec: NotebookSpec)
    ensures forall k :: k in RenderContext(spec).values ==> Ascii.IsUpper(k) && Ascii.Upper(k) == k
  {
    forall k | k in RenderContext(spec).values ensures Ascii.IsUpper(k) && Ascii.Upper(k) == k {
      var k0 :| k0 in spec.parameters.values && k == Ascii.Upper(k0);
      Ascii.UpperIsUpper(k0);
      Ascii.UpperIdempotent(k0);
    }
  }
}
