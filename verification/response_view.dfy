/**
  `AbstractResponseView`: the model filter that drops Spring's
  `BindingResult` entries before a view renders the model, and the view's
  file extension.
 */
module ResponseView {
  import opened Wrappers

  /** A model value: a Spring `BindingResult` (named by its object name), or any other object. */
  datatype ModelValue = BindingResult(objectName: string) | Other(repr: string) | Null

  type Model = map<string, ModelValue>

  /** `filterModel(model)`: a fresh map of the entries whose value is not a `BindingResult`. */
  function FilterModel(model: Model): (r: Model)
    ensures forall k :: k in r ==> !r[k].BindingResult?
    ensures forall k :: k in model && !model[k].BindingResult? ==> k in r && r[k] == model[k]
    ensures forall k :: k in r ==> k in model && r[k] == model[k]
    ensures r.Keys <= model.Keys && |r| <= |model|
  {
    var r := map k | k in model && !model[k].BindingResult? :: model[k];
    SubsetSize(r.Keys, model.Keys);
    r
  }

  /** A subset is no larger than its superset. */
  lemma {:induction false} SubsetSize<T>(a: set<T>, b: set<T>)
    requires a <= b
    ensures |a| <= |b|
    decreases |b|
  {
    if a != {} {
      var x :| x in a;
      SubsetSize(a - {x}, b - {x});
    }
  }

  /** The keys dropped are exactly those holding a `BindingResult`. */
  lemma DroppedKeys(model: Model)
    ensures model.Keys - FilterModel(model).Keys == set k | k in model && model[k].BindingResult?
  {
  }

  /** Filtering twice filters no more than once. */
  lemma FilterIdempotent(model: Model)
    ensures FilterModel(FilterModel(model)) == FilterModel(model)
  {
  }

  /** A model without `BindingResult` values comes back equal. */
  lemma FilterKeepsCleanModel(model: Model)
    requires forall k :: k in model ==> !model[k].BindingResult?
    ensures FilterModel(model) == model
  {
  }

  /** Filtering commutes with adding an entry that is not a `BindingResult`. */
  lemma FilterAddOther(model: Model, k: string, v: ModelValue)
    requires !v.BindingResult?
    ensures FilterModel(model[k := v]) == FilterModel(model)[k := v]
  {
  }

  /** Adding a `BindingResult` entry removes its key from the filtered model, and nothing else changes. */
  lemma FilterAddBinding(model: Model, k: string, name: string)
    ensures FilterModel(model[k := BindingResult(name)]) == FilterModel(model) - {k}
  {
  }

  /** The view's state this class adds: the file extension it answers for (null until set). */
  datatype View = View(extension: Option<string>)

  /** `getExtension()`. */
  function GetExtension(v: View): Option<string> {
    v.extension
  }

  /** `setExtension(e)`: the view with its extension replaced. */
  function SetExtension(v: View, e: Option<string>): (r: View)
    ensures GetExtension(r) == e
  {
    v.(extension := e)
  }

  /** The last extension set wins. */
  lemma SetExtensionTwice(v: View, e1: Option<string>, e2: Option<string>)
    ensures SetExtension(SetExtension(v, e1), e2) == SetExtension(v, e2)
  {
  }
}
