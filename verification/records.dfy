/** The dictionary-shaped records the generator passes between its stages:
    metadata and package data as string-keyed maps of loosely typed values,
    `dict.setdefault`, and the relationship summary produced by the
    relationship analyser. */
module Records {

  /** A dictionary value as far as the generator inspects it: a string,
      `None`, or anything else with its rendering and Python truthiness. */
  datatype Value = Str(s: string) | NoneValue | Opaque(repr: string, truthy: bool)

  /** Python truthiness of a value. */
  predicate Truthy(v: Value)
  {
    match v
    case Str(s) => s != ""
    case NoneValue => false
    case Opaque(_, t) => t
  }

  /** `d.setdefault(k, v)` on a string-keyed dictionary (the returned value is not used). */
  function SetDefault(d: map<string, Value>, k: string, v: Value): (r: map<string, Value>)
    ensures r.Keys == d.Keys + {k}
    ensures k in d ==> r[k] == d[k]
    ensures k !in d ==> r[k] == v
    ensures forall k' :: k' in d ==> r[k'] == d[k']
  {
    if k in d then d else d[k := v]
  }

  /** The relationship summary: module name to the internal modules it
      imports, and the external dependencies of the whole package. */
  datatype Relationships = Relationships(dependencyGraph: map<string, set<string>>, externalDeps: seq<string>)

  /** `{"dependency_graph": {}, "external_deps": []}`. */
  const EmptyRelationships := Relationships(map[], [])
}
