/** The runtime schema `Ty`: a closed tree of scalar kinds, arrays of one
    inner schema, and structs of named fields whose ORDER is the layout. */
module Schema {

  datatype Ty =
    | Bool
    | U64
    | I64
    | F64
    | Bytes
    | String
    | Array(inner: Ty)
    | Struct(fields: seq<Field>)

  datatype Field = Field(name: string, ty: Ty)

  function Names(fields: seq<Field>): set<string>
  {
    set i | 0 <= i < |fields| :: fields[i].name
  }

  predicate DistinctNames(fields: seq<Field>)
  {
    forall i, j :: 0 <= i < j < |fields| ==> fields[i].name != fields[j].name
  }

  /** Every struct in the schema has pairwise distinct field names. */
  predicate WellNamed(ty: Ty)
  {
    match ty
    case Array(inner) => WellNamed(inner)
    case Struct(fields) =>
      DistinctNames(fields) && forall i :: 0 <= i < |fields| ==> WellNamed(fields[i].ty)
    case _ => true
  }

  /** With distinct names there are as many names as fields. */
  lemma {:induction false} DistinctNamesCount(fields: seq<Field>)
    requires DistinctNames(fields)
    ensures |Names(fields)| == |fields|
  {
    if fields != [] {
      var init := fields[..|fields| - 1];
      var last := fields[|fields| - 1];
      assert DistinctNames(init);
      DistinctNamesCount(init);
      assert Names(fields) == Names(init) + {last.name};
      assert last.name !in Names(init);
    }
  }
}
