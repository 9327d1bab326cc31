/** The query dictionary handed to the search call: `{"database": "astronomy"}`
    updated with every parsed argument that is allow-listed and truthy. */
module Query {

  /** The values `argparse` leaves in the parsed namespace: strings, integers
      (`rows`, and the `year` default), booleans (the output toggles and
      `--debug`) and None (an option not given). */
  datatype Value = Str(s: string) | Int(i: int) | Bool(b: bool) | NoneValue

  /** Python truthiness of a value. */
  predicate Truthy(v: Value)
  {
    match v
    case Str(s) => s != ""
    case Int(i) => i != 0
    case Bool(b) => b
    case NoneValue => false
  }

  const ValidFields: seq<string> := ["author", "bibstem", "bibcode", "full", "rows", "sort", "year"]

  const DatabaseKey: string := "database"
  const Astronomy: Value := Str("astronomy")

  /** The test of the dict comprehension: `v and k in VALID_FIELDS`. */
  predicate Kept(k: string, v: Value)
  {
    Truthy(v) && k in ValidFields
  }

  /** The dict comprehension over the parsed arguments. */
  function Filtered(args: map<string, Value>): map<string, Value>
  {
    map k | k in args && Kept(k, args[k]) :: args[k]
  }

  /** `QUERY_DICT` after the update. The database entry is always there and
      no argument replaces it (it is not allow-listed); every other entry is
      an allow-listed, truthy argument with its value unchanged, and every
      such argument is there. */
  function QueryDict(args: map<string, Value>): (q: map<string, Value>)
    ensures DatabaseKey in q && q[DatabaseKey] == Astronomy
    ensures forall k :: k != DatabaseKey ==> (k in q <==> k in args && k in ValidFields && Truthy(args[k]))
    ensures forall k :: k in q && k != DatabaseKey ==> q[k] == args[k]
  {
    assert DatabaseKey !in ValidFields;
    map[DatabaseKey := Astronomy] + Filtered(args)
  }

  /** Lines 72-74: start from the database entry and update it with the
      entries of the comprehension, built one argument at a time. */
  method BuildQuery(args: map<string, Value>) returns (q: map<string, Value>)
    ensures q == QueryDict(args)
  {
    var comprehension: map<string, Value> := map[];
    var rest := args.Keys;
    while rest != {}
      invariant rest <= args.Keys
      invariant forall k :: k in comprehension <==> k in args && k !in rest && Kept(k, args[k])
      invariant forall k :: k in comprehension ==> comprehension[k] == args[k]
      decreases rest
    {
      var k :| k in rest;
      if Truthy(args[k]) && k in ValidFields {
        comprehension := comprehension[k := args[k]];
      }
      rest := rest - {k};
    }
    assert comprehension == Filtered(args);
    q := map[DatabaseKey := Astronomy];
    q := q + comprehension;
  }
}
