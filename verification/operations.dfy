/** The `paths` half of the transformer (build.go, lines 129-200): every path
    entry becomes an operation map filed under its route and its lower-cased
    HTTP method. */
module Operations {
  import opened Values
  import opened Api
  import opened Text
  import Keys
  import Folds
  import NestedFolds

  /** One security requirement as a single-key map: scheme name to scope list. */
  function Requirement(sec: SecurityEntity): Value
  {
    Map(map[sec.authName := List(Strs(sec.permTypes))])
  }

  /** The source's `makeSecurityMap`: one single-key map per requirement, in input
      order, with no merging of requirements that name the same scheme. */
  function MakeSecurityMap(se: seq<SecurityEntity>): (r: seq<Value>)
    ensures |r| == |se|
    ensures forall i :: 0 <= i < |se| ==>
      && r[i].Map?
      && r[i].fields.Keys == {se[i].authName}
      && r[i].fields[se[i].authName] == List(Strs(se[i].permTypes))
    decreases |se|
  {
    if |se| == 0 then []
    else
      var n := |se| - 1;
      MakeSecurityMap(se[..n]) + [Requirement(se[n])]
  }

  /** Building the list for two runs of requirements one after the other gives the
      two lists one after the other: the list follows the input order exactly. */
  lemma {:induction false} SecurityMapAppend(a: seq<SecurityEntity>, b: seq<SecurityEntity>)
    ensures MakeSecurityMap(a + b) == MakeSecurityMap(a) + MakeSecurityMap(b)
    decreases |b|
  {
    if |b| == 0 {
      assert a + b == a;
    } else {
      var n := |b| - 1;
      assert (a + b)[..|a + b| - 1] == a + b[..n];
      SecurityMapAppend(a, b[..n]);
    }
  }

  /** The `{schema: {$ref: ...}}` entry written for one media type. */
  function SchemaRef(schema: string): Value
  {
    Map(map[Keys.Schema := Map(map[Keys.Ref := Str(schema)])])
  }

  function ContentName(ct: ContentType): string { ct.name }

  function ContentEntry(ct: ContentType): Value { SchemaRef(ct.schema) }

  /** The source's `makeContentSchemaMap`: media-type name to schema reference;
      of several entries with one name, the last one wins. */
  function MakeContentSchemaMap(content: seq<ContentType>): (r: map<string, Value>)
    ensures forall name :: name in r <==> exists i :: 0 <= i < |content| && content[i].name == name
    ensures forall i :: Folds.IsLast(content, ContentName, i) ==>
      && content[i].name in r
      && r[content[i].name] == Map(map[Keys.Schema := Map(map[Keys.Ref := Str(content[i].schema)])])
  {
    Folds.Assign(content, ContentName, ContentEntry)
  }

  /** The `{description, content}` map a request body and a response share. */
  function BodyMap(description: string, content: seq<ContentType>): (r: map<string, Value>)
    ensures r.Keys == {Keys.Description, Keys.Content}
    ensures r[Keys.Description] == Str(description)
    ensures r[Keys.Content] == Map(MakeContentSchemaMap(content))
  {
    map[Keys.Description := Str(description), Keys.Content := Map(MakeContentSchemaMap(content))]
  }

  /** The source's `makeRequestBodyMap`: description and content are always both
      there, even when empty. */
  function MakeRequestBodyMap(rb: RequestBody): (r: map<string, Value>)
    ensures r.Keys == {Keys.Description, Keys.Content}
    ensures r[Keys.Description] == Str(rb.description)
    ensures r[Keys.Content] == Map(MakeContentSchemaMap(rb.content))
  {
    BodyMap(rb.description, rb.content)
  }

  function ResponseCode(resp: Response): nat { resp.code }

  function ResponseEntry(resp: Response): Value { Map(BodyMap(resp.description, resp.content)) }

  /** The source's `makeResponsesMap`: keyed by status code, the last response
      with a code wins, and every entry holds exactly a description and content. */
  function MakeResponsesMap(responses: seq<Response>): (r: map<nat, Value>)
    ensures forall code :: code in r <==> exists i :: 0 <= i < |responses| && responses[i].code == code
    ensures forall i :: Folds.IsLast(responses, ResponseCode, i) ==>
      && responses[i].code in r
      && r[responses[i].code] == Map(BodyMap(responses[i].description, responses[i].content))
    ensures forall code :: code in r ==>
      r[code].Map? && r[code].fields.Keys == {Keys.Description, Keys.Content}
  {
    Folds.Assign(responses, ResponseCode, ResponseEntry)
  }

  /** The operation map written for one path entry: always the same six keys. */
  function OperationMap(p: Path): (r: map<string, Value>)
    ensures r.Keys == {Keys.Tags, Keys.Summary, Keys.OperationId, Keys.Security, Keys.RequestBody, Keys.Responses}
    ensures r[Keys.Tags] == List(Strs(p.tags))
    ensures r[Keys.Summary] == Str(p.summary)
    ensures r[Keys.OperationId] == Str(p.operationId)
    ensures r[Keys.Security] == List(MakeSecurityMap(p.security))
    ensures r[Keys.RequestBody] == Map(MakeRequestBodyMap(p.requestBody))
    ensures r[Keys.Responses] == IntMap(MakeResponsesMap(p.responses))
  {
    map[
      Keys.Tags := List(Strs(p.tags)),
      Keys.Summary := Str(p.summary),
      Keys.OperationId := Str(p.operationId),
      Keys.Security := List(MakeSecurityMap(p.security)),
      Keys.RequestBody := Map(MakeRequestBodyMap(p.requestBody)),
      Keys.Responses := IntMap(MakeResponsesMap(p.responses))
    ]
  }

  function Route(p: Path): string { p.route }

  /** The key a path entry is filed under within its route. */
  function MethodKey(p: Path): string { ToLower(p.httpMethod) }

  function OperationValue(p: Path): Value { Map(OperationMap(p)) }

  /** Route to method to operation, as `makeAllPathsMap` leaves it. */
  type PathsMap = map<string, map<string, Value>>

  /** The source's `makeAllPathsMap`. Its keys are exactly the routes of the
      entries; under each route, exactly the lower-cased methods of the entries
      with that route; and when several entries share a route and a lower-cased
      method, the operation of the last of them is the one kept. */
  function MakeAllPathsMap(ps: seq<Path>): (r: PathsMap)
    ensures forall route :: route in r <==> exists i :: 0 <= i < |ps| && ps[i].route == route
    ensures forall route, m :: route in r && m in r[route] <==>
      exists i :: 0 <= i < |ps| && ps[i].route == route && MethodKey(ps[i]) == m
    ensures forall i :: NestedFolds.IsLastPair(ps, Route, MethodKey, i) ==>
      && ps[i].route in r
      && MethodKey(ps[i]) in r[ps[i].route]
      && r[ps[i].route][MethodKey(ps[i])] == OperationValue(ps[i])
  {
    var r := NestedFolds.AssignNested(ps, Route, MethodKey, OperationValue);
    PathsRoutes(ps, r);
    PathsMethods(ps, r);
    PathsLastWins(ps, r);
    r
  }

  // The three facts below are conjuncts of `NestedFolds.Nested` restated for paths.
  // They are separate lemmas only to keep each proof obligation small for the solver.

  lemma PathsRoutes(ps: seq<Path>, r: PathsMap)
    requires NestedFolds.Nested(ps, Route, MethodKey, OperationValue, r)
    ensures forall route :: route in r <==> exists i :: 0 <= i < |ps| && ps[i].route == route
  {
  }

  lemma PathsMethods(ps: seq<Path>, r: PathsMap)
    requires NestedFolds.Nested(ps, Route, MethodKey, OperationValue, r)
    ensures forall route, m :: route in r && m in r[route] <==>
      exists i :: 0 <= i < |ps| && ps[i].route == route && MethodKey(ps[i]) == m
  {
  }

  lemma PathsLastWins(ps: seq<Path>, r: PathsMap)
    requires NestedFolds.Nested(ps, Route, MethodKey, OperationValue, r)
    ensures forall i :: NestedFolds.IsLastPair(ps, Route, MethodKey, i) ==>
      && ps[i].route in r
      && MethodKey(ps[i]) in r[ps[i].route]
      && r[ps[i].route][MethodKey(ps[i])] == OperationValue(ps[i])
  {
  }

  /** Every method key under every route is lower-case, whatever the casing of
      the methods in the input. */
  lemma MethodKeysLowerCase(ps: seq<Path>)
    ensures var r := MakeAllPathsMap(ps);
      forall route, m :: route in r && m in r[route] ==> IsLowerCase(m)
  {
  }
}
