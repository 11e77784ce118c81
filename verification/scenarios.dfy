/** Two worked examples of the transformer on concrete input: a single GET
    route, and the component-group overwrite. */
module Scenarios {
  import opened Values
  import opened Api
  import Keys
  import Text
  import NestedFolds
  import Operations
  import Components

  const UserRef := "#/components/schemas/User"

  /** `GET /users` with operation id `listUsers`, no security, an empty request
      body and one `200 OK` response carrying JSON. */
  function ListUsers(): Path
  {
    Path(
      "/users", "GET", [], "", "listUsers", [],
      RequestBody("", []),
      [Response(200, "OK", [ContentType("application/json", UserRef)])])
  }

  /** The method `GET` is filed under `get`. */
  lemma GetIsLowered()
    ensures Text.ToLower("GET") == "get"
  {
  }

  /** The paths map has the one route with the one lower-cased method. */
  lemma ListUsersPaths()
    ensures Operations.MakeAllPathsMap([ListUsers()])
      == map["/users" := map["get" := Map(Operations.OperationMap(ListUsers()))]]
  {
    GetIsLowered();
    NestedFolds.AssignNestedSingle(ListUsers(), Operations.Route, Operations.MethodKey, Operations.OperationValue);
  }

  /** Its operation carries the operation id, empty tags, summary and security, and
      the one response filed under code 200 with the schema reference inside. */
  lemma ListUsersOperation()
    ensures var op := Operations.OperationMap(ListUsers());
      && op[Keys.OperationId] == Str("listUsers")
      && op[Keys.Tags] == List([])
      && op[Keys.Summary] == Str("")
      && op[Keys.Security] == List([])
      && op[Keys.Responses] == IntMap(map[200 := Map(map[
           Keys.Description := Str("OK"),
           Keys.Content := Map(map["application/json" := Map(map[Keys.Schema := Map(map[Keys.Ref := Str(UserRef)])])])
         ])])
  {
  }

  /** Group one holds schema `a`; group two holds schema `b` and the security
      scheme `key`. Only group two's entries are in the result: `a` is gone. */
  lemma TwoGroupsKeepLast(a: Schema, b: Schema, key: SecurityScheme)
    requires a.name != b.name
    ensures var r := Components.MakeComponentsMap([Component([a], []), Component([b], [key])]);
      && r[Keys.Schemas] == Map(map[b.name := Map(Components.SchemaMap(b))])
      && a.name !in r[Keys.Schemas].fields
      && r[Keys.SecuritySchemes] == Map(map[key.name := Map(Components.SecuritySchemeMap(key))])
  {
  }
}
