# OpenAPI document transformer — a Dafny model

This project models the document transformer of the `docs` Go package
(kaynetik/docs). The package keeps an API description as lists of Go structs:
path entries, security requirements, responses, schemas, security schemes. Before
the description is written out as YAML, `transformToHybridOAS` turns it into the
nested-map shape of an OpenAPI 3 document:

- paths are keyed by route and then by lower-cased HTTP method;
- components are keyed by category;
- security requirements become an ordered list of single-key maps;
- optional fields are left out when they are empty.

The model covers every function of that transformation in `build.go`. It also
covers the small helper that picks the output path.

Layout:

- `values.dfy` (`Values`): the JSON-like output value (`Str`, `Num`, `Bool`,
  `List`, `Map`, `IntMap` for the status-code-keyed responses map, `Xml` for
  the schema's XML struct, which is passed through as is) and `Option`. `Option`
  stands for the untyped `Default` of a property, with `None` for nil.
- `api.dfy` (`Api`): the input records, one per Go struct the transformer reads.
- `keys.dfy` (`Keys`): the map keys written, as string constants.
- `text.dfy` (`Text`): `isStrEmpty` and the lower-casing of HTTP methods.
- `folds.dfy` (`Folds`, `NestedFolds`): the loop the transformer repeats
  everywhere, `for x in xs { m[key(x)] = val(x) }`. Also its two-level variant
  used for paths. Each is proved once, generically: the result has exactly the
  keys of the input, and each key holds the value of the LAST element carrying
  it (`IsLast`, `IsLastPair`).
- `operations.dfy` (`Operations`): paths, operations, security lists, request
  bodies, responses and content maps.
- `components.dfy` (`Components`): components, schemas, properties, security
  schemes, flows and scopes.
- `build.dfy` (`Build`): output-path selection and the top-level transform.
- `scenarios.dfy` (`Scenarios`): two worked examples. One is a single `GET /users`
  route. The other is the component-group overwrite.

Each Go loop is modelled as a recursive function on the prefix of its input. The
map after `n` iterations is the map after `n - 1` iterations, updated with
element `n - 1`. The contracts describe the result independently of the loop:
which keys exist, which element's value a key holds, and which keys are always,
never or conditionally present.

Component groups are modelled as the code behaves. Every group writes the same
two keys (`schemas`, `securitySchemes`), so only the last group survives. The
model keeps this overwrite on purpose, for fidelity. `Components.EarlierGroupsForgotten`
and `Scenarios.TwoGroupsKeepLast` state it. A merging variant is not modelled.

Two points about optional fields:

- format, description, enum and default are optional keys of each schema
  *property* map (build.go:213-243). They are not keys of the schema map.
- the schema map adds `xml` exactly when `XML.Name != ""` (build.go:254).

## Model

| member | source | states |
|---|---|---|
| Build.GetPathFromFirstElement | build.go:27-33 | no configuration gives `./internal/dist/openapi.yaml`; otherwise the first configuration's path, even an empty one |
| Build.LaterConfigsIgnored | build.go:27-33 | configurations after the first never change the chosen path |
| Build.TransformToHybridOAS | build.go:114-127 | version, info, externalDocs, servers and tags are copied unchanged; the paths keys are exactly the input routes, and every method key is free of ASCII upper-case letters; the paths map is the one `makeAllPathsMap` builds; components are empty iff there are no groups, else exactly the two entries of the last group |
| Operations.MakeAllPathsMap | build.go:129-148 | the route keys are exactly the routes of the entries; under a route, the method keys are exactly `ToLower(method)` of the entries with that route; for a shared (route, lower-cased method), the later entry's operation is the one kept |
| Operations.MethodKeysLowerCase | build.go:144 | no method key in the paths map contains an ASCII upper-case letter, whatever the input casing |
| Operations.OperationMap | build.go:136-142 | exactly the six keys tags, summary, operationId, security, requestBody, responses, always present even when empty; security, requestBody and responses hold the security list, request-body map and responses map built from the entry |
| Operations.MakeSecurityMap | build.go:173-184 | same length and order as the input; element i is a single-key map from the i-th scheme name to its scope list, with no deduplication |
| Operations.SecurityMapAppend | build.go:173-184 | the list for `a + b` is the list for `a` followed by the list for `b`, so input order is preserved |
| Operations.MakeRequestBodyMap | build.go:150-157 | always exactly description and content, the content being the content-schema map of the body |
| Operations.MakeResponsesMap | build.go:159-171 | keyed by exactly the status codes present; a later response with the same code replaces an earlier one; every entry has exactly description and content |
| Operations.MakeContentSchemaMap | build.go:186-200 | keyed by exactly the media-type names present; each maps to `{schema: {$ref: Schema}}` of the last entry with that name |
| Components.MakeComponentsMap | build.go:202-211 | no groups gives an empty map; otherwise the result is exactly the two entries of the last group |
| Components.EarlierGroupsForgotten | build.go:205-208 | whatever groups come before the last one, the components map is the same |
| Components.PropertyMap | build.go:217-237 | type, format, description and enum are present iff their source is non-empty; default is present iff it is non-nil; no other keys |
| Components.BarePropertyIsEmpty | build.go:217-237 | a property with nothing optional set is written as an empty map |
| Components.MakePropertiesMap | build.go:213-243 | keyed by exactly the property names present, the last property with a name winning |
| Components.SchemaMap | build.go:249-256 | type, properties and `$ref` always present, even when `$ref` is empty; xml present iff the XML name is non-empty; no other keys |
| Components.MakeComponentSchemasMap | build.go:245-262 | keyed by exactly the schema names present, the last schema with a name winning |
| Components.SecuritySchemeMap | build.go:268-286 | name present iff it is non-empty and there are no flows; type and in present iff non-empty; flows present iff there is at least one flow; no other keys |
| Components.MakeComponentSecuritySchemesMap | build.go:264-292 | keyed by exactly the scheme names present, including an empty name, the last scheme with a name winning |
| Components.FlowMap | build.go:298-301 | exactly authorizationUrl and scopes |
| Components.MakeFlowsMap | build.go:294-307 | keyed by exactly the flow types present, the last flow of a type winning, every entry holding exactly authorizationUrl and scopes |
| Components.MakeSecurityScopesMap | build.go:309-321 | the empty name is never a key; the keys are exactly the non-empty scope names; each holds the description of the last scope with that name |
| Text.IsStrEmpty | build.go:325-327 | true exactly for the string of length zero |
| Text.ToLower | build.go:144 | same length, no ASCII upper-case letter left, ASCII upper-case letters shifted to lower case, every other character kept |
| Scenarios.ListUsersPaths | build.go:129-148 | one `GET /users` entry gives exactly `{"/users": {"get": operation}}` |
| Scenarios.ListUsersOperation | build.go:136-142 | that operation has operationId `listUsers`, empty tags, summary and security, and responses `{200: {description: OK, content: {application/json: {schema: {$ref: #/components/schemas/User}}}}}` |
| Scenarios.TwoGroupsKeepLast | build.go:202-211 | with schema `a` in group one and schema `b` plus one security scheme in group two, `schemas` holds only `b` and `a` is absent |

## Left out

- `BuildDocs`, `marshalToYAML`, `createYAMLOutFile` and `writeAndFlush` (build.go:35-94) are left out. They are YAML encoding through `gopkg.in/yaml.v3`, file creation and buffered writes: a foreign library and I/O.
- `initCallStackForRoutes` (build.go:39) is not part of this model. Its definition is in a file that is not part of this model.
- `server.go` is left out. It is HTTP serving through `net/http` and a filesystem wrapper.
- YAML key order and the rendering of numeric keys are left out. They belong to the serialiser, not to the transform.
- The `OAS`, `Info`, `ExternalDocs`, `Servers`, `Tags` and XML types are not part of this model. The pass-through fields are opaque `Value`s copied unchanged. The XML struct is reduced to its `name` plus an opaque remainder.
- The `key*` constants are not part of this model. They are modelled as the OpenAPI field names they stand for.
- Go distinguishes nil from empty slices and maps. The model does not: both are the empty sequence or map.
- Response codes are `uint` in the source and `nat` here. No bound on their width is modelled.
- Text.ToLower: lower-cases ASCII letters only. Non-ASCII characters are kept unchanged, where Go's `strings.ToLower` lower-cases the non-ASCII upper-case ones.
- Operations.MethodKeysLowerCase: rules out ASCII upper-case letters only. It follows `Text.ToLower`, so a non-ASCII upper-case letter in a method stays in its key.
- Build.TransformToHybridOAS: its lower-case clause is the same ASCII-only promise as `Operations.MethodKeysLowerCase`.
