/** The list-shaped API description the transformer reads: one record per Go
    struct it walks. Fields named like Dafny keywords are renamed (`type` to
    `kind`, `in` to `location`, `default` to `defaultValue`). */
module Api {
  import opened Values

  /** One security requirement: a scheme name and the scopes it needs. */
  datatype SecurityEntity = SecurityEntity(authName: string, permTypes: seq<string>)

  /** One media type and the schema reference its payload follows. */
  datatype ContentType = ContentType(name: string, schema: string)

  datatype RequestBody = RequestBody(description: string, content: seq<ContentType>)

  /** A response for one HTTP status code (an unsigned integer in the source). */
  datatype Response = Response(code: nat, description: string, content: seq<ContentType>)

  /** One route + method pair. */
  datatype Path = Path(
    route: string,
    httpMethod: string,
    tags: seq<string>,
    summary: string,
    operationId: string,
    security: seq<SecurityEntity>,
    requestBody: RequestBody,
    responses: seq<Response>)

  /** A schema property; `defaultValue` is the source's untyped `Default`,
      with `None` for nil. */
  datatype SchemaProperty = SchemaProperty(
    name: string,
    kind: string,
    format: string,
    description: string,
    enum: seq<string>,
    defaultValue: Option<Value>)

  datatype Schema = Schema(
    name: string,
    kind: string,
    properties: seq<SchemaProperty>,
    xml: XmlObject,
    ref: string)

  datatype SecurityScope = SecurityScope(name: string, description: string)

  /** An OAuth flow: its type, authorization URL and scopes. */
  datatype SecurityFlow = SecurityFlow(kind: string, authUrl: string, scopes: seq<SecurityScope>)

  datatype SecurityScheme = SecurityScheme(
    name: string,
    kind: string,
    location: string,
    flows: seq<SecurityFlow>)

  datatype Component = Component(schemas: seq<Schema>, securitySchemes: seq<SecurityScheme>)

  /** The whole description. The version, info block, external docs, servers and
      tags are copied to the output unchanged, so they are kept as opaque values. */
  datatype OAS = OAS(
    version: Value,
    info: Value,
    externalDocs: Value,
    servers: Value,
    tags: Value,
    paths: seq<Path>,
    components: seq<Component>)
}
