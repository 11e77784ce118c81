/** The map keys the transformer writes. They follow the field names of
    version 3 of the OpenAPI Specification. */
module Keys {
  const Tags := "tags"
  const Summary := "summary"
  const OperationId := "operationId"
  const Security := "security"
  const RequestBody := "requestBody"
  const Responses := "responses"
  const Description := "description"
  const Content := "content"
  const Schema := "schema"
  const Ref := "$ref"
  const Schemas := "schemas"
  const SecuritySchemes := "securitySchemes"
  const Type := "type"
  const Format := "format"
  const Enum := "enum"
  const Default := "default"
  const Properties := "properties"
  const Xml := "xml"
  const Name := "name"
  const In := "in"
  const Flows := "flows"
  const AuthorizationUrl := "authorizationUrl"
  const Scopes := "scopes"

}
