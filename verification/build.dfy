/** The entry points of the transformer (build.go, lines 13-33 and 104-127):
    choosing the output path, and assembling the whole OpenAPI document from the
    paths and components maps. */
module Build {
  import opened Values
  import opened Api
  import opened Text
  import Keys
  import Operations
  import Components

  const DefaultDocsOutPath := "./internal/dist/openapi.yaml"

  /** Options for the document build; only the output path exists. */
  datatype ConfigBuilder = ConfigBuilder(customPath: string)

  /** The output path: the default when no configuration is given, and otherwise
      the first configuration's path, even when that path is empty. */
  function GetPathFromFirstElement(cbs: seq<ConfigBuilder>): (path: string)
    ensures |cbs| == 0 ==> path == DefaultDocsOutPath
    ensures |cbs| > 0 ==> path == cbs[0].customPath
  {
    if |cbs| == 0 then DefaultDocsOutPath else cbs[0].customPath
  }

  /** Configurations after the first are never looked at. */
  lemma LaterConfigsIgnored(first: ConfigBuilder, rest: seq<ConfigBuilder>, other: seq<ConfigBuilder>)
    ensures GetPathFromFirstElement([first] + rest) == GetPathFromFirstElement([first] + other)
  {
  }

  /** The document handed to the YAML serialiser, in the order of its top-level keys. */
  datatype HybridOAS = HybridOAS(
    openapi: Value,
    info: Value,
    externalDocs: Value,
    servers: Value,
    tags: Value,
    paths: Operations.PathsMap,
    components: map<string, Value>)

  /** The source's `transformToHybridOAS`: the version, info, external docs,
      servers and tags are copied through; the paths and components are rebuilt
      in map form. */
  function TransformToHybridOAS(o: OAS): (r: HybridOAS)
    ensures r.openapi == o.version && r.info == o.info && r.externalDocs == o.externalDocs
    ensures r.servers == o.servers && r.tags == o.tags
    ensures forall route :: route in r.paths <==> exists i :: 0 <= i < |o.paths| && o.paths[i].route == route
    ensures forall route, m :: route in r.paths && m in r.paths[route] ==> IsLowerCase(m)
    ensures r.paths == Operations.MakeAllPathsMap(o.paths)
    ensures |o.components| == 0 ==> r.components == map[]
    ensures |o.components| > 0 ==> r.components.Keys == {Keys.Schemas, Keys.SecuritySchemes}
    ensures |o.components| > 0 ==> r.components == Components.GroupMap(o.components[|o.components| - 1])
  {
    var paths := Operations.MakeAllPathsMap(o.paths);
    var components := Components.MakeComponentsMap(o.components);
    Operations.MethodKeysLowerCase(o.paths);
    assert forall route :: route in paths <==> exists i :: 0 <= i < |o.paths| && o.paths[i].route == route;
    assert |o.components| > 0 ==> components.Keys == {Keys.Schemas, Keys.SecuritySchemes};
    HybridOAS(o.version, o.info, o.externalDocs, o.servers, o.tags, paths, components)
  }
}
