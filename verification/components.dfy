/** The `components` half of the transformer (build.go, lines 202-321): schemas
    with their properties, and security schemes with their OAuth flows and
    scopes. Optional fields are left out of a map when their source is empty. */
module Components {
  import opened Values
  import opened Api
  import opened Text
  import Keys
  import Folds

  /** The map written for one schema property: each optional field only when set. */
  function PropertyMap(p: SchemaProperty): (r: map<string, Value>)
    ensures r.Keys <= {Keys.Type, Keys.Format, Keys.Description, Keys.Enum, Keys.Default}
    ensures Keys.Type in r <==> p.kind != ""
    ensures Keys.Format in r <==> p.format != ""
    ensures Keys.Description in r <==> p.description != ""
    ensures Keys.Enum in r <==> |p.enum| > 0
    ensures Keys.Default in r <==> p.defaultValue.Some?
    ensures Keys.Type in r ==> r[Keys.Type] == Str(p.kind)
    ensures Keys.Format in r ==> r[Keys.Format] == Str(p.format)
    ensures Keys.Description in r ==> r[Keys.Description] == Str(p.description)
    ensures Keys.Enum in r ==> r[Keys.Enum] == List(Strs(p.enum))
    ensures Keys.Default in r ==> r[Keys.Default] == p.defaultValue.value
  {
    var withType := if IsStrEmpty(p.kind) then map[] else map[Keys.Type := Str(p.kind)];
    var withFormat := if IsStrEmpty(p.format) then withType else withType[Keys.Format := Str(p.format)];
    var withDescription :=
      if IsStrEmpty(p.description) then withFormat
      else withFormat[Keys.Description := Str(p.description)];
    var withEnum := if |p.enum| > 0 then withDescription[Keys.Enum := List(Strs(p.enum))] else withDescription;
    match p.defaultValue
    case None => withEnum
    case Some(v) => withEnum[Keys.Default := v]
  }

  /** A property with nothing optional set is written as an empty map. */
  lemma BarePropertyIsEmpty(p: SchemaProperty)
    requires p.kind == "" && p.format == "" && p.description == ""
    requires |p.enum| == 0 && p.defaultValue.None?
    ensures PropertyMap(p) == map[]
  {
  }

  function PropertyName(p: SchemaProperty): string { p.name }

  function PropertyValue(p: SchemaProperty): Value { Map(PropertyMap(p)) }

  /** The source's `makePropertiesMap`: property name to property map, the last
      property with a name winning. */
  function MakePropertiesMap(properties: seq<SchemaProperty>): (r: map<string, Value>)
    ensures forall name :: name in r <==> exists i :: 0 <= i < |properties| && properties[i].name == name
    ensures forall i :: Folds.IsLast(properties, PropertyName, i) ==>
      properties[i].name in r && r[properties[i].name] == Map(PropertyMap(properties[i]))
  {
    Folds.Assign(properties, PropertyName, PropertyValue)
  }

  /** The map written for one schema: type, properties and `$ref` always (even
      when empty), and `xml` only when the XML metadata has a name. */
  function SchemaMap(s: Schema): (r: map<string, Value>)
    ensures {Keys.Type, Keys.Properties, Keys.Ref} <= r.Keys
    ensures r.Keys <= {Keys.Type, Keys.Properties, Keys.Ref, Keys.Xml}
    ensures Keys.Xml in r <==> s.xml.name != ""
    ensures r[Keys.Type] == Str(s.kind)
    ensures r[Keys.Ref] == Str(s.ref)
    ensures r[Keys.Properties] == Map(MakePropertiesMap(s.properties))
    ensures Keys.Xml in r ==> r[Keys.Xml] == Xml(s.xml)
  {
    var always := map[
      Keys.Type := Str(s.kind),
      Keys.Properties := Map(MakePropertiesMap(s.properties)),
      Keys.Ref := Str(s.ref)
    ];
    if s.xml.name != "" then always[Keys.Xml := Xml(s.xml)] else always
  }

  function SchemaName(s: Schema): string { s.name }

  function SchemaValue(s: Schema): Value { Map(SchemaMap(s)) }

  /** The source's `makeComponentSchemasMap`: schema name to schema map, the last
      schema with a name winning. */
  function MakeComponentSchemasMap(schemas: seq<Schema>): (r: map<string, Value>)
    ensures forall name :: name in r <==> exists i :: 0 <= i < |schemas| && schemas[i].name == name
    ensures forall i :: Folds.IsLast(schemas, SchemaName, i) ==>
      schemas[i].name in r && r[schemas[i].name] == Map(SchemaMap(schemas[i]))
  {
    Folds.Assign(schemas, SchemaName, SchemaValue)
  }

  /** The source's `makeSecurityScopesMap`: scope name to description, skipping
      every scope whose name is empty; the last scope with a name wins. */
  function MakeSecurityScopesMap(scopes: seq<SecurityScope>): (r: map<string, Value>)
    ensures "" !in r
    ensures forall name :: name in r <==>
      name != "" && exists i :: 0 <= i < |scopes| && scopes[i].name == name
    ensures forall i :: Folds.IsLast(scopes, ScopeName, i) && scopes[i].name != "" ==>
      scopes[i].name in r && r[scopes[i].name] == Str(scopes[i].description)
    decreases |scopes|
  {
    if |scopes| == 0 then map[]
    else
      var n := |scopes| - 1;
      var prev := MakeSecurityScopesMap(scopes[..n]);
      ScopesStep(scopes, prev);
      if IsStrEmpty(scopes[n].name) then prev
      else prev[scopes[n].name := Str(scopes[n].description)]
  }

  function ScopeName(s: SecurityScope): string { s.name }

  /** `r` holds exactly the named scopes of `scopes`, each with the description of
      the last scope carrying that name. */
  ghost predicate ScopesOf(scopes: seq<SecurityScope>, r: map<string, Value>)
  {
    && (forall name :: name in r <==> name != "" && exists i :: 0 <= i < |scopes| && scopes[i].name == name)
    && (forall i :: Folds.IsLast(scopes, ScopeName, i) && scopes[i].name != "" ==>
          scopes[i].name in r && r[scopes[i].name] == Str(scopes[i].description))
  }

  /** One iteration of the scopes loop, the skip included, keeps `ScopesOf`. */
  lemma ScopesStep(scopes: seq<SecurityScope>, prev: map<string, Value>)
    requires |scopes| > 0
    requires ScopesOf(scopes[..|scopes| - 1], prev)
    ensures var last := scopes[|scopes| - 1];
      ScopesOf(scopes, if last.name == "" then prev else prev[last.name := Str(last.description)])
  {
    var last := scopes[|scopes| - 1];
    var r := if last.name == "" then prev else prev[last.name := Str(last.description)];
    ScopesStepKeys(scopes, prev, r);
    ScopesStepLast(scopes, prev, r);
  }

  lemma ScopesStepKeys(scopes: seq<SecurityScope>, prev: map<string, Value>, r: map<string, Value>)
    requires |scopes| > 0
    requires ScopesOf(scopes[..|scopes| - 1], prev)
    requires var last := scopes[|scopes| - 1];
      r == if last.name == "" then prev else prev[last.name := Str(last.description)]
    ensures forall name :: name in r <==> name != "" && exists i :: 0 <= i < |scopes| && scopes[i].name == name
  {
  }

  lemma ScopesStepLast(scopes: seq<SecurityScope>, prev: map<string, Value>, r: map<string, Value>)
    requires |scopes| > 0
    requires ScopesOf(scopes[..|scopes| - 1], prev)
    requires var last := scopes[|scopes| - 1];
      r == if last.name == "" then prev else prev[last.name := Str(last.description)]
    ensures forall i :: Folds.IsLast(scopes, ScopeName, i) && scopes[i].name != "" ==>
      scopes[i].name in r && r[scopes[i].name] == Str(scopes[i].description)
  {
    var n := |scopes| - 1;
    var p := scopes[..n];
    assert forall j :: 0 <= j < n ==> scopes[j] == p[j];
    forall i | Folds.IsLast(scopes, ScopeName, i) && scopes[i].name != ""
      ensures scopes[i].name in r && r[scopes[i].name] == Str(scopes[i].description)
    {
      if i < n {
        assert Folds.IsLast(p, ScopeName, i);
      }
    }
  }

  /** The map written for one flow: always exactly its authorization URL and scopes. */
  function FlowMap(f: SecurityFlow): (r: map<string, Value>)
    ensures r.Keys == {Keys.AuthorizationUrl, Keys.Scopes}
    ensures r[Keys.AuthorizationUrl] == Str(f.authUrl)
    ensures r[Keys.Scopes] == Map(MakeSecurityScopesMap(f.scopes))
  {
    map[Keys.AuthorizationUrl := Str(f.authUrl), Keys.Scopes := Map(MakeSecurityScopesMap(f.scopes))]
  }

  function FlowKind(f: SecurityFlow): string { f.kind }

  function FlowValue(f: SecurityFlow): Value { Map(FlowMap(f)) }

  /** The source's `makeFlowsMap`: flow type to flow map, the last flow of a type
      winning. */
  function MakeFlowsMap(flows: seq<SecurityFlow>): (r: map<string, Value>)
    ensures forall kind :: kind in r <==> exists i :: 0 <= i < |flows| && flows[i].kind == kind
    ensures forall i :: Folds.IsLast(flows, FlowKind, i) ==>
      flows[i].kind in r && r[flows[i].kind] == Map(FlowMap(flows[i]))
    ensures forall kind :: kind in r ==>
      r[kind].Map? && r[kind].fields.Keys == {Keys.AuthorizationUrl, Keys.Scopes}
  {
    Folds.Assign(flows, FlowKind, FlowValue)
  }

  /** The map written for one security scheme. `name` only when it is set AND the
      scheme has no flows; `type` and `in` only when set; `flows` only when there
      is at least one flow. */
  function SecuritySchemeMap(ss: SecurityScheme): (r: map<string, Value>)
    ensures r.Keys <= {Keys.Name, Keys.Type, Keys.In, Keys.Flows}
    ensures Keys.Name in r <==> ss.name != "" && |ss.flows| == 0
    ensures Keys.Type in r <==> ss.kind != ""
    ensures Keys.In in r <==> ss.location != ""
    ensures Keys.Flows in r <==> |ss.flows| > 0
    ensures Keys.Name in r ==> r[Keys.Name] == Str(ss.name)
    ensures Keys.Type in r ==> r[Keys.Type] == Str(ss.kind)
    ensures Keys.In in r ==> r[Keys.In] == Str(ss.location)
    ensures Keys.Flows in r ==> r[Keys.Flows] == Map(MakeFlowsMap(ss.flows))
  {
    var lenFlows := |ss.flows|;
    var withName := if !IsStrEmpty(ss.name) && lenFlows == 0 then map[Keys.Name := Str(ss.name)] else map[];
    var withType := if IsStrEmpty(ss.kind) then withName else withName[Keys.Type := Str(ss.kind)];
    var withIn := if IsStrEmpty(ss.location) then withType else withType[Keys.In := Str(ss.location)];
    if lenFlows > 0 then withIn[Keys.Flows := Map(MakeFlowsMap(ss.flows))] else withIn
  }

  function SecuritySchemeName(ss: SecurityScheme): string { ss.name }

  function SecuritySchemeValue(ss: SecurityScheme): Value { Map(SecuritySchemeMap(ss)) }

  /** The source's `makeComponentSecuritySchemesMap`: keyed by the scheme's name,
      even when that name is empty (or left out of the scheme's own map because
      the scheme has flows); the last scheme with a name wins. */
  function MakeComponentSecuritySchemesMap(schemes: seq<SecurityScheme>): (r: map<string, Value>)
    ensures forall name :: name in r <==> exists i :: 0 <= i < |schemes| && schemes[i].name == name
    ensures forall i :: Folds.IsLast(schemes, SecuritySchemeName, i) ==>
      schemes[i].name in r && r[schemes[i].name] == Map(SecuritySchemeMap(schemes[i]))
  {
    Folds.Assign(schemes, SecuritySchemeName, SecuritySchemeValue)
  }

  /** The two entries a component group contributes. */
  function GroupMap(c: Component): (r: map<string, Value>)
    ensures r.Keys == {Keys.Schemas, Keys.SecuritySchemes}
  {
    map[
      Keys.Schemas := Map(MakeComponentSchemasMap(c.schemas)),
      Keys.SecuritySchemes := Map(MakeComponentSecuritySchemesMap(c.securitySchemes))
    ]
  }

  /** The source's `makeComponentsMap`. Every group writes the same two keys, so
      each overwrites the one before it: an empty list gives an empty map, and
      otherwise the result is built from the LAST group alone. */
  function MakeComponentsMap(groups: seq<Component>): (r: map<string, Value>)
    ensures |groups| == 0 ==> r == map[]
    ensures |groups| > 0 ==> r == GroupMap(groups[|groups| - 1])
    decreases |groups|
  {
    if |groups| == 0 then map[]
    else
      var n := |groups| - 1;
      var prev := MakeComponentsMap(groups[..n]);
      prev[Keys.Schemas := Map(MakeComponentSchemasMap(groups[n].schemas))]
          [Keys.SecuritySchemes := Map(MakeComponentSecuritySchemesMap(groups[n].securitySchemes))]
  }

  /** Earlier groups leave no trace: whatever precedes the last group, the
      components map is the same. */
  lemma EarlierGroupsForgotten(before: seq<Component>, other: seq<Component>, last: Component)
    ensures MakeComponentsMap(before + [last]) == MakeComponentsMap(other + [last])
    ensures MakeComponentsMap(before + [last]) == GroupMap(last)
  {
  }
}
