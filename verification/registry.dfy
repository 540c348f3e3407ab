/** The static tables of functions/functions.go and the function map of
    main.go's `templateFuncs`. Each entry is a tag standing for the
    function it binds. */
module Registry {
  import opened Results
  import opened Values
  import JsonPath
  import Base64

  /** The template functions: `JsonPath.JsonField`, `JsonPath.MustJsonField`,
      `Base64.B64Enc` and `Base64.B64Dec`. */
  datatype TemplateFunction = JsonFieldSafe | JsonFieldMust | Base64Encode | Base64Decode

  /** The secret-provider initializers of the two AWS stores. */
  datatype ProviderInitializer = InitializeAwsSecretManager | InitializeAwsSsmParameters

  /** `TemplateFunctions` of functions/functions.go. */
  const TemplateFunctions: map<string, TemplateFunction> := map[
    "jsonField" := JsonFieldSafe,
    "mustJsonField" := JsonFieldMust,
    "b64enc" := Base64Encode,
    "b64dec" := Base64Decode
  ]

  /** main.go's own `templateFuncs`, whose `jsonField` panics on error. */
  const MainTemplateFuncs: map<string, TemplateFunction> := map[
    "jsonField" := JsonFieldMust,
    "b64enc" := Base64Encode,
    "b64dec" := Base64Decode
  ]

  /** `SecretProviders` of functions/functions.go. */
  const SecretProviders: map<string, ProviderInitializer> := map[
    "aws_secret_manager" := InitializeAwsSecretManager,
    "aws_ssm_parameters" := InitializeAwsSsmParameters
  ]

  /** Looks up a template function by name. */
  function LookupFunction(table: map<string, TemplateFunction>, name: string): Option<TemplateFunction> {
    if name in table then Some(table[name]) else None
  }

  /** Looks up a provider initializer by name. */
  function LookupProvider(name: string): (r: Option<ProviderInitializer>)
    ensures r.Some? <==> name == "aws_secret_manager" || name == "aws_ssm_parameters"
    ensures name == "aws_secret_manager" ==> r == Some(InitializeAwsSecretManager)
    ensures name == "aws_ssm_parameters" ==> r == Some(InitializeAwsSsmParameters)
  {
    if name in SecretProviders then Some(SecretProviders[name]) else None
  }

  /** What the Go function bound to a JSON lookup name gives back:
      `JsonField` returns the extraction's value or its error as a second
      result, `Done(Ok(v))` or `Done(Err(e))`; `MustJsonField` returns the
      value or panics, `Abort`. */
  function CallJsonLookup(f: TemplateFunction, parse: JsonPath.Parser, jsonText: string, path: string)
    : (r: Render<Result<Value, JsonPath.JsonError>>)
    requires f == JsonFieldSafe || f == JsonFieldMust
    ensures f == JsonFieldSafe ==> r == Done(JsonPath.ExtractField(parse, jsonText, path))
    ensures f == JsonFieldMust ==> (r.Abort? <==> JsonPath.ExtractField(parse, jsonText, path).Err?)
    ensures f == JsonFieldMust && r.Done? ==> r.value.Ok? && r.value == JsonPath.ExtractField(parse, jsonText, path)
  {
    if f == JsonFieldSafe then Done(JsonPath.JsonField(parse, jsonText, path))
    else
      match JsonPath.MustJsonField(parse, jsonText, path)
      case Done(v) => Done(Ok(v))
      case Abort(m) => Abort(m)
  }

  /** The function table holds exactly the four template functions, the
      two JSON names bound to the two calling conventions of one lookup and
      the two base64 names to the encoder and decoder. */
  lemma TemplateFunctionTable(name: string)
    ensures LookupFunction(TemplateFunctions, name).Some? <==>
      name in {"jsonField", "mustJsonField", "b64enc", "b64dec"}
    ensures LookupFunction(TemplateFunctions, "jsonField") == Some(JsonFieldSafe)
    ensures LookupFunction(TemplateFunctions, "mustJsonField") == Some(JsonFieldMust)
    ensures LookupFunction(TemplateFunctions, "b64enc") == Some(Base64Encode)
    ensures LookupFunction(TemplateFunctions, "b64dec") == Some(Base64Decode)
  {
  }

  /** functions.go's `jsonField` does not panic: it returns the
      extraction's value or error as it is. `mustJsonField` panics exactly
      when the extraction fails. */
  lemma RegistryJsonBindings(parse: JsonPath.Parser, jsonText: string, path: string)
    ensures CallJsonLookup(TemplateFunctions["jsonField"], parse, jsonText, path)
      == Done(JsonPath.ExtractField(parse, jsonText, path))
    ensures CallJsonLookup(TemplateFunctions["mustJsonField"], parse, jsonText, path).Abort?
      <==> JsonPath.ExtractField(parse, jsonText, path).Err?
    ensures JsonPath.ExtractField(parse, jsonText, path).Ok? ==>
      CallJsonLookup(TemplateFunctions["mustJsonField"], parse, jsonText, path)
        == Done(JsonPath.ExtractField(parse, jsonText, path))
  {
  }

  /** main.go's `jsonField` is the panicking kind: it panics on every
      extraction error and otherwise returns the extracted value. */
  lemma MainJsonFieldAborts(parse: JsonPath.Parser, jsonText: string, path: string)
    ensures LookupFunction(MainTemplateFuncs, "mustJsonField") == None
    ensures CallJsonLookup(MainTemplateFuncs["jsonField"], parse, jsonText, path).Abort?
      <==> JsonPath.ExtractField(parse, jsonText, path).Err?
    ensures JsonPath.ExtractField(parse, jsonText, path).Ok? ==>
      CallJsonLookup(MainTemplateFuncs["jsonField"], parse, jsonText, path)
        == Done(JsonPath.ExtractField(parse, jsonText, path))
  {
  }

  /** The provider table's names are not main.go's prefixes: the secret
      manager's name matches its prefix without the colon, the parameter
      store's does not. */
  lemma ProviderNamesAgainstPrefixes()
    ensures LookupProvider("aws_secret_manager") == Some(InitializeAwsSecretManager)
    ensures LookupProvider("aws_parameter_store") == None
    ensures InitializeAwsSecretManager != InitializeAwsSsmParameters
  {
  }
}
