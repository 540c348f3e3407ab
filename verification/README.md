# sparta core, modelled in Dafny

sparta renders Go text templates against a value set built from a YAML
config file plus secrets fetched from AWS (the SSM parameter store and the
secrets manager). This project models the logic of that pipeline that is not
plumbing:

- **JSON path extraction** (`extractJSONField`, with its safe `JsonField`
  and aborting `MustJsonField` callers, and main.go's aborting `jsonField`
  template function): `jsonpath.dfy`, over the untyped value tree of
  `values.dfy` and Go's `strings.Split` in `gostrings.dfy`.
- **Standard base64** (`base64Encode`, `base64Decode`, and the identical
  `b64enc`/`b64dec` of main.go:187-196): `base64.dfy`. This is section 4 of
  RFC 4648, with the acceptance rules of Go's `base64.StdEncoding` decoder.
- **Secret loading** (`loadSecrets`): `secrets.dfy`. It covers prefix
  dispatch to the two stores, fetching, and merging into the values.
- **Config normalisation** (`loadConfig`, `ConfigName`): `configs.dfy`,
  over Go's `filepath.Base`/`Ext`/`Join` in `gofilepath.dfy`.
- **Template selection and output placement** (`processTemplates`,
  `processTemplateFile`): `rendering.dfy`.
- **Function and provider registries** (functions/functions.go):
  `registry.dfy`.

Errors that Go returns as values are `Result.Err`. A `panic` inside a
template function, which aborts the whole render, is `Render.Abort`. Both
types are in `results.dfy`. Foreign code is a parameter of the model:

- the JSON decoder is `JsonPath.Parser`;
- the two AWS clients are `Secrets.Stores`;
- the YAML decoder's output is `Configs.Decoded`;
- the directory walk's entries are a sequence of `Rendering.Entry`.

Go leaves map iteration order unspecified. `LoadSecrets` therefore takes the
visiting order as an argument and is proved for every order.

Secret identifiers are routed on their literal prefixes
`aws_parameter_store:` and `aws_secret_manager:` (main.go:120-145). The
identifier is not split any further, store clients are not cached, and there
are no per-provider configs.

## Model

| member | source | states |
|---|---|---|
| GoStrings.Split | functions/utilities/json.go:31 | the path always splits into at least one segment, no segment contains `.`, and joining the segments with `.` gives the path back |
| GoStrings.SplitJoin | functions/utilities/json.go:31 | splitting undoes joining whenever no segment contains the separator, so segments and dotted path determine each other |
| GoStrings.SplitConcat | functions/utilities/json.go:31 | the segments of `a.b` are the segments of `a` followed by those of `b` |
| JsonPath.JsonField | functions/utilities/json.go:9-15 | the safe form returns exactly the extraction's value or error |
| JsonPath.MustJsonField | functions/utilities/json.go:17-23 | the aborting form returns the extracted value on success, and aborts exactly when extraction fails, with the error text in the panic message |
| JsonPath.Step | functions/utilities/json.go:36-46 | one step succeeds exactly when the current value is an object holding the segment, and yields that key's value; an array fails with the fixed array error, an object without the key with "field not found" and any scalar with "invalid path", both naming the segment |
| JsonPath.Walk | functions/utilities/json.go:34-49 | the empty path yields the current value; a failure never reports invalid JSON, and a "field not found" or "invalid path" failure names one of the path's segments |
| JsonPath.ExtractField | functions/utilities/json.go:25-50 | the result is an invalid-JSON error exactly when the decoder rejects the text, and then carries the decoder's message; any "field not found" or "invalid path" error names a segment of the dotted path |
| JsonPath.WalkAppend | functions/utilities/json.go:34-47 | walking `p + q` is walking `p` and then `q` from where `p` ended; an error on `p` is the error of the whole walk |
| JsonPath.WalkNest | functions/utilities/json.go:36-38 | walking a nesting of single-key objects along its own keys reaches its innermost value |
| JsonPath.WalkFailsIff | functions/utilities/json.go:34-47 | the walk fails with `e` exactly when some segment's step fails with `e` after every earlier segment succeeded |
| JsonPath.WalkSucceedsIff | functions/utilities/json.go:34-49 | the walk succeeds exactly when each segment names a key of the object the earlier segments reached, and it then yields the value under the last key |
| JsonPath.ExtractInvalidJson | functions/utilities/json.go:26-29 | text the decoder rejects fails as invalid JSON carrying the decoder's error, before any traversal |
| JsonPath.ExtractFollowsKeys | functions/utilities/json.go:31-49 | when every segment names a key in successively nested objects, the result is the value at the last segment |
| JsonPath.ExtractMissingField | functions/utilities/json.go:36-41 | a segment missing from the object reached so far fails with "field not found" naming exactly that segment |
| JsonPath.ExtractThroughArray | functions/utilities/json.go:42-43 | reaching an array with a segment left fails with the fixed array-indexing error, whatever the segment says |
| JsonPath.ExtractThroughScalar | functions/utilities/json.go:44-45 | reaching a string, number, boolean or null with a segment left fails with "invalid path" naming that segment |
| JsonPath.ExtractErrorLocated | functions/utilities/json.go:34-46 | every traversal failure is located at one segment, after all earlier segments succeeded |
| JsonPath.ExtractTakesAStep | functions/utilities/json.go:31-38 | a successful extraction always looked up the first segment in a top-level object, so the root is never the answer; the empty path looks up key `""` |
| JsonPath.ExtractDottedPath | functions/utilities/json.go:31-47 | extracting `a.b` is extracting `a` and then walking `b` from the value found |
| JsonPath.ExtractExamples | functions/utilities/json.go:25-50 | `{"a":{"b":1}}` gives 1 at `a.b` and "field c not found" at `a.c`; `{"a":[1,2]}` gives the array error at `a.0` |
| Base64.SextetRoundTrip | functions/utilities/base64.go:16 | decoding the alphabet character of a six-bit value gives the value back |
| Base64.SextetInverse | functions/utilities/base64.go:20 | every alphabet character is the encoding of the six-bit value it decodes to |
| Base64.StripLineBreaks | functions/utilities/base64.go:20 | the decoder's view of its input keeps exactly the characters other than `\r` and `\n`, and leaves text without line breaks unchanged |
| Base64.StripLineBreaksAppend | functions/utilities/base64.go:20 | removing line breaks distributes over concatenation, so the kept characters keep their order and their number of occurrences |
| Base64.StripLineBreaksSingle | functions/utilities/base64.go:20 | a single character is kept exactly when it is not `\r` or `\n`; with the previous row this determines the decoder's view of any input |
| Base64.Encode | functions/utilities/base64.go:16 | the encoding is empty exactly when the input is |
| Base64.Decode | functions/utilities/base64.go:20 | text that decodes has, line breaks aside, a length divisible by four, and text made only of line breaks decodes to no bytes |
| Base64.B64Enc | functions/utilities/base64.go:15-17 | the encoder's output is well-formed, canonical base64 (unused bits of a padded last group are zero) that decodes back to its input; with `EncodeUnique` this fixes it as the one such text, so `b64enc("A")` is `QQ==` and not `QR==` |
| Base64.B64Dec | functions/utilities/base64.go:19-25 | decoding returns the bytes when the input, line breaks aside, is well-formed, and aborts the render exactly when it is not |
| Base64.RoundTrip | functions/utilities/base64.go:15-25 | `base64Decode(base64Encode(b)) == b` for every byte sequence |
| Base64.EncodeDecodesBack | functions/utilities/base64.go:15-24 | the groups of the encoding decode back to the input, three bytes per group |
| Base64.EncodeLength | functions/utilities/base64.go:16 | encoding n bytes gives 4 * ceil(n / 3) characters |
| Base64.EncodeAlphabet | functions/utilities/base64.go:16 | all characters of the encoding but the last two are in the alphabet, and all of them are when n mod 3 = 0 |
| Base64.EncodePadding | functions/utilities/base64.go:16 | the padding is `==` when n mod 3 = 1 and `=` when n mod 3 = 2, preceded by an alphabet character |
| Base64.EncodeWellFormed | functions/utilities/base64.go:16 | the encoding uses only the alphabet, with `=` only as trailing padding |
| Base64.EncodeEmpty | functions/utilities/base64.go:15-24 | the empty input encodes to the empty string and the empty string decodes to no bytes |
| Base64.DecodeGroupsIff | functions/utilities/base64.go:20 | whole groups of four decode exactly when they are well-formed |
| Base64.DecodeAcceptsIff | functions/utilities/base64.go:20-23 | the decoder accepts its input exactly when it is well-formed once line breaks are removed |
| Base64.DecodeRejectsForeignChar | functions/utilities/base64.go:20-23 | a character outside the alphabet, other than `=` or a line break, makes decoding fail |
| Base64.DecodeRejectsLength | functions/utilities/base64.go:20-23 | an input whose length without line breaks is not a multiple of four makes decoding fail |
| Base64.CanonicalRoundTrip | functions/utilities/base64.go:19-24 | re-encoding the decoding of a canonical text (unused bits zero) gives the text back |
| Base64.EncodeCanonical | functions/utilities/base64.go:16 | the encoding sets the unused low bits of a padded last group to zero, as section 3.5 of RFC 4648 requires of an encoder |
| Base64.EncodeUnique | functions/utilities/base64.go:15-24 | a canonical text (line breaks aside) that decodes to some bytes is exactly the encoding of those bytes, so each byte sequence has one canonical encoding |
| Base64.DecodeEncodesBack | functions/utilities/base64.go:19-24 | for a canonical input, encoding the decoded bytes gives the input without its line breaks |
| GoStrings.TrimPrefix | main.go:123 | the prefix is removed once when present and the identifier is unchanged otherwise |
| GoStrings.TrimSuffix | main.go:112 | the suffix is removed once when present and the name is unchanged otherwise |
| Secrets.LoadSecrets | main.go:116-149 | the pass succeeds exactly when every identifier resolves. Then every secret name holds its fetched string, overriding the static value, and other values are unchanged. Otherwise the error is that of the first failing identifier in visiting order |
| Secrets.Overlay | main.go:120-146 | the loop as a recursion: it succeeds exactly when every visited identifier resolves, and then the keys are the old keys plus the visited names |
| Secrets.OverlayWrites | main.go:131-141 | on success, without repeated names, each visited name holds its fetched string and every other value is kept |
| Secrets.OverlayEnumeration | main.go:120-146 | for any order that visits each secret once, the loop succeeds exactly when every identifier resolves, and then each secret name holds its fetched string while other values are kept |
| Secrets.Resolve | main.go:120-145 | an identifier fails as an unknown provider exactly when it has neither prefix, and that error names the whole identifier; a store failure names the key that, after the store's prefix, makes up the identifier |
| Secrets.PrefixesDisjoint | main.go:30-33 | no identifier carries both prefixes, so at most one branch of the switch matches |
| Secrets.ResolveParameterStore | main.go:122-131 | an `aws_parameter_store:` identifier is fetched from the parameter store with the prefix removed exactly once; a failure is wrapped with the stripped key |
| Secrets.ResolveSecretManager | main.go:133-141 | an `aws_secret_manager:` identifier is fetched from the secret manager with the prefix removed; a failure is wrapped with the stripped key |
| Secrets.ResolveUnknown | main.go:143-144 | an identifier with neither prefix fails with "unknown secret provider for" and the identifier |
| Secrets.ResolveOk | main.go:121-145 | a resolved identifier is a prefix plus a key, and its value is what that store returned for the key |
| GoFilepath.Base | main.go:243 | the base name is never empty and is `.` for the empty path. It is `/` exactly when the path is non-empty and made only of separators. Otherwise it is the separator-free last element of the path once trailing separators are dropped |
| GoFilepath.Ext | main.go:112 | the extension is a suffix of the path that is empty or starts with its only `.` and has no separator; when it is empty, the final element has no `.` |
| GoFilepath.StripTrailingSeparators | main.go:243 | the result is a prefix of the path that does not end in a separator, and everything after it is separators |
| GoFilepath.LastElement | main.go:243 | the result has no separator, ends the text, and is preceded by a separator whenever it is not the whole text |
| GoFilepath.ExtIsSuffix | main.go:211 | the extension equals an extension-shaped string exactly when the path ends in it |
| GoFilepath.JoinPath | main.go:238 | the joined path is empty exactly when every element is. Otherwise it is the elements from the first non-empty one onwards, joined by `/`, later empty elements included |
| GoFilepath.BaseOfJoin | main.go:243 | joining a directory and a plain name puts one separator between them, and the base name of the result is that name |
| GoFilepath.BaseAfterSeparator | main.go:243 | the base name of `dir/name` is `name` for a non-empty plain name |
| Configs.LoadConfig | main.go:94-113 | read and decode failures are handed back unchanged; otherwise nil values and secrets become empty maps and the config name is derived from the path |
| Configs.ConfigName | main.go:112 | the config name is a prefix of the base name, and adding back the extension gives the base name whenever the base name ends in it |
| Configs.ConfigNameDropsLastExtension | main.go:112 | the config name followed by the last extension is the base name, and the removed part holds one `.`, at its start |
| Configs.ConfigNameDropsOnlyLastExtension | main.go:112 | only the last extension is removed, so `a.b.yaml` gives `a.b` |
| Configs.ConfigNameInDirectory | main.go:112 | a config file in any directory is named by its file name without the last extension, so `configs/prod.yaml` gives `prod` |
| Configs.ConfigNameWithoutExtension | main.go:112 | a plain name without a `.`, such as `noext`, is its own config name |
| Rendering.SelectTemplates | main.go:207-215 | a path is selected exactly when some non-directory entry of the walk with that path has extension `.yaml` or `.yml`; the selection is no longer than the walk |
| Rendering.SelectTemplatesAppend | main.go:207-215 | selection distributes over concatenation of walks, so selected paths keep the walk's order and each entry is selected at most once |
| Rendering.SelectTemplatesSingle | main.go:211-213 | a single entry is selected, as its own path, exactly when it is a template file; with the previous row this determines the selection of any walk |
| Rendering.TemplatesToRender | main.go:206-218 | a plain file is selected whatever its extension; a directory selects exactly the template files of its walk, in walk order |
| Rendering.IsTemplateFile | main.go:211 | an entry is a template file exactly when it is not a directory and its path ends in `.yaml` or `.yml`, compared case-sensitively |
| Rendering.OutputSink | main.go:234-237 | output goes to standard output exactly when no output directory is set |
| Rendering.OutputPathLayout | main.go:238-243 | with an output directory, the target is `outputDir/configName/base(template)` before cleaning, and it keeps the template's base name |
| Registry.TemplateFunctionTable | functions/functions.go:12-17 | the table holds exactly `jsonField`, `mustJsonField`, `b64enc` and `b64dec`, bound to the safe lookup, the aborting lookup, the encoder and the decoder |
| Registry.CallJsonLookup | functions/functions.go:13-14 | the safe function returns the extraction's value or error; the panicking function panics exactly when extraction fails and otherwise returns the value |
| Registry.RegistryJsonBindings | functions/functions.go:13-14 | the table's `jsonField` does not panic and returns the extraction's value or error; its `mustJsonField` panics exactly when extraction fails |
| Registry.MainJsonFieldAborts | main.go:178-186 | main.go's `jsonField` is the panicking kind: it panics on every extraction error and otherwise returns the value; main.go has no `mustJsonField` |
| Registry.LookupProvider | functions/functions.go:19-22 | the provider table holds exactly `aws_secret_manager` and `aws_ssm_parameters`, each bound to its own initializer; any other name has no entry |
| Registry.ProviderNamesAgainstPrefixes | functions/functions.go:19-22 | the two initializers are distinct, and `aws_parameter_store`, main.go's parameter-store prefix without the colon, is not a provider name |

## Left out

- AWS clients and SDK configuration (main.go:71-74, 117-118, 124-141, and functions/secret_providers/): external services. The fetches are the parameters `Secrets.Stores`.
- JSON text parsing (`json.Unmarshal`): foreign library code. It is the parameter `JsonPath.Parser`. Numbers stay abstract as their literal text, because Go decodes them to float64 and no arithmetic is done on them.
- YAML decoding, file reading, `filepath.Walk` traversal, `MkdirAll`/`Create`, the progress line on stderr, and the cobra CLI (main.go:35-68): I/O and plumbing. Their results are inputs to `LoadConfig`, `TemplatesToRender` and `OutputSink`.
- `processTemplate` (main.go:70-92): it only runs load, secrets and render for each config file in turn and stops at the first error. The steps it sequences are modelled.
- The template engine (`text/template` parse and execute, panic recovery, rendering): foreign code. `Render.Abort` stands for the panic that ends a render.
- Registry.CallJsonLookup: gives what the Go function returns, not what `text/template` makes of it. When a function returns a non-nil error as its second result, template execution stops with `error calling jsonField: …`. Inside a render both JSON forms therefore end the render on a failed extraction; only the message differs.
- Rendering.TemplatesToRender: gives the files selected for rendering. In Go, a walk error or the first error returned by `processTemplateFile` ends the walk (main.go:207-213), so later selected files are not rendered. Rendering and its errors are not modelled.
- The `functionsMutex` (functions/functions.go:11): concurrency machinery with no behaviour.
- The `init` registration in functions/utilities/base64.go:10-13: it calls `functions.RegisterFunction`, which functions/functions.go does not define. functions.go also names `Base64Encode`/`Base64Decode`, while base64.go defines lower-case names, and the two packages import each other. The registry models the evidently intended bindings.
- Go strings hold bytes. The model keeps base64 data as `bv8` bytes and every other string as Dafny characters. UTF-8 conversion is not modelled.
- Base64.B64Dec: the abort message omits the byte offset that Go's `CorruptInputError` reports, because the offset depends on the decoder's internal scan position.
- GoFilepath.JoinPath: omits the `Clean` step at the end of `filepath.Join`, which removes `.`, `..`, doubled separators and a trailing separator. For example `["out", ""]` joins to `out/` in the model, where Go returns `out`. `OutputPathLayout` therefore describes the paths before cleaning.
- Secrets.LoadSecrets: when a fetch fails, Go has already written the earlier secrets into the config's map. The model returns only the error, because every caller discards the config on error.
- Paths use the Unix separator `/` only. Windows volume names and `\` are not modelled.
- YAML values are modelled with the same untyped tree as JSON values. YAML maps with non-string keys are not represented.
