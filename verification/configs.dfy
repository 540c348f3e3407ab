/** The per-file configuration (`Config` in main.go) and `loadConfig`'s
    normalisation of what the YAML decoder produced. */
module Configs {
  import opened Results
  import opened Values
  import opened GoStrings
  import opened GoFilepath

  /** Static values for the template, secrets to fetch (destination name to
      secret identifier), and the name derived from the config file. */
  datatype Config = Config(values: map<string, Value>, secrets: map<string, string>, configName: string)

  /** What the YAML decoder leaves in the struct: a map absent from the
      file stays nil. */
  datatype Decoded = Decoded(values: Option<map<string, Value>>, secrets: Option<map<string, string>>)

  /** The config's name: the file's base name without its last extension. */
  function ConfigName(path: string): (r: string)
    ensures r <= Base(path)
    ensures HasSuffix(Base(path), Ext(path)) ==> r + Ext(path) == Base(path)
    ensures !HasSuffix(Base(path), Ext(path)) ==> r == Base(path)
  {
    TrimSuffix(Base(path), Ext(path))
  }

  /** `loadConfig`: a read or decode failure is handed back unchanged;
      otherwise nil maps become empty maps and the name is derived from the
      path. */
  function LoadConfig(path: string, decoded: Result<Decoded, string>): (r: Result<Config, string>)
    ensures r.Err? <==> decoded.Err?
    ensures r.Err? ==> r.error == decoded.error
    ensures r.Ok? ==> r.value.configName == ConfigName(path)
    ensures r.Ok? ==>
      && (decoded.value.values.None? ==> r.value.values == map[])
      && (decoded.value.values.Some? ==> r.value.values == decoded.value.values.value)
      && (decoded.value.secrets.None? ==> r.value.secrets == map[])
      && (decoded.value.secrets.Some? ==> r.value.secrets == decoded.value.secrets.value)
  {
    match decoded
    case Err(e) => Err(e)
    case Ok(d) =>
      var values := if d.values.Some? then d.values.value else map[];
      var secrets := if d.secrets.Some? then d.secrets.value else map[];
      Ok(Config(values, secrets, ConfigName(path)))
  }

  /** The extension `Ext` finds lies inside the base name whenever the path
      does not end in a separator. */
  lemma ExtWithinBase(path: string)
    requires path != "" && path[|path| - 1] != Separator
    ensures HasSuffix(Base(path), Ext(path))
  {
    var e := Ext(path);
    assert StripTrailingSeparators(path) == path;
    var b := LastElement(path);
    assert Base(path) == b;
    SuffixWithinLastElement(path, e);
  }

  /** For a path not ending in a separator, the config name followed by the
      last extension is the base name, and the removed part is exactly the
      last extension: it holds one `.`, at its start. */
  lemma ConfigNameDropsLastExtension(path: string)
    requires path != "" && path[|path| - 1] != Separator
    ensures ConfigName(path) + Ext(path) == Base(path)
    ensures Ext(path) == "" || (Ext(path)[0] == '.' && '.' !in Ext(path)[1..])
  {
    ExtWithinBase(path);
  }

  /** Only the last extension goes: `a.b.yaml` names config `a.b`. */
  lemma ConfigNameDropsOnlyLastExtension(stem: string, ext: string)
    requires Separator !in stem
    requires |ext| >= 1 && ext[0] == '.' && '.' !in ext[1..] && Separator !in ext
    ensures ConfigName(stem + ext) == stem
  {
    var path := stem + ext;
    assert path[|path| - |ext|..] == ext;
    ExtIsSuffix(path, ext);
    ConfigNameDropsLastExtension(path);
  }

  /** A config file inside a directory is named by its file name alone:
      `configs/prod.yaml` names config `prod`, `a/b/c.d.yml` names `c.d`. */
  lemma ConfigNameInDirectory(dir: string, stem: string, ext: string)
    requires Separator !in stem
    requires |ext| >= 1 && ext[0] == '.' && '.' !in ext[1..] && Separator !in ext
    ensures ConfigName(dir + [Separator] + stem + ext) == stem
  {
    var name := stem + ext;
    var path := dir + [Separator] + name;
    assert path == dir + [Separator] + stem + ext;
    assert Separator !in name by {
      assert forall c :: c in name ==> c in stem || c in ext;
    }
    BaseAfterSeparator(dir, name);
    assert path[|path| - |ext|..] == ext;
    ExtIsSuffix(path, ext);
    assert name[|name| - |ext|..] == ext;
  }

  /** A plain name without a `.`, such as `noext`, is its own config name. */
  lemma ConfigNameWithoutExtension(path: string)
    requires path != "" && '.' !in path && Separator !in path
    ensures ConfigName(path) == path
  {
    ExtWithoutDot(path);
    assert path[|path|..] == "";
  }
}
