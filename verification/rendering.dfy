/** The file selection of `processTemplates` and the output choice of
    `processTemplateFile`. Reading, parsing and executing templates are
    left to the template engine. */
module Rendering {
  import opened GoStrings
  import opened GoFilepath

  /** What `filepath.Walk` reports for one entry. */
  datatype Entry = Entry(path: string, isDir: bool)

  /** Only files whose extension is exactly `.yaml` or `.yml` are selected
      during a directory walk; the comparison is case-sensitive. */
  predicate IsTemplateFile(e: Entry): (b: bool)
    ensures b <==> !e.isDir && (HasSuffix(e.path, ".yaml") || HasSuffix(e.path, ".yml"))
  {
    ExtIsSuffix(e.path, ".yaml");
    ExtIsSuffix(e.path, ".yml");
    !e.isDir && (Ext(e.path) == ".yaml" || Ext(e.path) == ".yml")
  }

  /** The paths of the walk's template files, in walk order. */
  function SelectTemplates(entries: seq<Entry>): (r: seq<string>)
    ensures |r| <= |entries|
    ensures forall p :: p in r <==> exists i :: 0 <= i < |entries| && entries[i].path == p && IsTemplateFile(entries[i])
    decreases |entries|
  {
    if |entries| == 0 then []
    else
      var rest := SelectTemplates(entries[1..]);
      assert forall i :: 1 <= i < |entries| ==> entries[i] == entries[1..][i - 1];
      assert forall i :: 0 <= i < |entries| - 1 ==> entries[1..][i] == entries[i + 1];
      if IsTemplateFile(entries[0]) then [entries[0].path] + rest else rest
  }

  /** Selection distributes over concatenation of walks: it keeps the
      walk's order and each selected entry once. */
  lemma {:induction false} SelectTemplatesAppend(a: seq<Entry>, b: seq<Entry>)
    ensures SelectTemplates(a + b) == SelectTemplates(a) + SelectTemplates(b)
    decreases |a|
  {
    if |a| == 0 {
      assert a + b == b;
    } else {
      assert (a + b)[0] == a[0];
      assert (a + b)[1..] == a[1..] + b;
      SelectTemplatesAppend(a[1..], b);
    }
  }

  /** A single entry is selected, as its own path, exactly when it is a
      template file. */
  lemma SelectTemplatesSingle(e: Entry)
    ensures SelectTemplates([e]) == if IsTemplateFile(e) then [e.path] else []
  {
    assert [e][1..] == [];
  }

  /** `processTemplates(path)`'s selection: a directory contributes the
      matching files of its walk, in walk order; a plain file is selected
      whatever its extension. */
  function TemplatesToRender(root: Entry, walk: seq<Entry>): (r: seq<string>)
    ensures !root.isDir ==> r == [root.path]
    ensures root.isDir ==> r == SelectTemplates(walk)
    ensures root.isDir ==> forall p :: p in r <==> exists i :: 0 <= i < |walk| && walk[i].path == p && IsTemplateFile(walk[i])
  {
    if root.isDir then SelectTemplates(walk) else [root.path]
  }

  /** Where a rendered template goes. */
  datatype Sink = Stdout | File(dir: string, path: string)

  /** `processTemplateFile`'s output: standard output when no output
      directory is set, else the file named like the template inside a
      directory named like the config. */
  function OutputSink(outputDir: string, configName: string, templatePath: string): (r: Sink)
    ensures r.Stdout? <==> outputDir == ""
  {
    if outputDir == "" then Stdout
    else
      var dir := JoinPath([outputDir, configName]);
      File(dir, JoinPath([dir, Base(templatePath)]))
  }

  /** The output file sits in `outputDir/configName` and keeps the
      template's base name (both paths before `Clean`). */
  lemma OutputPathLayout(outputDir: string, configName: string, templatePath: string)
    requires outputDir != ""
    requires Separator !in Base(templatePath)
    ensures var r := OutputSink(outputDir, configName, templatePath);
      && r.File?
      && r.dir == outputDir + [Separator] + configName
      && r.path == r.dir + [Separator] + Base(templatePath)
      && Base(r.path) == Base(templatePath)
  {
    var dir := JoinPath([outputDir, configName]);
    assert [outputDir, configName][1..] == [configName];
    assert Join([outputDir, configName], Separator) == outputDir + [Separator] + configName;
    BaseOfJoin(dir, Base(templatePath));
  }
}
