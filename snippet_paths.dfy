/**
  Where snippets are written and how a module name is read back from a
  snippet file's path: `create_yaml` writes `build/yaml/<module>.yml`, and the
  editor-snippet pass takes a listed path, keeps its base name and drops the
  last dot-separated part (the extension).
 */
module SnippetPaths {
  import opened Strings

  /**
    Python `posixpath.join(dir, name)` for two components: the path ends with
    `name`; unless `name` is absolute it starts with `dir`, and a non-empty
    `dir` is separated from `name` by a `/`.
   */
  function PathJoin(dir: string, name: string): (r: string)
    ensures EndsWith(r, name)
    ensures (|name| == 0 || name[0] != '/') ==> dir <= r
    ensures |dir| > 0 && (|name| == 0 || name[0] != '/') ==> |r| > |name| && r[|r| - |name| - 1] == '/'
  {
    if |name| > 0 && name[0] == '/' then name
    else if |dir| == 0 || dir[|dir| - 1] == '/' then dir + name
    else dir + "/" + name
  }

  /** Python `posixpath.basename(path)`: the longest suffix of the path without a `/`. */
  function Basename(path: string): (r: string)
    ensures '/' !in r && EndsWith(path, r)
    ensures |r| == |path| || path[|path| - |r| - 1] == '/'
  {
    SplitLast(path, '/');
    Last(Split(path, '/'))
  }

  /** `PATH_YAML`, the directory of the generated YAML snippets. */
  const YamlDir: string := PathJoin("build", "yaml")

  /** The file `create_yaml` writes for a module: a path ending in `<module>.yml`. */
  function YamlPath(moduleName: string): (r: string)
    ensures EndsWith(r, moduleName + ".yml")
  {
    PathJoin(YamlDir, moduleName + ".yml")
  }

  /** `'.'.join(name.split('.')[0:-1])`: the file name without its last dot-separated part. */
  function Stem(fileName: string): string
  {
    Join(DropLast(Split(fileName, '.')), '.')
  }

  /** The module name the editor-snippet pass derives from a listed snippet path. */
  function ModuleNameOf(path: string): string
  {
    Stem(Last(Split(Basename(path), '/')))
  }

  // ---------------------------------------------------------------------------

  /** Dropping the extension of `<module>.yml` gives the module back, dots and all. */
  lemma StemOfYamlName(moduleName: string)
    ensures Stem(moduleName + ".yml") == moduleName
  {
    assert moduleName + ".yml" == moduleName + ['.'] + "yml";
    SplitConcat(moduleName, "yml", '.');
    assert '.' !in "yml";
    var parts := Split(moduleName, '.') + ["yml"];
    assert DropLast(parts) == Split(moduleName, '.');
    JoinSplit(moduleName, '.');
  }

  /** A file name without a period has the empty stem. */
  lemma StemWithoutDot(fileName: string)
    requires '.' !in fileName
    ensures Stem(fileName) == ""
  {
  }

  /** With a period present, the stem is exactly what precedes the last period. */
  lemma StemBeforeLastDot(fileName: string)
    requires '.' in fileName
    ensures |Stem(fileName)| < |fileName|
    ensures fileName[..|Stem(fileName)|] == Stem(fileName)
    ensures fileName[|Stem(fileName)|] == '.'
    ensures '.' !in fileName[|Stem(fileName)| + 1..]
  {
    var parts := Split(fileName, '.');
    JoinSplit(fileName, '.');
    assert |parts| > 1;
    var front := DropLast(parts);
    assert parts == front + [Last(parts)];
    JoinSnoc(front, Last(parts), '.');
    var stem := Join(front, '.');
    assert fileName == stem + ['.'] + Last(parts);
    assert fileName[|stem| + 1..] == Last(parts);
  }

  /** The last part of a split of `a + c + b` is the last part of the split of `b`. */
  lemma LastAfterSeparator(a: string, b: string, c: char)
    ensures Last(Split(a + [c] + b, c)) == Last(Split(b, c))
  {
    SplitConcat(a, b, c);
  }

  /** A name without `/` joined under any directory is its own base name. */
  lemma BasenameOfJoin(dir: string, name: string)
    requires '/' !in name
    ensures Basename(PathJoin(dir, name)) == name
  {
    assert Split(name, '/') == [name];
    if |dir| == 0 {
      assert PathJoin(dir, name) == name;
    } else if dir[|dir| - 1] == '/' {
      var front := dir[..|dir| - 1];
      assert dir + name == front + ['/'] + name;
      LastAfterSeparator(front, name, '/');
    } else {
      assert dir + "/" + name == dir + ['/'] + name;
      LastAfterSeparator(dir, name, '/');
    }
  }

  /** The module name of a listed file is the stem of its file name, whatever directory it was listed in. */
  lemma ModuleNameOfListedFile(dir: string, fileName: string)
    requires '/' !in fileName
    ensures ModuleNameOf(PathJoin(dir, fileName)) == Stem(fileName)
  {
    BasenameOfJoin(dir, fileName);
    assert Split(fileName, '/') == [fileName];
  }

  /** Reading the module name back from the YAML snippet `create_yaml` wrote gives the module. */
  lemma ModuleNameOfYamlPath(moduleName: string)
    requires '/' !in moduleName
    ensures ModuleNameOf(YamlPath(moduleName)) == moduleName
  {
    assert '/' !in ".yml";
    assert '/' !in moduleName + ".yml";
    ModuleNameOfListedFile(YamlDir, moduleName + ".yml");
    StemOfYamlName(moduleName);
  }
}
