/**
  The selection loop of `parse_ansible_modules`: for every discovered module,
  in order, look up its file, skip PowerShell files, directories and modules
  without a file, read its documentation, skip it on a parse error, and
  otherwise hand it to `create_yaml`.
 */
module Pipeline {
  import opened Optional
  import opened Strings
  import opened Ordering
  import opened Normalizer
  import opened ModuleList

  /** The documentation of a module, as far as the generator reads it. */
  datatype ModuleDoc = ModuleDoc(shortDescription: Description, options: seq<(string, OptionSpec)>)

  /** What `plugin_docs.get_docstring` gives for a file: the documentation, or an `AnsibleParserError`. */
  datatype Docstring = Parsed(doc: ModuleDoc) | ParserError

  /** One call `create_yaml(module, doc)`. */
  datatype YamlRequest = YamlRequest(name: string, doc: ModuleDoc)

  /** The documentation the loop hands on for one module, or `None` when it skips the module. */
  function Outcome(name: string, findPlugin: string -> Option<string>, isDir: string -> bool,
                   getDocstring: string -> Docstring): Option<ModuleDoc>
  {
    match findPlugin(name)
    case None => None
    case Some(fileName) =>
      if EndsWith(fileName, ".ps1") || isDir(fileName) then None
      else
        match getDocstring(fileName)
        case ParserError => None
        case Parsed(doc) => Some(doc)
  }

  /** The `create_yaml` calls for a list of modules, in list order: at most one per module, each for a listed module. */
  function Selection(modules: seq<string>, findPlugin: string -> Option<string>, isDir: string -> bool,
                     getDocstring: string -> Docstring): (r: seq<YamlRequest>)
    ensures |r| <= |modules|
    ensures forall k :: 0 <= k < |r| ==> r[k].name in modules
  {
    if |modules| == 0 then []
    else
      var name := modules[|modules| - 1];
      Selection(modules[..|modules| - 1], findPlugin, isDir, getDocstring)
        + match Outcome(name, findPlugin, isDir, getDocstring)
          case None => []
          case Some(doc) => [YamlRequest(name, doc)]
  }

  function Names(requests: seq<YamlRequest>): seq<string>
  {
    seq(|requests|, k requires 0 <= k < |requests| => requests[k].name)
  }

  /** The loop of `parse_ansible_modules`, with the doc loader's answers given as functions. */
  method SelectForYaml(modules: seq<string>, findPlugin: string -> Option<string>, isDir: string -> bool,
                       getDocstring: string -> Docstring) returns (requests: seq<YamlRequest>)
    ensures requests == Selection(modules, findPlugin, isDir, getDocstring)
  {
    requests := [];
    for i := 0 to |modules|
      invariant requests == Selection(modules[..i], findPlugin, isDir, getDocstring)
    {
      assert modules[..i + 1][..i] == modules[..i];
      var name := modules[i];
      var fileName := findPlugin(name);
      if fileName.None? {
        continue;
      }
      if EndsWith(fileName.value, ".ps1") {
        continue;
      }
      if isDir(fileName.value) {
        continue;
      }
      var parsed := getDocstring(fileName.value);
      if parsed.ParserError? {
        continue;
      }
      requests := requests + [YamlRequest(name, parsed.doc)];
    }
    assert modules[..|modules|] == modules;
  }

  // ---------------------------------------------------------------------------

  /** `create_yaml` is called with `(m, d)` exactly when `m` is listed and its file resolves, is usable and parses to `d`. */
  lemma {:induction false} SelectionMembership(modules: seq<string>, findPlugin: string -> Option<string>, isDir: string -> bool,
                                               getDocstring: string -> Docstring, name: string, doc: ModuleDoc)
    ensures YamlRequest(name, doc) in Selection(modules, findPlugin, isDir, getDocstring)
        <==> name in modules && Outcome(name, findPlugin, isDir, getDocstring) == Some(doc)
  {
    if |modules| > 0 {
      var front := modules[..|modules| - 1];
      SelectionMembership(front, findPlugin, isDir, getDocstring, name, doc);
      assert modules == front + [modules[|modules| - 1]];
    }
  }

  /** Modules are processed independently: whatever happens to the first ones, the later ones are selected as if alone. */
  lemma {:induction false} SelectionAppend(a: seq<string>, b: seq<string>, findPlugin: string -> Option<string>, isDir: string -> bool,
                                           getDocstring: string -> Docstring)
    ensures Selection(a + b, findPlugin, isDir, getDocstring)
         == Selection(a, findPlugin, isDir, getDocstring) + Selection(b, findPlugin, isDir, getDocstring)
  {
    if |b| == 0 {
      assert a + b == a;
    } else {
      var front := b[..|b| - 1];
      SelectionAppend(a, front, findPlugin, isDir, getDocstring);
      assert (a + b)[..|a + b| - 1] == a + front;
      assert (a + b)[|a + b| - 1] == b[|b| - 1];
    }
  }

  /** A skipped module leaves no trace: the modules around it are selected as if it were absent. */
  lemma SkippedModule(a: seq<string>, name: string, b: seq<string>, findPlugin: string -> Option<string>, isDir: string -> bool,
                      getDocstring: string -> Docstring)
    requires Outcome(name, findPlugin, isDir, getDocstring).None?
    ensures Selection(a + [name] + b, findPlugin, isDir, getDocstring)
         == Selection(a, findPlugin, isDir, getDocstring) + Selection(b, findPlugin, isDir, getDocstring)
  {
    var left := a + [name];
    SelectionAppend(left, b, findPlugin, isDir, getDocstring);
    SelectionAppend(a, [name], findPlugin, isDir, getDocstring);
    assert [name][..0] == [];
    assert Selection([name], findPlugin, isDir, getDocstring) == [];
    assert Selection(left, findPlugin, isDir, getDocstring) == Selection(a, findPlugin, isDir, getDocstring);
  }

  /** Selection keeps the order of the list: from a strictly sorted list, the selected names are strictly sorted too. */
  lemma {:induction false} SelectionSorted(modules: seq<string>, findPlugin: string -> Option<string>, isDir: string -> bool,
                                           getDocstring: string -> Docstring)
    requires StrictlySorted(modules)
    ensures StrictlySorted(Names(Selection(modules, findPlugin, isDir, getDocstring)))
  {
    if |modules| > 0 {
      var front := modules[..|modules| - 1];
      var last := modules[|modules| - 1];
      SelectionSorted(front, findPlugin, isDir, getDocstring);
      var earlier := Selection(front, findPlugin, isDir, getDocstring);
      var all := Selection(modules, findPlugin, isDir, getDocstring);
      if Outcome(last, findPlugin, isDir, getDocstring).Some? {
        forall k | 0 <= k < |earlier|
          ensures Less(earlier[k].name, last)
        {
          assert earlier[k] in earlier;
          SelectionMembership(front, findPlugin, isDir, getDocstring, earlier[k].name, earlier[k].doc);
          var j :| 0 <= j < |front| && front[j] == earlier[k].name;
        }
        assert all == earlier + [YamlRequest(last, Outcome(last, findPlugin, isDir, getDocstring).value)];
        var names := Names(all);
        forall i, j | 0 <= i < j < |names|
          ensures Less(names[i], names[j])
        {
          if j < |earlier| {
            assert names[i] == Names(earlier)[i] && names[j] == Names(earlier)[j];
          }
        }
      } else {
        assert all == earlier;
      }
    }
  }

  /**
    `parse_ansible_modules`: discover the modules, then run the selection loop
    over them. `create_yaml` is called once per usable module, in increasing
    name order, and for nothing else.
   */
  method ParseAnsibleModules(cli: DocCli, paths: seq<Discovery>, findPlugin: string -> Option<string>,
                             isDir: string -> bool, getDocstring: string -> Docstring)
    returns (requests: seq<YamlRequest>)
    modifies cli
    ensures cli.pluginList == old(cli.pluginList) + AllFound(paths)
    ensures StrictlySorted(Names(requests))
    ensures forall name, doc ::
              (YamlRequest(name, doc) in requests
               <==> name in cli.pluginList && Outcome(name, findPlugin, isDir, getDocstring) == Some(doc))
  {
    var modules := GetModuleList(cli, paths);
    requests := SelectForYaml(modules, findPlugin, isDir, getDocstring);
    SelectionSorted(modules, findPlugin, isDir, getDocstring);
    forall name, doc
      ensures YamlRequest(name, doc) in requests
          <==> name in cli.pluginList && Outcome(name, findPlugin, isDir, getDocstring) == Some(doc)
    {
      SelectionMembership(modules, findPlugin, isDir, getDocstring, name, doc);
    }
  }
}
