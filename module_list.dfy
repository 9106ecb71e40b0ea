/**
  `get_module_list`: ask the doc loader for the modules under every search
  path, collect them into the loader's `plugin_list` set, and return that
  set sorted.
 */
module ModuleList {
  import opened Ordering

  /** The result of `doc_cli.find_plugins(path, 'module')`: the names found, or a `TypeError` from an older signature. */
  datatype FindPlugins = Found(names: set<string>) | SignatureMismatch

  /**
    What the doc loader reports for one search path under the two call shapes:
    `find_plugins(path, 'module')`, and `find_plugins(path, 'plugins', 'module')`,
    which is only asked when the first raises `TypeError`.
   */
  datatype Discovery = Discovery(byKind: FindPlugins, legacy: set<string>)

  /** The names a search path contributes. */
  function Founds(d: Discovery): set<string>
  {
    match d.byKind
    case Found(names) => names
    case SignatureMismatch => d.legacy
  }

  /** Everything the search paths contribute, in order. */
  function AllFound(paths: seq<Discovery>): set<string>
  {
    if |paths| == 0 then {}
    else AllFound(paths[..|paths| - 1]) + Founds(paths[|paths| - 1])
  }

  /** A name is found overall exactly when some search path reports it. */
  lemma {:induction false} AllFoundMembership(paths: seq<Discovery>, name: string)
    ensures name in AllFound(paths) <==> exists i :: 0 <= i < |paths| && name in Founds(paths[i])
  {
    if |paths| > 0 {
      var front := paths[..|paths| - 1];
      AllFoundMembership(front, name);
      if name in AllFound(front) {
        var i :| 0 <= i < |front| && name in Founds(front[i]);
        assert paths[i] == front[i];
      }
      if exists i :: 0 <= i < |paths| && name in Founds(paths[i]) {
        var i :| 0 <= i < |paths| && name in Founds(paths[i]);
        if i < |front| {
          assert front[i] == paths[i];
        }
      }
    }
  }

  /** The part of the doc loader the generator keeps state in. */
  class DocCli {
    /** `doc_cli.plugin_list`, the set of module names discovered so far. */
    var pluginList: set<string>

    constructor ()
      ensures pluginList == {}
    {
      pluginList := {};
    }
  }

  /**
    `get_module_list`: every search path's names are added to the loader's
    list, and the result is the whole list in increasing order, each name once.
   */
  method GetModuleList(cli: DocCli, paths: seq<Discovery>) returns (modules: seq<string>)
    modifies cli
    ensures cli.pluginList == old(cli.pluginList) + AllFound(paths)
    ensures StrictlySorted(modules)
    ensures forall m :: m in modules <==> m in cli.pluginList
  {
    for i := 0 to |paths|
      invariant cli.pluginList == old(cli.pluginList) + AllFound(paths[..i])
    {
      var founds;
      match paths[i].byKind {
        case Found(names) => founds := names;
        case SignatureMismatch => founds := paths[i].legacy;
      }
      if founds != {} {
        cli.pluginList := cli.pluginList + founds;
      }
      assert paths[..i + 1][..i] == paths[..i];
    }
    assert paths[..|paths|] == paths;
    modules := SortedOf(cli.pluginList);
  }
}
