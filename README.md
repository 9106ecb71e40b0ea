# Ansible snippet generator: the text and selection rules, in Dafny

`main.py` was written to ask Ansible's doc loader for every module, sort the
names, render a YAML snippet for each module whose documentation it can read,
and derive editor snippets (Sublime XML, VS Code JSON) from the YAML files.
As the code stands, `main()` has its call `parse_ansible_modules()` commented
out (main.py:130), and the `__main__` block (main.py:180-185) only creates the
output directories and calls `main()`. A run therefore only lists the files
already in `extras/` and `build/yaml/`, derives a module name from each path,
renders the Sublime and VS Code snippets from them and merges the VS Code
ones. `get_module_list` and `parse_ansible_modules` cannot be reached; the
model states what they do when called. Most of the script is file handling
and Jinja templates. This project models the rules between those parts:

- **`ansible_filter`** (`Normalizer.NormalizeDescription`). A description is a
  scalar string, or an `AnsibleSequence` of alternatives
  (`Description = Scalar | Alternatives`). An empty sequence stands for
  `No description available`; otherwise the first alternative is used. The
  text is cut at the first `.`, `"` becomes `'`, and each `\` is doubled.
- **`ansible_tags`** (`Normalizer.Tags`). The module name is split on `.`.
  When the first part is `ansible`, only the last part is kept.
- **`ansible_option_description`** (`Normalizer.OptionPlaceholder`). This
  builds the placeholder `${<index>:# <normalised description>}`. A reader
  for the snippet syntax (`ParsePlaceholder`, which stops at the first
  unescaped `}`) reads it back; a `}` in the description cuts the text short
  (see "## Findings").
- **File names.** `create_yaml` writes `build/yaml/<module>.yml`. The
  editor-snippet pass takes a listed path, keeps its base name and drops the
  last dot-separated part (`SnippetPaths`).
- **`get_module_list`** (`ModuleList.GetModuleList`). Each search path's
  discovered names are added to the doc loader's `plugin_list` set, kept in a
  `DocCli` object. The result is that set in Python's string order, each name
  once (`Ordering.SortedOf`).
- **`parse_ansible_modules`** (`Pipeline.SelectForYaml` and
  `Pipeline.ParseAnsibleModules`). This is the loop that skips modules with no
  file, with a `.ps1` file or with a directory, and modules whose
  documentation raises `AnsibleParserError`. Every other module is handed to
  `create_yaml`.

The doc loader's answers are inputs. `find_plugins` per search path is a
`Discovery` value. `find_plugin`, `os.path.isdir` and `get_docstring` are
total functions passed as parameters. Strings are `seq<char>`. The Python
`str` operations used (`split`, `join`, `replace`, `endswith`, `<`,
`str(int)`, `posixpath.join`, `posixpath.basename`) are written out in
`Strings`, `Decimal`, `Ordering` and `SnippetPaths`. `Examples` holds worked
instances of the filters on a few sample inputs.

Where one might expect otherwise, the model follows the code:
- The discovery-driven YAML pass (`get_module_list`, `parse_ansible_modules`,
  `create_yaml`) is dead code, because its only call is commented out. The
  model states what it would do if called.
- The file listings of `main` are not sorted (`os.listdir` order), so the
  model claims no order for them.
- `parse_ansible_modules` skips only `.ps1` files and directories, not every
  non-Python file.
- A module whose documentation fails to parse is skipped. The `print` of that
  error is presentation only.

## Model

| member | source | states |
|---|---|---|
| Normalizer.NormalizeDescription | main.py:50-62 | the normalised description never contains a `.` or a `"` |
| Normalizer.FirstSentence | main.py:59 | `text.split('.')[0]` is the longest prefix of the text without a period: a prefix, period-free, and either the whole text or followed by a `.` |
| Normalizer.NormalizeEmptyAlternatives | main.py:53-57 | an empty `AnsibleSequence` normalises to exactly `No description available` |
| Normalizer.NormalizeFirstAlternative | main.py:53-55 | a non-empty sequence normalises like its first element alone; two sequences with the same first element normalise alike, whatever follows |
| Normalizer.NormalizePlainPrefix | main.py:59-61 | when the first sentence holds no `"` and no `\`, the result is exactly that first sentence |
| Normalizer.NormalizePassThrough | main.py:59-61 | text without `.`, `"` or `\` passes through unchanged |
| Normalizer.NormalizeBackslashes | main.py:60-61 | the result has twice the backslashes of the first sentence, and its length is that sentence's length plus its backslash count |
| Normalizer.NormalizeUnescape | main.py:60-61 | reading the doubled backslashes back as single ones yields the first sentence with `"` replaced by `'`, so the escaping loses nothing |
| Normalizer.UnescapeEscape | main.py:61 | un-doubling backslashes inverts `replace('\\', '\\\\')` on every string |
| Normalizer.Tags | main.py:65-71 | the tag list is never empty and no tag contains a `.` |
| Normalizer.AnsibleNamespace | main.py:66-68 | the first dot-part is `ansible` exactly when the name is `ansible` or starts with `ansible.` |
| Normalizer.TagsOfBuiltin | main.py:68-69 | in the `ansible` namespace the tags are one element: the period-free suffix of the name after its last `.` (or the whole name) |
| Normalizer.TagsOfOther | main.py:66-71 | any other name keeps its full dot-split as tags, and joining them with `.` gives the name back |
| Normalizer.Canonical | main.py:51-57 | the text chosen from a description; it has no contract of its own, and NormalizeEmptyAlternatives and NormalizeFirstAlternative pin it down |
| Normalizer.Unquoted | main.py:59-60 | the first sentence with `"` replaced by `'` holds no `.` and no `"` |
| Normalizer.OptionPlaceholder | main.py:75-77 | the placeholder starts with `${` and ends with `}` |
| Normalizer.ReadLabel | main.py:77 | the snippet-syntax reading of a placeholder's text, up to the first unescaped `}`; it has no contract of its own, and ReadDoubled and ReadEscaped pin it down |
| Normalizer.ParsePlaceholder | main.py:77 | the reader of `${<digits>:# <text>}`; it has no contract of its own, and ReadBuilt and the round-trip lemmas pin it down |
| Normalizer.ReadBuilt | main.py:75-77 | the reader takes a built placeholder's index back exactly and then reads the normalised description followed by the closing brace |
| Normalizer.ReadDoubled | main.py:59-61 | text whose backslashes are doubled, followed by `}`, always reads back, as the text up to its first `}`; with no `}` in the text, exactly up to the appended brace |
| Normalizer.PlaceholderRoundTrip | main.py:75-77 | every built placeholder reads back with its index and, as text, the quote-replaced first sentence up to its first `}`; with no `}` in the first sentence, the whole quote-replaced sentence with nothing after the placeholder |
| Normalizer.PlaceholderLabelClean | main.py:75-77 | whatever the reader takes as the placeholder's text holds no `.` and no `"`, whatever the description |
| Normalizer.BraceCutsLabel | main.py:75-77 | an option described as `a}b` normalises to `a}b`, yet its placeholder `${1:# a}b}` reads as the text `a` followed by `b}` |
| Normalizer.EscapedDescription | main.py:59-61 | the normalised description with each `}` also written `\}` still holds no `.` and no `"` |
| Normalizer.EscapedPlaceholder | main.py:75-77 | the placeholder built from EscapedDescription starts with `${` and ends with `}` |
| Normalizer.EscapedAgrees | main.py:59-77 | without a `}` in the first sentence the extra escaping changes neither the text nor the placeholder |
| Normalizer.ReadEscaped | main.py:59-61 | text escaped with doubled backslashes and `\}`, followed by `}`, reads back as exactly that text, then what follows |
| Normalizer.EscapedPlaceholderRoundTrip | main.py:75-77 | the escaped placeholder always reads back as its index and the whole quote-replaced first sentence, with nothing after it |
| Decimal.NatToString | main.py:77 | `str(index)` is a non-empty run of digits with a leading `0` only for zero |
| Decimal.ParseNatToString | main.py:77 | the printed index reads back as the index |
| Decimal.DigitSpan | main.py:77 | the index digits end exactly where the first non-digit begins |
| Strings.EndsWith | main.py:165 | `s.endswith(x)` holds exactly when `s` is some string followed by `x` |
| Strings.Join | main.py:139 | Python `'.'.join(parts)`; it has no contract of its own, and JoinSplit and SplitJoin show it is the inverse of Split |
| Strings.ReplaceAll | main.py:60-61 | Python `s.replace(c, t)` for one character; it has no contract of its own, and ReplaceMembership, ReplaceLength and ReplaceCount pin it down |
| Strings.Split | main.py:59 | `str.split` on one character gives at least one piece and no piece holds the separator |
| Strings.JoinSplit | main.py:139 | joining a split with its separator gives the string back |
| Strings.SplitJoin | main.py:139 | splitting a join of separator-free pieces gives the pieces back |
| Strings.SplitConcat | main.py:139 | the split of `a + c + b` is the split of `a` followed by the split of `b` |
| Strings.SplitLast | main.py:69 | the last piece of a split is the longest separator-free suffix |
| Strings.ReplaceCount | main.py:60-61 | after `replace(c, t)` each `c` is gone and contributes the occurrences in `t`; other characters keep their count |
| Strings.ReplaceLength | main.py:60-61 | `replace(c, t)` changes the length by the length of `t` minus one for each `c` |
| Strings.ReplaceMembership | main.py:60-61 | a character occurs after `replace(c, t)` exactly when it is a kept character of the input or comes from an inserted `t` |
| SnippetPaths.PathJoin | main.py:81 | `os.path.join(dir, name)` ends with `name`; for a relative `name` it starts with `dir`, and a `/` separates a non-empty `dir` from `name` |
| SnippetPaths.YamlPath | main.py:81 | the path `create_yaml` writes, `<module>.yml` joined under `YamlDir` (`PATH_YAML`, `os.path.join('build', 'yaml')` at line 30), ends with `<module>.yml` |
| SnippetPaths.Basename | main.py:138 | `os.path.basename(path)` is the longest suffix of the path without a `/` |
| SnippetPaths.Stem | main.py:139 | `'.'.join(name.split('.')[0:-1])`; it has no contract of its own, and StemOfYamlName, StemWithoutDot and StemBeforeLastDot pin it down |
| SnippetPaths.ModuleNameOf | main.py:138-139 | the module name derived from a listed path; it has no contract of its own, and ModuleNameOfListedFile and ModuleNameOfYamlPath pin it down |
| SnippetPaths.StemOfYamlName | main.py:139 | dropping the last dot-part of `<module>.yml` gives the module name back, inner dots included |
| SnippetPaths.StemWithoutDot | main.py:139 | a file name without a `.` yields the empty module name |
| SnippetPaths.StemBeforeLastDot | main.py:139 | with a `.` present, the derived name is everything before the last `.` |
| SnippetPaths.BasenameOfJoin | main.py:138 | the base name of `os.path.join(dir, f)` is `f` when `f` has no `/` |
| SnippetPaths.ModuleNameOfListedFile | main.py:132-139 | a file listed in any directory yields the name of the file without its extension |
| SnippetPaths.ModuleNameOfYamlPath | main.py:138-139 | reading the name back from the path that `create_yaml` writes (line 81) gives the module, for names without `/` |
| Ordering.Less | main.py:47 | Python `<` on strings, the order `sorted` uses; it has no contract of its own, and LessIrreflexive, LessTransitive and LessTotal show it is a strict total order |
| Ordering.LessIrreflexive | main.py:47 | no string sorts before itself |
| Ordering.LessTransitive | main.py:47 | Python's string order is transitive |
| Ordering.LessTotal | main.py:47 | of two different strings, one sorts before the other |
| Ordering.NoDuplicates | main.py:47 | a strictly increasing list holds no name twice |
| Ordering.Insert | main.py:47 | inserting into a strictly increasing list keeps it strictly increasing and adds exactly the new name |
| Ordering.SortedUnique | main.py:47 | two strictly increasing lists with the same names are equal, so `sorted(set(...))` has exactly one result |
| Ordering.SortedOf | main.py:47 | `sorted(set(s))` is strictly increasing, holds exactly the elements of `s`, and is as long as `s` |
| ModuleList.Founds | main.py:40-43 | the names one search path contributes, from the fallback call when the first raises `TypeError`; AllFoundMembership pins it down |
| ModuleList.AllFound | main.py:39-45 | every search path's names together; it has no contract of its own, and AllFoundMembership pins it down |
| ModuleList.AllFoundMembership | main.py:39-45 | a name is collected exactly when some search path's discovery reports it |
| ModuleList.DocCli.constructor | main.py:27 | a fresh doc loader starts with an empty `plugin_list` |
| ModuleList.GetModuleList | main.py:37-47 | `plugin_list` grows by exactly the names every path reports (the fallback call's when the first raises `TypeError`); the result is strictly increasing and holds exactly `plugin_list` |
| Pipeline.Outcome | main.py:162-176 | what the loop does with one module; it has no contract of its own, and SelectionMembership ties it to the calls made |
| Pipeline.Selection | main.py:161-177 | the `create_yaml` calls for a module list: no more calls than listed modules, each for a listed module (one call per list entry follows with SelectionAppend) |
| Pipeline.SelectForYaml | main.py:161-177 | the loop hands `create_yaml` exactly the selection of the module list, in list order |
| Pipeline.SelectionMembership | main.py:162-177 | `create_yaml(m, d)` happens exactly when `m` is listed, resolves to a file that does not end in `.ps1` and is no directory, and that file parses to `d` |
| Pipeline.SelectionAppend | main.py:161-177 | the selection of `a + b` is the selection of `a` followed by that of `b`: a skipped module among earlier ones never changes what happens to later ones (of the modelled outcomes; see "## Left out" for the errors that end the run) |
| Pipeline.SkippedModule | main.py:163-175 | a skipped module leaves no trace: the modules around it are selected as if it were absent |
| Pipeline.SelectionSorted | main.py:160-161 | from a strictly increasing module list the `create_yaml` calls come in strictly increasing name order |
| Pipeline.ParseAnsibleModules | main.py:159-177 | after discovery, `create_yaml` is called once per usable discovered module, in increasing name order, and for nothing else |
| Examples.FirstAlternativeExample | main.py:53-59 | `["a.b", "c"]` normalises to `a` |
| Examples.FirstSentenceExample | main.py:59 | `x.y.z` normalises to `x` |
| Examples.ClosingPeriod | main.py:59-61 | a plain sentence with a final period loses only the period, as a scalar and as a one-element sequence |
| Examples.ShortDescriptionExample | main.py:59 | `Say hello.` normalises to `Say hello` |
| Examples.PlaceholderExample | main.py:75-77 | an option documented as `["The name to greet."]` at index 1 becomes `${1:# The name to greet}` |
| Examples.BuiltinTagExample | main.py:65-69 | `ansible.builtin.copy` is tagged `["copy"]` |
| Examples.CommunityTagExample | main.py:65-71 | `community.general.foo` is tagged `["community", "general", "foo"]` |

## Findings

| source | as written | input that shows it | evidently intended | confidence | as-written member | corrected member |
|---|---|---|---|---|---|---|
| main.py:59-77 | `ansible_filter` doubles each `\` but leaves `}` alone, so a `}` in the first sentence closes the `${n:...}` placeholder early | an option described as `a}b` gives `${1:# a}b}`, whose placeholder text reads as `a`, followed by the literal `b}` | the placeholder shows the whole normalised description, with `}` written `\}` | not executed; low, since the templates that embed the placeholder are not part of this model | Normalizer.BraceCutsLabel | Normalizer.EscapedPlaceholderRoundTrip |

## Left out

- Jinja templates (`snippet.yml.j2`, `sublime.xml.j2`, `code.json.j2`, `code-merged.json.j2`) are not part of this model. So are the YAML, XML and JSON layout they produce, the placeholder numbering they choose, and how the merged bundle treats duplicate keys. `create_yaml`, `create_sublime_snippet`, `create_code_snippet` and `create_code_merged` are left out for the same reason. Only the fact of a `create_yaml(module, doc)` call (`YamlRequest`) and the path it writes are modelled.
- File I/O: `open`/`write`, `readlines`, `os.makedirs`, and the `os.listdir`/`os.path.isfile` listings in `main`. Their order is unspecified, and the editor-snippet and merge loops only feed templates. Only the name derivation of lines 138-139 is modelled.
- The Ansible collaborators `module_loader._get_paths`, `DocCLI.find_plugins`, `module_loader.find_plugin` and `plugin_docs.get_docstring` are external. They are inputs: a sequence of `Discovery` values and three total functions.
- `get_docstring` returning no documentation (`None`) is not modelled. A parse gives either a document or `AnsibleParserError`. In the source a `None` document reaches `create_yaml`, where `doc['short_description']` (main.py:92) raises `TypeError` and ends the loop, so no later module is processed.
- Exceptions that end the run are not modelled: a `TypeError` from the fallback call `find_plugins(path, 'plugins', 'module')` (main.py:43), which nothing catches; any other exception in discovery; and any exception in parsing other than `AnsibleParserError`. Each would stop the loop, so lemmas such as SelectionAppend describe only runs in which none of them occurs.
- `tqdm` progress bars and the `print` of parse errors are presentation only.
- Normalizer.OptionPlaceholder: the option is a record with a `description` field, so the `KeyError` for an option dictionary without that key cannot arise in the model.
- Normalizer.NormalizeDescription: only strings and sequences of strings are descriptions. A value of any other Python type (a plain list, a non-string sequence element) would fail at `split` in the source, and it has no counterpart here.
- SnippetPaths.ModuleNameOfYamlPath: stated only for module names without `/`. For other names `os.path.join` and `basename` would treat the `/` as a directory separator.
- Ordering.Less: Dafny characters are Unicode scalar values, so Python strings holding lone surrogate code points have no counterpart.
- A `$` in a description is not escaped either. In snippet syntax `$` followed by a digit, `{` or a name starts a tab stop or a variable. ReadLabel takes `$` literally and does not model nested tab stops or variables.
