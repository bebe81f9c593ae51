# Module loader: verified model

This project models the module loader in `lib/loader.py`. The loader is the
engine that loads a repository of configuration source files. It resolves
import statements between these files, and it refuses any import that
leaves the sources directory or closes a loop.

The model has four parts:

- **Path** (`paths.dfy`, module `Paths`): a sandboxed address. The
  constructor resolves a path and computes its address relative to the
  sources directory. It refuses any path whose relative form starts with
  `..`. It then derives the directory, the file name, the base name and
  the extension. The model also covers `in_sources`, `dot_path`,
  `rel_path`, `replace_extension`, `exists` and `__eq__`.
- **Dependency graph** (`graph.dfy`, module `Graph`): the `deps` map from
  a source-relative path to the set of paths it imports. It also defines
  what a cycle is and holds the facts the cycle check relies on.
- **Imports** (`imports.dfy`, module `Imports`):
  - `import_check` resolves an import name and validates it;
  - `import_symbols` binds the imported names in one of three modes:
    whole module, wildcard, or an explicit list with aliases.
- **Loader** (`loader.dfy`, module `Loading`): a class that holds
  `files` and `deps` and updates them in place. It models `add_dep`,
  `add_file`, `get_or_add_file`, the eager `check_deps` search and the
  `finish` pass.

`outcomes.dfy` holds the error taxonomy. A Python exception is modelled as
an error value (`Result` / `Outcome`):

| Python exception | Model |
|---|---|
| `LoaderNotInSourcesException` | `NotInSources` |
| `LoaderImportError`, with its reason | `ImportError` |
| `LoaderLoopException` | `LoopDetected` |
| failed `assert` | `AssertionFailure` |
| `KeyError` from `self.deps[k]` | `KeyError(k)` |

Main results:

- **`check_deps`**:
  - It passes exactly when every edge target is a registered node and the
    graph has no cycle.
  - It reports a loop only for a graph with a cycle.
  - On a closed graph, it reports a loop exactly when the graph has a
    cycle.
  - The proof covers the shared `checked` set the source builds across
    branches: a node enters it only after a complete search from it
    (`Graph.Explored`).
- **Path constructor**: it succeeds exactly for paths that lie in the tree
  under the sources directory and whose first segment below it does not
  start with `..`.
- **`import_check`**: its four refusals happen in the order the source
  checks them.
- **`import_symbols`**: the explicit list binds each key to the value of
  the last entry that names it. When an entry fails, the bindings made
  before it stay.
- **`finish`**: it finishes every stored file with a hook exactly once, and
  then the finishers in list order.

Where the system's design description and the code differ, the model
follows the code:

- **`check_deps` reuses `checked` across branches.** The design
  description calls this suspect. The model keeps the source's algorithm
  and proves it sound and complete (`Loading.Loader.CheckDeps`).
- **`add_dep` creates only the node of the importing file.** It does not
  create the node of the imported file. An edge to a file that is not
  registered yet makes the check fail with `KeyError`
  (`Graph.MissingNode`). The design description says instead that both
  nodes are created.
- **A `'*'` inside a longer export list does not raise
  `LoaderImportError`.** Formatting the message fails first
  (`lib/loader.py:163`), so the model reports a separate error,
  `MisplacedWildcard`.

## Model

| member | source | states |
|---|---|---|
| Paths.SplitExtension | lib/loader.py:57-62 | the extension exists exactly when the file name contains '.'; then basename + "." + extension is the file name and the extension has no '.'; otherwise the basename is the whole file name |
| Paths.InSourcesIff | lib/loader.py:49-52 | construction from a canonical path succeeds iff the path is in the tree under the sources directory and its first segment below it does not start with ".."; a built address satisfies `in_sources` |
| Paths.NewPathIff | lib/loader.py:43-52 | `Path(path, repository)` fails only with NotInSources, and exactly when the resolved path is not within the sources directory; on success it yields a well-formed address of the resolved path in that repository |
| Paths.ConstructedFields | lib/loader.py:54-65 | a built address satisfies `in_sources`; its directory is canonical; directory + file name is the full path; the file name is split at its last '.' |
| Paths.RealPathOfCanonical | lib/loader.py:48 | resolving the absolute rendering of a canonical path gives that path back |
| Paths.DotPathSegments | lib/loader.py:67-68 | `dot_path` is the '.'-join of the relative directory's segments, then '.', then the base name; the directory part is empty directly under the sources directory |
| Paths.RelPathIff | lib/loader.py:70-72 | an absolute name fails the assertion; otherwise the result is the address of the name resolved in the file's directory, and it fails with NotInSources exactly when that leaves the sources tree |
| Paths.RelPathSibling | lib/loader.py:70-72 | a plain file name resolves to the sibling in the same directory, with that file name |
| Paths.ReplaceExtensionSibling | lib/loader.py:74-75 | with a plain new extension the result keeps the directory and base name and has the new extension; it fails only with NotInSources, when the sibling leaves the sources tree, which never happens below a subdirectory of the sources directory |
| Paths.EqIsIdentity | lib/loader.py:80-81 | two built addresses of one repository are `__eq__` exactly when they are the same address |
| Imports.ImportCheck | lib/loader.py:120-135 | refuses, in this order: an absolute name (RelativeOnly), a target outside the sources tree (NotInSources), a disallowed or missing extension when a list is given (ExtensionNotAllowed), a file that does not exist (FileMissing); it succeeds iff none applies, and then returns the well-formed address of the resolved target |
| Imports.ImportSymbols | lib/loader.py:137-168 | with no exports, binds exactly basename to the module and leaves every other key alone; with ["*"], copies every key but `__builtins__` with its value and leaves other keys alone; otherwise binds the entries in order up to the first failing one and fails with that entry's error; '*' in a list of two or more entries always fails |
| Imports.CopyAll | lib/loader.py:144-150 | the keys become the old keys plus those of the exporting namespace without `__builtins__`; copied keys hold the exported value and all other keys keep theirs |
| Imports.BindEach | lib/loader.py:152-168 | the namespace is the bindings of the entries before the first failure; it passes iff no entry fails; a failure carries the error of the first failing entry |
| Imports.FirstFailure | lib/loader.py:154-160 | every entry before the returned index can be bound, and the entry at that index cannot |
| Imports.BindListLookup | lib/loader.py:154-160 | after an explicit list, a key is bound iff it was bound before or some entry binds it; it holds the imported value of the last entry binding it, or its old value |
| Loading.Loader.constructor | lib/loader.py:91-94 | a new loader has no files, no dependencies and no finishers |
| Loading.Loader.Finish | lib/loader.py:110-118 | the calls are file finishes followed by the finisher finishes; each file with a hook is finished exactly once and no other file is |
| Loading.Loader.FinishFiles | lib/loader.py:112-114 | each stored file with a `finish` hook is finished once, no other file is finished, and no call repeats |
| Loading.Loader.FinishFinishers | lib/loader.py:115-118 | the finisher calls are those of FinisherCalls on `finishers`, none without a `finishers` list |
| Loading.FinisherCalls | lib/loader.py:115-118 | a call is made for a name iff it is in the list and its attribute exists, is not None and has `finish` |
| Loading.Loader.AddDep | lib/loader.py:170-176 | the node of the importing file exists afterwards and the edge is added (and stays even when the check fails); with an edge it passes iff the new graph is closed and acyclic, and on a closed graph it reports a loop iff there is a cycle |
| Loading.Loader.GetOrAddFile | lib/loader.py:178-181 | a stored full path returns the stored file and changes nothing; otherwise the constructor's result is stored, returned and given an edge-less node |
| Loading.Loader.AddFile | lib/loader.py:183-187 | registers the node; a full path already stored fails the assertion; otherwise stores the file |
| Loading.Loader.CheckDeps | lib/loader.py:189-205 | passes iff every edge target is a node and there is no cycle; a loop is reported only for a cyclic graph, a missing key only for a graph that is not closed, and on a closed graph a loop is reported iff there is a cycle |
| Loading.Loader.RecCheckDeps | lib/loader.py:192-201 | on success every walk from k reaches only nodes, avoids the ancestors and repeats no node; every node in `checked` stays fully explored; a failure is justified by a cycle or a missing node |
| Loading.Loader.VisitEdge | lib/loader.py:195-201 | an edge back into the ancestors fails with a loop; otherwise the target is searched with itself added to the ancestors and recorded in `checked` once its search completed |
| Loading.ChainOfImports | lib/loader.py:170-176 | adding the edges a -> b, b -> c, c -> d between registered files passes every check |
| Loading.MutualImports | lib/loader.py:170-176 | with a -> b in place, adding b -> a fails with a loop |
| Graph.ExploredFromSuccessors | lib/loader.py:195-201 | once every successor has been searched with itself added to the ancestors and none was an ancestor, the search from the node is complete |
| Graph.AncestorCycle | lib/loader.py:196-197 | an edge into the current ancestors closes a cycle |
| Graph.MissingNode | lib/loader.py:195 | reaching an edge target that has no node shows the graph is not closed |
| Graph.AllExploredSound | lib/loader.py:203-205 | if the search from every node completed, the graph is closed and has no cycle |
| Graph.SelfEdgeCycle | lib/loader.py:196-197 | a file importing itself is a cycle |
| Graph.ChainPrefixes | lib/loader.py:189-205 | the graphs a -> b, a -> b -> c and a -> b -> c -> d over four nodes are closed and acyclic |
| Graph.MutualPrefixes | lib/loader.py:189-205 | with a -> b alone the graph is closed and acyclic; with b -> a added it has a cycle |

## Left out

- `os.path.realpath` resolves symbolic links; the model resolves paths lexically on segments (split on '/', drop empty and "." pieces, ".." goes up a level). The current directory for a relative path is a parameter.
- The repository's base directory and sources directory are taken as canonical paths.
- `os.path.exists` is an oracle: a set of existing canonical paths.
- `comp_context_obj(*args)` in `get_or_add_file` is a pure function parameter. A constructor that re-enters the loader is not modelled.
- Loaded files are opaque: an identity and whether they have a `finish` hook. The `finish` hooks are recorded as a log of calls rather than run.
- `hasattr`/`getattr` probing of the loader's own attributes is an explicit map from attribute name to an optional object with or without `finish`.
- Module namespaces (`__dict__`) are maps; `import_symbols` returns the importing namespace instead of writing into it.
- Imports.ImportSymbols: does not model the case where the importing and the exporting module are the same object. There, wildcard writes would be seen by the later reads of the same loop.
- Imports.ImportSymbols: the unused parameters `name`, `i_path` and `b_path` are used only in exception messages, so they are not parameters of the model.
- Loading.Loader.CheckDeps: when the graph is not closed and also has a cycle, the contract does not say which error comes first; that depends on the order in which sets are iterated.
- Set and dict iteration order is left open (a nondeterministic choice), and so is the order in which files are finished.
- Paths.ReplaceExtensionSibling: stated for an extension that is non-empty and has no '.' and no '/'; other extensions go through the same resolution (`Paths.ReplaceExtension`) without a separate lemma.
- `debug` printing, exception message texts, `__repr__`, `__str__`, and the `root()` and `sources()` accessors are output or trivial.
- `LoaderArgumentError`, `LoaderFileNameError`, `LoaderCompileException` and `LoaderBaseException` are declared but never raised by the loader.
- `lib/commands/readme.py` is not part of this model: it is a command that renders and writes a README file.
