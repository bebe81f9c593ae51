/**
 Import checking and symbol binding of lib/loader.py (`Loader.import_check`
 and `Loader.import_symbols`). Neither reads the loader's own state, so both
 are members of this module rather than of the loader class.

 A module's namespace (`__dict__`) is a `map<string, V>`; the importing
 module's namespace after the call is returned, whether or not the call
 failed, since bindings made before a failure stay in place.
 */
module Imports {
  import opened Outcomes
  import opened Paths

  // ---------------------------------------------------------------------
  // import_check

  predicate IsAbsolute(name: string) {
    |name| >= 1 && name[0] == '/'
  }

  /** `npath.extension in valid_exts`: a missing extension is in no list. */
  predicate ExtensionAllowed(extension: Option<string>, validExts: seq<string>) {
    extension.Some? && extension.value in validExts
  }

  /** The canonical path `name` denotes relative to the directory of `context`. */
  function Target(context: Path, name: string): Segments
    requires Wf(context)
  {
    Normalize(Split(name), context.fullDir)
  }

  /** `import_check`: the import name is resolved against the importing file's
      directory; it is refused, in this order, when it is absolute, when the
      result leaves the sources directory, when its extension is not among
      `validExts` (if given), and when the file does not exist. */
  function ImportCheck(context: Path, name: string, validExts: Option<seq<string>>, fs: set<Segments>): (r: Result<Path>)
    requires Wf(context)
    ensures IsAbsolute(name) ==> r == Err(ImportError(RelativeOnly))
    ensures !IsAbsolute(name) && !Within(Target(context, name), context.repository.sources) ==>
      r == Err(NotInSources)
    ensures (&& !IsAbsolute(name)
             && Within(Target(context, name), context.repository.sources)
             && validExts.Some?
             && !ExtensionAllowed(SplitExtension(LastSegment(Target(context, name))).1, validExts.value))
      ==> r == Err(ImportError(ExtensionNotAllowed))
    ensures (&& !IsAbsolute(name)
             && Within(Target(context, name), context.repository.sources)
             && (validExts.Some? ==> ExtensionAllowed(SplitExtension(LastSegment(Target(context, name))).1, validExts.value))
             && Target(context, name) !in fs)
      ==> r == Err(ImportError(FileMissing))
    ensures r.Ok? <==>
      && !IsAbsolute(name)
      && Within(Target(context, name), context.repository.sources)
      && (validExts.Some? ==> ExtensionAllowed(SplitExtension(LastSegment(Target(context, name))).1, validExts.value))
      && Target(context, name) in fs
    ensures r.Err? ==> r.error in {ImportError(RelativeOnly), NotInSources,
                                   ImportError(ExtensionNotAllowed), ImportError(FileMissing)}
    ensures r.Ok? ==>
      Wf(r.value) && r.value.fullPath == Target(context, name) && r.value.repository == context.repository
  {
    InSourcesIff(Target(context, name), context.repository);
    match RelPath(context, name)
    case Err(AssertionFailure) => Err(ImportError(RelativeOnly))
    case Err(e) => Err(e)
    case Ok(npath) =>
      if validExts.Some? && !ExtensionAllowed(npath.extension, validExts.value) then
        Err(ImportError(ExtensionNotAllowed))
      else if !Exists(npath, fs) then
        Err(ImportError(FileMissing))
      else
        Ok(npath)
  }

  // ---------------------------------------------------------------------
  // import_symbols

  /** One entry of an explicit export list: a name, a `(name, alias)` pair,
      or a tuple of any other length. */
  datatype Export = Name(sym: string) | Alias(sym: string, alias: string) | Malformed

  /** The namespace entry a wildcard import never copies. */
  const Builtins: string := "__builtins__"

  /** Why binding the entry `e` from `iNs` fails, if it does. A malformed
      tuple is never a key of a namespace. */
  function EntryError<V>(iNs: map<string, V>, e: Export): Option<Error>
  {
    match e
    case Name(s) =>
      if s == "*" then Some(MisplacedWildcard)
      else if s in iNs then None
      else Some(ImportError(SymbolNotFound))
    case Alias(s, _) => if s in iNs then None else Some(ImportError(SymbolNotFound))
    case Malformed => Some(ImportError(SymbolNotFound))
  }

  predicate Bindable<V>(iNs: map<string, V>, es: seq<Export>) {
    forall n :: 0 <= n < |es| ==> EntryError(iNs, es[n]).None?
  }

  /** The index of the first entry that fails, or |es| when none does. */
  function FirstFailure<V>(iNs: map<string, V>, es: seq<Export>): (n: nat)
    ensures n <= |es|
    ensures forall m :: 0 <= m < n ==> EntryError(iNs, es[m]).None?
    ensures n < |es| ==> EntryError(iNs, es[n]).Some?
  {
    if es == [] then 0
    else if EntryError(iNs, es[0]).Some? then 0
    else
      var n := 1 + FirstFailure(iNs, es[1..]);
      assert forall m :: 1 <= m < n ==> es[m] == es[1..][m - 1];
      n
  }

  /** The first failure is the index before which every entry binds and at
      which one fails (or the end). */
  lemma FirstFailureIs<V>(iNs: map<string, V>, es: seq<Export>, n: nat)
    requires n <= |es|
    requires forall m :: 0 <= m < n ==> EntryError(iNs, es[m]).None?
    requires n < |es| ==> EntryError(iNs, es[n]).Some?
    ensures FirstFailure(iNs, es) == n
  {
  }

  lemma BindablePrefix<V>(iNs: map<string, V>, es: seq<Export>, n: nat)
    requires n <= |es|
    requires forall m :: 0 <= m < n ==> EntryError(iNs, es[m]).None?
    ensures Bindable(iNs, es[..n])
  {
    assert forall m :: 0 <= m < n ==> es[..n][m] == es[m];
  }

  /** The key an entry binds in the importing namespace. */
  function BoundName(e: Export): string
    requires !e.Malformed?
  {
    match e
    case Name(s) => s
    case Alias(_, a) => a
  }

  predicate Binds(e: Export, k: string) {
    !e.Malformed? && BoundName(e) == k
  }

  /** The namespace after binding the entries of `es`, in order, each one's
      key to the value of its name in `iNs`. */
  function BindList<V>(bNs: map<string, V>, iNs: map<string, V>, es: seq<Export>): map<string, V>
    requires Bindable(iNs, es)
  {
    if es == [] then bNs
    else
      var e := es[|es| - 1];
      assert es[..|es| - 1] + [e] == es;
      BindList(bNs, iNs, es[..|es| - 1])[BoundName(e) := iNs[e.sym]]
  }

  /** The last entry of `es` that binds `k`. */
  function LastBinding(es: seq<Export>, k: string): (r: Option<nat>)
    ensures r.None? ==> forall m :: 0 <= m < |es| ==> !Binds(es[m], k)
    ensures r.Some? ==> r.value < |es| && Binds(es[r.value], k)
    ensures r.Some? ==> forall m :: r.value < m < |es| ==> !Binds(es[m], k)
  {
    if es == [] then None
    else if Binds(es[|es| - 1], k) then Some(|es| - 1)
    else LastBinding(es[..|es| - 1], k)
  }

  /** An explicit list binds exactly the keys its entries name, on top of the
      namespace it started from; each key ends up holding the value, in the
      exporting namespace, of the name its last entry imports. */
  lemma {:induction false} BindListLookup<V>(bNs: map<string, V>, iNs: map<string, V>, es: seq<Export>, k: string)
    requires Bindable(iNs, es)
    ensures k in BindList(bNs, iNs, es) <==> k in bNs || LastBinding(es, k).Some?
    ensures LastBinding(es, k).Some? ==>
      BindList(bNs, iNs, es)[k] == iNs[es[LastBinding(es, k).value].sym]
    ensures LastBinding(es, k).None? && k in bNs ==> BindList(bNs, iNs, es)[k] == bNs[k]
  {
    if es != [] {
      var init := es[..|es| - 1];
      assert Bindable(iNs, init) by {
        assert forall m :: 0 <= m < |init| ==> init[m] == es[m];
      }
      BindListLookup(bNs, iNs, init, k);
      if !Binds(es[|es| - 1], k) {
        assert LastBinding(es, k) == LastBinding(init, k);
      }
    }
  }

  /** The wildcard mode of `import_symbols`: every key of `iNs` but
      `__builtins__` is copied into `bNs` with its value; other keys of `bNs`
      keep theirs. */
  method CopyAll<V>(iNs: map<string, V>, bNs: map<string, V>) returns (ns: map<string, V>)
    ensures ns.Keys == bNs.Keys + (iNs.Keys - {Builtins})
    ensures forall k :: k in ns ==> ns[k] == if k in iNs && k != Builtins then iNs[k] else bNs[k]
  {
    ns := bNs;
    var todo := iNs.Keys;
    while todo != {}
      invariant todo <= iNs.Keys
      invariant ns.Keys == bNs.Keys + (iNs.Keys - todo - {Builtins})
      invariant forall k :: k in ns ==>
        ns[k] == if k in iNs && k !in todo && k != Builtins then iNs[k] else bNs[k]
      decreases todo
    {
      var sym :| sym in todo;
      if sym != Builtins {
        ns := ns[sym := iNs[sym]];
      }
      todo := todo - {sym};
    }
  }

  /** The explicit-list mode of `import_symbols`: entries are bound in order
      until one fails; the bindings made before it stay. */
  method BindEach<V>(iNs: map<string, V>, bNs: map<string, V>, exports: seq<Export>)
    returns (ns: map<string, V>, r: Outcome)
    ensures var n := FirstFailure(iNs, exports);
      && ns == BindList(bNs, iNs, exports[..n])
      && (r.Pass? <==> n == |exports|)
      && (r.Fail? ==> EntryError(iNs, exports[n]) == Some(r.error))
  {
    ns := bNs;
    for i := 0 to |exports|
      invariant forall m :: 0 <= m < i ==> EntryError(iNs, exports[m]).None?
      invariant Bindable(iNs, exports[..i]) && ns == BindList(bNs, iNs, exports[..i])
    {
      var sym := exports[i];
      if sym == Name("*") || sym.Malformed? || sym.sym !in iNs {
        FirstFailureIs(iNs, exports, i);
        r := Fail(if sym == Name("*") then MisplacedWildcard else ImportError(SymbolNotFound));
        return;
      }
      BindablePrefix(iNs, exports, i + 1);
      assert exports[..i + 1][..i] == exports[..i];
      ns := ns[BoundName(sym) := iNs[sym.sym]];
    }
    FirstFailureIs(iNs, exports, |exports|);
    assert exports[..|exports|] == exports;
    r := Pass;
  }

  /** `import_symbols`. With no exports the module itself is bound under
      `basename`; with exactly ["*"] every key of the exporting namespace but
      `__builtins__` is copied; otherwise each entry is bound in turn and the
      first failing entry stops the import, keeping the earlier bindings.
      A '*' in a list of two or more entries always fails. */
  method ImportSymbols<V>(basename: string, iModule: V, iNs: map<string, V>,
                          bNs: map<string, V>, exports: seq<Export>)
    returns (ns: map<string, V>, r: Outcome)
    ensures exports == [] ==>
      && r == Pass
      && ns.Keys == bNs.Keys + {basename} && ns[basename] == iModule
      && (forall k :: k in bNs && k != basename ==> ns[k] == bNs[k])
    ensures exports == [Name("*")] ==>
      && r == Pass
      && ns.Keys == bNs.Keys + (iNs.Keys - {Builtins})
      && (forall k :: k in ns ==> ns[k] == if k in iNs && k != Builtins then iNs[k] else bNs[k])
    ensures exports != [] && exports != [Name("*")] ==>
      var n := FirstFailure(iNs, exports);
      && ns == BindList(bNs, iNs, exports[..n])
      && (r.Pass? <==> n == |exports|)
      && (r.Fail? ==> EntryError(iNs, exports[n]) == Some(r.error))
    ensures |exports| >= 2 && Name("*") in exports ==> r.Fail?
  {
    if |exports| == 0 {
      ns, r := bNs[basename := iModule], Pass;
    } else if |exports| == 1 && exports[0] == Name("*") {
      ns := CopyAll(iNs, bNs);
      r := Pass;
    } else {
      ns, r := BindEach(iNs, bNs, exports);
    }
  }
}
