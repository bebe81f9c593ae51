/**
 The loader of lib/loader.py (class Loader): the registry of loaded files,
 keyed by full path, the dependency graph between source-relative paths,
 the eager cycle check and the finish pass.

 A loaded file ("compile context") is opaque to the loader; the model keeps
 its identity and whether it has a `finish` hook. The objects named in
 `finishers` are the loader's attributes, modelled as an explicit map.
 */
module Loading {
  import opened Outcomes
  import opened Paths
  import opened Graph

  /** A loaded file: an opaque identity and whether it has a `finish` hook. */
  datatype Context = Context(id: nat, hasFinish: bool)

  /** The value of one of the loader's own attributes. */
  datatype Attribute = NoneValue | Object(hasFinish: bool)

  /** One `finish()` call made by the finish pass. */
  datatype FinishCall = FileFinish(key: Segments) | FinisherFinish(name: string)

  /** The edges of `k`, none when it has no node yet. */
  function Successors(deps: Deps, k: string): set<string> {
    if k in deps then deps[k] else {}
  }

  /** `hasattr(self, sf) and getattr(self, sf) is not None and
      hasattr(getattr(self, sf), 'finish')`. */
  predicate CanFinish(attributes: map<string, Attribute>, name: string) {
    name in attributes && attributes[name].Object? && attributes[name].hasFinish
  }

  /** The finish calls made for the finisher names, in list order. */
  function FinisherCalls(names: seq<string>, attributes: map<string, Attribute>): (calls: seq<FinishCall>)
    ensures |calls| <= |names|
    ensures forall c :: c in calls <==> c.FinisherFinish? && c.name in names && CanFinish(attributes, c.name)
  {
    if names == [] then []
    else
      var last := names[|names| - 1];
      var init := FinisherCalls(names[..|names| - 1], attributes);
      assert names == names[..|names| - 1] + [last];
      init + if CanFinish(attributes, last) then [FinisherFinish(last)] else []
  }

  /** Adding a new node to the ancestors leaves fewer nodes outside them. */
  lemma FewerUnvisited(keys: set<string>, prev: set<string>, nk: string)
    requires nk !in prev
    ensures nk in keys ==> |keys - (prev + {nk})| < |keys - prev|
    ensures nk !in keys ==> keys - (prev + {nk}) == keys - prev
  {
    if nk in keys {
      assert keys - (prev + {nk}) == (keys - prev) - {nk};
    }
  }

  /** A failure of the cycle check is one it is entitled to: a loop only
      in a graph with a cycle, a missing key only in a graph that is not
      closed. */
  ghost predicate Justified(deps: Deps, r: Outcome) {
    r.Fail? ==> (r.error == LoopDetected && HasCycle(deps)) || (r.error.KeyError? && !Closed(deps))
  }

  class Loader {
    /** `files`: full path to the loaded file. */
    var files: map<Segments, Context>
    /** `deps`: source-relative path to the source-relative paths it imports. */
    var deps: Deps
    const repository: Repository
    /** `finishers`, absent unless a subclass sets it. */
    var finishers: Option<seq<string>>
    /** The loader's attributes that `finishers` may name. */
    var attributes: map<string, Attribute>

    constructor(repository: Repository)
      ensures this.repository == repository
      ensures files == map[] && deps == map[]
      ensures finishers == None && attributes == map[]
    {
      this.repository := repository;
      files := map[];
      deps := map[];
      finishers := None;
      attributes := map[];
    }

    function FinisherPart(): seq<FinishCall>
      reads this
    {
      if finishers.Some? then FinisherCalls(finishers.value, attributes) else []
    }

    /** `finish`: every stored file with a hook is finished once, in some
        order, and then every name of `finishers` whose attribute can be
        finished, in list order. */
    method Finish() returns (calls: seq<FinishCall>)
      ensures |calls| >= |FinisherPart()|
      ensures var n := |calls| - |FinisherPart()|;
        && calls[n..] == FinisherPart()
        && (forall i :: 0 <= i < n ==>
             calls[i].FileFinish? && calls[i].key in files && files[calls[i].key].hasFinish)
        && (forall i, j :: 0 <= i < j < n ==> calls[i] != calls[j])
        && (forall k :: k in files && files[k].hasFinish ==> FileFinish(k) in calls[..n])
    {
      var fileCalls := FinishFiles();
      var finisherCalls := FinishFinishers();
      calls := fileCalls + finisherCalls;
      assert calls[..|fileCalls|] == fileCalls && calls[|fileCalls|..] == finisherCalls;
    }

    /** The first loop of `finish`: the stored files, in some order. */
    method FinishFiles() returns (calls: seq<FinishCall>)
      ensures forall i :: 0 <= i < |calls| ==>
        calls[i].FileFinish? && calls[i].key in files && files[calls[i].key].hasFinish
      ensures forall i, j :: 0 <= i < j < |calls| ==> calls[i] != calls[j]
      ensures forall k :: k in files && files[k].hasFinish ==> FileFinish(k) in calls
    {
      calls := [];
      var todo := files.Keys;
      while todo != {}
        invariant todo <= files.Keys
        invariant forall i :: 0 <= i < |calls| ==>
          calls[i].FileFinish? && calls[i].key in files.Keys - todo && files[calls[i].key].hasFinish
        invariant forall i, j :: 0 <= i < j < |calls| ==> calls[i] != calls[j]
        invariant forall k :: k in files.Keys - todo && files[k].hasFinish ==> FileFinish(k) in calls
        decreases todo
      {
        var k :| k in todo;
        if files[k].hasFinish {
          calls := calls + [FileFinish(k)];
        }
        todo := todo - {k};
      }
    }

    /** The second loop of `finish`: the names of `finishers`, in order. */
    method FinishFinishers() returns (calls: seq<FinishCall>)
      ensures calls == FinisherPart()
    {
      calls := [];
      if finishers.Some? {
        var names := finishers.value;
        for i := 0 to |names|
          invariant calls == FinisherCalls(names[..i], attributes)
        {
          assert names[..i + 1][..i] == names[..i];
          if CanFinish(attributes, names[i]) {
            calls := calls + [FinisherFinish(names[i])];
          }
        }
        assert names[..|names|] == names;
      }
    }

    /** `add_dep`: the node of `s` is created if missing, the edge to `d` is
        added, and the whole graph is checked again. The edge stays in
        place when the check fails. */
    method AddDep(s: Path, d: Option<Path>) returns (r: Outcome)
      modifies this`deps
      ensures d.None? ==> deps == old(deps)[s.srcRelPath := Successors(old(deps), s.srcRelPath)]
      ensures d.Some? ==>
        deps == old(deps)[s.srcRelPath := Successors(old(deps), s.srcRelPath) + {d.value.srcRelPath}]
      ensures d.None? ==> r == Pass
      ensures d.Some? ==> (r.Pass? <==> Closed(deps) && !HasCycle(deps))
      ensures d.Some? && Closed(deps) ==> (r == Fail(LoopDetected) <==> HasCycle(deps))
    {
      if s.srcRelPath !in deps {
        deps := deps[s.srcRelPath := {}];
      }
      assert deps == old(deps)[s.srcRelPath := Successors(old(deps), s.srcRelPath)];
      r := Pass;
      if d.Some? {
        deps := deps[s.srcRelPath := deps[s.srcRelPath] + {d.value.srcRelPath}];
        r := CheckDeps();
      }
    }

    /** `get_or_add_file`: the constructor is applied only for a full path
        that is not stored yet; a stored file is returned as it is and
        nothing changes. */
    method GetOrAddFile<A>(fPath: Path, construct: A -> Context, args: A) returns (c: Context)
      modifies this`files, this`deps
      ensures fPath.fullPath in old(files) ==>
        c == old(files)[fPath.fullPath] && files == old(files) && deps == old(deps)
      ensures fPath.fullPath !in old(files) ==>
        && c == construct(args)
        && files == old(files)[fPath.fullPath := c]
        && deps == old(deps)[fPath.srcRelPath := Successors(old(deps), fPath.srcRelPath)]
    {
      if fPath.fullPath in files {
        return files[fPath.fullPath];
      }
      var r := AddFile(fPath, construct(args));
      c := r.value;
    }

    /** `add_file`: registers an edge-less node, then stores the file; a full
        path that is already stored fails the assertion (after the node was
        registered). */
    method AddFile(fPath: Path, c: Context) returns (r: Result<Context>)
      modifies this`files, this`deps
      ensures deps == old(deps)[fPath.srcRelPath := Successors(old(deps), fPath.srcRelPath)]
      ensures fPath.fullPath in old(files) ==> r == Err(AssertionFailure) && files == old(files)
      ensures fPath.fullPath !in old(files) ==> r == Ok(c) && files == old(files)[fPath.fullPath := c]
    {
      var _ := AddDep(fPath, None);
      if fPath.fullPath in files {
        return Err(AssertionFailure);
      }
      files := files[fPath.fullPath := c];
      r := Ok(c);
    }

    /** `check_deps`: a search from every node not yet known to be safe.
        It passes exactly when every edge target is a node and there is no
        cycle; it reports a loop only for a graph with a cycle, and a
        missing node only for a graph that is not closed. */
    method CheckDeps() returns (r: Outcome)
      ensures r.Pass? <==> Closed(deps) && !HasCycle(deps)
      ensures r == Fail(LoopDetected) ==> HasCycle(deps)
      ensures r.Fail? && r.error.KeyError? ==> !Closed(deps)
      ensures r.Fail? ==> r.error == LoopDetected || r.error.KeyError?
      ensures Closed(deps) ==> (r == Fail(LoopDetected) <==> HasCycle(deps))
    {
      var checked: set<string> := {};
      var todo := deps.Keys;
      while todo != {}
        invariant todo <= deps.Keys
        invariant forall c :: c in checked ==> Explored(deps, c, {})
        invariant forall k :: k in deps.Keys - todo ==> Explored(deps, k, {})
        decreases todo
      {
        var k :| k in todo;
        if k !in checked {
          var res;
          res, checked := RecCheckDeps(k, {}, [k], checked);
          if res.Fail? {
            return res;
          }
        }
        todo := todo - {k};
      }
      AllExploredSound(deps);
      r := Pass;
    }

    /** `_rec_check_deps(k, prev)`: searches every walk from `k`, failing when
        an edge leads back into `prev`, the nodes of the current descent
        below its root. */
    method RecCheckDeps(k: string, prev: set<string>, ghost stack: seq<string>, checked: set<string>)
      returns (r: Outcome, checked': set<string>)
      requires IsPath(deps, stack) && stack[|stack| - 1] == k && prev == Ancestors(stack)
      requires |stack| == 1 ==> k in deps
      requires forall c :: c in checked ==> Explored(deps, c, {})
      ensures checked <= checked'
      ensures forall c :: c in checked' ==> Explored(deps, c, {})
      ensures r.Pass? ==> k in deps && Explored(deps, k, prev)
      ensures Justified(deps, r)
      decreases |deps.Keys - prev|, if k in deps then 2 else 0
    {
      checked' := checked;
      if k !in deps {
        MissingNode(deps, stack);
        return Fail(KeyError(k)), checked';
      }
      var todo := deps[k];
      while todo != {}
        invariant todo <= deps[k]
        invariant checked <= checked'
        invariant forall c :: c in checked' ==> Explored(deps, c, {})
        invariant forall nk :: nk in deps[k] - todo ==>
          nk !in prev && nk in deps && Explored(deps, nk, prev + {nk})
        decreases todo
      {
        var nk :| nk in todo;
        var res;
        res, checked' := VisitEdge(k, nk, prev, stack, checked');
        if res.Fail? {
          return res, checked';
        }
        todo := todo - {nk};
      }
      ExploredFromSuccessors(deps, k, prev);
      r := Pass;
    }

    /** One turn of the loop of `_rec_check_deps`, for the edge `k -> nk`:
        fail if `nk` is an ancestor, else search from `nk` with `nk` added
        to the ancestors, and record `nk` in `checked` once that search
        completed. */
    method VisitEdge(k: string, nk: string, prev: set<string>, ghost stack: seq<string>, checked: set<string>)
      returns (r: Outcome, checked': set<string>)
      requires IsPath(deps, stack) && stack[|stack| - 1] == k && prev == Ancestors(stack)
      requires k in deps && nk in deps[k]
      requires forall c :: c in checked ==> Explored(deps, c, {})
      ensures checked <= checked'
      ensures forall c :: c in checked' ==> Explored(deps, c, {})
      ensures r.Pass? ==> nk !in prev && nk in deps && Explored(deps, nk, prev + {nk})
      ensures Justified(deps, r)
      decreases |deps.Keys - prev|, 1
    {
      if nk in prev {
        AncestorCycle(deps, stack, nk);
        return Fail(LoopDetected), checked;
      }
      Descend(deps, stack, nk);
      FewerUnvisited(deps.Keys, prev, nk);
      r, checked' := RecCheckDeps(nk, prev + {nk}, stack + [nk], checked);
      if r.Pass? {
        ExploredWithoutAvoid(deps, nk, prev + {nk});
        checked' := checked' + {nk};
      }
    }
  }
  /** Four registered files a, b, c, d: adding the edges a -> b, b -> c and
      c -> d in turn passes every check. */
  method ChainOfImports(repo: Repository, a: Path, b: Path, c: Path, d: Path)
    returns (r1: Outcome, r2: Outcome, r3: Outcome)
    requires [a.srcRelPath, b.srcRelPath, c.srcRelPath, d.srcRelPath] == ["a", "b", "c", "d"]
    ensures r1 == Pass && r2 == Pass && r3 == Pass
  {
    var l := new Loader(repo);
    var _ := l.AddDep(a, None);
    var _ := l.AddDep(b, None);
    var _ := l.AddDep(c, None);
    var _ := l.AddDep(d, None);
    ChainPrefixes();
    var g0: Deps := map["a" := {}, "b" := {}, "c" := {}, "d" := {}];
    assert l.deps == g0;
    r1 := l.AddDep(a, Some(b));
    assert Successors(g0, "a") + {"b"} == {"b"};
    var g1 := g0["a" := {"b"}];
    assert l.deps == g1;
    r2 := l.AddDep(b, Some(c));
    assert Successors(g1, "b") + {"c"} == {"c"};
    var g2 := g1["b" := {"c"}];
    assert l.deps == g2;
    r3 := l.AddDep(c, Some(d));
    assert Successors(g2, "c") + {"d"} == {"d"};
  }

  /** Two registered files importing each other: the first edge passes, the
      second closes a loop. */
  method MutualImports(repo: Repository, a: Path, b: Path) returns (r1: Outcome, r2: Outcome)
    requires a.srcRelPath == "a" && b.srcRelPath == "b"
    ensures r1 == Pass && r2 == Fail(LoopDetected)
  {
    var l := new Loader(repo);
    var _ := l.AddDep(a, None);
    var _ := l.AddDep(b, None);
    var g0: Deps := map["a" := {}, "b" := {}];
    assert l.deps == g0;
    MutualPrefixes();
    r1 := l.AddDep(a, Some(b));
    assert Successors(g0, "a") + {"b"} == {"b"};
    var g1 := g0["a" := {"b"}];
    assert l.deps == g1;
    r2 := l.AddDep(b, Some(a));
    assert Successors(g1, "b") + {"a"} == {"a"};
  }
}
