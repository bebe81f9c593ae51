/**
 The import dependency graph of lib/loader.py (`Loader.deps`): a map from a
 source-relative path to the set of source-relative paths it imports, and
 what it means for it to have a cycle. The search itself (`check_deps`)
 is a method of the loader; this module holds the facts it relies on.
 */
module Graph {

  type Deps = map<string, set<string>>

  /** A walk along import edges; every node but the last must have a node
      of its own, so that its edges can be looked up. */
  ghost predicate IsPath(deps: Deps, p: seq<string>) {
    |p| >= 1 && forall i :: 0 <= i < |p| - 1 ==> p[i] in deps && p[i + 1] in deps[p[i]]
  }

  /** Some walk of at least one edge comes back to where it started
      (a self-import is a cycle of one edge). */
  ghost predicate HasCycle(deps: Deps) {
    exists p :: IsPath(deps, p) && |p| >= 2 && p[0] == p[|p| - 1]
  }

  /** Every edge target is itself a node (otherwise `self.deps[nk]` fails). */
  predicate Closed(deps: Deps) {
    forall k :: k in deps ==> deps[k] <= deps.Keys
  }

  /** The nodes strictly below the root of a descent: the `prev` set of the
      recursive search. */
  ghost function Ancestors(stack: seq<string>): set<string> {
    set i | 1 <= i < |stack| :: stack[i]
  }

  /** Every walk from `k` reaches only nodes, none of them in `avoid`, and
      never repeats a node after its first step: what a completed search
      from `k` with ancestor set `avoid` has established. */
  ghost predicate Explored(deps: Deps, k: string, avoid: set<string>) {
    forall p :: IsPath(deps, p) && p[0] == k ==>
      (forall i :: 1 <= i < |p| ==> p[i] in deps && p[i] !in avoid)
      && (forall i, j :: 1 <= i < j < |p| ==> p[i] != p[j])
  }

  lemma AncestorsPush(stack: seq<string>, x: string)
    requires |stack| >= 1
    ensures Ancestors(stack + [x]) == Ancestors(stack) + {x}
  {
    var s := stack + [x];
    assert s[|stack|] == x;
    forall y | y in Ancestors(stack) ensures y in Ancestors(s) {
      var i :| 1 <= i < |stack| && stack[i] == y;
      assert s[i] == y;
    }
  }

  lemma ExploredWithoutAvoid(deps: Deps, k: string, avoid: set<string>)
    requires Explored(deps, k, avoid)
    ensures Explored(deps, k, {})
  {
  }

  /** One step down an edge from the end of a descent. */
  lemma Descend(deps: Deps, stack: seq<string>, nk: string)
    requires IsPath(deps, stack) && stack[|stack| - 1] in deps && nk in deps[stack[|stack| - 1]]
    ensures IsPath(deps, stack + [nk])
    ensures Ancestors(stack + [nk]) == Ancestors(stack) + {nk}
  {
    var s := stack + [nk];
    assert forall i :: 0 <= i < |stack| ==> s[i] == stack[i];
    AncestorsPush(stack, nk);
  }

  /** A descent that reached a target with no node of its own shows the
      graph is not closed. */
  lemma MissingNode(deps: Deps, stack: seq<string>)
    requires IsPath(deps, stack) && |stack| >= 2 && stack[|stack| - 1] !in deps
    ensures !Closed(deps)
  {
    assert stack[|stack| - 2] in deps && stack[|stack| - 1] in deps[stack[|stack| - 2]];
  }

  /** Meeting an ancestor again closes a cycle. */
  lemma AncestorCycle(deps: Deps, stack: seq<string>, nk: string)
    requires IsPath(deps, stack) && stack[|stack| - 1] in deps
    requires nk in deps[stack[|stack| - 1]] && nk in Ancestors(stack)
    ensures HasCycle(deps)
  {
    var i :| 1 <= i < |stack| && stack[i] == nk;
    var c := stack[i..] + [nk];
    assert IsPath(deps, c) by {
      forall m | 0 <= m < |c| - 1 ensures c[m] in deps && c[m + 1] in deps[c[m]] {
        if m < |c| - 2 {
          assert c[m] == stack[i + m] && c[m + 1] == stack[i + m + 1];
        }
      }
    }
  }

  /** A walk from `k` of at least one step continues as a walk from its
      second node. */
  lemma PathTail(deps: Deps, p: seq<string>)
    requires IsPath(deps, p) && |p| >= 2
    ensures IsPath(deps, p[1..]) && p[1] in deps[p[0]]
  {
    var q := p[1..];
    assert forall i :: 0 <= i < |q| ==> q[i] == p[i + 1];
  }

  /** The step of the search: once every successor `nk` of `k` has been
      searched with ancestors `avoid + {nk}`, and none of them was in
      `avoid`, the search from `k` with ancestors `avoid` is complete. */
  lemma ExploredFromSuccessors(deps: Deps, k: string, avoid: set<string>)
    requires k in deps
    requires forall nk :: nk in deps[k] ==>
      nk !in avoid && nk in deps && Explored(deps, nk, avoid + {nk})
    ensures Explored(deps, k, avoid)
  {
    forall p | IsPath(deps, p) && p[0] == k
      ensures forall i :: 1 <= i < |p| ==> p[i] in deps && p[i] !in avoid
      ensures forall i, j :: 1 <= i < j < |p| ==> p[i] != p[j]
    {
      if |p| >= 2 {
        PathTail(deps, p);
        var q := p[1..];
        assert Explored(deps, q[0], avoid + {q[0]});
        assert forall i :: 1 <= i < |q| ==> q[i] in deps && q[i] !in avoid + {q[0]};
        assert forall i :: 1 <= i < |p| ==> p[i] == q[i - 1];
      }
    }
  }

  /** A completed search from `k` has found the target of each edge of `k`
      to be a node. */
  lemma ExploredEdge(deps: Deps, k: string, t: string)
    requires Explored(deps, k, {}) && k in deps && t in deps[k]
    ensures t in deps
  {
    var p := [k, t];
    assert IsPath(deps, p) && p[0] == k;
    assert p[1] == t;
  }

  /** A walk around a cycle, walked twice, repeats a node after its first step. */
  lemma TwiceAround(deps: Deps, c: seq<string>)
    requires IsPath(deps, c) && |c| >= 2 && c[0] == c[|c| - 1]
    ensures IsPath(deps, c + c[1..])
    ensures (c + c[1..])[|c| - 1] == (c + c[1..])[2 * |c| - 2]
  {
    var p := c + c[1..];
    forall m | 0 <= m < |p| - 1 ensures p[m] in deps && p[m + 1] in deps[p[m]] {
      if m < |c| - 1 {
        assert p[m] == c[m] && p[m + 1] == c[m + 1];
      } else if m == |c| - 1 {
        assert p[m] == c[0] && p[m + 1] == c[1];
      } else {
        assert p[m] == c[m - |c| + 1] && p[m + 1] == c[m - |c| + 2];
      }
    }
  }

  /** When the search from every node completed, the graph is closed and
      has no cycle. */
  lemma AllExploredSound(deps: Deps)
    requires forall k :: k in deps ==> Explored(deps, k, {})
    ensures Closed(deps) && !HasCycle(deps)
  {
    forall k, t | k in deps && t in deps[k] ensures t in deps {
      ExploredEdge(deps, k, t);
    }
    if HasCycle(deps) {
      var c :| IsPath(deps, c) && |c| >= 2 && c[0] == c[|c| - 1];
      TwiceAround(deps, c);
      assert false;
    }
  }

  /** A graph whose every edge climbs a rank has no cycle. */
  lemma {:induction false} RankClimbs(deps: Deps, rank: string -> nat, p: seq<string>)
    requires forall k, t :: k in deps && t in deps[k] ==> rank(k) < rank(t)
    requires IsPath(deps, p) && |p| >= 2
    ensures rank(p[0]) < rank(p[|p| - 1])
  {
    PathTail(deps, p);
    if |p| > 2 {
      RankClimbs(deps, rank, p[1..]);
    }
  }

  lemma RankedAcyclic(deps: Deps, rank: string -> nat)
    requires forall k, t :: k in deps && t in deps[k] ==> rank(k) < rank(t)
    ensures !HasCycle(deps)
  {
    if HasCycle(deps) {
      var c :| IsPath(deps, c) && |c| >= 2 && c[0] == c[|c| - 1];
      RankClimbs(deps, rank, c);
      assert false;
    }
  }

  /** A file importing itself is a cycle of one edge. */
  lemma SelfEdgeCycle(deps: Deps, k: string)
    requires k in deps && k in deps[k]
    ensures HasCycle(deps)
  {
    assert IsPath(deps, [k, k]);
  }

  /** The graphs the chain passes through are closed and acyclic. */
  lemma ChainPrefixes()
    ensures var g0: Deps := map["a" := {}, "b" := {}, "c" := {}, "d" := {}];
      && Closed(g0["a" := {"b"}]) && !HasCycle(g0["a" := {"b"}])
      && Closed(g0["a" := {"b"}]["b" := {"c"}]) && !HasCycle(g0["a" := {"b"}]["b" := {"c"}])
      && Closed(g0["a" := {"b"}]["b" := {"c"}]["c" := {"d"}])
      && !HasCycle(g0["a" := {"b"}]["b" := {"c"}]["c" := {"d"}])
  {
    var g0: Deps := map["a" := {}, "b" := {}, "c" := {}, "d" := {}];
    var rank := (s: string) => if s == "a" then 0 else if s == "b" then 1 else if s == "c" then 2 else 3;
    RankedAcyclic(g0["a" := {"b"}], rank);
    RankedAcyclic(g0["a" := {"b"}]["b" := {"c"}], rank);
    RankedAcyclic(g0["a" := {"b"}]["b" := {"c"}]["c" := {"d"}], rank);
  }

  /** The graphs of two files importing each other: one edge is closed and
      acyclic, both edges are closed and form a cycle. */
  lemma MutualPrefixes()
    ensures var g0: Deps := map["a" := {}, "b" := {}];
      && Closed(g0["a" := {"b"}]) && !HasCycle(g0["a" := {"b"}])
      && Closed(g0["a" := {"b"}]["b" := {"a"}]) && HasCycle(g0["a" := {"b"}]["b" := {"a"}])
  {
    var g0: Deps := map["a" := {}, "b" := {}];
    RankedAcyclic(g0["a" := {"b"}], (s: string) => if s == "a" then 0 else 1);
    assert IsPath(g0["a" := {"b"}]["b" := {"a"}], ["a", "b", "a"]);
  }
}
