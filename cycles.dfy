/**
 * Cycle detection over a dimension's redirects indexed by source (HasCycle in
 * the consolidation utilities).
 *
 * `CycleSearch` is the search the loop performs, one iteration per call;
 * `Walk` is the chain of targets the search follows, and the lemmas below
 * characterise the answer in terms of that chain alone: a cycle is reported
 * exactly when the chain comes back to the source or never ends.
 */
module Cycles {
  import opened Wrappers
  import opened Store

  /** One step of the search: the target the redirect at `u` points to, if the search goes on from `u`. */
  function Hop(m: Index, u: string): Option<string>
  {
    if u != "" && u in m then Some(m[u].target) else None
  }

  /** The k-th target on the chain that starts at `t` (`None` once the chain has ended). */
  function Walk(m: Index, t: string, k: nat): Option<string>
  {
    if k == 0 then Some(t)
    else match Walk(m, t, k - 1)
      case None => None
      case Some(u) => Hop(m, u)
  }

  /** The targets the chain from `t` visits before its i-th step. */
  ghost function Visited(m: Index, t: string, i: nat): set<string>
  {
    set j | 0 <= j < i && Walk(m, t, j).Some? :: Walk(m, t, j).value
  }

  /** The chain from `t` comes back to `source` after some number of steps. */
  ghost predicate Reaches(m: Index, t: string, source: string)
  {
    exists k: nat :: Walk(m, t, k) == Some(source)
  }

  /** The chain from `t` never ends. */
  ghost predicate Endless(m: Index, t: string)
  {
    forall k: nat :: Walk(m, t, k).Some?
  }

  /** The search HasCycle performs, one loop iteration per call; `visited` holds the targets already seen. */
  function CycleSearch(source: string, target: string, m: Index, visited: set<string>): bool
    decreases m.Keys - visited
  {
    if target == "" then false
    else if target == source then true
    else if target in visited then true
    else if target in m then CycleSearch(source, m[target].target, m, visited + {target})
    else false
  }

  /** Whether adding the redirect source -> target to `m` is reported as a cycle. */
  function Cyclic(source: string, target: string, m: Index): bool
  {
    CycleSearch(source, target, m, {})
  }

  /** HasCycle: follows the chain from `target`, remembering the targets it has seen. */
  method HasCycle(source: string, target: string, m: Index) returns (cyclic: bool)
    ensures cyclic == Cyclic(source, target, m)
  {
    var visited: set<string> := {};
    var t := target;
    while true
      invariant CycleSearch(source, t, m, visited) == Cyclic(source, target, m)
      decreases m.Keys - visited
    {
      if t == "" {
        return false;
      }
      if t == source {
        return true;
      }
      if t in visited {
        return true;
      }
      visited := visited + {t};
      if t in m {
        t := m[t].target;
      } else {
        return false;
      }
    }
  }

  // ---- properties of the chain -------------------------------------------

  /** Once the chain has ended it stays ended. */
  lemma {:induction false} WalkEnded(m: Index, t: string, i: nat, j: nat)
    requires i <= j && Walk(m, t, i).None?
    ensures Walk(m, t, j).None?
    decreases j - i
  {
    if i < j {
      WalkEnded(m, t, i, j - 1);
    }
  }

  /** Walking a + b steps is walking b steps from where a steps lead. */
  lemma {:induction false} WalkAdd(m: Index, t: string, a: nat, b: nat)
    requires Walk(m, t, a).Some?
    ensures Walk(m, t, a + b) == Walk(m, Walk(m, t, a).value, b)
    decreases b
  {
    if b > 0 {
      WalkAdd(m, t, a, b - 1);
    }
  }

  /** A chain that comes back to where it was after p > 0 steps never ends. */
  lemma {:induction false} LoopIsEndless(m: Index, u: string, p: nat, n: nat)
    requires p > 0 && Walk(m, u, p) == Some(u)
    ensures Walk(m, u, n).Some?
    decreases n
  {
    if n < p {
      if Walk(m, u, n).None? {
        WalkEnded(m, u, n, p);
      }
    } else {
      WalkAdd(m, u, p, n - p);
      LoopIsEndless(m, u, p, n - p);
    }
  }

  /** A chain that visits the same target twice never ends. */
  lemma RepeatIsEndless(m: Index, t: string, i: nat, j: nat)
    requires i < j && Walk(m, t, i).Some? && Walk(m, t, i) == Walk(m, t, j)
    ensures Endless(m, t)
  {
    var u := Walk(m, t, i).value;
    WalkAdd(m, t, i, j - i);
    forall k: nat
      ensures Walk(m, t, k).Some?
    {
      if k < i {
        if Walk(m, t, k).None? {
          WalkEnded(m, t, k, i);
        }
      } else {
        WalkAdd(m, t, i, k - i);
        LoopIsEndless(m, u, j - i, k - i);
      }
    }
  }

  lemma VisitedStep(m: Index, t: string, i: nat)
    requires Walk(m, t, i).Some?
    ensures Visited(m, t, i + 1) == Visited(m, t, i) + {Walk(m, t, i).value}
  {
  }

  /**
   * Soundness of a reported cycle, for the search state after i steps: the
   * chain reaches the source or never ends.
   */
  lemma {:induction false} SearchSound(source: string, m: Index, t: string, i: nat)
    requires Walk(m, t, i).Some?
    requires CycleSearch(source, Walk(m, t, i).value, m, Visited(m, t, i))
    ensures (source != "" && Reaches(m, t, source)) || Endless(m, t)
    decreases m.Keys - Visited(m, t, i)
  {
    var u := Walk(m, t, i).value;
    var seen := Visited(m, t, i);
    if u == source {
      assert Walk(m, t, i) == Some(source);
    } else if u in seen {
      var j: nat :| j < i && Walk(m, t, j).Some? && Walk(m, t, j).value == u;
      RepeatIsEndless(m, t, j, i);
    } else {
      assert u != "" && u in m;
      VisitedStep(m, t, i);
      assert Walk(m, t, i + 1) == Some(m[u].target);
      SearchSound(source, m, t, i + 1);
    }
  }

  /** Completeness for a chain that reaches the source at step k >= i. */
  lemma {:induction false} SearchFindsSource(source: string, m: Index, t: string, i: nat, k: nat)
    requires i <= k && source != "" && Walk(m, t, k) == Some(source)
    ensures Walk(m, t, i).Some?
    ensures CycleSearch(source, Walk(m, t, i).value, m, Visited(m, t, i))
    decreases k - i
  {
    if Walk(m, t, i).None? {
      WalkEnded(m, t, i, k);
    }
    var u := Walk(m, t, i).value;
    if i < k {
      if Walk(m, t, i + 1).None? {
        WalkEnded(m, t, i + 1, k);
      }
      assert Walk(m, t, i + 1) == Hop(m, u);
    }
    if u != source && u !in Visited(m, t, i) {
      VisitedStep(m, t, i);
      SearchFindsSource(source, m, t, i + 1, k);
    }
  }

  /** Completeness for a chain that never ends. */
  lemma {:induction false} SearchFindsLoop(source: string, m: Index, t: string, i: nat)
    requires Endless(m, t)
    ensures CycleSearch(source, Walk(m, t, i).value, m, Visited(m, t, i))
    decreases m.Keys - Visited(m, t, i)
  {
    var u := Walk(m, t, i).value;
    assert Walk(m, t, i + 1).Some? && Walk(m, t, i + 1) == Hop(m, u);
    if u != source && u !in Visited(m, t, i) {
      VisitedStep(m, t, i);
      SearchFindsLoop(source, m, t, i + 1);
    }
  }

  /**
   * HasCycle reports a cycle exactly when the chain of redirects starting at
   * the new target leads back to the (non-empty) source, or loops forever
   * without reaching it.
   */
  lemma CyclicIff(source: string, target: string, m: Index)
    ensures Cyclic(source, target, m) <==>
      (source != "" && Reaches(m, target, source)) || Endless(m, target)
  {
    assert Visited(m, target, 0) == {};
    if Cyclic(source, target, m) {
      SearchSound(source, m, target, 0);
    } else if source != "" && Reaches(m, target, source) {
      var k: nat :| Walk(m, target, k) == Some(source);
      SearchFindsSource(source, m, target, 0, k);
    } else if Endless(m, target) {
      SearchFindsLoop(source, m, target, 0);
    }
  }

  // ---- concrete chains ------------------------------------------------------

  function Def(source: string, target: string): RedirectDefinition
  {
    RedirectDefinition("", "", source, target, RedirectCodePermanent, true, true,
      RedirectionTypeAutomatic, "", false)
  }

  /** A ring /a -> /b -> /c -> /a is reported from every one of its edges. */
  lemma RingIsCyclicFromEveryEdge()
    ensures var m := map["/a" := Def("/a", "/b"), "/b" := Def("/b", "/c"), "/c" := Def("/c", "/a")];
      Cyclic("/a", "/b", m) && Cyclic("/b", "/c", m) && Cyclic("/c", "/a", m)
  {
    var m := map["/a" := Def("/a", "/b"), "/b" := Def("/b", "/c"), "/c" := Def("/c", "/a")];
    assert CycleSearch("/a", "/c", m, {"/b"});
    assert CycleSearch("/b", "/a", m, {"/c"});
    assert CycleSearch("/c", "/b", m, {"/a"});
  }

  /** A new redirect into the middle of an acyclic chain is not a cycle. */
  lemma SharedSuffixIsNotCyclic()
    ensures var m := map["/a" := Def("/a", "/b"), "/b" := Def("/b", "/c"), "/c" := Def("/c", "/d")];
      !Cyclic("/x", "/b", m)
  {
    var m := map["/a" := Def("/a", "/b"), "/b" := Def("/b", "/c"), "/c" := Def("/c", "/d")];
    assert !CycleSearch("/x", "/d", m, {"/b", "/c"});
    assert {"/b"} + {"/c"} == {"/b", "/c"};
    assert !CycleSearch("/x", "/c", m, {"/b"});
    assert {} + {"/b"} == {"/b"};
  }
}
