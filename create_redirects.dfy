/**
 * The command the content server sends after a publication
 * (command/createredirectsfromcontentserver.go). Its handler writes the
 * command's two lists to the store; three middlewares wrap it: one derives
 * automatic redirects from the old and new content trees of every
 * dimension, one consolidates the list against everything in the store, and
 * one publishes the update signal once the rest has succeeded.
 */
module CreateRedirectsCommand {
  import opened Wrappers
  import opened Store
  import opened Content
  import opened Collections
  import opened Backend
  import AutoCreate
  import Cycles
  import opened Consolidation

  /** Each dimension's content tree; Go's nil pointer is `None`. */
  type States = map<string, Option<RepoNode>>

  datatype CreateRedirects = CreateRedirects(
    oldState: States,
    newState: States,
    redirectsToUpsert: seq<RedirectDefinition>,
    redirectsToDelete: seq<EntityID>)

  /** A dimension's tree; a dimension the state does not list has none. */
  function Tree(states: States, dimension: string): Option<RepoNode>
  {
    if dimension in states then states[dimension] else None
  }

  // ---------------------------------------------------------------------
  // The handler
  // ---------------------------------------------------------------------

  predicate UpsertFails(cmd: CreateRedirects, failing: set<Operation>)
  {
    |cmd.redirectsToUpsert| > 0 && UpsertManyOp in failing
  }

  /** The store calls the handler makes: each non-empty list once, upserts first, nothing after a failed upsert. */
  function HandlerCalls(cmd: CreateRedirects, failing: set<Operation>): seq<Call>
  {
    var upsert := if |cmd.redirectsToUpsert| > 0 then [Call.UpsertMany(cmd.redirectsToUpsert)] else [];
    var delete := if |cmd.redirectsToDelete| > 0 then [Call.DeleteMany(cmd.redirectsToDelete)] else [];
    if UpsertFails(cmd, failing) then upsert else upsert + delete
  }

  /** The handler's error: the first failing write. */
  function HandlerError(cmd: CreateRedirects, failing: set<Operation>): Option<string>
  {
    if UpsertFails(cmd, failing) then Some(StoreUnavailable)
    else if |cmd.redirectsToDelete| > 0 && DeleteManyOp in failing then Some(StoreUnavailable)
    else None
  }

  /** The store after the handler. */
  function HandlerStore(s: Snapshot, cmd: CreateRedirects, failing: set<Operation>): Snapshot
  {
    if UpsertFails(cmd, failing) then s
    else
      var written := if |cmd.redirectsToUpsert| > 0 then Upserted(s, cmd.redirectsToUpsert) else s;
      if |cmd.redirectsToDelete| > 0 && DeleteManyOp !in failing then Deleted(written, cmd.redirectsToDelete) else written
  }

  /** CreateRedirectsHandler. */
  method Handle(repo: Backend, cmd: CreateRedirects) returns (err: Option<string>)
    modifies repo
    ensures repo.failing == old(repo.failing)
    ensures repo.calls == old(repo.calls) + HandlerCalls(cmd, repo.failing)
    ensures err == HandlerError(cmd, repo.failing)
    ensures repo.redirects == HandlerStore(old(repo.redirects), cmd, repo.failing)
  {
    if |cmd.redirectsToUpsert| > 0 {
      err := repo.UpsertMany(cmd.redirectsToUpsert);
      if err.Some? {
        return;
      }
    }
    if |cmd.redirectsToDelete| > 0 {
      err := repo.DeleteMany(cmd.redirectsToDelete);
      if err.Some? {
        return;
      }
    }
    return None;
  }

  /** The handler keeps every redirect of the store under its own source. */
  lemma HandlerKeepsKeyed(s: Snapshot, cmd: CreateRedirects, failing: set<Operation>)
    requires Keyed(s)
    ensures Keyed(HandlerStore(s, cmd, failing))
  {
    UpsertedKeepsKeyed(s, cmd.redirectsToUpsert);
    var written := if |cmd.redirectsToUpsert| > 0 then Upserted(s, cmd.redirectsToUpsert) else s;
    DeletedKeepsKeyed(written, cmd.redirectsToDelete);
  }

  // ---------------------------------------------------------------------
  // Composition
  // ---------------------------------------------------------------------

  datatype Middleware = ConsolidateMiddleware | AutoCreateMiddleware | PublishMiddleware

  /** `s` back to front. */
  function Reversed<T>(s: seq<T>): (r: seq<T>)
    ensures |r| == |s| && forall j | 0 <= j < |s| :: r[j] == s[|s| - 1 - j]
  {
    if s == [] then [] else [s[|s| - 1]] + Reversed(s[..|s| - 1])
  }

  /**
   * CreateRedirectsHandlerComposed: each middleware in turn wraps what has
   * been built so far. The result lists the layers from the outside in,
   * which is the order in which they start on a call.
   */
  method Compose(middlewares: seq<Middleware>) returns (layers: seq<Middleware>)
    ensures layers == Reversed(middlewares)
  {
    layers := [];
    for j := 0 to |middlewares|
      invariant layers == Reversed(middlewares[..j])
    {
      assert middlewares[..j + 1][..j] == middlewares[..j];
      layers := [middlewares[j]] + layers;
    }
    assert middlewares[..|middlewares|] == middlewares;
  }

  /**
   * The list api.go passes: the last middleware listed is the outermost, so
   * publishing starts first (and finishes last), and consolidation runs
   * right before the handler.
   */
  lemma ApiLayers()
    ensures Reversed([ConsolidateMiddleware, AutoCreateMiddleware, PublishMiddleware]) ==
      [PublishMiddleware, AutoCreateMiddleware, ConsolidateMiddleware]
  {
  }

  // ---------------------------------------------------------------------
  // The auto-create middleware
  // ---------------------------------------------------------------------

  /** Some dimension of either state has no tree on one side, which fails the derivation. */
  predicate MissingTree(cmd: CreateRedirects)
  {
    exists d | d in cmd.oldState.Keys + cmd.newState.Keys :: Tree(cmd.oldState, d).None? || Tree(cmd.newState, d).None?
  }

  /** The dimensions the middleware visits: those of either state. */
  method Dimensions(cmd: CreateRedirects) returns (dimensions: set<string>)
    ensures dimensions == cmd.oldState.Keys + cmd.newState.Keys
  {
    dimensions := {};
    var remaining := cmd.oldState.Keys;
    while remaining != {}
      invariant remaining <= cmd.oldState.Keys && dimensions == cmd.oldState.Keys - remaining
      decreases remaining
    {
      var d :| d in remaining;
      dimensions := dimensions + {d};
      remaining := remaining - {d};
    }
    remaining := cmd.newState.Keys;
    while remaining != {}
      invariant remaining <= cmd.newState.Keys && dimensions == cmd.oldState.Keys + (cmd.newState.Keys - remaining)
      decreases remaining
    {
      var d :| d in remaining;
      dimensions := dimensions + {d};
      remaining := remaining - {d};
    }
  }

  /** How one dimension's redirects were derived: its two flat maps, and the moved pages in iteration order. */
  datatype Derivation = Derivation(oldFlat: map<string, RepoNode>, newFlat: map<string, RepoNode>, moved: seq<string>)

  /** `defs` are the redirects AutoCreateRedirectDefinitions derives for dimension `d` along `dv`. */
  ghost predicate Derives(cmd: CreateRedirects, freshIds: (Dimension, nat) -> EntityID, d: Dimension,
                          dv: Derivation, defs: seq<RedirectDefinition>)
  {
    AutoCreate.FlatMapOf(Tree(cmd.oldState, d), dv.oldFlat) &&
    AutoCreate.FlatMapOf(Tree(cmd.newState, d), dv.newFlat) &&
    Distinct(dv.moved) && Elements(dv.moved) == AutoCreate.Moved(dv.oldFlat, dv.newFlat) &&
    |defs| == |dv.moved| &&
    forall j | 0 <= j < |defs| ::
      dv.moved[j] in dv.oldFlat && dv.moved[j] in dv.newFlat &&
      defs[j] == AutoCreate.MoveRedirect(dv.oldFlat, dv.newFlat, dv.moved[j], d, freshIds(d, j))
  }

  /** One dimension of the middleware's loop: flatten both trees and derive; a missing tree is an error. */
  method DeriveDimension(cmd: CreateRedirects, freshIds: (Dimension, nat) -> EntityID, d: Dimension)
    returns (r: Result<seq<RedirectDefinition>, string>, ghost dv: Derivation)
    ensures r.Err? <==> Tree(cmd.oldState, d).None? || Tree(cmd.newState, d).None?
    ensures r.Err? ==> r.error == AutoCreate.NilArguments
    ensures r.Ok? ==> Derives(cmd, freshIds, d, dv, r.value)
  {
    var oldMap := AutoCreate.CreateFlatRepoNodeMap(Tree(cmd.oldState, d), map[]);
    var newMap := AutoCreate.CreateFlatRepoNodeMap(Tree(cmd.newState, d), map[]);
    AutoCreate.FlatMapEmptyIffNoTree(Tree(cmd.oldState, d), oldMap);
    AutoCreate.FlatMapEmptyIffNoTree(Tree(cmd.newState, d), newMap);
    ghost var moved;
    r, moved := AutoCreate.AutoCreateRedirectDefinitions(oldMap, newMap, d, (j: nat) => freshIds(d, j));
    dv := Derivation(oldMap, newMap, moved);
  }

  /** The dimensions `dims` all have both trees and derived `derived` along `dvs`. */
  ghost predicate DerivedOver(cmd: CreateRedirects, freshIds: (Dimension, nat) -> EntityID, dims: seq<Dimension>,
                              dvs: seq<Derivation>, derived: seq<seq<RedirectDefinition>>)
  {
    |dvs| == |dims| && |derived| == |dims| &&
    forall k | 0 <= k < |dims| ::
      Tree(cmd.oldState, dims[k]).Some? && Tree(cmd.newState, dims[k]).Some? &&
      Derives(cmd, freshIds, dims[k], dvs[k], derived[k])
  }

  /** The witnesses of the auto-create middleware: the dimensions in iteration order and what each derived. */
  datatype AutoTrace = AutoTrace(dims: seq<Dimension>, derivations: seq<Derivation>, derived: seq<seq<RedirectDefinition>>)

  /** `auto` is `cmd` with the derived redirects of every dimension of either state appended. */
  ghost predicate AutoCreated(cmd: CreateRedirects, freshIds: (Dimension, nat) -> EntityID, t: AutoTrace, auto: CreateRedirects)
  {
    Distinct(t.dims) && Elements(t.dims) == cmd.oldState.Keys + cmd.newState.Keys &&
    DerivedOver(cmd, freshIds, t.dims, t.derivations, t.derived) &&
    auto == cmd.(redirectsToUpsert := cmd.redirectsToUpsert + Flatten(t.derived))
  }

  lemma DerivedOverSnoc(cmd: CreateRedirects, freshIds: (Dimension, nat) -> EntityID, dims: seq<Dimension>,
                        dvs: seq<Derivation>, derived: seq<seq<RedirectDefinition>>,
                        d: Dimension, dv: Derivation, defs: seq<RedirectDefinition>)
    requires DerivedOver(cmd, freshIds, dims, dvs, derived)
    requires Tree(cmd.oldState, d).Some? && Tree(cmd.newState, d).Some? && Derives(cmd, freshIds, d, dv, defs)
    ensures DerivedOver(cmd, freshIds, dims + [d], dvs + [dv], derived + [defs])
  {
    forall k | 0 <= k < |dims| + 1
      ensures var dims', dvs', derived' := dims + [d], dvs + [dv], derived + [defs];
        Tree(cmd.oldState, dims'[k]).Some? && Tree(cmd.newState, dims'[k]).Some? &&
        Derives(cmd, freshIds, dims'[k], dvs'[k], derived'[k])
    {
      if k < |dims| {
        assert (dims + [d])[k] == dims[k] && (dvs + [dv])[k] == dvs[k] && (derived + [defs])[k] == derived[k];
      }
    }
  }

  /** Everything the auto-create loop keeps, once `remaining` dimensions are still to do. */
  ghost predicate AutoCreateLoop(cmd: CreateRedirects, freshIds: (Dimension, nat) -> EntityID, remaining: set<Dimension>,
                                 t: AutoTrace, added: seq<RedirectDefinition>)
  {
    remaining <= cmd.oldState.Keys + cmd.newState.Keys &&
    Distinct(t.dims) && Elements(t.dims) == cmd.oldState.Keys + cmd.newState.Keys - remaining &&
    DerivedOver(cmd, freshIds, t.dims, t.derivations, t.derived) &&
    added == Flatten(t.derived)
  }

  lemma AutoCreateStep(cmd: CreateRedirects, freshIds: (Dimension, nat) -> EntityID, remaining: set<Dimension>,
                       t: AutoTrace, added: seq<RedirectDefinition>, d: Dimension, dv: Derivation, defs: seq<RedirectDefinition>)
    requires AutoCreateLoop(cmd, freshIds, remaining, t, added) && d in remaining
    requires Tree(cmd.oldState, d).Some? && Tree(cmd.newState, d).Some? && Derives(cmd, freshIds, d, dv, defs)
    ensures AutoCreateLoop(cmd, freshIds, remaining - {d},
      AutoTrace(t.dims + [d], t.derivations + [dv], t.derived + [defs]), added + defs)
  {
    DerivedOverSnoc(cmd, freshIds, t.dims, t.derivations, t.derived, d, dv, defs);
    FlattenSnoc(t.derived, defs);
    DistinctSnoc(t.dims, d);
  }

  lemma AutoCreateDone(cmd: CreateRedirects, freshIds: (Dimension, nat) -> EntityID, t: AutoTrace, added: seq<RedirectDefinition>)
    requires AutoCreateLoop(cmd, freshIds, {}, t, added)
    ensures !MissingTree(cmd)
    ensures AutoCreated(cmd, freshIds, t, cmd.(redirectsToUpsert := cmd.redirectsToUpsert + added))
  {
    forall d | d in cmd.oldState.Keys + cmd.newState.Keys
      ensures Tree(cmd.oldState, d).Some? && Tree(cmd.newState, d).Some?
    {
      assert d in Elements(t.dims);
      var k :| 0 <= k < |t.dims| && t.dims[k] == d;
    }
  }

  /**
   * CreateRedirectsAutoCreateMiddleware, up to the call of the next handler:
   * the union of both states' dimensions, each derived in turn; the first
   * failure ends the middleware. `freshIds(d, j)` is the entity id of the
   * j-th redirect derived for dimension `d`.
   */
  method AutoCreateStage(cmd: CreateRedirects, freshIds: (Dimension, nat) -> EntityID)
    returns (r: Result<CreateRedirects, string>, ghost t: AutoTrace)
    ensures r.Err? <==> MissingTree(cmd)
    ensures r.Err? ==> r.error == AutoCreate.NilArguments
    ensures r.Ok? ==> AutoCreated(cmd, freshIds, t, r.value)
  {
    var dimensions := Dimensions(cmd);
    var added := [];
    t := AutoTrace([], [], []);
    var remaining := dimensions;
    while remaining != {}
      invariant AutoCreateLoop(cmd, freshIds, remaining, t, added)
      decreases remaining
    {
      var d :| d in remaining;
      var defs, dv := DeriveDimension(cmd, freshIds, d);
      if defs.Err? {
        return Err(defs.error), t;
      }
      AutoCreateStep(cmd, freshIds, remaining, t, added, d, dv, defs.value);
      t := AutoTrace(t.dims + [d], t.derivations + [dv], t.derived + [defs.value]);
      added := added + defs.value;
      remaining := remaining - {d};
    }
    AutoCreateDone(cmd, freshIds, t, added);
    return Ok(cmd.(redirectsToUpsert := cmd.redirectsToUpsert + added)), t;
  }

  // ---------------------------------------------------------------------
  // The consolidate middleware
  // ---------------------------------------------------------------------

  predicate Within(dims: seq<Dimension>, snapshot: Snapshot)
  {
    forall j | 0 <= j < |dims| :: dims[j] in snapshot
  }

  /**
   * The new definitions once the first `k` store dimensions have
   * consolidated them: the same records are handed to every dimension, so
   * the stale marks of one dimension are there for the next.
   */
  function NewsThrough(news: seq<RedirectDefinition>, snapshot: Snapshot, dims: seq<Dimension>, k: nat): (r: seq<RedirectDefinition>)
    requires k <= |dims| && Within(dims, snapshot)
    ensures |r| == |news|
  {
    if k == 0 then news
    else
      var before := NewsThrough(news, snapshot, dims, k - 1);
      MarkedAfter(before, snapshot[dims[k - 1]], |before|)
  }

  /**
   * One store dimension's consolidation: the new definitions `before`, as
   * earlier dimensions left them, against the dimension's redirects `current`
   * and the flat map `nodeMap` of its new tree, end in `final`, with upsert
   * references `refs` and doomed sources `gone`.
   */
  ghost predicate ConsolidatedAt(before: seq<RedirectDefinition>, current: Index, tree: Option<RepoNode>,
                                 nodeMap: map<string, RepoNode>, final: State, refs: seq<Ref>, gone: seq<Source>)
  {
    AutoCreate.FlatMapOf(tree, nodeMap) &&
    final == After(before, current, |before|) &&
    NewIndices(refs) == Upto(|before|) &&
    Elements(ExistingSources(refs)) == ChainedAfter(before, current, |before|) &&
    Distinct(gone) && Elements(gone) == Doomed(final.index, Uris(nodeMap))
  }

  lemma ConsolidatedAtIntro(before: seq<RedirectDefinition>, current: Index, tree: Option<RepoNode>,
                            nodeMap: map<string, RepoNode>, final: State, refs: seq<Ref>, gone: seq<Source>)
    requires AutoCreate.FlatMapOf(tree, nodeMap)
    requires final == After(before, current, |before|)
    requires NewIndices(refs) == Upto(|before|)
    requires Elements(ExistingSources(refs)) == ChainedAfter(before, current, |before|)
    requires Distinct(gone) && Elements(gone) == Doomed(final.index, Uris(nodeMap))
    ensures ConsolidatedAt(before, current, tree, nodeMap, final, refs, gone)
  {
  }

  /** The witnesses of the consolidate middleware, one entry per store dimension in iteration order. */
  datatype StoreTrace = StoreTrace(dims: seq<Dimension>, nodeMaps: seq<map<string, RepoNode>>, finals: seq<State>,
                                   segments: seq<seq<Ref>>, doomed: seq<seq<Source>>)

  /** Every dimension of `t` consolidated in turn. */
  ghost predicate ConsolidatedOver(news: seq<RedirectDefinition>, snapshot: Snapshot, newState: States, t: StoreTrace)
    requires Within(t.dims, snapshot)
  {
    |t.nodeMaps| == |t.dims| && |t.finals| == |t.dims| && |t.segments| == |t.dims| && |t.doomed| == |t.dims| &&
    forall k | 0 <= k < |t.dims| ::
      ConsolidatedAt(NewsThrough(news, snapshot, t.dims, k), snapshot[t.dims[k]], Tree(newState, t.dims[k]),
                     t.nodeMaps[k], t.finals[k], t.segments[k], t.doomed[k])
  }

  /** Every dimension's references designate records of its final state, with the new definitions `news`. */
  predicate Resolvable(segments: seq<seq<Ref>>, news: seq<RedirectDefinition>, finals: seq<State>)
  {
    |segments| == |finals| && forall k | 0 <= k < |segments| :: Designate(segments[k], State(news, finals[k].index))
  }

  /** The upsert list the middleware hands on: every dimension's references, read once all dimensions are done. */
  function ResolveAll(segments: seq<seq<Ref>>, news: seq<RedirectDefinition>, finals: seq<State>): seq<RedirectDefinition>
    requires Resolvable(segments, news, finals)
  {
    if segments == [] then []
    else
      var n := |segments| - 1;
      ResolveAll(segments[..n], news, finals[..n]) + Resolve(segments[n], State(news, finals[n].index))
  }

  predicate DoomedCurrent(doomed: seq<seq<Source>>, finals: seq<State>)
  {
    |doomed| == |finals| && forall k, s | 0 <= k < |doomed| && s in doomed[k] :: s in finals[k].index
  }

  /** The delete list the middleware hands on: every dimension's doomed ids, dimension after dimension. */
  function DeletedIds(doomed: seq<seq<Source>>, finals: seq<State>): seq<EntityID>
    requires DoomedCurrent(doomed, finals)
  {
    if doomed == [] then []
    else
      var n := |doomed| - 1;
      DeletedIds(doomed[..n], finals[..n]) + IdsOf(doomed[n], finals[n].index)
  }

  /**
   * `sent` is `cmd` with both lists replaced by the concatenation of the
   * per-dimension results over every dimension of `snapshot`.
   */
  ghost predicate Consolidated(cmd: CreateRedirects, snapshot: Snapshot, t: StoreTrace, sent: CreateRedirects)
  {
    Distinct(t.dims) && Elements(t.dims) == snapshot.Keys && Within(t.dims, snapshot) &&
    ConsolidatedOver(cmd.redirectsToUpsert, snapshot, cmd.newState, t) &&
    var news := NewsThrough(cmd.redirectsToUpsert, snapshot, t.dims, |t.dims|);
    Resolvable(t.segments, news, t.finals) && DoomedCurrent(t.doomed, t.finals) &&
    sent == cmd.(redirectsToUpsert := ResolveAll(t.segments, news, t.finals),
                 redirectsToDelete := DeletedIds(t.doomed, t.finals))
  }

  /** NewsThrough looks at the first `k` dimensions only. */
  lemma {:induction false} NewsThroughPrefix(news: seq<RedirectDefinition>, snapshot: Snapshot, dims: seq<Dimension>, d: Dimension, k: nat)
    requires k <= |dims| && Within(dims, snapshot) && d in snapshot
    ensures Within(dims + [d], snapshot)
    ensures NewsThrough(news, snapshot, dims + [d], k) == NewsThrough(news, snapshot, dims, k)
  {
    assert Within(dims + [d], snapshot);
    if k > 0 {
      NewsThroughPrefix(news, snapshot, dims, d, k - 1);
      assert (dims + [d])[k - 1] == dims[k - 1];
    }
  }

  lemma DeletedIdsSnoc(doomed: seq<seq<Source>>, finals: seq<State>, gone: seq<Source>, final: State)
    requires DoomedCurrent(doomed, finals) && forall s | s in gone :: s in final.index
    ensures DoomedCurrent(doomed + [gone], finals + [final])
    ensures DeletedIds(doomed + [gone], finals + [final]) == DeletedIds(doomed, finals) + IdsOf(gone, final.index)
  {
    assert (doomed + [gone])[..|doomed|] == doomed && (finals + [final])[..|finals|] == finals;
  }

  /** The consolidate loop invariant after the dimensions of `t`. */
  ghost predicate ConsolidatingUpTo(news: seq<RedirectDefinition>, snapshot: Snapshot, newState: States, t: StoreTrace,
                                    current: seq<RedirectDefinition>, deletes: seq<EntityID>)
  {
    Within(t.dims, snapshot) &&
    ConsolidatedOver(news, snapshot, newState, t) &&
    current == NewsThrough(news, snapshot, t.dims, |t.dims|) &&
    DoomedCurrent(t.doomed, t.finals) && deletes == DeletedIds(t.doomed, t.finals)
  }

  lemma ConsolidatingStep(news: seq<RedirectDefinition>, snapshot: Snapshot, newState: States, t: StoreTrace,
                          current: seq<RedirectDefinition>, deletes: seq<EntityID>,
                          d: Dimension, nodeMap: map<string, RepoNode>, final: State, refs: seq<Ref>,
                          ids: seq<EntityID>, gone: seq<Source>)
    requires ConsolidatingUpTo(news, snapshot, newState, t, current, deletes) && d in snapshot
    requires ConsolidatedAt(current, snapshot[d], Tree(newState, d), nodeMap, final, refs, gone)
    requires forall s | s in gone :: s in final.index
    requires ids == IdsOf(gone, final.index)
    ensures ConsolidatingUpTo(news, snapshot, newState,
      StoreTrace(t.dims + [d], t.nodeMaps + [nodeMap], t.finals + [final], t.segments + [refs], t.doomed + [gone]),
      final.news, deletes + ids)
  {
    var t' := StoreTrace(t.dims + [d], t.nodeMaps + [nodeMap], t.finals + [final], t.segments + [refs], t.doomed + [gone]);
    NewsThroughSnoc(news, snapshot, t.dims, d);
    ConsolidatedOverSnoc(news, snapshot, newState, t, d, nodeMap, final, refs, gone);
    DeletedIdsSnoc(t.doomed, t.finals, gone, final);
  }

  /** Everything the consolidate loop keeps, once `remaining` store dimensions are still to do. */
  ghost predicate ConsolidationLoop(cmd: CreateRedirects, snapshot: Snapshot, remaining: set<Dimension>, t: StoreTrace,
                                    finals: seq<State>, segments: seq<seq<Ref>>, current: seq<RedirectDefinition>,
                                    deletes: seq<EntityID>)
  {
    remaining <= snapshot.Keys &&
    t.finals == finals && t.segments == segments &&
    Distinct(t.dims) && Elements(t.dims) == snapshot.Keys - remaining &&
    ConsolidatingUpTo(cmd.redirectsToUpsert, snapshot, cmd.newState, t, current, deletes)
  }

  lemma LoopStep(cmd: CreateRedirects, snapshot: Snapshot, remaining: set<Dimension>, t: StoreTrace,
                 finals: seq<State>, segments: seq<seq<Ref>>, current: seq<RedirectDefinition>, deletes: seq<EntityID>,
                 d: Dimension, nodeMap: map<string, RepoNode>, final: State, refs: seq<Ref>,
                 ids: seq<EntityID>, gone: seq<Source>)
    requires ConsolidationLoop(cmd, snapshot, remaining, t, finals, segments, current, deletes) && d in remaining
    requires ConsolidatedAt(current, snapshot[d], Tree(cmd.newState, d), nodeMap, final, refs, gone)
    requires forall s | s in gone :: s in final.index
    requires ids == IdsOf(gone, final.index)
    ensures ConsolidationLoop(cmd, snapshot, remaining - {d},
      StoreTrace(t.dims + [d], t.nodeMaps + [nodeMap], t.finals + [final], t.segments + [refs], t.doomed + [gone]),
      finals + [final], segments + [refs], final.news, deletes + ids)
  {
    ConsolidatingStep(cmd.redirectsToUpsert, snapshot, cmd.newState, t, current, deletes, d, nodeMap, final, refs, ids, gone);
    DistinctSnoc(t.dims, d);
  }

  lemma LoopDone(cmd: CreateRedirects, snapshot: Snapshot, t: StoreTrace,
                 finals: seq<State>, segments: seq<seq<Ref>>, current: seq<RedirectDefinition>, deletes: seq<EntityID>)
    requires ConsolidationLoop(cmd, snapshot, {}, t, finals, segments, current, deletes)
    ensures Resolvable(segments, current, finals)
    ensures Consolidated(cmd, snapshot, t,
      cmd.(redirectsToUpsert := ResolveAll(segments, current, finals), redirectsToDelete := deletes))
  {
    forall k | 0 <= k < |t.segments|
      ensures Designate(t.segments[k], State(current, t.finals[k].index))
    {
      var before := NewsThrough(cmd.redirectsToUpsert, snapshot, t.dims, k);
      assert ConsolidatedAt(before, snapshot[t.dims[k]], Tree(cmd.newState, t.dims[k]),
                            t.nodeMaps[k], t.finals[k], t.segments[k], t.doomed[k]);
      SegmentDesignates(before, snapshot[t.dims[k]], t.segments[k], State(current, t.finals[k].index));
    }
  }

  /** One more dimension is one more MarkedAfter over the new definitions. */
  lemma NewsThroughSnoc(news: seq<RedirectDefinition>, snapshot: Snapshot, dims: seq<Dimension>, d: Dimension)
    requires Within(dims, snapshot) && d in snapshot
    ensures Within(dims + [d], snapshot)
    ensures var before := NewsThrough(news, snapshot, dims, |dims|);
      NewsThrough(news, snapshot, dims + [d], |dims| + 1) == MarkedAfter(before, snapshot[d], |before|)
  {
    NewsThroughPrefix(news, snapshot, dims, d, |dims|);
    assert (dims + [d])[|dims|] == d;
  }

  lemma ConsolidatedOverSnoc(news: seq<RedirectDefinition>, snapshot: Snapshot, newState: States, t: StoreTrace, d: Dimension,
                             nodeMap: map<string, RepoNode>, final: State, refs: seq<Ref>, gone: seq<Source>)
    requires Within(t.dims, snapshot) && d in snapshot && Within(t.dims + [d], snapshot)
    requires ConsolidatedOver(news, snapshot, newState, t)
    requires ConsolidatedAt(NewsThrough(news, snapshot, t.dims, |t.dims|), snapshot[d], Tree(newState, d), nodeMap, final, refs, gone)
    ensures ConsolidatedOver(news, snapshot, newState,
      StoreTrace(t.dims + [d], t.nodeMaps + [nodeMap], t.finals + [final], t.segments + [refs], t.doomed + [gone]))
  {
    var t' := StoreTrace(t.dims + [d], t.nodeMaps + [nodeMap], t.finals + [final], t.segments + [refs], t.doomed + [gone]);
    forall k | 0 <= k < |t'.dims|
      ensures ConsolidatedAt(NewsThrough(news, snapshot, t'.dims, k), snapshot[t'.dims[k]], Tree(newState, t'.dims[k]),
                             t'.nodeMaps[k], t'.finals[k], t'.segments[k], t'.doomed[k])
    {
      ConsolidatedAtSnoc(news, snapshot, newState, t, d, nodeMap, final, refs, gone, k);
    }
  }

  lemma ConsolidatedAtSnoc(news: seq<RedirectDefinition>, snapshot: Snapshot, newState: States, t: StoreTrace, d: Dimension,
                           nodeMap: map<string, RepoNode>, final: State, refs: seq<Ref>, gone: seq<Source>, k: nat)
    requires Within(t.dims, snapshot) && d in snapshot && Within(t.dims + [d], snapshot) && k <= |t.dims|
    requires ConsolidatedOver(news, snapshot, newState, t)
    requires ConsolidatedAt(NewsThrough(news, snapshot, t.dims, |t.dims|), snapshot[d], Tree(newState, d), nodeMap, final, refs, gone)
    ensures var t' := StoreTrace(t.dims + [d], t.nodeMaps + [nodeMap], t.finals + [final], t.segments + [refs], t.doomed + [gone]);
      ConsolidatedAt(NewsThrough(news, snapshot, t'.dims, k), snapshot[t'.dims[k]], Tree(newState, t'.dims[k]),
                     t'.nodeMaps[k], t'.finals[k], t'.segments[k], t'.doomed[k])
  {
    NewsThroughPrefix(news, snapshot, t.dims, d, k);
    if k < |t.dims| {
      ConsolidatedAtEarlier(news, snapshot, newState, t, d, nodeMap, final, refs, gone, k);
    } else {
      var t' := StoreTrace(t.dims + [d], t.nodeMaps + [nodeMap], t.finals + [final], t.segments + [refs], t.doomed + [gone]);
      assert t'.dims[k] == d && t'.nodeMaps[k] == nodeMap && t'.finals[k] == final;
      assert t'.segments[k] == refs && t'.doomed[k] == gone;
    }
  }

  /** A dimension consolidated before the last one is still recorded as such in the extended trace. */
  lemma ConsolidatedAtEarlier(news: seq<RedirectDefinition>, snapshot: Snapshot, newState: States, t: StoreTrace, d: Dimension,
                              nodeMap: map<string, RepoNode>, final: State, refs: seq<Ref>, gone: seq<Source>, k: nat)
    requires Within(t.dims, snapshot) && d in snapshot && Within(t.dims + [d], snapshot) && k < |t.dims|
    requires ConsolidatedOver(news, snapshot, newState, t)
    requires NewsThrough(news, snapshot, t.dims + [d], k) == NewsThrough(news, snapshot, t.dims, k)
    ensures var t' := StoreTrace(t.dims + [d], t.nodeMaps + [nodeMap], t.finals + [final], t.segments + [refs], t.doomed + [gone]);
      ConsolidatedAt(NewsThrough(news, snapshot, t'.dims, k), snapshot[t'.dims[k]], Tree(newState, t'.dims[k]),
                     t'.nodeMaps[k], t'.finals[k], t'.segments[k], t'.doomed[k])
  {
    assert (t.dims + [d])[k] == t.dims[k] && (t.nodeMaps + [nodeMap])[k] == t.nodeMaps[k];
    assert (t.finals + [final])[k] == t.finals[k] && (t.segments + [refs])[k] == t.segments[k];
    assert (t.doomed + [gone])[k] == t.doomed[k];
    assert ConsolidatedAt(NewsThrough(news, snapshot, t.dims, k), snapshot[t.dims[k]], Tree(newState, t.dims[k]),
                          t.nodeMaps[k], t.finals[k], t.segments[k], t.doomed[k]);
  }

  /** The references of a consolidated dimension designate records of its final state. */
  lemma SegmentDesignates(before: seq<RedirectDefinition>, index: Index, refs: seq<Ref>, st: State)
    requires NewIndices(refs) == Upto(|before|)
    requires Elements(ExistingSources(refs)) == ChainedAfter(before, index, |before|)
    requires |st.news| == |before| && st.index.Keys == index.Keys
    ensures Designate(refs, st)
  {
    ChainedAfterInIndex(before, index, |before|);
    assert forall s | s in ExistingSources(refs) :: s in Elements(ExistingSources(refs));
    ProjectionsDesignate(refs, st);
  }

  /** One store dimension: flatten its new tree and consolidate the new definitions against its redirects. */
  method ConsolidateDimension(news: seq<RedirectDefinition>, current: Index, tree: Option<RepoNode>)
    returns (final: State, refs: seq<Ref>, ids: seq<EntityID>, ghost nodeMap: map<string, RepoNode>, ghost gone: seq<Source>)
    requires KeyedBySource(current)
    ensures ConsolidatedAt(news, current, tree, nodeMap, final, refs, gone)
    ensures (forall s | s in gone :: s in final.index) && ids == IdsOf(gone, final.index)
  {
    var flat := AutoCreate.CreateFlatRepoNodeMap(tree, map[]);
    nodeMap := flat;
    final, refs, ids, gone := ConsolidateRedirectDefinitions(news, current, flat);
    ConsolidatedAtIntro(news, current, tree, nodeMap, final, refs, gone);
    assert forall s | s in gone :: s in Elements(gone);
    assert ids == IdsOf(gone, final.index);
  }

  /**
   * The consolidate middleware's loop: the whole upsert list is
   * consolidated against each store dimension in turn, and the per-dimension
   * results are concatenated.
   */
  method ConsolidateDimensions(cmd: CreateRedirects, snapshot: Snapshot) returns (sent: CreateRedirects, ghost t: StoreTrace)
    requires Keyed(snapshot)
    ensures Consolidated(cmd, snapshot, t, sent)
  {
    t := StoreTrace([], [], [], [], []);
    var finals: seq<State> := [];
    var segments: seq<seq<Ref>> := [];
    var news := cmd.redirectsToUpsert;
    var deletes: seq<EntityID> := [];
    var remaining := snapshot.Keys;
    while remaining != {}
      invariant ConsolidationLoop(cmd, snapshot, remaining, t, finals, segments, news, deletes)
      decreases remaining
    {
      var d :| d in remaining;
      var final, refs, ids, nodeMap, gone := ConsolidateDimension(news, snapshot[d], Tree(cmd.newState, d));
      LoopStep(cmd, snapshot, remaining, t, finals, segments, news, deletes, d, nodeMap, final, refs, ids, gone);
      t := StoreTrace(t.dims + [d], t.nodeMaps + [nodeMap], t.finals + [final], t.segments + [refs], t.doomed + [gone]);
      finals := finals + [final];
      segments := segments + [refs];
      news := final.news;
      deletes := deletes + ids;
      remaining := remaining - {d};
    }
    LoopDone(cmd, snapshot, t, finals, segments, news, deletes);
    sent := cmd.(redirectsToUpsert := ResolveAll(segments, news, finals), redirectsToDelete := deletes);
  }

  /**
   * CreateRedirectsConsolidateMiddleware, up to the call of the next
   * handler: read everything in the store and consolidate against it. A
   * failed read ends the middleware.
   */
  method ConsolidateStage(repo: Backend, cmd: CreateRedirects) returns (r: Result<CreateRedirects, string>, ghost t: StoreTrace)
    requires Keyed(repo.redirects)
    modifies repo
    ensures repo.calls == old(repo.calls) + [Call.FindAll(false)]
    ensures repo.redirects == old(repo.redirects) && repo.failing == old(repo.failing)
    ensures r.Err? <==> FindAllOp in repo.failing
    ensures r.Err? ==> r.error == StoreUnavailable
    ensures r.Ok? ==> Consolidated(cmd, repo.redirects, t, r.value)
  {
    t := StoreTrace([], [], [], [], []);
    var found := repo.FindAll(false);
    if found.Err? {
      return Err(found.error), t;
    }
    SelectedAllIsWhole(repo.redirects);
    var sent;
    sent, t := ConsolidateDimensions(cmd, found.value);
    return Ok(sent), t;
  }

  // ---------------------------------------------------------------------
  // What the consolidate middleware promises
  // ---------------------------------------------------------------------

  /** The placement of the i-th new definition closes a cycle in one of the first `k` store dimensions. */
  ghost predicate CyclicInSome(news: seq<RedirectDefinition>, snapshot: Snapshot, dims: seq<Dimension>, k: nat, i: nat)
    requires k <= |dims| && Within(dims, snapshot) && i < |news|
  {
    exists j | 0 <= j < k :: Cycles.Cyclic(news[i].source, news[i].target, IndexAfter(news, snapshot[dims[j]], i))
  }

  /**
   * Stale marks accumulate over the store dimensions: after `k` of them a
   * new definition is stale exactly when it was already, or when in some
   * visited dimension it would have closed a cycle among that dimension's
   * redirects as the earlier new definitions left them. Nothing else about
   * it changes.
   */
  lemma {:induction false} StaleAcrossDimensions(news: seq<RedirectDefinition>, snapshot: Snapshot, dims: seq<Dimension>, k: nat, i: nat)
    requires k <= |dims| && Within(dims, snapshot) && i < |news|
    ensures NewsThrough(news, snapshot, dims, k)[i] ==
      news[i].(stale := news[i].stale || CyclicInSome(news, snapshot, dims, k, i))
  {
    if k > 0 {
      var before := NewsThrough(news, snapshot, dims, k - 1);
      var index := snapshot[dims[k - 1]];
      forall j | 0 <= j < i
        ensures before[j].source == news[j].source && before[j].target == news[j].target
      {
        StaleAcrossDimensions(news, snapshot, dims, k - 1, j);
      }
      StaleAcrossDimensions(news, snapshot, dims, k - 1, i);
      StaleIffCyclic(before, index, |before|, i);
      IndexAfterSeesPlacementOnly(news, before, index, i);
      CyclicInSomeStep(news, snapshot, dims, k, i);
    }
  }

  /** Visiting one more store dimension adds that dimension's cycle test to CyclicInSome. */
  lemma CyclicInSomeStep(news: seq<RedirectDefinition>, snapshot: Snapshot, dims: seq<Dimension>, k: nat, i: nat)
    requires 0 < k <= |dims| && Within(dims, snapshot) && i < |news|
    ensures CyclicInSome(news, snapshot, dims, k, i) ==
      (CyclicInSome(news, snapshot, dims, k - 1, i) ||
       Cycles.Cyclic(news[i].source, news[i].target, IndexAfter(news, snapshot[dims[k - 1]], i)))
  {
    if Cycles.Cyclic(news[i].source, news[i].target, IndexAfter(news, snapshot[dims[k - 1]], i)) {
      assert dims[k - 1] == dims[k - 1];
    }
    if CyclicInSome(news, snapshot, dims, k - 1, i) {
      var j :| 0 <= j < k - 1 && Cycles.Cyclic(news[i].source, news[i].target, IndexAfter(news, snapshot[dims[j]], i));
      assert 0 <= j < k;
    }
  }

  lemma {:induction false} NewIndicesCount(refs: seq<Ref>, i: nat)
    ensures multiset(NewIndices(refs))[i] == multiset(refs)[NewDef(i)]
  {
    if refs != [] {
      var prefix := refs[..|refs| - 1];
      NewIndicesCount(prefix, i);
      assert refs == prefix + [refs[|refs| - 1]];
    }
  }

  lemma {:induction false} UptoCount(n: nat, i: nat)
    requires i < n
    ensures multiset(Upto(n))[i] == 1
  {
    var prefix := Upto(n - 1);
    assert Upto(n) == prefix + [n - 1];
    assert multiset(Upto(n)) == multiset(prefix) + multiset{n - 1};
    if i < n - 1 {
      UptoCount(n - 1, i);
    } else {
      assert i !in prefix;
    }
  }

  /**
   * Each new definition reaches the handler once per store dimension:
   * the upsert list holds it as many times as the store has dimensions.
   */
  lemma NewDefinitionOncePerDimension(cmd: CreateRedirects, snapshot: Snapshot, t: StoreTrace, sent: CreateRedirects, i: nat)
    requires Consolidated(cmd, snapshot, t, sent) && i < |cmd.redirectsToUpsert|
    ensures multiset(Flatten(t.segments))[NewDef(i)] == |snapshot|
  {
    forall k | 0 <= k < |t.segments|
      ensures multiset(t.segments[k])[NewDef(i)] == 1
    {
      var before := NewsThrough(cmd.redirectsToUpsert, snapshot, t.dims, k);
      ConsolidatedAtOf(cmd, snapshot, t, sent, k);
      NewIndicesCount(t.segments[k], i);
      UptoCount(|before|, i);
    }
    FlattenOnce(t.segments, NewDef(i));
    DistinctCard(t.dims);
  }

  /** Consolidating against a store without dimensions sends the handler nothing to upsert and nothing to delete. */
  lemma EmptyStoreSendsNothing(cmd: CreateRedirects, t: StoreTrace, sent: CreateRedirects)
    requires Consolidated(cmd, map[], t, sent)
    ensures sent.redirectsToUpsert == [] && sent.redirectsToDelete == []
  {
  }

  /**
   * A store dimension that the new state has no tree for loses every
   * automatic redirect: none of their targets is a page any more.
   */
  lemma DimensionWithoutTreeLosesAutomatic(cmd: CreateRedirects, snapshot: Snapshot, t: StoreTrace, sent: CreateRedirects, k: nat)
    requires Consolidated(cmd, snapshot, t, sent) && k < |t.dims| && Tree(cmd.newState, t.dims[k]).None?
    ensures Elements(t.doomed[k]) == set s | s in t.finals[k].index && t.finals[k].index[s].IsAutomatic()
  {
    ConsolidatedAtOf(cmd, snapshot, t, sent, k);
    NoPagesDoomsAutomatic(t.finals[k].index, t.nodeMaps[k]);
  }

  lemma NoPagesDoomsAutomatic(index: Index, nodeMap: map<string, RepoNode>)
    requires nodeMap == map[]
    ensures Doomed(index, Uris(nodeMap)) == set s | s in index && index[s].IsAutomatic()
  {
    assert Uris(nodeMap) == {};
  }

  /** What a consolidated command records about its k-th store dimension. */
  lemma ConsolidatedAtOf(cmd: CreateRedirects, snapshot: Snapshot, t: StoreTrace, sent: CreateRedirects, k: nat)
    requires Consolidated(cmd, snapshot, t, sent) && k < |t.dims|
    ensures ConsolidatedAt(NewsThrough(cmd.redirectsToUpsert, snapshot, t.dims, k), snapshot[t.dims[k]],
                           Tree(cmd.newState, t.dims[k]), t.nodeMaps[k], t.finals[k], t.segments[k], t.doomed[k])
  {
  }

  /** A dimension with a tree in the new state only makes the auto-create middleware fail. */
  lemma OneSidedDimensionFails(tree: RepoNode)
    ensures MissingTree(CreateRedirects(map[], map["de" := Some(tree)], [], []))
  {
    var cmd := CreateRedirects(map[], map["de" := Some(tree)], [], []);
    assert Tree(cmd.oldState, "de").None?;
  }

  // ---------------------------------------------------------------------
  // The composed command
  // ---------------------------------------------------------------------

  /**
   * The command as api.go composes it (ApiLayers): the publish middleware
   * runs the auto-create middleware, which runs the consolidate middleware,
   * which runs the handler; the signal is published only when all of them
   * succeeded. `sent` is the command the handler receives.
   */
  method CreateRedirectsComposed(repo: Backend, cmd: CreateRedirects, freshIds: (Dimension, nat) -> EntityID)
    returns (err: Option<string>, ghost auto: CreateRedirects, ghost sent: CreateRedirects, ghost ta: AutoTrace, ghost ts: StoreTrace)
    requires Keyed(repo.redirects)
    modifies repo
    ensures repo.failing == old(repo.failing) && Keyed(repo.redirects)
    ensures MissingTree(cmd) ==>
      err == Some(AutoCreate.NilArguments) && repo.calls == old(repo.calls) && repo.redirects == old(repo.redirects)
    ensures !MissingTree(cmd) ==> AutoCreated(cmd, freshIds, ta, auto)
    ensures !MissingTree(cmd) && FindAllOp in repo.failing ==>
      err == Some(StoreUnavailable) && repo.calls == old(repo.calls) + [Call.FindAll(false)] &&
      repo.redirects == old(repo.redirects)
    ensures !MissingTree(cmd) && FindAllOp !in repo.failing ==>
      Consolidated(auto, old(repo.redirects), ts, sent) &&
      repo.redirects == HandlerStore(old(repo.redirects), sent, repo.failing) &&
      repo.calls == old(repo.calls) + [Call.FindAll(false)] + HandlerCalls(sent, repo.failing) +
        (if HandlerError(sent, repo.failing).None? then [Call.Publish] else []) &&
      err == (if HandlerError(sent, repo.failing).Some? then HandlerError(sent, repo.failing)
              else if PublishOp in repo.failing then Some(PublishFailed) else None)
  {
    var created;
    created, ta := AutoCreateStage(cmd, freshIds);
    auto, sent, ts := cmd, cmd, StoreTrace([], [], [], [], []);
    if created.Err? {
      return Some(created.error), auto, sent, ta, ts;
    }
    var withDerived := created.value;
    auto := withDerived;
    var consolidated;
    consolidated, ts := ConsolidateStage(repo, withDerived);
    if consolidated.Err? {
      return Some(consolidated.error), auto, sent, ta, ts;
    }
    var toWrite := consolidated.value;
    sent := toWrite;
    err := HandleAndPublish(repo, toWrite);
  }

  /** The innermost handler followed by the publish middleware's own work. */
  method HandleAndPublish(repo: Backend, cmd: CreateRedirects) returns (err: Option<string>)
    requires Keyed(repo.redirects)
    modifies repo
    ensures repo.failing == old(repo.failing) && Keyed(repo.redirects)
    ensures repo.redirects == HandlerStore(old(repo.redirects), cmd, repo.failing)
    ensures repo.calls == old(repo.calls) + HandlerCalls(cmd, repo.failing) +
      (if HandlerError(cmd, repo.failing).None? then [Call.Publish] else [])
    ensures err == (if HandlerError(cmd, repo.failing).Some? then HandlerError(cmd, repo.failing)
                    else if PublishOp in repo.failing then Some(PublishFailed) else None)
  {
    HandlerKeepsKeyed(repo.redirects, cmd, repo.failing);
    err := Handle(repo, cmd);
    if err.Some? {
      return;
    }
    err := repo.Publish();
  }
}
