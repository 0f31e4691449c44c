/**
 * The collaborators the commands talk to: the redirect repository and the
 * update signal published after a successful change. Both are kept as an
 * in-memory snapshot together with the log of every call, in the order the
 * calls were made, so that contracts can say which calls a command makes.
 */
module Backend {
  import opened Wrappers
  import opened Store

  /** What FindAll returns: each dimension's redirects indexed by source. */
  type Snapshot = map<Dimension, Index>

  const StoreUnavailable: string := "store unavailable"
  const PublishFailed: string := "publish failed"

  datatype Operation = FindAllOp | FindAllByDimensionOp | FindManyOp | UpsertManyOp | DeleteManyOp | InsertOp | PublishOp

  datatype Pagination = Pagination(page: int, pageSize: int)

  datatype Sort = Sort(field: string, direction: string)

  datatype Call =
    | FindAll(onlyActive: bool)
    | FindAllByDimension(dimension: Dimension, onlyActive: bool)
    | FindMany(source: Source, dimension: Dimension, redirectType: string, onlyActive: bool, pagination: Pagination, sort: Sort)
    | UpsertMany(defs: seq<RedirectDefinition>)
    | DeleteMany(ids: seq<EntityID>)
    | Insert(def: RedirectDefinition)
    | Publish

  /** The redirects of the snapshot a read returns: all of them, or only those not stale. */
  function Selected(s: Snapshot, onlyActive: bool): Snapshot
  {
    map d | d in s :: map k | k in s[d] && (!onlyActive || !s[d][k].stale) :: s[d][k]
  }

  /** The snapshot after writing `defs` one after the other, each under its dimension and source. */
  function Upserted(s: Snapshot, defs: seq<RedirectDefinition>): Snapshot
    decreases |defs|
  {
    if defs == [] then s
    else
      var d := defs[0];
      var index := if d.dimension in s then s[d.dimension] else map[];
      Upserted(s[d.dimension := index[d.source := d]], defs[1..])
  }

  /** The snapshot without the redirects whose ids are listed. */
  function Deleted(s: Snapshot, ids: seq<EntityID>): Snapshot
  {
    map d | d in s :: map k | k in s[d] && s[d][k].id !in ids :: s[d][k]
  }

  /** What reading one dimension returns: its redirects, none for a dimension the store does not have. */
  function DimensionRead(s: Snapshot, failing: set<Operation>, dimension: Dimension, onlyActive: bool): (r: Result<Index, string>)
    ensures r.Ok? ==> forall k | k in r.value :: dimension in s && k in s[dimension] && r.value[k] == s[dimension][k]
  {
    if FindAllByDimensionOp in failing then Err(StoreUnavailable)
    else if dimension in s then Ok(Selected(s, onlyActive)[dimension])
    else Ok(map[])
  }

  /** Every dimension's index holds each redirect under its own source, as the store's reads return it. */
  predicate Keyed(s: Snapshot)
  {
    forall d | d in s :: KeyedBySource(s[d])
  }

  /** Reading everything, stale redirects included, returns the whole store. */
  lemma SelectedAllIsWhole(s: Snapshot)
    ensures Selected(s, false) == s
  {
    forall d | d in s
      ensures Selected(s, false)[d] == s[d]
    {
    }
  }

  lemma SelectedKeepsKeyed(s: Snapshot, onlyActive: bool)
    requires Keyed(s)
    ensures Keyed(Selected(s, onlyActive))
  {
  }

  /** Writes keep every redirect under its source, so reads stay keyed. */
  lemma {:induction false} UpsertedKeepsKeyed(s: Snapshot, defs: seq<RedirectDefinition>)
    requires Keyed(s)
    ensures Keyed(Upserted(s, defs))
    decreases |defs|
  {
    if defs != [] {
      var d := defs[0];
      var index := if d.dimension in s then s[d.dimension] else map[];
      assert KeyedBySource(index[d.source := d]);
      UpsertedKeepsKeyed(s[d.dimension := index[d.source := d]], defs[1..]);
    }
  }

  lemma DeletedKeepsKeyed(s: Snapshot, ids: seq<EntityID>)
    requires Keyed(s)
    ensures Keyed(Deleted(s, ids))
  {
  }

  class Backend {
    var redirects: Snapshot
    /** The operations that fail, as when the store or the message bus is unreachable. */
    var failing: set<Operation>
    var calls: seq<Call>

    constructor (redirects: Snapshot, failing: set<Operation>)
      ensures this.redirects == redirects && this.failing == failing && calls == []
    {
      this.redirects := redirects;
      this.failing := failing;
      calls := [];
    }

    method FindAll(onlyActive: bool) returns (r: Result<Snapshot, string>)
      modifies this
      ensures calls == old(calls) + [Call.FindAll(onlyActive)]
      ensures redirects == old(redirects) && failing == old(failing)
      ensures r == if FindAllOp in failing then Err(StoreUnavailable) else Ok(Selected(redirects, onlyActive))
    {
      calls := calls + [Call.FindAll(onlyActive)];
      if FindAllOp in failing {
        return Err(StoreUnavailable);
      }
      return Ok(Selected(redirects, onlyActive));
    }

    method FindAllByDimension(dimension: Dimension, onlyActive: bool) returns (r: Result<Index, string>)
      modifies this
      ensures calls == old(calls) + [Call.FindAllByDimension(dimension, onlyActive)]
      ensures redirects == old(redirects) && failing == old(failing)
      ensures r == DimensionRead(redirects, failing, dimension, onlyActive)
    {
      calls := calls + [Call.FindAllByDimension(dimension, onlyActive)];
      if FindAllByDimensionOp in failing {
        return Err(StoreUnavailable);
      }
      if dimension in redirects {
        return Ok(Selected(redirects, onlyActive)[dimension]);
      }
      return Ok(map[]);
    }

    method UpsertMany(defs: seq<RedirectDefinition>) returns (err: Option<string>)
      modifies this
      ensures calls == old(calls) + [Call.UpsertMany(defs)] && failing == old(failing)
      ensures err == if UpsertManyOp in failing then Some(StoreUnavailable) else None
      ensures redirects == if UpsertManyOp in failing then old(redirects) else Upserted(old(redirects), defs)
    {
      calls := calls + [Call.UpsertMany(defs)];
      if UpsertManyOp in failing {
        return Some(StoreUnavailable);
      }
      redirects := Upserted(redirects, defs);
      return None;
    }

    method DeleteMany(ids: seq<EntityID>) returns (err: Option<string>)
      modifies this
      ensures calls == old(calls) + [Call.DeleteMany(ids)] && failing == old(failing)
      ensures err == if DeleteManyOp in failing then Some(StoreUnavailable) else None
      ensures redirects == if DeleteManyOp in failing then old(redirects) else Deleted(old(redirects), ids)
    {
      calls := calls + [Call.DeleteMany(ids)];
      if DeleteManyOp in failing {
        return Some(StoreUnavailable);
      }
      redirects := Deleted(redirects, ids);
      return None;
    }

    method Insert(def: RedirectDefinition) returns (err: Option<string>)
      modifies this
      ensures calls == old(calls) + [Call.Insert(def)] && failing == old(failing)
      ensures err == if InsertOp in failing then Some(StoreUnavailable) else None
      ensures redirects == if InsertOp in failing then old(redirects) else Upserted(old(redirects), [def])
    {
      calls := calls + [Call.Insert(def)];
      if InsertOp in failing {
        return Some(StoreUnavailable);
      }
      redirects := Upserted(redirects, [def]);
      return None;
    }

    /** The update signal: tells the sites to reload their redirects. */
    method Publish() returns (err: Option<string>)
      modifies this
      ensures calls == old(calls) + [Call.Publish]
      ensures redirects == old(redirects) && failing == old(failing)
      ensures err == if PublishOp in failing then Some(PublishFailed) else None
    {
      calls := calls + [Call.Publish];
      if PublishOp in failing {
        return Some(PublishFailed);
      }
      return None;
    }
  }
}
