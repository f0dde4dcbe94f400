/**
 * The endpoint list the application keeps in memory: `_upsert_endpoint`,
 * which saves a payload under its name, and the `pop` in `delete_selected`.
 */
module Store {
  import opened Wrappers
  import opened Endpoints

  /** Index of the first endpoint whose name is `name`, or `|eps|` when there is none. */
  function FirstNamed(eps: seq<Endpoint>, name: string): (i: nat)
    ensures i <= |eps|
    ensures i < |eps| ==> eps[i].name == Some(name)
    ensures forall j :: 0 <= j < i ==> eps[j].name != Some(name)
  {
    if eps == [] then 0
    else if eps[0].name == Some(name) then 0
    else 1 + FirstNamed(eps[1..], name)
  }

  /** The list after `_upsert_endpoint(payload)` and the index it returns. */
  function Upserted(eps: seq<Endpoint>, payload: Endpoint): (r: (seq<Endpoint>, nat))
    requires payload.name.Some?
    ensures r.1 < |r.0| && r.0[r.1] == payload
    ensures r.1 < |eps| ==> eps[r.1].name == payload.name && r.0 == eps[r.1 := payload]
    ensures forall j :: 0 <= j < r.1 && j < |eps| ==> eps[j].name != payload.name
    ensures r.1 == |eps| <==> forall j :: 0 <= j < |eps| ==> eps[j].name != payload.name
    ensures r.1 == |eps| ==> r.0 == eps + [payload]
  {
    var i := FirstNamed(eps, payload.name.value);
    if i < |eps| then (eps[i := payload], i) else (eps + [payload], |eps|)
  }

  /** The list after `pop(idx)` and the removed entry; an index past the end leaves the list as it is. */
  function Deleted(eps: seq<Endpoint>, idx: nat): (r: (seq<Endpoint>, Option<Endpoint>))
    ensures idx < |eps| ==> r.1 == Some(eps[idx]) && |r.0| + 1 == |eps|
    ensures idx < |eps| ==> forall j :: 0 <= j < |r.0| ==> r.0[j] == (if j < idx then eps[j] else eps[j + 1])
    ensures idx >= |eps| ==> r == (eps, None)
  {
    if idx < |eps| then (eps[..idx] + eps[idx + 1..], Some(eps[idx])) else (eps, None)
  }

  /** No two named entries share a name (entries without a name may repeat). */
  predicate UniqueNames(eps: seq<Endpoint>) {
    forall i, j :: 0 <= i < j < |eps| && eps[i].name.Some? ==> eps[i].name != eps[j].name
  }

  /** Saving through `_upsert_endpoint` never creates a second entry with the same name. */
  lemma UpsertKeepsUniqueNames(eps: seq<Endpoint>, payload: Endpoint)
    requires payload.name.Some? && UniqueNames(eps)
    ensures UniqueNames(Upserted(eps, payload).0)
  {
    var (eps', k) := Upserted(eps, payload);
    forall i, j | 0 <= i < j < |eps'| && eps'[i].name.Some? ensures eps'[i].name != eps'[j].name {
      if i == k {
        assert j >= |eps| || eps[j].name != payload.name;
      } else if j == k {
        assert eps'[i] == eps[i];
      } else {
        assert eps'[i] == eps[i] && eps'[j] == eps[j];
      }
    }
  }

  /** After an upsert, looking the name up again finds the returned index. */
  lemma UpsertThenFind(eps: seq<Endpoint>, payload: Endpoint)
    requires payload.name.Some?
    ensures FirstNamed(Upserted(eps, payload).0, payload.name.value) == Upserted(eps, payload).1
  {
  }

  /** Saving the same payload twice is saving it once. */
  lemma UpsertIdempotent(eps: seq<Endpoint>, payload: Endpoint)
    requires payload.name.Some?
    ensures Upserted(Upserted(eps, payload).0, payload) == Upserted(eps, payload)
  {
    var (eps', k) := Upserted(eps, payload);
    UpsertThenFind(eps, payload);
    assert eps'[k := payload] == eps';
  }

  /** Removing the entry an upsert of a new name appended gives back the old list. */
  lemma DeleteUndoesAppend(eps: seq<Endpoint>, payload: Endpoint)
    requires payload.name.Some?
    requires forall j :: 0 <= j < |eps| ==> eps[j].name != payload.name
    ensures Deleted(Upserted(eps, payload).0, Upserted(eps, payload).1) == (eps, Some(payload))
  {
    var eps' := eps + [payload];
    assert Upserted(eps, payload) == (eps', |eps|);
    assert eps'[..|eps|] + eps'[|eps| + 1..] == eps;
    assert eps'[|eps|] == payload;
  }

  /** Removing an entry keeps the names unique. */
  lemma DeleteKeepsUniqueNames(eps: seq<Endpoint>, idx: nat)
    requires UniqueNames(eps)
    ensures UniqueNames(Deleted(eps, idx).0)
  {
    if idx < |eps| {
      var eps' := Deleted(eps, idx).0;
      forall i, j | 0 <= i < j < |eps'| && eps'[i].name.Some? ensures eps'[i].name != eps'[j].name {
        var i' := if i < idx then i else i + 1;
        var j' := if j < idx then j else j + 1;
        assert eps'[i] == eps[i'] && eps'[j] == eps[j'];
      }
    }
  }

  /** The in-memory endpoint list, `self.endpoints`. */
  class EndpointStore {
    var endpoints: seq<Endpoint>

    /** The list as read from the endpoints file. */
    constructor (loaded: seq<Endpoint>)
      ensures endpoints == loaded
    {
      endpoints := loaded;
    }

    /** `_upsert_endpoint`: replace the first entry with the payload's name, or append the payload. */
    method Upsert(payload: Endpoint) returns (idx: nat)
      requires payload.name.Some?
      modifies this
      ensures (endpoints, idx) == Upserted(old(endpoints), payload)
    {
      var i := 0;
      while i < |endpoints|
        invariant 0 <= i <= |endpoints|
        invariant endpoints == old(endpoints)
        invariant forall j :: 0 <= j < i ==> endpoints[j].name != payload.name
      {
        if endpoints[i].name == payload.name {
          endpoints := endpoints[i := payload];
          return i;
        }
        i := i + 1;
      }
      endpoints := endpoints + [payload];
      return |endpoints| - 1;
    }

    /** `removed = self.endpoints.pop(idx)`, with the `IndexError` of an index past the end swallowed. */
    method Delete(idx: nat) returns (removed: Option<Endpoint>)
      modifies this
      ensures (endpoints, removed) == Deleted(old(endpoints), idx)
    {
      if idx < |endpoints| {
        removed := Some(endpoints[idx]);
        endpoints := endpoints[..idx] + endpoints[idx + 1..];
      } else {
        removed := None;
      }
    }
  }
}
