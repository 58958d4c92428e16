/** Updating and moving stored address book entries, over a store any call of
    which may fail. */
module EntryStore {
  import opened Bytes

  datatype JumpHost = JumpHost(
    hostname: string,
    port: nat,
    username: string,
    password: Option<string>,
    privateKey: Option<string>,
    hostKey: Option<string>)

  /** A stored entry; `settings` stands for the fields an update just replaces. */
  datatype Entry = Entry(
    password: Option<string>,
    privateKey: Option<string>,
    containerPassword: Option<string>,
    proxmoxTokenSecret: Option<string>,
    externalId: Option<string>,
    jumpHosts: Option<seq<JumpHost>>,
    jumpPassword: Option<string>,
    jumpPrivateKey: Option<string>,
    settings: map<string, string>)

  datatype Key = Key(scope: string, folder: string, name: string)

  type Entries = map<Key, Entry>

  // ---- merging an update ----

  function Or<T>(a: Option<T>, b: Option<T>): Option<T> { if a.Some? then a else b }

  function MergeHop(hop: JumpHost, stored: Option<JumpHost>): JumpHost {
    if stored == None then hop
    else
      hop.(password := Or(hop.password, stored.value.password),
           privateKey := Or(hop.privateKey, stored.value.privateKey),
           hostKey := Or(hop.hostKey, stored.value.hostKey))
  }

  /** `merge_entry_update`. */
  function Merge(data: Entry, existing: Entry): Entry {
    var hops :=
      if data.jumpHosts == None then None
      else
        var stored := if existing.jumpHosts == None then [] else existing.jumpHosts.value;
        var carried := data.jumpHosts.value;
        Some(seq(|carried|, i requires 0 <= i < |carried| =>
          MergeHop(carried[i], if i < |stored| then Some(stored[i]) else None)));
    data.(password := Or(data.password, existing.password),
          privateKey := Or(data.privateKey, existing.privateKey),
          containerPassword := Or(data.containerPassword, existing.containerPassword),
          proxmoxTokenSecret := Or(data.proxmoxTokenSecret, existing.proxmoxTokenSecret),
          externalId := Or(data.externalId, existing.externalId),
          jumpHosts := hops,
          jumpPassword := None,
          jumpPrivateKey := None)
  }

  /** The value carried, or what was stored if none was. */
  predicate Kept<T(==)>(carried: Option<T>, stored: Option<T>, result: Option<T>) {
    (carried.Some? ==> result == carried) && (carried.None? ==> result == stored)
  }

  /** Every secret the update omits is kept. */
  predicate SecretsKept(data: Entry, stored: Entry, result: Entry) {
    && Kept(data.password, stored.password, result.password)
    && Kept(data.privateKey, stored.privateKey, result.privateKey)
    && Kept(data.containerPassword, stored.containerPassword, result.containerPassword)
    && Kept(data.proxmoxTokenSecret, stored.proxmoxTokenSecret, result.proxmoxTokenSecret)
    && Kept(data.externalId, stored.externalId, result.externalId)
    && result.settings == data.settings
  }

  /** Hops are the update's own, with the secrets of the stored hop at the same
      index where it omits them. */
  predicate HopSecretsKept(data: Entry, stored: Entry, result: Entry) {
    data.jumpHosts.Some? ==>
      && result.jumpHosts.Some? && |result.jumpHosts.value| == |data.jumpHosts.value|
      && forall i :: 0 <= i < |data.jumpHosts.value| ==>
        var d, r := data.jumpHosts.value[i], result.jumpHosts.value[i];
        && r.hostname == d.hostname && r.port == d.port && r.username == d.username
        && (stored.jumpHosts.Some? && i < |stored.jumpHosts.value| ==>
          var s := stored.jumpHosts.value[i];
          && Kept(d.password, s.password, r.password)
          && Kept(d.privateKey, s.privateKey, r.privateKey)
          && Kept(d.hostKey, s.hostKey, r.hostKey))
        && (stored.jumpHosts.None? || i >= |stored.jumpHosts.value| ==> r == d)
  }

  /** Merging keeps every omitted top-level secret, and hop secrets by index
      exactly when the update carries a hop list: without one the stored list
      is dropped. */
  lemma MergeKeepsSecrets(data: Entry, stored: Entry)
    ensures var m := Merge(data, stored);
            && SecretsKept(data, stored, m) && HopSecretsKept(data, stored, m)
            && (data.jumpHosts == None ==> m.jumpHosts == None)
            && m.jumpPassword == None && m.jumpPrivateKey == None
  {
  }

  /** Applying the same update again changes nothing, so a sync settles. */
  lemma MergeIsIdempotent(data: Entry, stored: Entry)
    ensures Merge(data, Merge(data, stored)) == Merge(data, stored)
  {
    var once := Merge(data, stored);
    var twice := Merge(data, once);
    if data.jumpHosts.Some? {
      assert once.jumpHosts.value == twice.jumpHosts.value;
    }
  }

  // ---- ids ----

  /** Other entries of the scope that carry this id. */
  ghost function Holders(entries: Entries, target: Key, id: string): set<Key> {
    set k | k in entries && k.scope == target.scope && k != target && entries[k].externalId == Some(id)
  }

  /** No id is stored twice in the scope. */
  ghost predicate UniqueIds(entries: Entries, scope: string) {
    forall j, k ::
      (j in entries && k in entries && j.scope == k.scope == scope && j != k && entries[j].externalId.Some?)
      ==> entries[j].externalId != entries[k].externalId
  }

  // ---- outcomes of an upsert with move=true ----

  datatype Status = BadRequest | NotFoundStatus | Conflict | BadGateway

  datatype UpsertResult =
    | Done(movedFrom: Option<Key>, entry: Entry)
    | Rejected(status: Status)
    | MoveIncomplete(source: Key)
    | UpdateFailed(movedFrom: Option<Key>)

  /** The one other entry with the id, free to come to an empty target. */
  ghost predicate Movable(entries: Entries, target: Key, id: string, source: Key) {
    Holders(entries, target, id) == {source} && target !in entries
  }

  /** The id may be updated in place: it is already here, or nowhere else. */
  ghost predicate InPlace(entries: Entries, target: Key, id: string) {
    || (target in entries && entries[target].externalId == Some(id))
    || (Holders(entries, target, id) == {} && (target in entries ==> entries[target].externalId == None))
  }

  /** The id cannot come to the target: another device is there, or an entry
      without an id while the id is stored elsewhere, or it is stored on several. */
  ghost predicate Clash(entries: Entries, target: Key, id: string) {
    || (target in entries && entries[target].externalId.Some? && entries[target].externalId != Some(id))
    || (target in entries && entries[target].externalId == None && Holders(entries, target, id) != {})
    || (target !in entries && exists j, k ::
          j in Holders(entries, target, id) && k in Holders(entries, target, id) && j != k)
  }

  /** Exactly one of three things can happen to an id: it is updated in place, it
      is moved, or there is a clash. */
  lemma ClashIsTheRest(entries: Entries, target: Key, id: string)
    ensures Clash(entries, target, id)
            <==> !InPlace(entries, target, id) && forall s :: !Movable(entries, target, id, s)
  {
    var h := Holders(entries, target, id);
    if target !in entries && h != {} {
      var j :| j in h;
      if h == {j} {
        assert Movable(entries, target, id, j);
      } else {
        var k :| k in h && k != j;
      }
    }
  }

  function Moved(entries: Entries, source: Key, target: Key): Entries
    requires source in entries
  {
    (entries - {source})[target := entries[source]]
  }

  ghost function Updated(entries: Entries, target: Key, data: Entry): Entry {
    if target in entries then Merge(data, entries[target]) else data
  }

  /** What the store may hold after an upsert, by result. */
  ghost predicate Outcome(before: Entries, after: Entries, target: Key, data: Entry, r: UpsertResult) {
    match r
    case Rejected(_) => after == before
    case MoveIncomplete(source) =>
      && data.externalId.Some? && Movable(before, target, data.externalId.value, source)
      && source in before && after == before[target := before[source]]
    case UpdateFailed(None) => after == before
    case UpdateFailed(Some(source)) =>
      && data.externalId.Some? && Movable(before, target, data.externalId.value, source)
      && source in before && after == Moved(before, source, target)
    case Done(None, e) =>
      && data.externalId.Some? && InPlace(before, target, data.externalId.value)
      && e == Updated(before, target, data) && after == before[target := e]
    case Done(Some(source), e) =>
      && data.externalId.Some? && Movable(before, target, data.externalId.value, source)
      && source in before && e == Merge(data, before[source])
      && after == Moved(before, source, target)[target := e]
  }

  lemma NoOtherHolder(before: Entries, after: Entries, target: Key, data: Entry, r: UpsertResult)
    requires Outcome(before, after, target, data, r) && r.Done? && UniqueIds(before, target.scope)
    ensures Holders(after, target, data.externalId.value) == {}
  {
    hide Merge;
    var id := data.externalId.value;
    forall k | k in after && k.scope == target.scope && k != target
      ensures after[k].externalId != Some(id)
    {
      assert k in before && after[k] == before[k];
      if target !in before || before[target].externalId != Some(id) {
        assert k !in Holders(before, target, id);
      }
    }
  }

  /** A rejected upsert changed nothing; an incomplete move left the original
      and an identical copy; a completed one, from a scope with unique ids,
      leaves the id on exactly one entry, the requested one, with every omitted
      secret of the entry that carried it, and nothing else touched. */
  lemma UpsertGuarantees(before: Entries, after: Entries, target: Key, data: Entry, r: UpsertResult)
    requires Outcome(before, after, target, data, r)
    ensures r.Rejected? ==> after == before
    ensures r.MoveIncomplete? ==>
              && r.source != target && target !in before && r.source in before
              && target in after && r.source in after
              && after[r.source] == after[target] == before[r.source]
              && forall k :: k in before ==> k in after && after[k] == before[k]
    ensures r.Done? ==>
              && data.externalId.Some? && target in after && after[target] == r.entry
              && r.entry.externalId == data.externalId
              && (UniqueIds(before, target.scope) ==> Holders(after, target, data.externalId.value) == {})
              && var source := if r.movedFrom.Some? then r.movedFrom.value else target;
              && (source in before ==>
                SecretsKept(data, before[source], r.entry) && HopSecretsKept(data, before[source], r.entry))
              && (source !in before ==> r.entry == data)
              && forall k :: k != target && k != source ==>
                (k in after <==> k in before) && (k in before ==> after[k] == before[k])
  {
    if r.MoveIncomplete? {
      assert r.source in Holders(before, target, data.externalId.value);
    }
    if r.Done? {
      var id := data.externalId.value;
      if r.movedFrom.Some? {
        MergeKeepsSecrets(data, before[r.movedFrom.value]);
        assert r.movedFrom.value in Holders(before, target, id);
      } else if target in before {
        MergeKeepsSecrets(data, before[target]);
      }
      if UniqueIds(before, target.scope) {
        NoOtherHolder(before, after, target, data, r);
      }
    }
  }

  lemma MoveKeepsIdsUnique(before: Entries, source: Key, target: Key, j: Key, k: Key)
    requires source in before && target !in before && source.scope == target.scope && UniqueIds(before, target.scope)
    requires var after := Moved(before, source, target);
             j in after && k in after && j.scope == k.scope == target.scope && j != k && after[j].externalId.Some?
    ensures var after := Moved(before, source, target); after[j].externalId != after[k].externalId
  {
    var j' := if j == target then source else j;
    var k' := if k == target then source else k;
    assert j' in before && k' in before && j' != k';
  }

  /** Unique ids stay unique through an outcome if and only if it is not an
      incomplete move. */
  lemma UpsertKeepsIdsUnique(before: Entries, after: Entries, target: Key, data: Entry, r: UpsertResult)
    requires Outcome(before, after, target, data, r) && UniqueIds(before, target.scope)
    ensures UniqueIds(after, target.scope) <==> !r.MoveIncomplete?
  {
    hide Merge;
    if r.MoveIncomplete? {
      UpsertGuarantees(before, after, target, data, r);
      assert r.source in Holders(before, target, data.externalId.value);
    } else {
      if r.Done? {
        UpsertGuarantees(before, after, target, data, r);
      }
      forall j, k | j in after && k in after && j.scope == k.scope == target.scope && j != k
                    && after[j].externalId.Some?
        ensures after[j].externalId != after[k].externalId
      {
        if r.Done? && (j == target || k == target) {
          var other := if j == target then k else j;
          assert other !in Holders(after, target, data.externalId.value);
        } else if r.UpdateFailed? && r.movedFrom.Some? {
          MoveKeepsIdsUnique(before, r.movedFrom.value, target, j, k);
        }
      }
    }
  }

  /** One request of a sync run and how it went. */
  datatype Request = Request(target: Key, data: Entry, result: UpsertResult)

  /** A run of requests that takes one store to another. */
  ghost predicate SyncRun(stores: seq<Entries>, requests: seq<Request>) {
    && |stores| == |requests| + 1
    && forall i :: 0 <= i < |requests| ==>
      Outcome(stores[i], stores[i + 1], requests[i].target, requests[i].data, requests[i].result)
  }

  /** A duplicated id stays duplicated, whatever the outcome: nothing but an
      edit outside an upsert removes it. */
  lemma DuplicateStays(before: Entries, after: Entries, target: Key, data: Entry, r: UpsertResult)
    requires Outcome(before, after, target, data, r) && !UniqueIds(before, target.scope)
    ensures !UniqueIds(after, target.scope)
  {
    hide Merge;
    var j, k :| j in before && k in before && j.scope == k.scope == target.scope && j != k
                && before[j].externalId.Some? && before[j].externalId == before[k].externalId;
    assert before[j].externalId == data.externalId ==>
        (j != target ==> j in Holders(before, target, data.externalId.value))
        && (k != target ==> k in Holders(before, target, data.externalId.value));
    if r.Done? && r.movedFrom == None && target in before {
      MergeKeepsSecrets(data, before[target]);
    }
    if r.Done? || (r.UpdateFailed? && r.movedFrom.Some?) || r.MoveIncomplete? {
      assert j in after && k in after && after[j].externalId == before[j].externalId == after[k].externalId;
    }
  }

  /** Over any run of requests in one scope, whatever fails, ids are unique in
      the end if and only if no move was reported incomplete. */
  lemma {:induction false} SyncRunKeepsIdsUnique(stores: seq<Entries>, requests: seq<Request>, scope: string)
    requires SyncRun(stores, requests) && UniqueIds(stores[0], scope)
    requires forall i :: 0 <= i < |requests| ==> requests[i].target.scope == scope
    ensures UniqueIds(stores[|requests|], scope)
            <==> forall i :: 0 <= i < |requests| ==> !requests[i].result.MoveIncomplete?
  {
    hide UniqueIds, Outcome;
    if requests != [] {
      var n := |requests| - 1;
      assert stores[..n + 1][n] == stores[n] && stores[..n + 1][0] == stores[0];
      SyncRunKeepsIdsUnique(stores[..n + 1], requests[..n], scope);
      assert forall i :: 0 <= i < n ==> requests[..n][i] == requests[i];
      var q := requests[n];
      if UniqueIds(stores[n], scope) {
        UpsertKeepsIdsUnique(stores[n], stores[n + 1], q.target, q.data, q.result);
      } else {
        DuplicateStays(stores[n], stores[n + 1], q.target, q.data, q.result);
      }
    }
  }

  /** After an incomplete move the id is on two entries. Repeating the request
      finds the id in place, so it moves nothing, and however it ends the other
      copy stays. */
  lemma RetryLeavesTheDuplicate(before: Entries, between: Entries, after: Entries, target: Key, data: Entry,
                                first: UpsertResult, second: UpsertResult)
    requires Outcome(before, between, target, data, first) && first.MoveIncomplete?
    requires Outcome(between, after, target, data, second)
    ensures data.externalId.Some? && InPlace(between, target, data.externalId.value)
    ensures !second.MoveIncomplete? && (second.Done? ==> second.movedFrom == None)
    ensures first.source in after && first.source != target && after[first.source].externalId == data.externalId
  {
    hide Merge;
    UpsertGuarantees(before, between, target, data, first);
    assert first.source in Holders(before, target, data.externalId.value);
  }

  // ---- the store ----

  datatype Fault = BadName | Backend

  datatype VaultError = NotFound | Failed(fault: Fault)

  datatype Result<T> = Ok(value: T) | Err(error: VaultError)

  /** `ab_vault_error`. */
  function StatusOf(e: VaultError): Status {
    match e
    case NotFound => NotFoundStatus
    case Failed(BadName) => BadRequest
    case Failed(Backend) => BadGateway
  }

  predicate Distinct<T(==)>(xs: seq<T>) { forall i, j :: 0 <= i < j < |xs| ==> xs[i] != xs[j] }

  /** A set listed in whatever order the backend gives it. */
  method SomeOrder<T(==)>(xs: set<T>) returns (out: seq<T>)
    ensures forall x :: x in out <==> x in xs
    ensures Distinct(out)
  {
    var left := xs;
    out := [];
    while left != {}
      invariant forall x :: x in out || x in left <==> x in xs
      invariant forall x :: x in out ==> x !in left
      invariant Distinct(out)
      decreases left
    {
      var x :| x in left;
      left := left - {x};
      out := out + [x];
    }
  }

  /** Outcome of bringing the entry with an id to the target. */
  datatype Relocation = Located(movedFrom: Option<Key>) | Refused(status: Status) | Incomplete(source: Key)

  datatype MoveResult = MoveDone | CopyRefused(status: Status) | CopiedNotRemoved

  lemma HoldersAsSet(entries: Entries, target: Key, id: string, found: seq<Key>)
    requires forall k :: k in found <==> k in Holders(entries, target, id)
    requires Distinct(found)
    ensures |found| == 0 ==> Holders(entries, target, id) == {}
    ensures |found| == 1 ==> Holders(entries, target, id) == {found[0]}
    ensures |found| > 1 ==> Holders(entries, target, id) != {} && forall s :: Holders(entries, target, id) != {s}
  {
    var h := Holders(entries, target, id);
    if |found| == 1 {
      assert forall k :: k in h ==> k == found[0];
      assert found[0] in h;
    } else if |found| > 1 {
      assert found[0] in h && found[1] in h;
    }
  }

  /** An entry store whose call number `n` fails when `faults(n)` says so; a
      failed call changes nothing. */
  class Store {
    var entries: Entries
    var calls: nat
    const faults: nat -> Option<Fault>

    constructor (entries: Entries, faults: nat -> Option<Fault>)
      ensures this.entries == entries && this.faults == faults && calls == 0
    {
      this.entries, this.faults, calls := entries, faults, 0;
    }

    /** Some call from number `from` on and before `to` failed this way. */
    ghost predicate FaultBetween(from: nat, to: nat, fault: Fault) {
      exists n :: from <= n < to && faults(n) == Some(fault)
    }

    /** The status an error is reported with is that of a fault of these calls: a
        bad name the request's, anything else the backend's. */
    ghost predicate FaultStatus(from: nat, to: nat, status: Status) {
      || (status == BadRequest && FaultBetween(from, to, BadName))
      || (status == BadGateway && FaultBetween(from, to, Backend))
    }

    ghost predicate NeverFails() { forall n :: faults(n) == None }

    method GetEntry(k: Key) returns (r: Result<Entry>)
      modifies this`calls
      ensures calls == old(calls) + 1 && (r.Err? && r.error.Failed? ==> faults(old(calls)) == Some(r.error.fault))
      ensures r.Ok? ==> k in entries && r.value == entries[k]
      ensures r == Err(NotFound) ==> k !in entries
      ensures NeverFails() ==> r == if k in entries then Ok(entries[k]) else Err(NotFound)
    {
      var fault := faults(calls);
      calls := calls + 1;
      if fault.Some? { return Err(Failed(fault.value)); }
      if k !in entries { return Err(NotFound); }
      return Ok(entries[k]);
    }

    method PutEntry(k: Key, data: Entry) returns (r: Result<bool>)
      modifies this`calls, this`entries
      ensures calls == old(calls) + 1 && (r.Err? && r.error.Failed? ==> faults(old(calls)) == Some(r.error.fault))
      ensures r.Ok? ==> entries == old(entries)[k := data]
      ensures r.Err? ==> entries == old(entries)
      ensures NeverFails() ==> r.Ok?
      ensures r.Err? ==> r.error.Failed?
    {
      var fault := faults(calls);
      calls := calls + 1;
      if fault.Some? { return Err(Failed(fault.value)); }
      entries := entries[k := data];
      return Ok(true);
    }

    method PutEntryIfAbsent(k: Key, data: Entry) returns (r: Result<bool>)
      modifies this`calls, this`entries
      ensures calls == old(calls) + 1 && (r.Err? && r.error.Failed? ==> faults(old(calls)) == Some(r.error.fault))
      ensures r == Ok(true) ==> k !in old(entries) && entries == old(entries)[k := data]
      ensures r != Ok(true) ==> entries == old(entries)
      ensures r == Ok(false) ==> k in entries
      ensures NeverFails() ==> r == Ok(k !in old(entries))
      ensures r.Err? ==> r.error.Failed?
    {
      var fault := faults(calls);
      calls := calls + 1;
      if fault.Some? { return Err(Failed(fault.value)); }
      if k in entries { return Ok(false); }
      entries := entries[k := data];
      return Ok(true);
    }

    method DeleteEntry(k: Key) returns (r: Result<bool>)
      modifies this`calls, this`entries
      ensures calls == old(calls) + 1 && (r.Err? && r.error.Failed? ==> faults(old(calls)) == Some(r.error.fault))
      ensures r.Ok? ==> entries == old(entries) - {k}
      ensures r.Err? ==> entries == old(entries)
      ensures NeverFails() ==> r.Ok?
      ensures r.Err? ==> r.error.Failed?
    {
      var fault := faults(calls);
      calls := calls + 1;
      if fault.Some? { return Err(Failed(fault.value)); }
      entries := entries - {k};
      return Ok(true);
    }

    /** `folder_paths`: the folders of a scope, each once, in any order. */
    method FolderPaths(scope: string) returns (r: Result<seq<string>>)
      modifies this`calls
      ensures calls == old(calls) + 1 && (r.Err? && r.error.Failed? ==> faults(old(calls)) == Some(r.error.fault))
      ensures r.Ok? ==> forall k :: k in entries && k.scope == scope ==> k.folder in r.value
      ensures r.Ok? ==> Distinct(r.value)
      ensures NeverFails() ==> r.Ok?
      ensures r.Err? ==> r.error.Failed?
    {
      var fault := faults(calls);
      calls := calls + 1;
      if fault.Some? { return Err(Failed(fault.value)); }
      var out := SomeOrder(set k | k in entries.Keys && k.scope == scope :: k.folder);
      return Ok(out);
    }

    /** `entry_names`: the names in one folder, each once, in any order. */
    method EntryNames(scope: string, folder: string) returns (r: Result<seq<string>>)
      modifies this`calls
      ensures calls == old(calls) + 1 && (r.Err? && r.error.Failed? ==> faults(old(calls)) == Some(r.error.fault))
      ensures r.Ok? ==> forall n :: n in r.value <==> Key(scope, folder, n) in entries
      ensures r.Ok? ==> Distinct(r.value)
      ensures NeverFails() ==> r.Ok?
      ensures r.Err? ==> r.error.Failed?
    {
      var fault := faults(calls);
      calls := calls + 1;
      if fault.Some? { return Err(Failed(fault.value)); }
      var names := set k | k in entries.Keys && k.scope == scope && k.folder == folder :: k.name;
      var out := SomeOrder(names);
      assert forall n :: n in names <==> Key(scope, folder, n) in entries;
      return Ok(out);
    }

    /** `move_stored_entry`: copy to a target that must not exist, then remove
        the original. */
    method MoveStoredEntry(source: Key, target: Key) returns (r: MoveResult)
      modifies this`calls, this`entries
      ensures r.CopyRefused? ==> entries == old(entries)
      ensures r == CopiedNotRemoved ==>
                && source in old(entries) && target !in old(entries)
                && entries == old(entries)[target := old(entries)[source]]
      ensures r == MoveDone ==>
                source in old(entries) && target !in old(entries) && entries == Moved(old(entries), source, target)
      ensures NeverFails() ==> (r == MoveDone <==> source in old(entries) && target !in old(entries))
      ensures calls >= old(calls)
      ensures r.CopyRefused? ==>
                || FaultStatus(old(calls), calls, r.status)
                || (r.status == NotFoundStatus && source !in entries)
                || (r.status == Conflict && source in entries && target in entries)
    {
      var full := GetEntry(source);
      if full.Err? { return CopyRefused(StatusOf(full.error)); }
      var copied := PutEntryIfAbsent(target, full.value);
      if copied.Err? { return CopyRefused(StatusOf(copied.error)); }
      if !copied.value { return CopyRefused(Conflict); }
      var removed := DeleteEntry(source);
      if removed.Err? { return CopiedNotRemoved; }
      assert entries == Moved(old(entries), source, target);
      return MoveDone;
    }

    /** The scan of `relocate_by_external_id`: every other entry with the id. */
    method FindHolders(target: Key, id: string) returns (r: Result<seq<Key>>)
      modifies this`calls
      ensures r.Ok? ==> (forall k :: k in r.value <==> k in Holders(entries, target, id)) && Distinct(r.value)
      ensures NeverFails() ==> r.Ok?
      ensures calls >= old(calls)
      ensures r.Err? ==> r.error.Failed? && FaultBetween(old(calls), calls, r.error.fault)
    {
      var listed := FolderPaths(target.scope);
      if listed.Err? { return Err(listed.error); }
      var folders := listed.value;
      var found: seq<Key> := [];
      for i := 0 to |folders|
        invariant calls >= old(calls)
        invariant forall k :: k in found <==> k in Holders(entries, target, id) && k.folder in folders[..i]
        invariant Distinct(found)
      {
        var folder := folders[i];
        assert folder !in folders[..i];
        assert forall f :: f in folders[..i + 1] <==> f in folders[..i] || f == folder;
        var inside := EntryNames(target.scope, folder);
        if inside.Err? { return Err(inside.error); }
        var names := inside.value;
        for j := 0 to |names|
          invariant calls >= old(calls)
          invariant forall k :: k in found <==>
            && k in Holders(entries, target, id)
            && (k.folder in folders[..i] || (k.folder == folder && k.name in names[..j]))
          invariant Distinct(found)
        {
          var key := Key(target.scope, folder, names[j]);
          assert names[j] !in names[..j];
          assert forall n :: n in names[..j + 1] <==> n in names[..j] || n == names[j];
          if key != target {
            var stored := GetEntry(key);
            if stored.Ok? {
              if stored.value.externalId == Some(id) {
                found := found + [key];
              }
            } else if stored.error != NotFound {
              return Err(stored.error);
            }
          }
        }
        assert names[..|names|] == names;
      }
      assert folders[..|folders|] == folders;
      return Ok(found);
    }

    /** `relocate_by_external_id`. */
    method Relocate(target: Key, id: string) returns (r: Relocation)
      modifies this`calls, this`entries
      ensures r.Refused? ==> entries == old(entries)
      ensures r.Incomplete? ==>
                && Movable(old(entries), target, id, r.source)
                && r.source in old(entries) && entries == old(entries)[target := old(entries)[r.source]]
      ensures r == Located(None) ==> entries == old(entries) && InPlace(entries, target, id)
      ensures r.Located? && r.movedFrom.Some? ==>
                && Movable(old(entries), target, id, r.movedFrom.value)
                && r.movedFrom.value in old(entries) && entries == Moved(old(entries), r.movedFrom.value, target)
      ensures NeverFails() ==>
                (r.Located? <==> InPlace(old(entries), target, id) || exists s :: Movable(old(entries), target, id, s))
      ensures calls >= old(calls)
      ensures r.Refused? ==>
                FaultStatus(old(calls), calls, r.status) || (r.status == Conflict && Clash(entries, target, id))
    {
      var here := GetEntry(target);
      var adopting := false;
      if here.Ok? {
        if here.value.externalId == Some(id) { return Located(None); }
        if here.value.externalId.Some? { return Refused(Conflict); }
        adopting := true;
      } else if here.error != NotFound {
        return Refused(StatusOf(here.error));
      }
      var found := FindHolders(target, id);
      if found.Err? { return Refused(StatusOf(found.error)); }
      var holders := found.value;
      HoldersAsSet(entries, target, id, holders);
      if adopting && holders != [] { return Refused(Conflict); }
      if |holders| == 0 { return Located(None); }
      if |holders| > 1 {
        assert holders[0] in Holders(entries, target, id) && holders[1] in Holders(entries, target, id);
        return Refused(Conflict);
      }
      var source := holders[0];
      assert source in Holders(entries, target, id);
      assert target !in entries ==> Movable(entries, target, id, source);
      var moved := MoveStoredEntry(source, target);
      match moved
      case MoveDone => return Located(Some(source));
      case CopyRefused(status) => return Refused(status);
      case CopiedNotRemoved => return Incomplete(source);
    }

    /** `upsert_entry` with `move=true`. */
    method UpsertEntry(target: Key, data: Entry) returns (r: UpsertResult)
      modifies this`calls, this`entries
      ensures Outcome(old(entries), entries, target, data, r)
      ensures NeverFails() ==>
                (r.Done? <==>
                  && data.externalId.Some? && data.externalId.value != ""
                  && (InPlace(old(entries), target, data.externalId.value)
                      || exists s :: Movable(old(entries), target, data.externalId.value, s)))
      ensures r.Rejected? ==>
                || (r.status == BadRequest && (data.externalId == None || data.externalId.value == ""))
                || FaultStatus(old(calls), calls, r.status)
                || (r.status == Conflict && data.externalId.Some? && Clash(entries, target, data.externalId.value))
    {
      hide Merge;
      if data.externalId == None || data.externalId.value == "" { return Rejected(BadRequest); }
      var located := Relocate(target, data.externalId.value);
      if located.Refused? { return Rejected(located.status); }
      if located.Incomplete? { return MoveIncomplete(located.source); }
      var movedFrom := located.movedFrom;
      var existing := GetEntry(target);
      var merged := data;
      if existing.Ok? {
        merged := Merge(data, existing.value);
      } else if existing.error != NotFound {
        return UpdateFailed(movedFrom);
      }
      var written := PutEntry(target, merged);
      if written.Err? { return UpdateFailed(movedFrom); }
      return Done(movedFrom, merged);
    }
  }
}
