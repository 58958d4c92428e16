/** Saving credential variables across a local and a shared store. */
module Credentials {
  import opened Bytes

  type Creds = map<string, string>

  /** The stores and the rules of one save batch. */
  datatype Batch = Batch(
    local: Creds,
    shared: Creds,
    incoming: Creds,
    scopes: map<string, string>,
    defaultScope: string,
    split: bool)

  // ---- specification, with no order in it ----

  /** The value to store for a touched key: a blank one keeps what is there. */
  function Resolved(b: Batch, k: string): string
    requires k in b.incoming
  {
    if b.incoming[k] != "" then b.incoming[k]
    else if k in b.local then b.local[k]
    else if k in b.shared then b.shared[k]
    else ""
  }

  predicate ToShared(b: Batch, k: string) {
    b.split && (if k in b.scopes then b.scopes[k] else b.defaultScope) == "shared"
  }

  /** The local store once the keys of `done` have been handled. */
  function LocalAfter(b: Batch, done: set<string>): Creds
    requires done <= b.incoming.Keys
  {
    map k | k in b.local.Keys + done &&
      (if k in done then Resolved(b, k) != "" && !ToShared(b, k) else k in b.local)
      :: if k in done then Resolved(b, k) else b.local[k]
  }

  function SharedAfter(b: Batch, done: set<string>): Creds
    requires done <= b.incoming.Keys
  {
    map k | k in b.shared.Keys + done &&
      (if k in done then Resolved(b, k) != "" && ToShared(b, k) else k in b.shared)
      :: if k in done then Resolved(b, k) else b.shared[k]
  }

  function NewLocal(b: Batch): Creds { LocalAfter(b, b.incoming.Keys) }

  function NewShared(b: Batch): Creds { SharedAfter(b, b.incoming.Keys) }

  /** `get_user_credentials`: one view of both stores, local wins. */
  function View(local: Creds, shared: Creds, split: bool): Creds {
    if split then shared + local else local
  }

  function NonBlank(m: Creds): Creds { map k | k in m && m[k] != "" :: m[k] }

  predicate NoEmpty(m: Creds) { forall k :: k in m ==> m[k] != "" }

  // ---- reading the stores key by key ----

  function Get(m: Creds, k: string): Option<string> { if k in m then Some(m[k]) else None }

  lemma SameEverywhere(m: Creds, n: Creds)
    requires forall k :: Get(m, k) == Get(n, k)
    ensures m == n
  {
    assert forall k :: k in m <==> Get(m, k).Some?;
    assert forall k :: k in n <==> Get(n, k).Some?;
  }

  /** What a touched key ends up as in the local and in the shared store. */
  function LocalValue(b: Batch, k: string): Option<string>
    requires k in b.incoming
  {
    if Resolved(b, k) == "" || ToShared(b, k) then None else Some(Resolved(b, k))
  }

  function SharedValue(b: Batch, k: string): Option<string>
    requires k in b.incoming
  {
    if Resolved(b, k) != "" && ToShared(b, k) then Some(Resolved(b, k)) else None
  }

  lemma LocalAt(b: Batch, done: set<string>, k: string)
    requires done <= b.incoming.Keys
    ensures Get(LocalAfter(b, done), k) == if k in done then LocalValue(b, k) else Get(b.local, k)
  {
    hide Resolved, ToShared;
  }

  lemma SharedAt(b: Batch, done: set<string>, k: string)
    requires done <= b.incoming.Keys
    ensures Get(SharedAfter(b, done), k) == if k in done then SharedValue(b, k) else Get(b.shared, k)
  {
    hide Resolved, ToShared;
  }

  lemma ViewAt(local: Creds, shared: Creds, split: bool, k: string)
    ensures Get(View(local, shared, split), k) ==
            if Get(local, k).Some? || !split then Get(local, k) else Get(shared, k)
  {
  }

  lemma OverrideAt(view: Creds, incoming: Creds, k: string)
    ensures Get(view + NonBlank(incoming), k) ==
            if k in incoming && incoming[k] != "" then Some(incoming[k]) else Get(view, k)
  {
  }

  // ---- what a save does to the merged view ----

  /** No blank incoming key would keep an empty value. */
  predicate KeepsNoEmpty(b: Batch) {
    var view := View(b.local, b.shared, b.split);
    forall k :: k in b.incoming && b.incoming[k] == "" && k in view ==> view[k] != ""
  }

  lemma EmptyIsFound(b: Batch)
    ensures KeepsNoEmpty(b) <==>
            forall k :: k in b.incoming && b.incoming[k] == "" ==> Get(View(b.local, b.shared, b.split), k) != Some("")
  {
    hide View;
    var view := View(b.local, b.shared, b.split);
    assert forall k :: Get(view, k) == Some("") <==> k in view && view[k] == "";
  }

  lemma SavedKey(b: Batch, k: string)
    requires !b.split ==> b.shared == map[]
    ensures var before := View(b.local, b.shared, b.split);
            Get(View(NewLocal(b), NewShared(b), b.split), k) == Get(before + NonBlank(b.incoming), k)
            <==> !(k in b.incoming && b.incoming[k] == "" && Get(before, k) == Some(""))
  {
    hide View, NonBlank, LocalAfter, SharedAfter;
    LocalAt(b, b.incoming.Keys, k);
    SharedAt(b, b.incoming.Keys, k);
    ViewAt(b.local, b.shared, b.split, k);
    ViewAt(NewLocal(b), NewShared(b), b.split, k);
    OverrideAt(View(b.local, b.shared, b.split), b.incoming, k);
  }

  /** The merged view afterwards is the old one overridden by the non-blank
      incoming values, exactly when no blank key stands for an empty value. */
  lemma SaveOverridesView(b: Batch)
    requires !b.split ==> b.shared == map[]
    ensures View(NewLocal(b), NewShared(b), b.split) == View(b.local, b.shared, b.split) + NonBlank(b.incoming)
            <==> KeepsNoEmpty(b)
  {
    hide View, NonBlank, LocalAfter, SharedAfter, Get;
    var before := View(b.local, b.shared, b.split);
    var after := View(NewLocal(b), NewShared(b), b.split);
    var expected := before + NonBlank(b.incoming);
    forall k
      ensures Get(after, k) == Get(expected, k)
              <==> !(k in b.incoming && b.incoming[k] == "" && Get(before, k) == Some(""))
    {
      SavedKey(b, k);
    }
    if KeepsNoEmpty(b) {
      EmptyIsFound(b);
      SameEverywhere(after, expected);
    } else {
      EmptyIsFound(b);
    }
  }

  lemma ViewHasNoEmpty(b: Batch)
    requires NoEmpty(b.local) && NoEmpty(b.shared)
    ensures NoEmpty(View(b.local, b.shared, b.split))
  {
  }

  /** From stores with no empty value the view is always as expected; touched
      keys live in one store at most, the one their scope selects; the rest are
      unchanged; and no empty value is ever stored. */
  lemma SavePlacesKeys(b: Batch)
    requires NoEmpty(b.local) && NoEmpty(b.shared) && (!b.split ==> b.shared == map[])
    ensures var local, shared := NewLocal(b), NewShared(b);
            && View(local, shared, b.split) == View(b.local, b.shared, b.split) + NonBlank(b.incoming)
            && NoEmpty(local) && NoEmpty(shared)
            && (forall k :: k in b.incoming ==> (k in shared ==> ToShared(b, k)) && (k in local ==> !ToShared(b, k)))
            && (forall k :: k !in b.incoming ==>
                  && (k in local <==> k in b.local) && (k in local ==> local[k] == b.local[k])
                  && (k in shared <==> k in b.shared) && (k in shared ==> shared[k] == b.shared[k]))
            && (!b.split ==> shared == map[])
  {
    hide View, NonBlank;
    SaveOverridesView(b);
    assert KeepsNoEmpty(b) by { ViewHasNoEmpty(b); }
  }

  /** Where a value goes, by the scope asked for: with two stores to the shared
      one if that is "shared", or if none was asked for and that is the default;
      else to the local one. Never to both. */
  lemma ScopeSelectsStore(b: Batch, k: string, v: string)
    requires k in b.incoming && b.incoming[k] == v && v != ""
    ensures var scope := if k in b.scopes then b.scopes[k] else b.defaultScope;
            if b.split && scope == "shared"
            then k in NewShared(b) && NewShared(b)[k] == v && k !in NewLocal(b)
            else k in NewLocal(b) && NewLocal(b)[k] == v && k !in NewShared(b)
  {
  }

  /** The key would be lost, or keep an old value, if the second write failed. */
  predicate AtRisk(b: Batch, k: string) {
    && k in b.incoming && ToShared(b, k) && Resolved(b, k) != ""
    && !(k in b.shared && b.shared[k] == Resolved(b, k))
  }

  lemma RiskIsTouched(b: Batch)
    ensures forall k :: AtRisk(b, k) ==> k in b.incoming
  {
  }

  lemma HalfWrittenKey(b: Batch, k: string)
    requires NoEmpty(b.local) && NoEmpty(b.shared) && b.split
    ensures Get(View(NewLocal(b), b.shared, true), k) == Get(View(NewLocal(b), NewShared(b), true), k)
            <==> !AtRisk(b, k)
  {
    hide View, LocalAfter, SharedAfter;
    LocalAt(b, b.incoming.Keys, k);
    SharedAt(b, b.incoming.Keys, k);
    ViewAt(NewLocal(b), b.shared, true, k);
    ViewAt(NewLocal(b), NewShared(b), true, k);
  }

  /** If the local store is written and the shared one is not, the view is as
      intended exactly when no key was on its way to the shared store with a
      value not already there. */
  lemma HalfWrittenSave(b: Batch)
    requires NoEmpty(b.local) && NoEmpty(b.shared) && b.split
    ensures View(NewLocal(b), b.shared, true) == View(NewLocal(b), NewShared(b), true)
            <==> forall k :: k in b.incoming ==> !AtRisk(b, k)
  {
    hide View, LocalAfter, SharedAfter, Get, AtRisk;
    var half, full := View(NewLocal(b), b.shared, true), View(NewLocal(b), NewShared(b), true);
    forall k
      ensures Get(half, k) == Get(full, k) <==> !AtRisk(b, k)
    {
      HalfWrittenKey(b, k);
    }
    if forall k :: k in b.incoming ==> !AtRisk(b, k) {
      assert forall k :: !AtRisk(b, k) by { RiskIsTouched(b); }
      SameEverywhere(half, full);
    }
  }

  /** The worst of it: a variable moved from the local store to the shared one
      is in neither when the shared write fails. */
  lemma MovedVariableIsLost(b: Batch, k: string)
    requires NoEmpty(b.local) && k in b.incoming && k in b.local && k !in b.shared && ToShared(b, k)
    ensures k !in NewLocal(b) && k !in View(NewLocal(b), b.shared, true) && k in NewShared(b)
  {
    assert Resolved(b, k) != "";
  }

  // ---- the code ----

  lemma NothingDone(b: Batch)
    ensures LocalAfter(b, {}) == b.local && SharedAfter(b, {}) == b.shared
  {
    hide Get, LocalAfter, SharedAfter;
    forall k
      ensures Get(LocalAfter(b, {}), k) == Get(b.local, k) && Get(SharedAfter(b, {}), k) == Get(b.shared, k)
    {
      LocalAt(b, {}, k);
      SharedAt(b, {}, k);
    }
    SameEverywhere(LocalAfter(b, {}), b.local);
    SameEverywhere(SharedAfter(b, {}), b.shared);
  }

  /** One turn of the loop, as the stores it starts from and ends in. */
  lemma StoresStep(b: Batch, done: set<string>, name: string)
    requires done <= b.incoming.Keys && name in b.incoming && name !in done
    ensures var local, shared := LocalAfter(b, done), SharedAfter(b, done);
            var val := b.incoming[name];
            var value := if val != "" then val else if name in local then local[name]
                         else if name in shared then shared[name] else "";
            var toShared := b.split && (if name in b.scopes then b.scopes[name] else b.defaultScope) == "shared";
            && LocalAfter(b, done + {name})
               == (if value == "" || toShared then local - {name} else local[name := value])
            && SharedAfter(b, done + {name})
               == (if value != "" && toShared then shared[name := value] else shared - {name})
  {
    hide LocalAfter, SharedAfter;
    var local, shared, value := LocalAfter(b, done), SharedAfter(b, done), Resolved(b, name);
    LocalAt(b, done, name);
    SharedAt(b, done, name);
    var local' := if value == "" || ToShared(b, name) then local - {name} else local[name := value];
    var shared' := if value != "" && ToShared(b, name) then shared[name := value] else shared - {name};
    forall k
      ensures Get(LocalAfter(b, done + {name}), k) == Get(local', k)
      ensures Get(SharedAfter(b, done + {name}), k) == Get(shared', k)
    {
      LocalAt(b, done, k);
      SharedAt(b, done, k);
      LocalAt(b, done + {name}, k);
      SharedAt(b, done + {name}, k);
    }
    SameEverywhere(LocalAfter(b, done + {name}), local');
    SameEverywhere(SharedAfter(b, done + {name}), shared');
  }

  /** `partition_credential_writes`, its map visited in any order. */
  method PartitionWrites(b: Batch) returns (local: Creds, shared: Creds)
    ensures local == NewLocal(b) && shared == NewShared(b)
  {
    hide LocalAfter, SharedAfter, Resolved, ToShared;
    local, shared := b.local, b.shared;
    var left := b.incoming.Keys;
    ghost var done: set<string> := {};
    NothingDone(b);
    while left != {}
      invariant left + done == b.incoming.Keys && left !! done
      invariant local == LocalAfter(b, done) && shared == SharedAfter(b, done)
      decreases left
    {
      var name :| name in left;
      left := left - {name};
      StoresStep(b, done, name);
      var val := b.incoming[name];
      var value :=
        if val != "" then val
        else if name in local then local[name]
        else if name in shared then shared[name]
        else "";
      if value == "" {
        local := local - {name};
        shared := shared - {name};
      } else if b.split && (if name in b.scopes then b.scopes[name] else b.defaultScope) == "shared" {
        shared := shared[name := value];
        local := local - {name};
      } else {
        local := local[name := value];
        shared := shared - {name};
      }
      done := done + {name};
    }
    assert done == b.incoming.Keys;
  }

  datatype SaveResult = Saved(count: nat) | ReadFailed | LocalWriteFailed | SharedWriteFailed

  /** A user's two stores; `faults(n)` says whether call number `n` fails. */
  class Backends {
    var local: Creds
    var shared: Creds
    const split: bool
    var calls: nat
    const faults: nat -> bool

    constructor (local: Creds, shared: Creds, split: bool, faults: nat -> bool)
      ensures this.local == local && this.shared == shared && this.split == split && this.faults == faults
    {
      this.local, this.shared, this.split, this.faults, calls := local, shared, split, faults, 0;
    }

    /** `get_user_credentials`: a store that cannot be read adds nothing. */
    method GetUserCredentials() returns (r: Creds)
      modifies this`calls
      ensures r == View(if faults(old(calls)) then map[] else local,
                        if faults(old(calls) + 1) then map[] else shared, split)
    {
      var mine: Creds := if faults(calls) then map[] else local;
      calls := calls + 1;
      if !split { return mine; }
      var merged: Creds := if faults(calls) then map[] else shared;
      calls := calls + 1;
      r := merged + mine;
    }

    /** `put_my_credentials`: reads both stores, then writes the local one and,
        if there are two, the shared one. */
    method PutMyCredentials(incoming: Creds, scopes: map<string, string>, defaultScope: string) returns (r: SaveResult)
      modifies this`local, this`shared, this`calls
      ensures var b := Batch(old(local), if split then old(shared) else map[], incoming, scopes, defaultScope, split);
              match r
              case Saved(count) =>
                && local == NewLocal(b) && shared == (if split then NewShared(b) else old(shared))
                && count == |NewLocal(b)| + |NewShared(b)|
              case SharedWriteFailed => split && local == NewLocal(b) && shared == old(shared)
              case _ => local == old(local) && shared == old(shared)
    {
      hide LocalAfter, SharedAfter;
      if faults(calls) { calls := calls + 1; return ReadFailed; }
      calls := calls + 1;
      var existingShared: Creds := map[];
      if split {
        if faults(calls) { calls := calls + 1; return ReadFailed; }
        calls := calls + 1;
        existingShared := shared;
      }
      var newLocal, newShared := PartitionWrites(Batch(local, existingShared, incoming, scopes, defaultScope, split));
      if faults(calls) { calls := calls + 1; return LocalWriteFailed; }
      calls := calls + 1;
      local := newLocal;
      if split {
        if faults(calls) { calls := calls + 1; return SharedWriteFailed; }
        calls := calls + 1;
        shared := newShared;
      }
      return Saved(|newLocal| + |newShared|);
    }
  }
}
