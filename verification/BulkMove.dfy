/** Bulk move: many entries moved at once, each by its own get, put-if-absent
    and delete calls, interleaved in any order and failing anywhere. */
module BulkMove {
  import opened Bytes
  import opened EntryStore

  const BULK_MAX_RENAME: nat := 99
  const NAME_LIMIT: nat := 64

  // ---- names to try ----

  function Suffix(n: nat): (s: string)
    requires 2 <= n <= BULK_MAX_RENAME
    ensures 2 <= |s| <= 3
  {
    var digits := "0123456789";
    if n < 10 then ['-', digits[n]] else ['-', digits[n / 10], digits[n % 10]]
  }

  /** `name-n`, the base trimmed so that the whole stays within the limit. */
  function Suffixed(name: string, n: nat): (s: string)
    requires 2 <= n <= BULK_MAX_RENAME
    ensures |s| <= NAME_LIMIT
  {
    var suffix := Suffix(n);
    var keep := if NAME_LIMIT - |suffix| < |name| then NAME_LIMIT - |suffix| else |name|;
    name[..keep] + suffix
  }

  /** `rename_candidates`: the name itself, then `name-2` .. `name-99`. */
  function Candidates(name: string, rename: bool): (r: seq<string>)
    ensures |r| == (if rename then BULK_MAX_RENAME else 1) && r[0] == name
    ensures forall i :: 1 <= i < |r| ==> r[i] == Suffixed(name, i + 1)
  {
    if rename
    then [name] + seq(BULK_MAX_RENAME - 1, i requires 0 <= i < BULK_MAX_RENAME - 1 => Suffixed(name, i + 2))
    else [name]
  }

  method RenameCandidates(name: string, rename: bool) returns (out: seq<string>)
    ensures out == Candidates(name, rename)
  {
    hide Suffixed, Candidates;
    out := [name];
    if rename {
      for n := 2 to BULK_MAX_RENAME + 1
        invariant |out| == n - 1 && out[0] == name
        invariant forall i :: 1 <= i < |out| ==> out[i] == Suffixed(name, i + 1)
      {
        out := out + [Suffixed(name, n)];
      }
    }
  }

  lemma DigitsDiffer()
    ensures forall i, j :: 0 <= i < j < 10 ==> "0123456789"[i] != "0123456789"[j]
    ensures forall i :: 0 <= i < 10 ==> "0123456789"[i] != '-'
  {
  }

  lemma SuffixesDiffer(m: nat, n: nat)
    requires 2 <= m <= BULK_MAX_RENAME && 2 <= n <= BULK_MAX_RENAME && m != n
    ensures var a, b := Suffix(m), Suffix(n);
            a[|a| - 1] != b[|b| - 1] || a[|a| - 2] != b[|b| - 2]
  {
    DigitsDiffer();
    if m >= 10 && n >= 10 && m % 10 == n % 10 {
      assert m / 10 != n / 10;
    }
  }

  /** No two suffixed names coincide, however long the name. */
  lemma SuffixedNamesDiffer(name: string, m: nat, n: nat)
    requires 2 <= m <= BULK_MAX_RENAME && 2 <= n <= BULK_MAX_RENAME && m != n
    ensures Suffixed(name, m) != Suffixed(name, n)
  {
    SuffixesDiffer(m, n);
    var a, b := Suffixed(name, m), Suffixed(name, n);
    assert a[|a| - 1] == Suffix(m)[|Suffix(m)| - 1] && a[|a| - 2] == Suffix(m)[|Suffix(m)| - 2];
    assert b[|b| - 1] == Suffix(n)[|Suffix(n)| - 1] && b[|b| - 2] == Suffix(n)[|Suffix(n)| - 2];
  }

  /** The number a run of decimal digits stands for. */
  function NumberOf(digits: string): int {
    if digits == "" then 0 else NumberOf(digits[..|digits| - 1]) * 10 + (digits[|digits| - 1] as int - '0' as int)
  }

  predicate PlainDigits(digits: string) {
    digits != "" && digits[0] != '0' && forall i :: 0 <= i < |digits| ==> '0' <= digits[i] <= '9'
  }

  /** `c` is the name, a dash and `n` written plainly, the name cut only as far as
      64 characters require. */
  ghost predicate IsRenamed(name: string, c: string, n: nat) {
    exists keep, digits ::
      && 0 <= keep <= |name| && c == name[..keep] + "-" + digits
      && PlainDigits(digits) && NumberOf(digits) == n
      && (keep == |name| || |c| == 64) && |c| <= 64
  }

  lemma DigitStands(d: nat)
    requires d < 10
    ensures "0123456789"[d] as int - '0' as int == d
  {
  }

  lemma SuffixIsNumber(n: nat)
    requires 2 <= n <= BULK_MAX_RENAME
    ensures var s := Suffix(n); s[0] == '-' && PlainDigits(s[1..]) && NumberOf(s[1..]) == n
  {
    var s := Suffix(n);
    var d := s[1..];
    if n < 10 {
      assert d[..0] == "";
      DigitStands(n);
    } else {
      assert d[..1][..0] == "";
      DigitStands(n / 10);
      DigitStands(n % 10);
      assert d[..1] == [d[0]] && NumberOf(d[..1]) == n / 10;
    }
  }

  /** Each candidate after the first is the name with `-2`, `-3`, .. behind it,
      trimmed no more than it must be. */
  lemma CandidatesAreRenamed(name: string, rename: bool, i: nat)
    requires 1 <= i < |Candidates(name, rename)|
    ensures rename && |Candidates(name, rename)| == 99 && IsRenamed(name, Candidates(name, rename)[i], i + 1)
  {
    hide NumberOf, PlainDigits;
    var n := i + 1;
    var suffix, c := Suffix(n), Suffixed(name, n);
    SuffixIsNumber(n);
    var keep := |c| - |suffix|;
    assert suffix == "-" + suffix[1..];
    assert c == name[..keep] + "-" + suffix[1..];
  }

  // ---- the protocol ----

  /** A bulk move request after deduplication. */
  datatype Batch = Batch(items: seq<Key>, scope: string, folder: string, rename: bool)

  function Target(b: Batch, name: string): Key { Key(b.scope, b.folder, name) }

  predicate InTarget(b: Batch, k: Key) { k.scope == b.scope && k.folder == b.folder }

  datatype Verdict = MovedTo(name: string) | NotRemoved(name: string) | Skipped | CallFailed | NoFreeName

  /** Where one item stands between two of its store calls. */
  datatype Pc =
    | Waiting
    | Copying(full: Entry, tried: nat)
    | Copied(name: string)
    | Finished(verdict: Verdict)

  datatype State = State(store: Entries, pcs: seq<Pc>)

  function Start(b: Batch, init: Entries): State { State(init, seq(|b.items|, _ => Waiting)) }

  function At(s: State, i: nat, pc: Pc): State
    requires i < |s.pcs|
  {
    s.(pcs := s.pcs[i := pc])
  }

  /** What a call of one item can touch: the store and its own progress. */
  datatype Local = Local(store: Entries, pc: Pc)

  /** One store call for the item stored at `src`, which fails if `fault`. */
  function Next(b: Batch, src: Key, l: Local, fault: bool): Local {
    match l.pc
    case Waiting =>
      l.(pc := if InTarget(b, src) then Finished(Skipped)
               else if fault || src !in l.store then Finished(CallFailed)
               else Copying(l.store[src], 0))
    case Copying(full, tried) =>
      var names := Candidates(src.name, b.rename);
      if tried >= |names| then l.(pc := Finished(if b.rename then NoFreeName else Skipped))
      else if fault then l.(pc := Finished(CallFailed))
      else if Target(b, names[tried]) in l.store then l.(pc := Copying(full, tried + 1))
      else Local(l.store[Target(b, names[tried]) := full], Copied(names[tried]))
    case Copied(name) =>
      if fault then l.(pc := Finished(NotRemoved(name)))
      else Local(l.store - {src}, Finished(MovedTo(name)))
    case Finished(_) => l
  }

  /** The progress of all with item `i` as in `l`. */
  function Placed(pcs: seq<Pc>, i: nat, l: Local): State
    requires i < |pcs|
  {
    State(l.store, pcs[i := l.pc])
  }

  /** One store call of item `i`. */
  function Step(b: Batch, s: State, i: nat, fault: bool): State
    requires |s.pcs| == |b.items|
  {
    if i >= |s.pcs| then s else Placed(s.pcs, i, Next(b, b.items[i], Local(s.store, s.pcs[i]), fault))
  }

  /** Which item moves next, and whether its call fails. */
  datatype Turn = Turn(item: nat, fault: bool)

  function Run(b: Batch, init: Entries, turns: seq<Turn>): (s: State)
    ensures |s.pcs| == |b.items|
  {
    if turns == [] then Start(b, init)
    else
      var t := turns[|turns| - 1];
      Step(b, Run(b, init, turns[..|turns| - 1]), t.item, t.fault)
  }

  // ---- the invariant ----

  /** The name under which the item has been copied, if it has. */
  function Chosen(pc: Pc): Option<string> {
    match pc
    case Copied(name) => Some(name)
    case Finished(MovedTo(name)) => Some(name)
    case Finished(NotRemoved(name)) => Some(name)
    case _ => None
  }

  predicate Removed(pc: Pc) { pc.Finished? && pc.verdict.MovedTo? }

  /** The first `n` candidate names are all taken in the target. */
  ghost predicate TakenUpTo(b: Batch, store: Entries, name: string, n: nat) {
    var names := Candidates(name, b.rename);
    forall j :: 0 <= j < n && j < |names| ==> Target(b, names[j]) in store
  }

  /** Why an item was skipped: it is there already, or its name is taken and no
      other may be tried. */
  ghost predicate RightlySkipped(b: Batch, store: Entries, src: Key) {
    || (src.scope == b.scope && src.folder == b.folder)
    || (!b.rename && Key(b.scope, b.folder, src.name) in store)
  }

  /** What one item's progress says about the store. */
  ghost predicate ItemOk(b: Batch, init: Entries, s: State, i: nat)
    requires i < |s.pcs| == |b.items|
  {
    var src, pc := b.items[i], s.pcs[i];
    && (Chosen(pc).Some? ==>
      && !InTarget(b, src) && src in init
      && var copy := Target(b, Chosen(pc).value);
      && copy !in init && copy in s.store && s.store[copy] == init[src]
      && Chosen(pc).value in Candidates(src.name, b.rename))
    && (pc.Copying? ==> !InTarget(b, src) && src in init && pc.full == init[src])
    && (pc.Copying? ==> TakenUpTo(b, s.store, src.name, pc.tried))
    && (pc == Finished(Skipped) ==> RightlySkipped(b, s.store, src))
    && (pc == Finished(NoFreeName) ==> b.rename && TakenUpTo(b, s.store, src.name, BULK_MAX_RENAME))
    && (Removed(pc) <==> src in init && src !in s.store)
  }

  /** What the store as a whole may hold. */
  ghost predicate StoreOk(b: Batch, init: Entries, s: State)
    requires |s.pcs| == |b.items|
  {
    && (forall k :: k in init && k in s.store ==> s.store[k] == init[k])
    && (forall k :: k in init && k !in s.store ==> k in b.items && !InTarget(b, k))
    && (forall k :: k in s.store && k !in init ==>
          InTarget(b, k) && exists i :: 0 <= i < |s.pcs| && Chosen(s.pcs[i]) == Some(k.name))
  }

  ghost predicate NamesDiffer(s: State) {
    forall i, j :: 0 <= i < j < |s.pcs| && Chosen(s.pcs[i]).Some? ==> Chosen(s.pcs[i]) != Chosen(s.pcs[j])
  }

  ghost predicate Inv(b: Batch, init: Entries, s: State) {
    && |s.pcs| == |b.items| && Distinct(b.items)
    && StoreOk(b, init, s) && NamesDiffer(s)
    && forall i :: 0 <= i < |s.pcs| ==> ItemOk(b, init, s, i)
  }

  // ---- each kind of step keeps it ----

  /** A step that only moves item `i` on, without copying it or removing it. */
  lemma MoveOn(b: Batch, init: Entries, s: State, i: nat, pc: Pc)
    requires Inv(b, init, s) && i < |s.pcs|
    requires Chosen(pc) == Chosen(s.pcs[i]) && Removed(pc) == Removed(s.pcs[i])
    requires pc.Copying? ==>
               && !InTarget(b, b.items[i]) && b.items[i] in init && pc.full == init[b.items[i]]
               && TakenUpTo(b, s.store, b.items[i].name, pc.tried)
    requires pc == Finished(Skipped) ==> RightlySkipped(b, s.store, b.items[i])
    requires pc == Finished(NoFreeName) ==> b.rename && TakenUpTo(b, s.store, b.items[i].name, BULK_MAX_RENAME)
    ensures Inv(b, init, At(s, i, pc))
  {
    hide TakenUpTo;
    var s' := At(s, i, pc);
    forall j | 0 <= j < |s.pcs|
      ensures ItemOk(b, init, s', j)
    {
      assert ItemOk(b, init, s, j);
    }
    forall k | k in s'.store && k !in init
      ensures InTarget(b, k) && exists j :: 0 <= j < |s'.pcs| && Chosen(s'.pcs[j]) == Some(k.name)
    {
      var j :| 0 <= j < |s.pcs| && Chosen(s.pcs[j]) == Some(k.name);
      assert Chosen(s'.pcs[j]) == Some(k.name);
    }
  }

  /** The copy: a put-if-absent that found the name free. */
  lemma CopyKeepsInv(b: Batch, init: Entries, s: State, i: nat, name: string)
    requires Inv(b, init, s) && i < |s.pcs| && s.pcs[i].Copying?
    requires Target(b, name) !in s.store && name in Candidates(b.items[i].name, b.rename)
    ensures Inv(b, init, At(s.(store := s.store[Target(b, name) := s.pcs[i].full]), i, Copied(name)))
  {
    hide Candidates;
    var copy, full := Target(b, name), s.pcs[i].full;
    var s' := At(s.(store := s.store[copy := full]), i, Copied(name));
    assert ItemOk(b, init, s, i);
    assert copy !in init;
    forall j | 0 <= j < |s.pcs|
      ensures ItemOk(b, init, s', j)
    {
      assert ItemOk(b, init, s, j);
      assert s.pcs[j].Copying? ==> TakenUpTo(b, s'.store, b.items[j].name, s.pcs[j].tried);
      assert InTarget(b, b.items[j]) || b.items[j] != copy;
    }
    forall k | k in s'.store && k !in init
      ensures InTarget(b, k) && exists j :: 0 <= j < |s'.pcs| && Chosen(s'.pcs[j]) == Some(k.name)
    {
      if k == copy {
        assert Chosen(s'.pcs[i]) == Some(k.name);
      } else {
        var j :| 0 <= j < |s.pcs| && Chosen(s.pcs[j]) == Some(k.name);
        assert Chosen(s'.pcs[j]) == Some(k.name);
      }
    }
    forall j, l | 0 <= j < l < |s'.pcs| && Chosen(s'.pcs[j]).Some?
      ensures Chosen(s'.pcs[j]) != Chosen(s'.pcs[l])
    {
      assert ItemOk(b, init, s, j) && ItemOk(b, init, s, l);
    }
  }

  lemma SourceIsNoCandidate(b: Batch, store: Entries, src: Key, name: string, n: nat)
    requires !InTarget(b, src)
    ensures TakenUpTo(b, store, name, n) ==> TakenUpTo(b, store - {src}, name, n)
  {
  }

  /** The removal: the copy is in place, and only the source goes. */
  lemma RemovalKeepsInv(b: Batch, init: Entries, s: State, i: nat)
    requires Inv(b, init, s) && i < |s.pcs| && s.pcs[i].Copied?
    ensures Inv(b, init, At(s.(store := s.store - {b.items[i]}), i, Finished(MovedTo(s.pcs[i].name))))
  {
    hide Candidates;
    var src := b.items[i];
    var s' := At(s.(store := s.store - {src}), i, Finished(MovedTo(s.pcs[i].name)));
    assert ItemOk(b, init, s, i);
    forall j | 0 <= j < |s.pcs|
      ensures ItemOk(b, init, s', j)
    {
      assert ItemOk(b, init, s, j);
      var tried := if s.pcs[j].Copying? then s.pcs[j].tried else BULK_MAX_RENAME;
      SourceIsNoCandidate(b, s.store, src, b.items[j].name, tried);
    }
    forall k | k in s'.store && k !in init
      ensures InTarget(b, k) && exists j :: 0 <= j < |s'.pcs| && Chosen(s'.pcs[j]) == Some(k.name)
    {
      var j :| 0 <= j < |s.pcs| && Chosen(s.pcs[j]) == Some(k.name);
      assert Chosen(s'.pcs[j]) == Some(k.name);
    }
  }

  lemma SourceIsIntact(b: Batch, init: Entries, s: State, src: Key)
    requires Inv(b, init, s) && !InTarget(b, src) && src in s.store
    ensures src in init && s.store[src] == init[src]
  {
  }

  lemma WaitingStepKeepsInv(b: Batch, init: Entries, s: State, i: nat, fault: bool)
    requires Inv(b, init, s) && i < |s.pcs| && s.pcs[i] == Waiting
    ensures Inv(b, init, Step(b, s, i, fault))
  {
    hide StoreOk, NamesDiffer, Candidates, ItemOk;
    var src := b.items[i];
    if InTarget(b, src) {
      MoveOn(b, init, s, i, Finished(Skipped));
    } else if fault || src !in s.store {
      MoveOn(b, init, s, i, Finished(CallFailed));
    } else {
      SourceIsIntact(b, init, s, src);
      MoveOn(b, init, s, i, Copying(s.store[src], 0));
    }
  }

  lemma TakenOneMore(b: Batch, store: Entries, name: string, tried: nat)
    requires TakenUpTo(b, store, name, tried) && tried < |Candidates(name, b.rename)|
    requires Target(b, Candidates(name, b.rename)[tried]) in store
    ensures TakenUpTo(b, store, name, tried + 1)
  {
    hide Candidates, Suffixed;
  }

  lemma TakenAll(b: Batch, store: Entries, name: string, tried: nat)
    requires TakenUpTo(b, store, name, tried) && tried >= |Candidates(name, b.rename)|
    ensures TakenUpTo(b, store, name, BULK_MAX_RENAME) && Target(b, name) in store
  {
    hide Candidates, Suffixed;
  }

  lemma InvAt(b: Batch, init: Entries, s: State, i: nat)
    requires Inv(b, init, s) && i < |s.pcs|
    ensures |s.pcs| == |b.items| && ItemOk(b, init, s, i)
  {
  }

  lemma CopyingStepKeepsInv(b: Batch, init: Entries, s: State, i: nat, fault: bool)
    requires Inv(b, init, s) && i < |s.pcs| && s.pcs[i].Copying?
    ensures Inv(b, init, Step(b, s, i, fault))
  {
    hide Inv, Candidates, TakenUpTo;
    InvAt(b, init, s, i);
    var src, full, tried := b.items[i], s.pcs[i].full, s.pcs[i].tried;
    var names := Candidates(src.name, b.rename);
    if tried >= |names| {
      TakenAll(b, s.store, src.name, tried);
      MoveOn(b, init, s, i, Finished(if b.rename then NoFreeName else Skipped));
    } else if fault {
      MoveOn(b, init, s, i, Finished(CallFailed));
    } else if Target(b, names[tried]) in s.store {
      TakenOneMore(b, s.store, src.name, tried);
      MoveOn(b, init, s, i, Copying(full, tried + 1));
    } else {
      CopyKeepsInv(b, init, s, i, names[tried]);
    }
  }

  lemma StepKeepsInv(b: Batch, init: Entries, s: State, i: nat, fault: bool)
    requires Inv(b, init, s)
    ensures Inv(b, init, Step(b, s, i, fault))
  {
    hide StoreOk, NamesDiffer, Candidates, ItemOk;
    if i < |s.pcs| {
      match s.pcs[i] {
        case Waiting => WaitingStepKeepsInv(b, init, s, i, fault);
        case Copying(_, _) => CopyingStepKeepsInv(b, init, s, i, fault);
        case Copied(name) =>
          if fault {
            MoveOn(b, init, s, i, Finished(NotRemoved(name)));
          } else {
            RemovalKeepsInv(b, init, s, i);
          }
        case Finished(_) => assert s.pcs[i := s.pcs[i]] == s.pcs;
      }
    }
  }

  lemma {:induction false} EveryRunKeepsInv(b: Batch, init: Entries, turns: seq<Turn>)
    requires Distinct(b.items)
    ensures Inv(b, init, Run(b, init, turns))
  {
    hide Step;
    if turns != [] {
      EveryRunKeepsInv(b, init, turns[..|turns| - 1]);
      var t := turns[|turns| - 1];
      StepKeepsInv(b, init, Run(b, init, turns[..|turns| - 1]), t.item, t.fault);
    }
  }

  // ---- what that means ----

  ghost predicate CopyIs(b: Batch, s: State, name: string, e: Entry) {
    var copy := Key(b.scope, b.folder, name);
    copy in s.store && s.store[copy] == e
  }

  /** However the items' calls interleave and fail, at every moment each item's
      entry is at its source, untouched, or identical in the target under the
      name chosen for it, and those names differ; every other entry, and every
      entry the target already had, is as it was; and nothing else appears. */
  lemma BulkMoveLosesNothing(b: Batch, init: Entries, turns: seq<Turn>)
    requires Distinct(b.items)
    ensures var s := Run(b, init, turns);
            && (forall i :: 0 <= i < |b.items| && b.items[i] in init ==>
                  || (b.items[i] in s.store && s.store[b.items[i]] == init[b.items[i]])
                  || (Chosen(s.pcs[i]).Some? && CopyIs(b, s, Chosen(s.pcs[i]).value, init[b.items[i]])))
            && (forall k :: k in init && (k !in b.items || InTarget(b, k)) ==> k in s.store && s.store[k] == init[k])
            && NamesDiffer(s)
            && (forall k :: k in s.store && k !in init ==>
                  InTarget(b, k) && exists i :: 0 <= i < |s.pcs| && Chosen(s.pcs[i]) == Some(k.name))
  {
    hide Run;
    EveryRunKeepsInv(b, init, turns);
    var s := Run(b, init, turns);
    forall i | 0 <= i < |b.items| && b.items[i] in init
      ensures || (b.items[i] in s.store && s.store[b.items[i]] == init[b.items[i]])
              || (Chosen(s.pcs[i]).Some? && CopyIs(b, s, Chosen(s.pcs[i]).value, init[b.items[i]]))
    {
      assert ItemOk(b, init, s, i);
    }
  }

  /** A call failed for item `i`: one of its turns was a fault. */
  predicate Faulted(turns: seq<Turn>, i: nat) { exists t :: 0 <= t < |turns| && turns[t] == Turn(i, true) }

  /** An item stops short only for a reason: its entry was never there, or one
      of its calls failed. */
  lemma {:induction false} StopsForAReason(b: Batch, init: Entries, turns: seq<Turn>, i: nat)
    requires Distinct(b.items) && i < |b.items|
    ensures var pc := Run(b, init, turns).pcs[i];
            && (pc == Finished(CallFailed) ==> !InTarget(b, b.items[i]) && (b.items[i] !in init || Faulted(turns, i)))
            && (pc.Finished? && pc.verdict.NotRemoved? ==> Faulted(turns, i))
  {
    hide Candidates, Inv;
    if turns != [] {
      var before, t := turns[..|turns| - 1], turns[|turns| - 1];
      StopsForAReason(b, init, before, i);
      EveryRunKeepsInv(b, init, before);
      InvAt(b, init, Run(b, init, before), i);
      if Faulted(before, i) {
        var k :| 0 <= k < |before| && before[k] == Turn(i, true);
        assert turns[k] == Turn(i, true);
      }
      assert t == Turn(i, true) ==> turns[|turns| - 1] == Turn(i, true);
    }
  }

  /** The name is the entry's own or, when renaming, that with a number behind it. */
  ghost predicate NameFor(b: Batch, src: Key, name: string) {
    name == src.name || (b.rename && exists n :: 2 <= n <= 99 && IsRenamed(src.name, name, n))
  }

  lemma CandidateIsNameFor(b: Batch, src: Key, name: string)
    requires name in Candidates(src.name, b.rename)
    ensures NameFor(b, src, name)
  {
    hide IsRenamed, Suffixed;
    var i :| 0 <= i < |Candidates(src.name, b.rename)| && Candidates(src.name, b.rename)[i] == name;
    if i > 0 {
      CandidatesAreRenamed(src.name, b.rename, i);
    }
  }

  /** The verdict reported for an item is the truth about it: where its entry
      is, and why it is not elsewhere. */
  lemma VerdictsAreTrue(b: Batch, init: Entries, turns: seq<Turn>, i: nat)
    requires Distinct(b.items) && i < |b.items| && Run(b, init, turns).pcs[i].Finished?
    ensures var s := Run(b, init, turns);
            var src, v := b.items[i], s.pcs[i].verdict;
            && (!v.MovedTo? && src in init ==> src in s.store && s.store[src] == init[src])
            && (v.MovedTo? || v.NotRemoved? ==> NameFor(b, src, v.name))
            && match v
            case MovedTo(name) => src in init && src !in s.store && CopyIs(b, s, name, init[src])
            case NotRemoved(name) => src in init && CopyIs(b, s, name, init[src]) && Faulted(turns, i)
            case Skipped => RightlySkipped(b, s.store, src)
            case CallFailed => !InTarget(b, src) && (src !in init || Faulted(turns, i))
            case NoFreeName => b.rename && TakenUpTo(b, s.store, src.name, BULK_MAX_RENAME)
  {
    hide Run, TakenUpTo, Faulted, NameFor, Candidates;
    EveryRunKeepsInv(b, init, turns);
    StopsForAReason(b, init, turns, i);
    assert ItemOk(b, init, Run(b, init, turns), i);
    if Chosen(Run(b, init, turns).pcs[i]).Some? {
      CandidateIsNameFor(b, b.items[i], Chosen(Run(b, init, turns).pcs[i]).value);
    }
  }

  lemma {:induction false} DistinctImage(keys: seq<Key>, within: set<Key>)
    requires Distinct(keys) && forall i :: 0 <= i < |keys| ==> keys[i] in within
    ensures |keys| <= |within|
  {
    if keys != [] {
      var last := keys[|keys| - 1];
      DistinctImage(keys[..|keys| - 1], within - {last});
    }
  }

  /** "No free name" is reported only when the target folder holds at least 98
      entries: one for every suffixed name. */
  lemma NoFreeNameMeansFull(b: Batch, init: Entries, turns: seq<Turn>, i: nat)
    requires Distinct(b.items) && i < |b.items| && Run(b, init, turns).pcs[i] == Finished(NoFreeName)
    ensures var s := Run(b, init, turns);
            |set k | k in s.store && k.scope == b.scope && k.folder == b.folder| >= 98
  {
    hide Run, Suffixed;
    EveryRunKeepsInv(b, init, turns);
    var s, name := Run(b, init, turns), b.items[i].name;
    assert ItemOk(b, init, s, i);
    var names := Candidates(name, true);
    var keys := seq(BULK_MAX_RENAME - 1, j requires 0 <= j < BULK_MAX_RENAME - 1 => Target(b, names[j + 1]));
    forall j, l | 0 <= j < l < |keys|
      ensures keys[j] != keys[l]
    {
      SuffixedNamesDiffer(name, j + 2, l + 2);
    }
    DistinctImage(keys, set k | k in s.store && k.scope == b.scope && k.folder == b.folder);
  }

  // ---- deduplication ----

  /** The items acted on: each named once, in the order first named. */
  method DeduplicateItems(items: seq<Key>) returns (out: seq<Key>)
    ensures Distinct(out)
    ensures forall k :: k in out <==> k in items
    ensures InFirstOrder(out, items)
  {
    var seen: set<Key> := {};
    out := [];
    for i := 0 to |items|
      invariant Distinct(out)
      invariant forall k :: k in seen <==> k in out
      invariant forall k :: k in out <==> k in items[..i]
      invariant forall j :: 0 <= j < |out| ==> out[j] in items && FirstAt(items, out[j]) < i
      invariant InFirstOrder(out, items)
    {
      assert forall k :: k in items[..i + 1] <==> k in items[..i] || k == items[i];
      if items[i] !in seen {
        assert FirstAt(items, items[i]) == i;
        seen := seen + {items[i]};
        out := out + [items[i]];
      }
    }
    assert items[..|items|] == items;
  }

  // ---- the code for one item ----

  /** Item `i` takes these turns with nothing in between. */
  function Alone(b: Batch, s: State, i: nat, faults: seq<bool>): (r: State)
    requires |s.pcs| == |b.items|
    ensures |r.pcs| == |b.items|
  {
    if faults == [] then s
    else Step(b, Alone(b, s, i, faults[..|faults| - 1]), i, faults[|faults| - 1])
  }

  lemma NoTurns(b: Batch, s: State, i: nat)
    requires |s.pcs| == |b.items|
    ensures Alone(b, s, i, []) == s
  {
  }

  lemma OneMore(b: Batch, s: State, i: nat, faults: seq<bool>, fault: bool)
    requires |s.pcs| == |b.items|
    ensures Alone(b, s, i, faults + [fault]) == Step(b, Alone(b, s, i, faults), i, fault)
  {
    hide Step;
    assert (faults + [fault])[..|faults|] == faults;
  }

  lemma StepPlaced(b: Batch, pcs: seq<Pc>, i: nat, l: Local, fault: bool)
    requires i < |pcs| == |b.items|
    ensures Step(b, Placed(pcs, i, l), i, fault) == Placed(pcs, i, Next(b, b.items[i], l, fault))
  {
    hide Next;
    var l' := Next(b, b.items[i], l, fault);
    assert pcs[i := l.pc][i := l'.pc] == pcs[i := l'.pc];
  }

  /** The next call of an item that has had nothing in between. */
  lemma AloneNext(b: Batch, s: State, i: nat, faults: seq<bool>, pcs: seq<Pc>, l: Local, fault: bool)
    requires |s.pcs| == |b.items| == |pcs| && i < |pcs| && Alone(b, s, i, faults) == Placed(pcs, i, l)
    ensures Alone(b, s, i, faults + [fault]) == Placed(pcs, i, Next(b, b.items[i], l, fault))
  {
    hide Next, Step, Placed, Alone;
    OneMore(b, s, i, faults, fault);
    StepPlaced(b, pcs, i, l, fault);
  }

  lemma WaitingIsThere(store: Entries, pcs: seq<Pc>, i: nat)
    requires i < |pcs| && pcs[i] == Waiting
    ensures State(store, pcs) == Placed(pcs, i, Local(store, Waiting))
  {
  }

  /** `bulk_one` and `copy_entry_into` for a move: the calls it makes on the
      store are turns of the protocol, and its verdict is the one reached. */
  method BulkOne(store: Store, b: Batch, i: nat, ghost pcs: seq<Pc>) returns (v: Verdict, ghost faults: seq<bool>)
    requires i < |b.items| == |pcs| && pcs[i] == Waiting
    modifies store
    ensures Alone(b, State(old(store.entries), pcs), i, faults) == Placed(pcs, i, Local(store.entries, Finished(v)))
  {
    hide Candidates, Alone, Placed;
    var src := b.items[i];
    ghost var s := State(store.entries, pcs);
    faults := [];
    NoTurns(b, s, i);
    assert s == Placed(pcs, i, Local(store.entries, Waiting)) by { WaitingIsThere(store.entries, pcs, i); }
    if src.scope == b.scope && src.folder == b.folder {
      AloneNext(b, s, i, faults, pcs, Local(store.entries, Waiting), false);
      return Skipped, faults + [false];
    }
    var got := store.GetEntry(src);
    AloneNext(b, s, i, faults, pcs, Local(store.entries, Waiting), got.Err?);
    faults := faults + [got.Err?];
    if got.Err? { return CallFailed, faults; }
    var full := got.value;
    var names := RenameCandidates(src.name, b.rename);
    var tried := 0;
    while tried < |names|
      invariant tried <= |names| && names == Candidates(src.name, b.rename)
      invariant Alone(b, s, i, faults) == Placed(pcs, i, Local(store.entries, Copying(full, tried)))
    {
      var name := names[tried];
      ghost var before := store.entries;
      var put := store.PutEntryIfAbsent(Target(b, name), full);
      AloneNext(b, s, i, faults, pcs, Local(before, Copying(full, tried)), put.Err?);
      faults := faults + [put.Err?];
      if put.Err? { return CallFailed, faults; }
      if put.value {
        ghost var copied := store.entries;
        var removed := store.DeleteEntry(src);
        AloneNext(b, s, i, faults, pcs, Local(copied, Copied(name)), removed.Err?);
        faults := faults + [removed.Err?];
        if removed.Err? { return NotRemoved(name), faults; }
        return MovedTo(name), faults;
      }
      tried := tried + 1;
    }
    AloneNext(b, s, i, faults, pcs, Local(store.entries, Copying(full, tried)), false);
    faults := faults + [false];
    v := if b.rename then NoFreeName else Skipped;
  }
}
