/** The address book change log: a bounded ring that answers "what changed since
    version N", checked against an unbounded history. */
module ChangeLog {
  import opened Bytes

  datatype Kind = Entries | Tree | All

  datatype Change = Change(scope: string, folder: string, kind: Kind)

  const ALL_CHANGE := Change("*", "", All)
  const TREE_ANYWHERE := Change("*", "", Tree)
  const AB_CHANGE_LOG_LEN: nat := 512
  const AB_VERSION_MAX_CHECKED_ROWS: nat := 32

  datatype Logged = Logged(version: nat, change: Change)

  // ---- the unbounded history ----

  /** Everything ever recorded: element `i` is the set of version `i + 1`. */
  type History = seq<seq<Change>>

  function Tag(changes: seq<Change>, version: nat): (r: seq<Logged>)
    ensures |r| == |changes| && forall i :: 0 <= i < |r| ==> r[i] == Logged(version, changes[i])
  {
    seq(|changes|, i requires 0 <= i < |changes| => Logged(version, changes[i]))
  }

  /** Every change ever recorded, oldest first, with its version. */
  function Flat(h: History): seq<Logged> {
    if h == [] then [] else Flat(h[..|h| - 1]) + Tag(h[|h| - 1], |h|)
  }

  /** Versions never fall, start at 1 or later, and stay at most `top`. */
  ghost predicate Sorted(f: seq<Logged>, top: nat) {
    && (forall i :: 0 <= i < |f| ==> 1 <= f[i].version <= top)
    && (forall i, j :: 0 <= i < j < |f| ==> f[i].version <= f[j].version)
  }

  lemma {:induction false} FlatIsSorted(h: History)
    ensures Sorted(Flat(h), |h|)
  {
    if h != [] {
      FlatIsSorted(h[..|h| - 1]);
    }
  }

  /** The changes of all versions above `n`. */
  function Newer(h: History, n: nat): seq<Change>
    decreases |h|
  {
    if n >= |h| then [] else Newer(h[..|h| - 1], n) + h[|h| - 1]
  }

  /** First occurrences only. */
  function Dedup(cs: seq<Change>): seq<Change> {
    if cs == [] then []
    else
      var before, last := Dedup(cs[..|cs| - 1]), cs[|cs| - 1];
      if last in before then before else before + [last]
  }

  lemma SameFirst(before: seq<Change>, last: Change, c: Change)
    requires c in before
    ensures c in before + [last] && FirstAt(before + [last], c) == FirstAt(before, c)
  {
    var i, j := FirstAt(before, c), FirstAt(before + [last], c);
    assert (before + [last])[..i] == before[..i];
    assert (before + [last])[i] == c && (before + [last])[j] == c;
  }

  lemma {:induction false} DedupKeepsAll(cs: seq<Change>)
    ensures forall c :: c in Dedup(cs) <==> c in cs
    ensures forall i, j :: 0 <= i < j < |Dedup(cs)| ==> Dedup(cs)[i] != Dedup(cs)[j]
  {
    if cs != [] {
      var before, last := cs[..|cs| - 1], cs[|cs| - 1];
      DedupKeepsAll(before);
      assert forall c :: c in cs <==> c in before || c == last;
    }
  }

  lemma OneMoreInOrder(ys: seq<Change>, before: seq<Change>, last: Change)
    requires InFirstOrder(ys, before)
    ensures InFirstOrder(ys, before + [last])
    ensures last !in before ==> InFirstOrder(ys + [last], before + [last])
  {
    forall i | 0 <= i < |ys|
      ensures ys[i] in before + [last] && FirstAt(before + [last], ys[i]) == FirstAt(before, ys[i])
    {
      SameFirst(before, last, ys[i]);
    }
    assert last in before + [last];
  }

  lemma NothingInOrder()
    ensures InFirstOrder<Change>([], [])
  {
  }

  /** Deduplication loses nothing, repeats nothing, and keeps the order of first
      mention. */
  lemma {:induction false} DedupIsExact(cs: seq<Change>)
    ensures forall c :: c in Dedup(cs) <==> c in cs
    ensures forall i, j :: 0 <= i < j < |Dedup(cs)| ==> Dedup(cs)[i] != Dedup(cs)[j]
    ensures InFirstOrder(Dedup(cs), cs)
  {
    hide InFirstOrder;
    DedupKeepsAll(cs);
    if cs == [] {
      assert InFirstOrder(Dedup(cs), cs) by { NothingInOrder(); }
    } else {
      var before, last := cs[..|cs| - 1], cs[|cs| - 1];
      DedupIsExact(before);
      OneMoreInOrder(Dedup(before), before, last);
      assert cs == before + [last];
    }
  }

  predicate HasAll(cs: seq<Change>) { exists i :: 0 <= i < |cs| && cs[i].kind == All }

  /** What a page needs to hear about these changes. */
  function Digest(cs: seq<Change>): seq<Change> { if HasAll(cs) then [ALL_CHANGE] else Dedup(cs) }

  // ---- the ring against the history ----

  ghost function Watermark(f: seq<Logged>): nat
    requires f != []
  {
    if |f| > AB_CHANGE_LOG_LEN then f[|f| - AB_CHANGE_LOG_LEN - 1].version + 1 else f[0].version
  }

  /** The ring and its watermark hold exactly the newest part of `f`: the
      watermark is the version after the last evicted change, or the first
      version with a change when nothing was evicted. */
  ghost predicate Tracks(recent: seq<Logged>, oldestComplete: nat, f: seq<Logged>) {
    && (|f| <= AB_CHANGE_LOG_LEN ==> recent == f)
    && (|f| > AB_CHANGE_LOG_LEN ==> recent == f[|f| - AB_CHANGE_LOG_LEN..])
    && (f != [] ==> oldestComplete == Watermark(f))
  }

  /** Whether some change newer than `n` has been evicted. */
  ghost predicate Evicted(h: History, n: nat) {
    var f := Flat(h);
    exists i :: 0 <= i < |f| - AB_CHANGE_LOG_LEN && f[i].version > n
  }

  /** `n` precedes leading versions that recorded nothing. */
  ghost predicate BeforeFirst(h: History, n: nat) {
    Flat(h) != [] && n + 1 < Flat(h)[0].version
  }

  /** Exactly when `since(n)` refuses to answer with a list. */
  ghost predicate Refuses(h: History, n: nat) {
    n > |h| || (n < |h| && (Flat(h) == [] || BeforeFirst(h, n) || Evicted(h, n)))
  }

  lemma WatermarkDecides(h: History, n: nat)
    requires Flat(h) != []
    ensures n + 1 < Watermark(Flat(h)) <==> BeforeFirst(h, n) || Evicted(h, n)
  {
    hide Flat;
    FlatIsSorted(h);
    var f := Flat(h);
    if |f| > AB_CHANGE_LOG_LEN {
      var last := |f| - AB_CHANGE_LOG_LEN - 1;
      assert f[0].version <= f[last].version;
    }
  }

  lemma {:induction false} FirstVersionIsOne(h: History)
    requires h != [] && h[0] != []
    ensures Flat(h) != [] && Flat(h)[0].version == 1
  {
    if |h| > 1 {
      FirstVersionIsOne(h[..|h| - 1]);
    } else {
      assert h[..|h| - 1] == [];
    }
  }

  lemma EvictedIsOld(h: History, n: nat)
    ensures Evicted(h, n) ==> n < |h|
  {
    hide Flat;
    FlatIsSorted(h);
  }

  /** When no recorded set is empty, it refuses only a page ahead of the log or
      one that missed an evicted change. */
  lemma RefusesOnlyWhenEvicted(h: History, n: nat)
    requires forall i :: 0 <= i < |h| ==> h[i] != []
    ensures Refuses(h, n) <==> n > |h| || Evicted(h, n)
  {
    if h != [] {
      FirstVersionIsOne(h);
    }
    EvictedIsOld(h, n);
  }

  lemma {:induction false} FirstVersionIsLater(h: History)
    requires h != [] && h[0] == []
    ensures Flat(h) != [] ==> Flat(h)[0].version > 1
  {
    if |h| > 1 {
      FirstVersionIsLater(h[..|h| - 1]);
    } else {
      assert h[..|h| - 1] == [];
    }
  }

  /** Without that condition it may refuse though nothing was evicted: a first
      version that recorded nothing hides behind the watermark. */
  lemma EmptyFirstVersionRefuses(h: History)
    requires h != [] && h[0] == [] && Flat(h) != [] && |Flat(h)| <= AB_CHANGE_LOG_LEN
    ensures Refuses(h, 0) && !Evicted(h, 0)
  {
    FirstVersionIsLater(h);
  }

  function Filter(f: seq<Logged>, n: nat): seq<Change> {
    if f == [] then []
    else
      var before, last := Filter(f[..|f| - 1], n), f[|f| - 1];
      if last.version <= n then before else before + [last.change]
  }

  lemma {:induction false} FilterConcat(a: seq<Logged>, b: seq<Logged>, n: nat)
    ensures Filter(a + b, n) == Filter(a, n) + Filter(b, n)
  {
    if b == [] {
      assert a + b == a;
    } else {
      assert (a + b)[..|a + b| - 1] == a + b[..|b| - 1];
      FilterConcat(a, b[..|b| - 1], n);
    }
  }

  lemma {:induction false} FilterOld(f: seq<Logged>, n: nat)
    requires forall i :: 0 <= i < |f| ==> f[i].version <= n
    ensures Filter(f, n) == []
  {
    if f != [] {
      FilterOld(f[..|f| - 1], n);
    }
  }

  lemma {:induction false} FilterNew(changes: seq<Change>, version: nat, n: nat)
    requires version > n
    ensures Filter(Tag(changes, version), n) == changes
  {
    if changes != [] {
      var before := changes[..|changes| - 1];
      assert Tag(changes, version)[..|changes| - 1] == Tag(before, version);
      FilterNew(before, version, n);
    }
  }

  lemma {:induction false} FilterFlat(h: History, n: nat)
    ensures Filter(Flat(h), n) == Newer(h, n)
  {
    hide Filter, Tag;
    if n >= |h| {
      FlatIsSorted(h);
      FilterOld(Flat(h), n);
    } else {
      var before := h[..|h| - 1];
      FilterConcat(Flat(before), Tag(h[|h| - 1], |h|), n);
      FilterNew(h[|h| - 1], |h|, n);
      FilterFlat(before, n);
    }
  }

  /** In a sorted log what is newer than `n` is its last part. */
  lemma {:induction false} FilterIsLastPart(f: seq<Logged>, n: nat, top: nat)
    requires Sorted(f, top)
    ensures |Filter(f, n)| <= |f|
    ensures forall i :: 0 <= i < |f| ==> (f[i].version > n <==> i >= |f| - |Filter(f, n)|)
  {
    if f != [] {
      if f[|f| - 1].version <= n {
        FilterOld(f, n);
      } else {
        FilterIsLastPart(f[..|f| - 1], n, top);
      }
    }
  }

  /** With no empty set, a page is refused if and only if it is ahead of the log or
      more than 512 changes behind. */
  lemma RefusesBeyond512(h: History, n: nat)
    requires forall i :: 0 <= i < |h| ==> h[i] != []
    ensures Refuses(h, n) <==> n > |h| || |Newer(h, n)| > 512
  {
    hide Flat, Filter, Newer, Refuses;
    var f := Flat(h);
    RefusesOnlyWhenEvicted(h, n);
    FlatIsSorted(h);
    FilterFlat(h, n);
    FilterIsLastPart(f, n, |h|);
    if |Newer(h, n)| > 512 {
      assert f[|f| - |Newer(h, n)|].version > n;
    }
  }

  /** The part of the ring above `n` is the whole history above `n`, unless the
      watermark says otherwise. */
  lemma RingHoldsNewer(recent: seq<Logged>, oldestComplete: nat, h: History, n: nat)
    requires Tracks(recent, oldestComplete, Flat(h)) && Flat(h) != [] && n + 1 >= oldestComplete
    ensures Filter(recent, n) == Newer(h, n)
  {
    hide Filter, Flat;
    FilterFlat(h, n);
    FlatIsSorted(h);
    var f := Flat(h);
    if |f| > AB_CHANGE_LOG_LEN {
      var gone := f[..|f| - AB_CHANGE_LOG_LEN];
      assert f == gone + recent;
      FilterConcat(gone, recent, n);
      FilterOld(gone, n);
    }
  }

  /** The specification of `since`. */
  ghost function AnswerTo(h: History, n: nat): Option<seq<Change>> {
    if Refuses(h, n) then None else Some(Digest(Newer(h, n)))
  }

  // ---- what a caller who is not an admin may hear ----

  /** Outcome of the folder access check for one row. */
  datatype Access = Granted | Denied | Missing | Unavailable

  /** The rows kept, and whether the path-less tree marker is needed. */
  function Checked(changes: seq<Change>, check: Change -> Access): (seq<Change>, bool) {
    if changes == [] then ([], false)
    else
      var (rows, tree) := Checked(changes[..|changes| - 1], check);
      var c := changes[|changes| - 1];
      if c.kind != Entries then (rows, true)
      else
        match check(c)
        case Granted => (rows + [c], tree)
        case Denied => (rows, tree)
        case Missing => (rows, tree)
        case Unavailable => (rows, true)
  }

  /** `ab_changes_visible_to`. */
  function VisibleTo(changes: seq<Change>, check: Change -> Access): seq<Change> {
    if HasAll(changes) then [ALL_CHANGE]
    else if |changes| > AB_VERSION_MAX_CHECKED_ROWS then [TREE_ANYWHERE]
    else
      var (rows, tree) := Checked(changes, check);
      if tree then rows + [TREE_ANYWHERE] else rows
  }

  /** A row that names no folder and makes the page refresh. */
  predicate IsMarker(c: Change) { c == ALL_CHANGE || c == TREE_ANYWHERE }

  predicate Lists(answer: seq<Change>, c: Change) { c in answer || ALL_CHANGE in answer }

  /** Nothing further is owed for `c`: it was listed, or swallowed by a marker. */
  predicate Covered(answer: seq<Change>, c: Change) { c in answer || ALL_CHANGE in answer || TREE_ANYWHERE in answer }

  /** An Entries row the caller may not hear about. */
  predicate Withheld(check: Change -> Access, c: Change) {
    c.kind == Entries && (check(c) == Denied || check(c) == Missing)
  }

  lemma {:induction false} CheckedRows(changes: seq<Change>, check: Change -> Access)
    ensures var (rows, tree) := Checked(changes, check);
            && (forall c :: c in rows ==> c in changes && c.kind == Entries && check(c) == Granted)
            && (forall c :: c in changes ==> c in rows || tree || Withheld(check, c))
  {
    if changes != [] {
      var before, last := changes[..|changes| - 1], changes[|changes| - 1];
      CheckedRows(before, check);
      assert forall c :: c in changes <==> c in before || c == last;
    }
  }

  /** The filter names only folders whose check succeeded, and owes nothing for
      any row but those it must withhold. */
  lemma FilterIsTightAndComplete(changes: seq<Change>, check: Change -> Access)
    ensures var out := VisibleTo(changes, check);
            && (forall c :: c in out ==> IsMarker(c) || (c in changes && c.kind == Entries && check(c) == Granted))
            && (forall c :: c in changes ==> Covered(out, c) || Withheld(check, c))
  {
    CheckedRows(changes, check);
    var (rows, tree) := Checked(changes, check);
    var out := VisibleTo(changes, check);
    if !HasAll(changes) && |changes| <= AB_VERSION_MAX_CHECKED_ROWS && tree {
      assert out[|rows|] == TREE_ANYWHERE;
      assert TREE_ANYWHERE in out;
    }
  }

  /** The Entries rows whose check succeeded, in order. */
  function GrantedRows(changes: seq<Change>, check: Change -> Access): seq<Change> {
    if changes == [] then []
    else
      var rest := GrantedRows(changes[1..], check);
      if changes[0].kind == Entries && check(changes[0]) == Granted then [changes[0]] + rest else rest
  }

  lemma {:induction false} GrantedConcat(a: seq<Change>, b: seq<Change>, check: Change -> Access)
    ensures GrantedRows(a + b, check) == GrantedRows(a, check) + GrantedRows(b, check)
  {
    if a == [] {
      assert a + b == b;
    } else {
      assert (a + b)[1..] == a[1..] + b;
      GrantedConcat(a[1..], b, check);
    }
  }

  /** A row that has to be told without naming its folder. */
  predicate NeedsMarker(c: Change, check: Change -> Access) {
    c.kind == Tree || (c.kind == Entries && check(c) == Unavailable)
  }

  lemma {:induction false} CheckedExactly(changes: seq<Change>, check: Change -> Access)
    requires !HasAll(changes)
    ensures var (rows, tree) := Checked(changes, check);
            && rows == GrantedRows(changes, check)
            && (tree <==> exists c :: c in changes && NeedsMarker(c, check))
  {
    if changes != [] {
      var before, last := changes[..|changes| - 1], changes[|changes| - 1];
      CheckedExactly(before, check);
      assert changes == before + [last];
      GrantedConcat(before, [last], check);
      assert [last][1..] == [];
      assert last in changes && last.kind != All;
    }
  }

  lemma {:induction false} GrantedAreEntries(changes: seq<Change>, check: Change -> Access)
    ensures forall c :: c in GrantedRows(changes, check) ==> c.kind == Entries
  {
    if changes != [] {
      GrantedAreEntries(changes[1..], check);
    }
  }

  /** Exactly what the caller hears: the path-less markers only when they are due,
      and otherwise the granted rows, in order. A denied or missing row leaves no
      trace. */
  lemma FilterIsExact(changes: seq<Change>, check: Change -> Access)
    ensures var out := VisibleTo(changes, check);
            var all := exists c :: c in changes && c.kind == All;
            var marker := |changes| > 32 || exists c :: c in changes && NeedsMarker(c, check);
            && (ALL_CHANGE in out <==> all)
            && (TREE_ANYWHERE in out <==> !all && marker)
            && (all ==> out == [ALL_CHANGE])
            && (!all && |changes| > 32 ==> out == [TREE_ANYWHERE])
            && (!all && |changes| <= 32 ==> out == GrantedRows(changes, check) + if marker then [TREE_ANYWHERE] else [])
  {
    hide Checked, GrantedRows;
    if c :| c in changes && c.kind == All {
      assert HasAll(changes);
    } else {
      assert !HasAll(changes);
      CheckedExactly(changes, check);
      GrantedAreEntries(changes, check);
    }
  }

  // ---- a page polling ----

  datatype Event = Recorded(changes: seq<Change>) | Polled(check: Change -> Access)

  /** One poll: the versions it was asked about, the log's answer, and what the
      caller was shown of it. */
  datatype Poll = Poll(
    after: nat,
    upTo: nat,
    check: Change -> Access,
    answer: Option<seq<Change>>,
    shown: Option<seq<Change>>)

  datatype Session = Session(history: History, cursor: nat, polls: seq<Poll>)

  ghost function Step(s: Session, e: Event): Session {
    match e
    case Recorded(changes) => s.(history := s.history + [changes])
    case Polled(check) =>
      var answer := AnswerTo(s.history, s.cursor);
      var shown := if answer == None then None else Some(VisibleTo(answer.value, check));
      Session(s.history, |s.history|, s.polls + [Poll(s.cursor, |s.history|, check, answer, shown)])
  }

  ghost function Run(s: Session, events: seq<Event>): Session {
    if events == [] then s else Step(Run(s, events[..|events| - 1]), events[|events| - 1])
  }

  /** The log's answer lists `c`, or says that all changed, or refuses and so
      makes the page refresh. */
  ghost predicate Told(p: Poll, c: Change) { p.answer == None || Lists(p.answer.value, c) }

  ghost predicate Shown(p: Poll, c: Change) {
    p.shown == None || Covered(p.shown.value, c) || Withheld(p.check, c)
  }

  ghost predicate ToldOf(polls: seq<Poll>, version: nat, c: Change) {
    exists i :: 0 <= i < |polls| && polls[i].after < version <= polls[i].upTo && Told(polls[i], c) && Shown(polls[i], c)
  }

  /** Every change above `start` up to the cursor has been told. */
  ghost predicate NothingMissed(s: Session, start: nat) {
    && start <= s.cursor <= |s.history|
    && forall v, c :: start < v <= s.cursor && c in s.history[v - 1] ==> ToldOf(s.polls, v, c)
  }

  lemma {:induction false} NewerContains(h: History, n: nat, v: nat, c: Change)
    requires n < v <= |h| && c in h[v - 1]
    ensures c in Newer(h, n)
  {
    if v < |h| {
      NewerContains(h[..|h| - 1], n, v, c);
    }
  }

  lemma DigestLists(cs: seq<Change>, c: Change)
    requires c in cs
    ensures Lists(Digest(cs), c)
  {
    hide Dedup;
    DedupIsExact(cs);
  }

  lemma MarkersSurvive(changes: seq<Change>, check: Change -> Access)
    ensures ALL_CHANGE in changes || TREE_ANYWHERE in changes ==>
              ALL_CHANGE in VisibleTo(changes, check) || TREE_ANYWHERE in VisibleTo(changes, check)
  {
    FilterIsTightAndComplete(changes, check);
  }

  lemma PollTells(s: Session, check: Change -> Access, v: nat, c: Change)
    requires s.cursor < v <= |s.history| && c in s.history[v - 1]
    ensures var p := Step(s, Polled(check)).polls[|s.polls|];
            p.after < v <= p.upTo && Told(p, c) && Shown(p, c)
  {
    hide Refuses, Digest, Newer, VisibleTo, Withheld;
    var p := Step(s, Polled(check)).polls[|s.polls|];
    if p.answer.Some? {
      NewerContains(s.history, s.cursor, v, c);
      DigestLists(Newer(s.history, s.cursor), c);
      FilterIsTightAndComplete(p.answer.value, check);
      MarkersSurvive(p.answer.value, check);
    }
  }

  lemma StepMissesNothing(s: Session, e: Event, start: nat)
    requires NothingMissed(s, start)
    ensures NothingMissed(Step(s, e), start)
  {
    hide AnswerTo, VisibleTo, Told, Shown;
    var s' := Step(s, e);
    forall v, c | start < v <= s'.cursor && c in s'.history[v - 1]
      ensures ToldOf(s'.polls, v, c)
    {
      if v <= s.cursor {
        assert ToldOf(s.polls, v, c);
        var i :| 0 <= i < |s.polls| && s.polls[i].after < v <= s.polls[i].upTo
                 && Told(s.polls[i], c) && Shown(s.polls[i], c);
        assert s'.polls[i] == s.polls[i];
      } else {
        PollTells(s, e.check, v, c);
      }
    }
  }

  /** However polls and changes interleave, if each poll passes the version the
      last answer returned, every change recorded since the page started was
      listed, swallowed by a marker, covered by a refusal, or rightly withheld. */
  lemma {:induction false} NoMissedChange(s: Session, events: seq<Event>)
    requires s.cursor <= |s.history|
    ensures NothingMissed(Run(s, events), s.cursor)
  {
    hide Step;
    if events != [] {
      NoMissedChange(s, events[..|events| - 1]);
      StepMissesNothing(Run(s, events[..|events| - 1]), events[|events| - 1], s.cursor);
    }
  }

  // ---- steps of the loops ----

  lemma FlatExtends(h: History, changes: seq<Change>)
    ensures Flat(h + [changes]) == Flat(h) + Tag(changes, |h| + 1)
  {
    assert (h + [changes])[..|h|] == h;
  }

  lemma SortedAbove(f: seq<Logged>, top: nat, higher: nat)
    requires Sorted(f, top) && top <= higher
    ensures Sorted(f, higher)
  {
  }

  lemma SortedPush(f: seq<Logged>, l: Logged)
    requires Sorted(f, l.version) && l.version >= 1
    ensures Sorted(f + [l], l.version)
  {
  }

  lemma EmptyRing(recent: seq<Logged>, oldest: nat, f: seq<Logged>)
    requires Tracks(recent, oldest, f)
    ensures recent == [] <==> f == []
    ensures f == [] ==> forall mark :: Tracks(recent, mark, f)
  {
  }

  lemma PushTracks(recent: seq<Logged>, oldest: nat, f: seq<Logged>, l: Logged)
    requires Tracks(recent, oldest, f) && (f == [] ==> oldest == l.version)
    requires Sorted(f, l.version)
    ensures var full := |recent| >= AB_CHANGE_LOG_LEN;
            var kept := if full then recent[1..] else recent;
            var mark := if full && oldest < recent[0].version + 1 then recent[0].version + 1 else oldest;
            Tracks(kept + [l], mark, f + [l])
  {
    var g := f + [l];
    if |f| > AB_CHANGE_LOG_LEN {
      assert f[|f| - AB_CHANGE_LOG_LEN - 1].version <= f[|f| - AB_CHANGE_LOG_LEN].version;
    }
    if |g| > AB_CHANGE_LOG_LEN {
      assert recent[1..] + [l] == g[|g| - AB_CHANGE_LOG_LEN..];
    }
  }

  lemma NewerOfNothing(h: History, n: nat)
    ensures n >= |h| ==> Newer(h, n) == [] && Digest([]) == []
  {
  }

  lemma FilterStep(recent: seq<Logged>, i: nat, n: nat)
    requires i < |recent| && recent[i].version > n && recent[i].change.kind != All
    requires !HasAll(Filter(recent[..i], n))
    ensures !HasAll(Filter(recent[..i + 1], n))
    ensures Dedup(Filter(recent[..i + 1], n)) ==
            var before := Dedup(Filter(recent[..i], n));
            if recent[i].change in before then before else before + [recent[i].change]
  {
    assert recent[..i + 1][..i] == recent[..i];
    var g := Filter(recent[..i], n);
    assert (g + [recent[i].change])[..|g|] == g;
  }

  lemma FilterNothing(n: nat)
    ensures Filter([], n) == [] && !HasAll([]) && Dedup([]) == []
  {
  }

  lemma SkipStep(recent: seq<Logged>, i: nat, n: nat)
    requires i < |recent|
    ensures recent[i].version <= n ==> Filter(recent[..i + 1], n) == Filter(recent[..i], n)
  {
    assert recent[..i + 1][..i] == recent[..i];
  }

  lemma AllIsFound(recent: seq<Logged>, i: nat, n: nat)
    requires i < |recent| && recent[i].version > n && recent[i].change.kind == All
    ensures HasAll(Filter(recent, n)) && Digest(Filter(recent, n)) == [ALL_CHANGE]
  {
    hide Dedup;
    assert recent == recent[..i + 1] + recent[i + 1..];
    FilterConcat(recent[..i + 1], recent[i + 1..], n);
    assert recent[..i + 1][..i] == recent[..i];
    var k := |Filter(recent[..i], n)|;
    assert Filter(recent, n)[k] == recent[i].change;
  }

  lemma DigestWithoutAll(cs: seq<Change>)
    requires !HasAll(cs)
    ensures Digest(cs) == Dedup(cs)
  {
  }

  // ---- the code ----

  datatype Since = Since(version: nat, changedAtMs: nat, changes: Option<seq<Change>>)

  class AddressBookChanges {
    var version: nat
    var changedAtMs: nat
    var recent: seq<Logged>
    var oldestComplete: nat
    /** Everything recorded, which the code does not keep. */
    ghost var history: History

    ghost predicate Valid()
      reads this
    {
      version == |history| && Tracks(recent, oldestComplete, Flat(history))
    }

    constructor ()
      ensures Valid() && history == [] && changedAtMs == 0
    {
      version, changedAtMs, recent, oldestComplete, history := 0, 0, [], 0, [];
    }

    /** `record`: logs a change set under one new version. */
    method Record(changes: seq<Change>, nowMs: nat) returns (v: nat)
      requires Valid()
      modifies this
      ensures Valid() && history == old(history) + [changes]
      ensures v == version == old(version) + 1 && changedAtMs == nowMs
    {
      hide Flat, Tracks, Tag, Sorted;
      EmptyRing(recent, oldestComplete, Flat(history));
      FlatIsSorted(history);
      SortedAbove(Flat(history), version, version + 1);
      version, changedAtMs := version + 1, nowMs;
      v := version;
      if recent == [] {
        oldestComplete := v;
      }
      ghost var f := Flat(history);
      assert Tag([], v) == [] && f + [] == f;
      for i := 0 to |changes|
        invariant version == v == |history| + 1 && changedAtMs == nowMs && history == old(history)
        invariant Tracks(recent, oldestComplete, f + Tag(changes[..i], v))
        invariant Sorted(f + Tag(changes[..i], v), v)
        invariant f + Tag(changes[..i], v) == [] ==> oldestComplete == v
      {
        ghost var g := f + Tag(changes[..i], v);
        assert f + Tag(changes[..i + 1], v) == g + [Logged(v, changes[i])];
        SortedPush(g, Logged(v, changes[i]));
        Push(Logged(v, changes[i]), g);
      }
      assert changes[..|changes|] == changes;
      history := history + [changes];
      FlatExtends(old(history), changes);
    }

    /** One turn of the loop in `record`: evict if full, then append. */
    method Push(l: Logged, ghost f: seq<Logged>)
      requires Tracks(recent, oldestComplete, f) && (f == [] ==> oldestComplete == l.version)
      requires Sorted(f, l.version)
      modifies this`recent, this`oldestComplete
      ensures Tracks(recent, oldestComplete, f + [l])
    {
      PushTracks(recent, oldestComplete, f, l);
      if |recent| >= AB_CHANGE_LOG_LEN {
        var evicted := recent[0].version;
        recent := recent[1..];
        oldestComplete := if oldestComplete < evicted + 1 then evicted + 1 else oldestComplete;
      }
      recent := recent + [l];
    }

    /** `since`: everything logged after version `n`, or None. */
    method ChangesSince(n: nat) returns (r: Since)
      requires Valid()
      ensures r.version == |history| && r.changedAtMs == changedAtMs
      ensures r.changes == AnswerTo(history, n)
    {
      hide Flat, Newer, Digest, HasAll, Dedup, Filter, BeforeFirst, Evicted;
      NewerOfNothing(history, n);
      if n == version {
        return Since(version, changedAtMs, Some([]));
      }
      if Flat(history) != [] {
        WatermarkDecides(history, n);
      }
      if n > version || recent == [] || n + 1 < oldestComplete {
        return Since(version, changedAtMs, None);
      }
      RingHoldsNewer(recent, oldestComplete, history, n);
      var out: seq<Change> := [];
      var i := 0;
      FilterNothing(n);
      assert recent[..0] == [];
      while i < |recent|
        invariant 0 <= i <= |recent|
        invariant !HasAll(Filter(recent[..i], n)) && out == Dedup(Filter(recent[..i], n))
      {
        var logged := recent[i];
        SkipStep(recent, i, n);
        if logged.version > n {
          if logged.change.kind == All {
            AllIsFound(recent, i, n);
            return Since(version, changedAtMs, Some([ALL_CHANGE]));
          }
          FilterStep(recent, i, n);
          if logged.change !in out {
            out := out + [logged.change];
          }
        }
        i := i + 1;
      }
      assert recent[..|recent|] == recent;
      DigestWithoutAll(Newer(history, n));
      return Since(version, changedAtMs, Some(out));
    }
  }

  /** `ab_changes_visible_to` as the loop it is. */
  method VisibleRows(changes: seq<Change>, check: Change -> Access) returns (out: seq<Change>)
    ensures out == VisibleTo(changes, check)
  {
    if exists i :: 0 <= i < |changes| && changes[i].kind == All { return [ALL_CHANGE]; }
    if |changes| > AB_VERSION_MAX_CHECKED_ROWS { return [TREE_ANYWHERE]; }
    out := [];
    var tree := false;
    for i := 0 to |changes|
      invariant (out, tree) == Checked(changes[..i], check)
    {
      assert changes[..i + 1][..i] == changes[..i];
      var c := changes[i];
      if c.kind == Tree {
        tree := true;
      } else {
        match check(c)
        case Granted => out := out + [c];
        case Denied =>
        case Missing =>
        case Unavailable => tree := true;
      }
    }
    assert changes[..|changes|] == changes;
    if tree {
      out := out + [TREE_ANYWHERE];
    }
  }
}
