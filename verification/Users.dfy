/** OIDC logins against the user table: which row an email names, and to which
    subject that row is bound. */
module Users {
  import opened Bytes

  datatype User = User(email: string, name: string, subject: Option<string>, role: string, groups: string)

  /** The users table; ids are never reused. */
  datatype Table = Table(rows: map<nat, User>, nextId: nat)

  // ---- emails ----

  function LowerChar(c: char): char { if 'A' <= c <= 'Z' then c + 32 as char else c }

  /** SQL `lower()`, which folds ASCII letters only. */
  function Lower(s: string): (r: string)
    ensures |r| == |s| && forall i :: 0 <= i < |s| ==> r[i] == LowerChar(s[i])
  {
    seq(|s|, i requires 0 <= i < |s| => LowerChar(s[i]))
  }

  predicate SameEmail(a: string, b: string) { Lower(a) == Lower(b) }

  /** The characters are one letter of the alphabet, in either case. */
  predicate SameLetter(c: char, d: char) {
    || c == d
    || ('A' <= c <= 'Z' && d as int - 'a' as int == c as int - 'A' as int)
    || ('A' <= d <= 'Z' && c as int - 'a' as int == d as int - 'A' as int)
  }

  lemma SameLetterIff(c: char, d: char)
    ensures LowerChar(c) == LowerChar(d) <==> SameLetter(c, d)
  {
  }

  /** Two emails are the same if and only if they agree character by character,
      letters in either case. */
  lemma SameEmailIff(a: string, b: string)
    ensures SameEmail(a, b) <==> |a| == |b| && forall i :: 0 <= i < |a| ==> SameLetter(a[i], b[i])
  {
    hide Lower, SameLetter;
    if |a| == |b| {
      forall i | 0 <= i < |a|
        ensures LowerChar(a[i]) == LowerChar(b[i]) <==> SameLetter(a[i], b[i])
      {
        SameLetterIff(a[i], b[i]);
      }
      if SameEmail(a, b) {
        assert forall i :: 0 <= i < |a| ==> Lower(a)[i] == Lower(b)[i];
      }
    }
  }

  ghost predicate Exact(t: Table, email: string, id: nat) { id in t.rows && t.rows[id].email == email }

  ghost predicate Folded(t: Table, email: string, id: nat) { id in t.rows && SameEmail(t.rows[id].email, email) }

  datatype Match = One(id: nat) | NoMatch | Ambiguous

  /** `find_user_for_email`: an exact match, or else the only one ignoring case. */
  ghost predicate Names(t: Table, email: string, m: Match) {
    match m
    case One(id) =>
      || Exact(t, email, id)
      || ((forall j :: !Exact(t, email, j)) && Folded(t, email, id) && forall j :: Folded(t, email, j) ==> j == id)
    case NoMatch => forall j :: !Folded(t, email, j)
    case Ambiguous =>
      && (forall j :: !Exact(t, email, j))
      && exists i, j :: i != j && Folded(t, email, i) && Folded(t, email, j)
  }

  /** What the schema guarantees: emails differ exactly, ids are below the next. */
  ghost predicate SchemaOk(t: Table) {
    && (forall i, j :: i in t.rows && j in t.rows && i != j ==> t.rows[i].email != t.rows[j].email)
    && (forall i :: i in t.rows ==> i < t.nextId)
  }

  /** Emails differ even ignoring case. */
  ghost predicate FoldedUnique(t: Table) {
    && (forall i, j :: i in t.rows && j in t.rows && i != j ==> !SameEmail(t.rows[i].email, t.rows[j].email))
    && (forall i :: i in t.rows ==> i < t.nextId)
  }

  lemma FoldedUniqueIsSchemaOk(t: Table)
    requires FoldedUnique(t)
    ensures SchemaOk(t)
  {
    forall i, j | i in t.rows && j in t.rows && i != j
      ensures t.rows[i].email != t.rows[j].email
    {
      assert !SameEmail(t.rows[i].email, t.rows[j].email);
    }
  }

  /** Under the schema an email names at most one thing. */
  lemma NamesIsUnique(t: Table, email: string, m: Match, n: Match)
    requires SchemaOk(t) && Names(t, email, m) && Names(t, email, n)
    ensures m == n
  {
    hide Lower;
    if m.One? {
      assert Folded(t, email, m.id);
    }
    if n.One? {
      assert Folded(t, email, n.id);
    }
  }

  // ---- the operations ----

  datatype Op =
    | Login(email: string, name: string, subject: Option<string>, role: string, groups: string, create: bool)
    | CreateUser(email: string, name: string, role: string)
    | ResetSubject(email: string)
    | DeleteUser(email: string)

  datatype Outcome =
    | LoggedIn(id: nat)
    | SubjectMismatch
    | NoAccount
    | AmbiguousLogin
    | Created(id: nat)
    | Exists
    | Changed(ok: bool)

  function Insert(t: Table, u: User): Table { Table(t.rows[t.nextId := u], t.nextId + 1) }

  function SetSubject(t: Table, id: nat, subject: Option<string>): Table {
    if id in t.rows then t.(rows := t.rows[id := t.rows[id].(subject := subject)]) else t
  }

  ghost predicate LoginStep(t: Table, op: Op, m: Match, t': Table, o: Outcome)
    requires op.Login?
  {
    match m
    case Ambiguous => t' == t && o == AmbiguousLogin
    case NoMatch =>
      if op.create then
        t' == Insert(t, User(op.email, op.name, op.subject, op.role, op.groups)) && o == LoggedIn(t.nextId)
      else t' == t && o == NoAccount
    case One(id) =>
      && id in t.rows
      && var u := t.rows[id];
      if u.subject.Some? && op.subject.Some? && u.subject != op.subject then t' == t && o == SubjectMismatch
      else
        && t' == t.(rows := t.rows[id := u.(name := op.name, groups := op.groups,
                                            subject := if op.subject.Some? then op.subject else u.subject)])
        && o == LoggedIn(id)
  }

  /** One operation takes one table to another, with this outcome. */
  ghost predicate Step(t: Table, op: Op, t': Table, o: Outcome) {
    match op
    case Login(email, name, subject, role, groups, create) =>
      exists m :: Names(t, email, m) && LoginStep(t, op, m, t', o)
    case CreateUser(email, name, role) =>
      if exists j :: Folded(t, email, j) then t' == t && o == Exists
      else t' == Insert(t, User(email, name, None, role, "")) && o == Created(t.nextId)
    case ResetSubject(email) =>
      exists m :: Names(t, email, m)
        && (if m.One? then t' == SetSubject(t, m.id, None) && o == Changed(true) else t' == t && o == Changed(false))
    case DeleteUser(email) =>
      && t'.nextId == t.nextId
      && (forall j :: j in t'.rows <==> j in t.rows && t.rows[j].email != email)
      && (forall j :: j in t'.rows ==> t'.rows[j] == t.rows[j])
      && (o.Changed? && (o.ok <==> exists j :: Exact(t, email, j)))
  }

  // ---- every run ----

  /** A run: the tables it passes through and the outcome of each operation. */
  ghost predicate IsRun(tables: seq<Table>, ops: seq<Op>, outcomes: seq<Outcome>) {
    && |tables| == |ops| + 1 && |outcomes| == |ops|
    && forall i :: 0 <= i < |ops| ==> Step(tables[i], ops[i], tables[i + 1], outcomes[i])
  }

  lemma InsertKeepsUnique(t: Table, u: User)
    requires FoldedUnique(t) && forall j :: !Folded(t, u.email, j)
    ensures FoldedUnique(Insert(t, u))
  {
    hide Lower;
    forall i, j | i in Insert(t, u).rows && j in Insert(t, u).rows && i != j
      ensures !SameEmail(Insert(t, u).rows[i].email, Insert(t, u).rows[j].email)
    {
      assert i in t.rows ==> !Folded(t, u.email, i);
      assert j in t.rows ==> !Folded(t, u.email, j);
    }
  }

  lemma NeverAmbiguous(t: Table, email: string)
    requires FoldedUnique(t)
    ensures !Names(t, email, Ambiguous)
  {
    hide Lower;
  }

  lemma StepKeepsUnique(t: Table, op: Op, t': Table, o: Outcome)
    requires FoldedUnique(t) && Step(t, op, t', o)
    ensures FoldedUnique(t') && o != AmbiguousLogin
  {
    hide Lower, SameEmail;
    match op
    case Login(email, name, subject, role, groups, create) =>
      var m :| Names(t, email, m) && LoginStep(t, op, m, t', o);
      NeverAmbiguous(t, email);
      if m == NoMatch && create {
        InsertKeepsUnique(t, User(email, name, subject, role, groups));
      }
    case CreateUser(email, name, role) =>
      if forall j :: !Folded(t, email, j) {
        InsertKeepsUnique(t, User(email, name, None, role, ""));
      }
    case ResetSubject(email) =>
    case DeleteUser(email) =>
  }

  /** From a table whose emails differ ignoring case, every run of logins,
      creations, resets and deletions keeps them so, and no login is ever
      ambiguous. */
  lemma {:induction false} EmailsStayUnique(tables: seq<Table>, ops: seq<Op>, outcomes: seq<Outcome>, n: nat)
    requires IsRun(tables, ops, outcomes) && FoldedUnique(tables[0]) && n <= |ops|
    ensures FoldedUnique(tables[n])
    ensures forall i :: 0 <= i < n ==> outcomes[i] != AmbiguousLogin
  {
    hide FoldedUnique, Step;
    if n > 0 {
      EmailsStayUnique(tables, ops, outcomes, n - 1);
      StepKeepsUnique(tables[n - 1], ops[n - 1], tables[n], outcomes[n - 1]);
    }
  }

  /** The operation resets or deletes this very user. */
  ghost predicate Releases(t: Table, op: Op, id: nat) {
    || (op.ResetSubject? && Names(t, op.email, One(id)))
    || (op.DeleteUser? && Exact(t, op.email, id))
  }

  ghost predicate BoundTo(t: Table, id: nat, subject: string) { id in t.rows && t.rows[id].subject == Some(subject) }

  /** A bound user stays bound to the same subject, and keeps its email, through
      any operation that does not reset or delete it. */
  lemma StepKeepsSubject(t: Table, op: Op, t': Table, o: Outcome, id: nat, subject: string)
    requires SchemaOk(t) && Step(t, op, t', o) && BoundTo(t, id, subject) && !Releases(t, op, id)
    ensures BoundTo(t', id, subject) && t'.rows[id].email == t.rows[id].email
  {
    hide Lower, SameEmail;
    match op
    case Login(email, name, sub, role, groups, create) =>
      var m :| Names(t, email, m) && LoginStep(t, op, m, t', o);
    case CreateUser(email, name, role) =>
    case ResetSubject(email) =>
      var m :| Names(t, email, m)
        && (if m.One? then t' == SetSubject(t, m.id, None) && o == Changed(true) else t' == t && o == Changed(false));
    case DeleteUser(email) =>
  }

  /** Over a whole run, a subject once bound is changed by nothing but a reset
      or a deletion of that user. */
  lemma {:induction false} SubjectStaysBound(tables: seq<Table>, ops: seq<Op>, outcomes: seq<Outcome>, id: nat,
                                              subject: string, n: nat)
    requires IsRun(tables, ops, outcomes) && FoldedUnique(tables[0]) && n <= |ops|
    requires BoundTo(tables[0], id, subject)
    requires forall i :: 0 <= i < n ==> !Releases(tables[i], ops[i], id)
    ensures BoundTo(tables[n], id, subject)
  {
    hide FoldedUnique, Step, SchemaOk, Releases, BoundTo;
    if n > 0 {
      SubjectStaysBound(tables, ops, outcomes, id, subject, n - 1);
      EmailsStayUnique(tables, ops, outcomes, n - 1);
      FoldedUniqueIsSchemaOk(tables[n - 1]);
      StepKeepsSubject(tables[n - 1], ops[n - 1], tables[n], outcomes[n - 1], id, subject);
    }
  }

  /** A login as a bound user succeeds exactly when it carries that subject or
      none; any other is refused and changes nothing. */
  lemma BoundLogin(t: Table, op: Op, t': Table, o: Outcome, id: nat, subject: string)
    requires SchemaOk(t) && op.Login? && Step(t, op, t', o)
    requires Names(t, op.email, One(id)) && BoundTo(t, id, subject)
    ensures o == LoggedIn(id) <==> op.subject == None || op.subject == Some(subject)
    ensures op.subject.Some? && op.subject.value != subject ==> o == SubjectMismatch && t' == t
  {
    hide Lower, SameEmail;
    var m :| Names(t, op.email, m) && LoginStep(t, op, m, t', o);
    NamesIsUnique(t, op.email, m, One(id));
  }

  lemma OtherRowLogsIn(t: Table, op: Op, t': Table, o: Outcome, id: nat, subject: string)
    requires SchemaOk(t) && op.Login? && Step(t, op, t', o) && BoundTo(t, id, subject) && !Names(t, op.email, One(id))
    ensures o != LoggedIn(id)
  {
    hide Lower, SameEmail;
    var m :| Names(t, op.email, m) && LoginStep(t, op, m, t', o);
  }

  /** Until it is reset or deleted, no login with another subject gets in as a
      bound user, at any point of any run. */
  lemma NoOtherSubjectLogsIn(tables: seq<Table>, ops: seq<Op>, outcomes: seq<Outcome>, id: nat, subject: string, n: nat)
    requires IsRun(tables, ops, outcomes) && FoldedUnique(tables[0]) && n < |ops| && BoundTo(tables[0], id, subject)
    requires forall i :: 0 <= i < n ==> !Releases(tables[i], ops[i], id)
    requires ops[n].Login? && ops[n].subject.Some? && ops[n].subject.value != subject
    ensures outcomes[n] != LoggedIn(id)
    ensures Names(tables[n], ops[n].email, One(id)) ==> outcomes[n] == SubjectMismatch && tables[n + 1] == tables[n]
  {
    hide Lower, SameEmail, FoldedUnique, BoundTo, Releases;
    SubjectStaysBound(tables, ops, outcomes, id, subject, n);
    EmailsStayUnique(tables, ops, outcomes, n);
    FoldedUniqueIsSchemaOk(tables[n]);
    var t, op, t', o := tables[n], ops[n], tables[n + 1], outcomes[n];
    if Names(t, op.email, One(id)) {
      BoundLogin(t, op, t', o, id, subject);
    } else {
      OtherRowLogsIn(t, op, t', o, id, subject);
    }
  }

  /** A first login with a subject binds to it, whoever made the row. */
  lemma FirstLoginBinds(t: Table, op: Op, t': Table, o: Outcome)
    requires SchemaOk(t) && op.Login? && op.subject.Some? && Step(t, op, t', o) && o.LoggedIn?
    ensures BoundTo(t', o.id, op.subject.value)
  {
    hide Lower, SameEmail;
    var m :| Names(t, op.email, m) && LoginStep(t, op, m, t', o);
  }

  /** Every row but one is as it was. */
  ghost predicate OnlyRow(t: Table, t': Table, id: nat) {
    forall j :: j != id ==> (j in t'.rows <==> j in t.rows) && (j in t.rows ==> t'.rows[j] == t.rows[j])
  }

  lemma NamedIsFolded(t: Table, email: string, id: nat)
    requires Names(t, email, One(id))
    ensures Folded(t, email, id)
  {
  }

  /** What a login leaves behind. As a user that was there, it brings the row's
      name and groups up to date and touches neither email nor role nor any other
      row; a user it creates is what the login said, with the role it was given;
      and one that fails changes nothing. */
  lemma LoginWrites(t: Table, op: Op, t': Table, o: Outcome)
    requires SchemaOk(t) && op.Login? && Step(t, op, t', o)
    ensures o.LoggedIn? ==> o.id in t'.rows && OnlyRow(t, t', o.id)
    ensures o.LoggedIn? && o.id in t.rows ==>
              var u, u' := t.rows[o.id], t'.rows[o.id];
              && SameEmail(u.email, op.email) && u'.email == u.email && u'.role == u.role
              && u'.name == op.name && u'.groups == op.groups
              && (op.subject == None ==> u'.subject == u.subject)
    ensures o.LoggedIn? && o.id !in t.rows ==>
              && op.create && (forall j :: !Folded(t, op.email, j))
              && t'.rows[o.id] == User(op.email, op.name, op.subject, op.role, op.groups)
    ensures !o.LoggedIn? ==> t' == t
    ensures o == NoAccount <==> !op.create && forall j :: !Folded(t, op.email, j)
  {
    hide Lower, SameEmail;
    var m :| Names(t, op.email, m) && LoginStep(t, op, m, t', o);
    if m.One? {
      assert Folded(t, op.email, m.id) by { NamedIsFolded(t, op.email, m.id); }
    }
  }

  lemma ResetUnbinds(t: Table, reset: Op, t1: Table, o1: Outcome, id: nat)
    requires SchemaOk(t) && reset.ResetSubject? && Names(t, reset.email, One(id)) && Step(t, reset, t1, o1)
    ensures id in t.rows && t1 == SetSubject(t, id, None) && o1 == Changed(true)
  {
    hide Lower, SameEmail;
    var m :| Names(t, reset.email, m)
      && (if m.One? then t1 == SetSubject(t, m.id, None) && o1 == Changed(true) else t1 == t && o1 == Changed(false));
    NamesIsUnique(t, reset.email, m, One(id));
  }

  /** A user made by an admin has that role and is bound to nobody; a deletion
      takes exactly the rows with that very email. */
  lemma CreateAndDeleteWrite(t: Table, op: Op, t': Table, o: Outcome)
    requires SchemaOk(t) && Step(t, op, t', o)
    ensures op.CreateUser? && o.Created? ==>
              && o.id !in t.rows && OnlyRow(t, t', o.id)
              && o.id in t'.rows && t'.rows[o.id] == User(op.email, op.name, None, op.role, "")
    ensures op.CreateUser? ==> (o == Exists <==> exists j :: j in t.rows && SameEmail(t.rows[j].email, op.email))
    ensures op.CreateUser? && !o.Created? ==> t' == t
    ensures op.DeleteUser? ==>
              forall j :: (j in t'.rows <==> j in t.rows && t.rows[j].email != op.email)
                          && (j in t'.rows ==> t'.rows[j] == t.rows[j])
  {
    hide Lower, SameEmail;
    assert forall j :: Folded(t, if op.CreateUser? then op.email else "", j) <==>
        j in t.rows && SameEmail(t.rows[j].email, if op.CreateUser? then op.email else "");
  }

  /** A reset of a user is what lets another subject in: the next login as it
      succeeds, whatever its subject, and binds it. */
  lemma ResetLetsAnotherIn(t: Table, reset: Op, t1: Table, o1: Outcome, login: Op, t2: Table, o2: Outcome, id: nat)
    requires FoldedUnique(t) && reset.ResetSubject? && Names(t, reset.email, One(id)) && Step(t, reset, t1, o1)
    requires login.Login? && login.subject.Some? && Names(t1, login.email, One(id)) && Step(t1, login, t2, o2)
    ensures o1 == Changed(true) && OnlyRow(t, t1, id) && id in t.rows && id in t1.rows
    ensures t1.rows[id] == t.rows[id].(subject := None)
    ensures o2 == LoggedIn(id) && BoundTo(t2, id, login.subject.value)
  {
    hide Lower, SameEmail;
    FoldedUniqueIsSchemaOk(t);
    StepKeepsUnique(t, reset, t1, o1);
    FoldedUniqueIsSchemaOk(t1);
    ResetUnbinds(t, reset, t1, o1, id);
    var m :| Names(t1, login.email, m) && LoginStep(t1, login, m, t2, o2);
    NamesIsUnique(t1, login.email, m, One(id));
  }

  // ---- the code ----

  lemma NamedIsRow(t: Table, email: string, m: Match)
    requires Names(t, email, m)
    ensures m.One? ==> m.id in t.rows
  {
  }

  class UserTable {
    var rows: map<nat, User>
    var nextId: nat

    function Abs(): Table
      reads this
    {
      Table(rows, nextId)
    }

    constructor ()
      ensures Abs() == Table(map[], 1) && FoldedUnique(Abs())
    {
      rows, nextId := map[], 1;
    }

    method FindUserForEmail(email: string) returns (m: Match)
      requires SchemaOk(Abs())
      ensures Names(Abs(), email, m)
    {
      hide Lower, SameEmail;
      ghost var t := Abs();
      var left := rows.Keys;
      var folded: seq<nat> := [];
      while left != {}
        invariant left <= rows.Keys
        invariant forall j :: j in rows && j !in left ==> rows[j].email != email
        invariant forall j :: j in folded <==> j in rows && j !in left && Folded(t, email, j)
        invariant forall i, j :: 0 <= i < j < |folded| ==> folded[i] != folded[j]
        decreases left
      {
        var id :| id in left;
        left := left - {id};
        if rows[id].email == email { return One(id); }
        if SameEmail(rows[id].email, email) {
          folded := folded + [id];
        }
      }
      assert forall j :: !Exact(t, email, j);
      if |folded| == 0 {
        m := NoMatch;
      } else if |folded| == 1 {
        m := One(folded[0]);
        assert folded[0] in folded;
        assert forall j :: Folded(t, email, j) ==> j in folded;
      } else {
        assert folded[0] in folded && folded[1] in folded;
        assert Folded(t, email, folded[0]) && Folded(t, email, folded[1]);
        m := Ambiguous;
      }
    }

    method UpsertUser(email: string, name: string, subject: Option<string>, role: string, groups: string, create: bool)
      returns (o: Outcome)
      requires SchemaOk(Abs())
      modifies this
      ensures Step(old(Abs()), Login(email, name, subject, role, groups, create), Abs(), o)
    {
      hide Lower, SameEmail, Names;
      var m := FindUserForEmail(email);
      NamedIsRow(Abs(), email, m);
      ghost var t, op := Abs(), Login(email, name, subject, role, groups, create);
      match m
      case Ambiguous => o := AmbiguousLogin;
      case NoMatch =>
        if create {
          rows := rows[nextId := User(email, name, subject, role, groups)];
          o := LoggedIn(nextId);
          nextId := nextId + 1;
        } else {
          o := NoAccount;
        }
      case One(id) =>
        var u := rows[id];
        if u.subject.Some? && subject.Some? && u.subject != subject {
          o := SubjectMismatch;
        } else {
          var bound := if subject.Some? then subject else u.subject;
          rows := rows[id := u.(name := name, groups := groups, subject := bound)];
          o := LoggedIn(id);
        }
      assert LoginStep(t, op, m, Abs(), o);
    }

    method CreateUserRow(email: string, name: string, role: string) returns (o: Outcome)
      requires SchemaOk(Abs())
      modifies this
      ensures Step(old(Abs()), CreateUser(email, name, role), Abs(), o)
    {
      hide Lower, SameEmail;
      if exists j :: j in rows && SameEmail(rows[j].email, email) {
        var j :| j in rows && SameEmail(rows[j].email, email);
        assert Folded(Abs(), email, j);
        return Exists;
      }
      assert forall j :: !Folded(Abs(), email, j);
      rows := rows[nextId := User(email, name, None, role, "")];
      o := Created(nextId);
      nextId := nextId + 1;
    }

    method ResetOidcSubject(email: string) returns (o: Outcome)
      requires SchemaOk(Abs())
      modifies this
      ensures Step(old(Abs()), ResetSubject(email), Abs(), o)
    {
      hide Lower, SameEmail, Names;
      var m := FindUserForEmail(email);
      NamedIsRow(Abs(), email, m);
      if m.One? {
        rows := rows[m.id := rows[m.id].(subject := None)];
        return Changed(true);
      }
      return Changed(false);
    }

    method DeleteUserRow(email: string) returns (o: Outcome)
      requires SchemaOk(Abs())
      modifies this
      ensures Step(old(Abs()), DeleteUser(email), Abs(), o)
    {
      var found := exists j :: j in rows && rows[j].email == email;
      assert found <==> exists j :: Exact(Abs(), email, j) by {
        if found {
          var j :| j in rows && rows[j].email == email;
          assert Exact(Abs(), email, j);
        }
      }
      rows := map j | j in rows && rows[j].email != email :: rows[j];
      return Changed(found);
    }
  }
}
