/** Databases, schemas and users: what every operation keeps, and the binary form that relies on it. */
module Catalogs {
  import opened Keys
  import opened Binary
  import opened Wrappers
  import opened Formats
  import opened OrderedMaps
  import Payloads

  const DEFAULT_DB: Bytes := [0x64, 0x65, 0x66, 0x61, 0x75, 0x6c, 0x74, 0x64, 0x62] // "defaultdb"
  const PUBLIC: Bytes := [0x70, 0x75, 0x62, 0x6c, 0x69, 0x63] // "public"
  const VERSION: nat := 1

  type Names = Dict<()>

  /** A password hash and its salt. */
  type User = (Bytes, Bytes)

  type Databases = Dict<Names>

  datatype State = State(databases: Databases, users: Dict<User>, current: Bytes)

  function NewDatabase(): Names { [(PUBLIC, ())] }

  function Fresh(): State { State([(DEFAULT_DB, NewDatabase())], [], DEFAULT_DB) }

  predicate HasDb(d: Databases, db: Bytes) { Find(d, db).Some? }

  predicate HasSchema(d: Databases, db: Bytes, schema: Bytes) {
    HasDb(d, db) && Find(Find(d, db).value, schema).Some?
  }

  // ---------- the operations ----------

  datatype Op =
    | CreateDatabase(db: Bytes)
    | DropDatabase(db: Bytes)
    | CreateSchema(db: Bytes, schema: Bytes)
    | DropSchema(db: Bytes, schema: Bytes)
    | CreateUser(name: Bytes, user: User)
    | DropUser(name: Bytes)
    | SetCurrentDatabase(db: Bytes)

  function AddSchema(d: Databases, db: Bytes, schema: Bytes): Databases {
    if HasDb(d, db) then Enter(d, db, Enter(Find(d, db).value, schema, (), Newer), Newer) else d
  }

  function RemoveSchema(d: Databases, db: Bytes, schema: Bytes): Databases {
    if HasDb(d, db) then Enter(d, db, Remove(Find(d, db).value, schema), Newer) else d
  }

  /** None where the operation throws and changes nothing. */
  function Apply(s: State, op: Op): Option<State> {
    match op
    case CreateDatabase(db) =>
      if HasDb(s.databases, db) then None else Some(s.(databases := Enter(s.databases, db, NewDatabase(), Newer)))
    case DropDatabase(db) =>
      if db == DEFAULT_DB || !HasDb(s.databases, db) then None
      else Some(s.(databases := Remove(s.databases, db), current := if s.current == db then DEFAULT_DB else s.current))
    case CreateSchema(db, schema) =>
      if !HasDb(s.databases, db) || HasSchema(s.databases, db, schema) then None
      else Some(s.(databases := AddSchema(s.databases, db, schema)))
    case DropSchema(db, schema) =>
      if schema == PUBLIC || !HasSchema(s.databases, db, schema) then None
      else Some(s.(databases := RemoveSchema(s.databases, db, schema)))
    case CreateUser(name, user) =>
      if Find(s.users, name).Some? then None else Some(s.(users := Enter(s.users, name, user, Newer)))
    case DropUser(name) =>
      if Find(s.users, name).None? then None else Some(s.(users := Remove(s.users, name)))
    case SetCurrentDatabase(db) =>
      if HasDb(s.databases, db) then Some(s.(current := db)) else None
  }

  function Run(s: State, ops: seq<Op>): State {
    if ops == [] then s
    else
      var before := Run(s, ops[..|ops| - 1]);
      var after := Apply(before, ops[|ops| - 1]);
      if after.None? then before else after.value
  }

  // ---------- what every run keeps ----------

  ghost predicate DatabaseTidy(d: Databases, db: Bytes) { HasDb(d, db) ==> Ascending(Find(d, db).value) }

  ghost predicate Tidy(d: Databases) { Ascending(d) && forall db :: DatabaseTidy(d, db) }

  ghost predicate HasPublic(d: Databases, db: Bytes) { HasDb(d, db) ==> HasSchema(d, db, PUBLIC) }

  /** The default database, every public schema and the current database exist. */
  ghost predicate Complete(s: State) {
    HasDb(s.databases, DEFAULT_DB) && HasDb(s.databases, s.current) && forall db :: HasPublic(s.databases, db)
  }

  ghost predicate Kept(s: State) { Tidy(s.databases) && Ascending(s.users) && Complete(s) }

  lemma NewIsTidy()
    ensures Ascending(NewDatabase()) && Find(NewDatabase(), PUBLIC).Some?
    ensures forall q :: Find(NewDatabase(), q).Some? <==> q == PUBLIC
  {
  }

  lemma FreshIsKept()
    ensures Kept(Fresh())
  {
    NewIsTidy();
    var d := Fresh().databases;
    forall db ensures DatabaseTidy(d, db) && HasPublic(d, db) {
      assert Find(d[1..], db) == None;
      assert Find(d, db) == if db == DEFAULT_DB then Some(NewDatabase()) else None;
    }
  }

  /** Entering a whole database changes that database only. */
  lemma EnterDatabase(d: Databases, db: Bytes, names: Names)
    requires Tidy(d) && Ascending(names)
    ensures Tidy(Enter(d, db, names, Newer))
    ensures forall q :: Find(Enter(d, db, names, Newer), q) == if q == db then Some(names) else Find(d, q)
  {
    var e := Enter(d, db, names, Newer);
    EnterAscends(d, db, names, Newer);
    forall q ensures Find(e, q) == (if q == db then Some(names) else Find(d, q)) && DatabaseTidy(e, q) {
      EnterFinds(d, db, names, Newer, q);
      assert DatabaseTidy(d, q);
    }
  }

  lemma AddSchemaKnows(d: Databases, db: Bytes, schema: Bytes)
    requires Tidy(d) && HasDb(d, db)
    ensures Tidy(AddSchema(d, db, schema))
    ensures forall n :: n != db ==> Find(AddSchema(d, db, schema), n) == Find(d, n)
    ensures HasDb(AddSchema(d, db, schema), db)
    ensures forall q :: HasSchema(AddSchema(d, db, schema), db, q) <==> HasSchema(d, db, q) || q == schema
  {
    assert DatabaseTidy(d, db);
    var names := Find(d, db).value;
    EnterAscends(names, schema, (), Newer);
    EnterDatabase(d, db, Enter(names, schema, (), Newer));
    forall q ensures HasSchema(AddSchema(d, db, schema), db, q) <==> HasSchema(d, db, q) || q == schema {
      EnterFinds(names, schema, (), Newer, q);
    }
  }

  lemma RemoveSchemaKnows(d: Databases, db: Bytes, schema: Bytes)
    requires Tidy(d) && HasDb(d, db)
    ensures Tidy(RemoveSchema(d, db, schema))
    ensures forall n :: n != db ==> Find(RemoveSchema(d, db, schema), n) == Find(d, n)
    ensures HasDb(RemoveSchema(d, db, schema), db)
    ensures forall q :: HasSchema(RemoveSchema(d, db, schema), db, q) <==> HasSchema(d, db, q) && q != schema
  {
    assert DatabaseTidy(d, db);
    var names := Find(d, db).value;
    RemoveFinds(names, schema, schema);
    EnterDatabase(d, db, Remove(names, schema));
    forall q ensures HasSchema(RemoveSchema(d, db, schema), db, q) <==> HasSchema(d, db, q) && q != schema {
      RemoveFinds(names, schema, q);
    }
  }

  lemma RemoveDatabase(d: Databases, db: Bytes)
    requires Tidy(d)
    ensures Tidy(Remove(d, db))
    ensures forall q :: Find(Remove(d, db), q) == if q == db then None else Find(d, q)
  {
    RemoveFinds(d, db, db);
    forall q ensures Find(Remove(d, db), q) == (if q == db then None else Find(d, q)) && DatabaseTidy(Remove(d, db), q) {
      RemoveFinds(d, db, q);
      assert DatabaseTidy(d, q);
    }
  }

  /** Every operation that does not throw keeps the catalog complete. */
  lemma ApplyKeeps(s: State, op: Op)
    requires Kept(s) && Apply(s, op).Some?
    ensures Kept(Apply(s, op).value)
  {
    var t := Apply(s, op).value;
    NewIsTidy();
    match op {
      case CreateDatabase(db) => EnterDatabase(s.databases, db, NewDatabase());
      case DropDatabase(db) => RemoveDatabase(s.databases, db);
      case CreateSchema(db, schema) => AddSchemaKnows(s.databases, db, schema);
      case DropSchema(db, schema) => RemoveSchemaKnows(s.databases, db, schema);
      case CreateUser(name, user) => EnterAscends(s.users, name, user, Newer);
      case DropUser(name) => RemoveFinds(s.users, name, name);
      case SetCurrentDatabase(_) =>
    }
    forall db ensures HasPublic(t.databases, db) { assert HasPublic(s.databases, db); }
  }

  // ---------- what each operation does ----------

  /** A new database has the schema public; creating one that exists throws. */
  lemma CreateDatabaseExactly(s: State, db: Bytes)
    requires Kept(s)
    ensures Apply(s, CreateDatabase(db)).None? <==> HasDb(s.databases, db)
    ensures !HasDb(s.databases, db) ==>
              var t := Apply(s, CreateDatabase(db)).value;
              && (forall n :: HasDb(t.databases, n) <==> HasDb(s.databases, n) || n == db)
              && (forall n, q :: HasSchema(t.databases, n, q) <==>
                    HasSchema(s.databases, n, q) || (n == db && q == [0x70, 0x75, 0x62, 0x6c, 0x69, 0x63]))
              && t.users == s.users && t.current == s.current
  {
    NewIsTidy();
    EnterDatabase(s.databases, db, NewDatabase());
  }

  /** defaultdb stays; a session in the dropped database is moved to it. */
  lemma DropDatabaseExactly(s: State, db: Bytes)
    requires Kept(s)
    ensures Apply(s, DropDatabase(db)).None? <==>
              db == [0x64, 0x65, 0x66, 0x61, 0x75, 0x6c, 0x74, 0x64, 0x62] || !HasDb(s.databases, db)
    ensures Apply(s, DropDatabase(db)).Some? ==>
              var t := Apply(s, DropDatabase(db)).value;
              && (forall n :: HasDb(t.databases, n) <==> HasDb(s.databases, n) && n != db)
              && (forall n, q :: HasSchema(t.databases, n, q) <==> HasSchema(s.databases, n, q) && n != db)
              && t.users == s.users
              && t.current == if s.current == db then [0x64, 0x65, 0x66, 0x61, 0x75, 0x6c, 0x74, 0x64, 0x62] else s.current
  {
    RemoveDatabase(s.databases, db);
  }

  lemma CreateSchemaExactly(s: State, db: Bytes, schema: Bytes)
    requires Kept(s)
    ensures Apply(s, CreateSchema(db, schema)).None? <==> !HasDb(s.databases, db) || HasSchema(s.databases, db, schema)
    ensures Apply(s, CreateSchema(db, schema)).Some? ==>
              var t := Apply(s, CreateSchema(db, schema)).value;
              && (forall n :: HasDb(t.databases, n) <==> HasDb(s.databases, n))
              && (forall n, q :: HasSchema(t.databases, n, q) <==> HasSchema(s.databases, n, q) || (n == db && q == schema))
              && t.users == s.users && t.current == s.current
  {
    if HasDb(s.databases, db) { AddSchemaKnows(s.databases, db, schema); }
  }

  lemma DropSchemaExactly(s: State, db: Bytes, schema: Bytes)
    requires Kept(s)
    ensures Apply(s, DropSchema(db, schema)).None? <==>
              schema == [0x70, 0x75, 0x62, 0x6c, 0x69, 0x63] || !HasSchema(s.databases, db, schema)
    ensures Apply(s, DropSchema(db, schema)).Some? ==>
              var t := Apply(s, DropSchema(db, schema)).value;
              && (forall n :: HasDb(t.databases, n) <==> HasDb(s.databases, n))
              && (forall n, q :: HasSchema(t.databases, n, q) <==> HasSchema(s.databases, n, q) && !(n == db && q == schema))
              && t.users == s.users && t.current == s.current
  {
    if HasDb(s.databases, db) { RemoveSchemaKnows(s.databases, db, schema); }
  }

  /** Users are known by name; the current database is one that exists. */
  lemma UserAndSessionOpsExactly(s: State, name: Bytes, user: User)
    requires Kept(s)
    ensures Apply(s, CreateUser(name, user)).None? <==> Find(s.users, name).Some?
    ensures Find(s.users, name).None? ==>
              var t := Apply(s, CreateUser(name, user)).value;
              && (forall n :: Find(t.users, n) == if n == name then Some(user) else Find(s.users, n))
              && t.databases == s.databases && t.current == s.current
    ensures Apply(s, DropUser(name)).None? <==> Find(s.users, name).None?
    ensures Find(s.users, name).Some? ==>
              var t := Apply(s, DropUser(name)).value;
              && (forall n :: Find(t.users, n) == if n == name then None else Find(s.users, n))
              && t.databases == s.databases && t.current == s.current
    ensures Apply(s, SetCurrentDatabase(name)) ==
            if HasDb(s.databases, name) then Some(State(s.databases, s.users, name)) else None
  {
    forall n ensures Find(Enter(s.users, name, user, Newer), n) == if n == name then Some(user) else Find(s.users, n) {
      EnterFinds(s.users, name, user, Newer, n);
    }
    forall n ensures Find(Remove(s.users, name), n) == if n == name then None else Find(s.users, n) {
      RemoveFinds(s.users, name, n);
    }
  }

  lemma {:induction false} RunKeeps(ops: seq<Op>)
    ensures Kept(Run(Fresh(), ops))
  {
    if ops == [] {
      FreshIsKept();
    } else {
      var n := |ops| - 1;
      RunKeeps(ops[..n]);
      if Apply(Run(Fresh(), ops[..n]), ops[n]).Some? { ApplyKeeps(Run(Fresh(), ops[..n]), ops[n]); }
    }
  }

  // ---------- the binary form ----------

  type DbList = seq<(Bytes, seq<Bytes>)>

  type Snapshot = (Bytes, (DbList, seq<(Bytes, User)>))

  function NameList(names: Names): seq<Bytes> { seq(|names|, i requires 0 <= i < |names| => names[i].0) }

  function Listing(d: Databases): DbList { seq(|d|, i requires 0 <= i < |d| => (d[i].0, NameList(d[i].1))) }

  function SnapshotOf(s: State): Snapshot { (s.current, (Listing(s.databases), s.users)) }

  function DbFormat(): Format<(Bytes, seq<Bytes>)> { Pair(Text16(), Counted(Text16())) }

  function UserFormat(): Format<(Bytes, User)> { Pair(Text16(), Pair(Text16(), Text16())) }

  function ListsFormat(): Format<(DbList, seq<(Bytes, User)>)> { Pair(Counted(DbFormat()), Counted(UserFormat())) }

  function SnapshotFormat(): Format<((), Snapshot)> { Pair(Exactly(VERSION), Pair(Text16(), ListsFormat())) }

  function Encoded(s: State): Bytes { SnapshotFormat().enc(((), SnapshotOf(s))) }

  lemma SnapshotSound()
    ensures Sound(SnapshotFormat())
  {
    Text16Sound();
    CountedSound(Text16());
    PairSound(Text16(), Counted(Text16()));
    CountedSound(DbFormat());
    PairSound(Text16(), Text16());
    PairSound(Text16(), Pair(Text16(), Text16()));
    CountedSound(UserFormat());
    PairSound(Counted(DbFormat()), Counted(UserFormat()));
    PairSound(Text16(), ListsFormat());
    ExactlySound(VERSION);
    PairSound(Exactly(VERSION), Pair(Text16(), ListsFormat()));
  }

  // Reading adds to the catalog that is there: what exists stays, what is missing is created.

  function AddSchemas(d: Databases, db: Bytes, schemas: seq<Bytes>): Databases {
    if schemas == [] then d
    else
      var n := |schemas| - 1;
      WithSchema(AddSchemas(d, db, schemas[..n]), db, schemas[n])
  }

  function WithSchema(d: Databases, db: Bytes, schema: Bytes): Databases {
    if HasSchema(d, db, schema) then d else AddSchema(d, db, schema)
  }

  lemma AddSchemasNext(d: Databases, db: Bytes, schemas: seq<Bytes>, schema: Bytes)
    ensures AddSchemas(d, db, schemas + [schema]) == WithSchema(AddSchemas(d, db, schemas), db, schema)
  {
    assert (schemas + [schema])[..|schemas|] == schemas;
  }

  function Ensured(d: Databases, db: Bytes): Databases {
    if HasDb(d, db) then d else Enter(d, db, NewDatabase(), Newer)
  }

  function AddDatabases(d: Databases, list: DbList): Databases {
    if list == [] then d
    else
      var n := |list| - 1;
      AddSchemas(Ensured(AddDatabases(d, list[..n]), list[n].0), list[n].0, list[n].1)
  }

  function AddUsers(users: Dict<User>, list: seq<(Bytes, User)>): Dict<User> {
    if list == [] then users
    else
      var n := |list| - 1;
      Enter(AddUsers(users, list[..n]), list[n].0, list[n].1, Newer)
  }

  datatype Outcome = Read(state: State) | Refused | Threw

  /** Making the named database current throws when it does not exist; an empty name leaves it as it was. */
  function Finished(s: State, name: Bytes, end: bool): Outcome {
    if name != [] && !HasDb(s.databases, name) then Threw
    else if !end then Refused
    else Read(if name == [] then s else s.(current := name))
  }

  function Restored(base: State, snap: Snapshot, end: bool): Outcome {
    Finished(State(AddDatabases(base.databases, snap.1.0), AddUsers(base.users, snap.1.1), base.current), snap.0, end)
  }

  function Decoded(bytes: Bytes, base: State): Outcome {
    match SnapshotFormat().dec(bytes)
    case None => Refused
    case Some(got) => Restored(base, got.0.1, got.1 == [])
  }

  // ---------- reading back ----------

  ghost predicate Mentions(list: DbList, db: Bytes) { exists i :: 0 <= i < |list| && list[i].0 == db }

  ghost predicate NamesSchema(list: DbList, db: Bytes, schema: Bytes) {
    exists i :: 0 <= i < |list| && list[i].0 == db && schema in list[i].1
  }

  lemma {:induction false} AddSchemasKnows(d: Databases, db: Bytes, schemas: seq<Bytes>)
    requires Tidy(d) && HasDb(d, db)
    ensures Tidy(AddSchemas(d, db, schemas)) && HasDb(AddSchemas(d, db, schemas), db)
    ensures forall n :: n != db ==> Find(AddSchemas(d, db, schemas), n) == Find(d, n)
    ensures forall q :: HasSchema(AddSchemas(d, db, schemas), db, q) <==> HasSchema(d, db, q) || q in schemas
  {
    if schemas != [] {
      var n := |schemas| - 1;
      AddSchemasKnows(d, db, schemas[..n]);
      assert schemas == schemas[..n] + [schemas[n]];
      AddSchemaKnows(AddSchemas(d, db, schemas[..n]), db, schemas[n]);
    }
  }

  lemma EnsuredKnows(d: Databases, db: Bytes)
    requires Tidy(d) && forall n :: HasPublic(d, n)
    ensures Tidy(Ensured(d, db)) && forall n :: HasPublic(Ensured(d, db), n)
    ensures forall n :: HasDb(Ensured(d, db), n) <==> HasDb(d, n) || n == db
    ensures forall n, q :: HasSchema(Ensured(d, db), n, q) <==> HasSchema(d, n, q) || (n == db && q == PUBLIC)
  {
    NewIsTidy();
    if !HasDb(d, db) { EnterDatabase(d, db, NewDatabase()); }
    forall n ensures HasPublic(Ensured(d, db), n) { assert HasPublic(d, n); }
    assert HasPublic(d, db);
  }

  lemma AddDatabaseKnows(d: Databases, db: Bytes, schemas: seq<Bytes>)
    requires Tidy(d) && forall n :: HasPublic(d, n)
    ensures var r := AddSchemas(Ensured(d, db), db, schemas);
            && Tidy(r) && (forall n :: HasPublic(r, n)) && (forall n :: HasDb(r, n) <==> HasDb(d, n) || n == db)
            && forall n, q :: HasSchema(r, n, q) <==> HasSchema(d, n, q) || (n == db && (q == PUBLIC || q in schemas))
  {
    var e := Ensured(d, db);
    EnsuredKnows(d, db);
    AddSchemasKnows(e, db, schemas);
    var r := AddSchemas(e, db, schemas);
    forall n ensures HasPublic(r, n) { assert HasPublic(e, n); }
  }

  /** Reading a list of databases adds what the list mentions, and public to each of them, and nothing else. */
  lemma {:induction false} AddDatabasesKnows(d: Databases, list: DbList, db: Bytes, schema: Bytes)
    requires Tidy(d) && forall n :: HasPublic(d, n)
    ensures Tidy(AddDatabases(d, list)) && forall n :: HasPublic(AddDatabases(d, list), n)
    ensures HasDb(AddDatabases(d, list), db) <==> HasDb(d, db) || Mentions(list, db)
    ensures HasSchema(AddDatabases(d, list), db, schema) <==>
            HasSchema(d, db, schema) || NamesSchema(list, db, schema) || (Mentions(list, db) && schema == PUBLIC)
  {
    if list != [] {
      var n := |list| - 1;
      AddDatabasesKnows(d, list[..n], db, schema);
      AddDatabaseKnows(AddDatabases(d, list[..n]), list[n].0, list[n].1);
      MentionsLast(list[..n], list[n], db, schema);
      assert list == list[..n] + [list[n]];
    }
  }

  lemma MentionsLast(list: DbList, e: (Bytes, seq<Bytes>), db: Bytes, schema: Bytes)
    ensures Mentions(list + [e], db) <==> Mentions(list, db) || e.0 == db
    ensures NamesSchema(list + [e], db, schema) <==> NamesSchema(list, db, schema) || (e.0 == db && schema in e.1)
  {
    var all := list + [e];
    assert all[|list|] == e;
    forall i | 0 <= i < |list| && list[i].0 == db ensures Mentions(all, db) { assert all[i] == list[i]; }
    forall i | 0 <= i < |list| && list[i].0 == db && schema in list[i].1 ensures NamesSchema(all, db, schema) {
      assert all[i] == list[i];
    }
  }

  lemma ListingMentions(d: Databases, db: Bytes, schema: Bytes)
    requires Tidy(d)
    ensures Mentions(Listing(d), db) <==> HasDb(d, db)
    ensures NamesSchema(Listing(d), db, schema) <==> HasSchema(d, db, schema)
  {
    var list := Listing(d);
    if HasDb(d, db) {
      var i := IndexOf(d, db);
      assert list[i].0 == db && list[i].1 == NameList(d[i].1);
      assert DatabaseTidy(d, db);
      NameListed(d[i].1, schema);
    }
    forall i | 0 <= i < |list| && list[i].0 == db
      ensures HasDb(d, db) && list[i].1 == NameList(Find(d, db).value) && (schema in list[i].1 <==> HasSchema(d, db, schema))
    {
      FindKnows(d, i);
      assert DatabaseTidy(d, db);
      NameListed(d[i].1, schema);
    }
  }

  lemma NameListed(names: Names, schema: Bytes)
    requires Ascending(names)
    ensures schema in NameList(names) <==> Find(names, schema).Some?
  {
    if Find(names, schema).Some? {
      var i := IndexOf(names, schema);
      assert NameList(names)[i] == schema;
    }
    forall i | 0 <= i < |names| && NameList(names)[i] == schema ensures Find(names, schema).Some? { FindKnows(names, i); }
  }

  lemma {:induction false} IndexOf<V>(m: Dict<V>, k: Bytes) returns (i: nat)
    requires Find(m, k).Some?
    ensures i < |m| && m[i] == (k, Find(m, k).value)
  {
    if m[0].0 == k {
      i := 0;
    } else {
      i := IndexOf(m[1..], k);
      i := i + 1;
    }
  }

  lemma {:induction false} AddUsersToNone(list: seq<(Bytes, User)>)
    ensures AddUsers([], list) == Gather(list, Newer)
  {
    if list != [] { AddUsersToNone(list[..|list| - 1]); }
  }

  /** A fresh catalog that reads back a listing holds the listed databases exactly when they are complete. */
  lemma DatabasesReadBackExactly(d: Databases)
    requires Tidy(d)
    ensures AddDatabases(Fresh().databases, Listing(d)) == d <==> HasDb(d, DEFAULT_DB) && forall db :: HasPublic(d, db)
  {
    FreshIsKept();
    var r := AddDatabases(Fresh().databases, Listing(d));
    AddDatabasesKnows(Fresh().databases, Listing(d), DEFAULT_DB, PUBLIC);
    if HasDb(d, DEFAULT_DB) && forall db :: HasPublic(d, db) {
      forall db ensures SameAt(r, d, db) { SameDatabase(d, db); }
      SameLookups(r, d);
    }
  }

  lemma SameDatabase(d: Databases, db: Bytes)
    requires Tidy(d) && HasDb(d, DEFAULT_DB) && forall n :: HasPublic(d, n)
    ensures Find(AddDatabases(Fresh().databases, Listing(d)), db) == Find(d, db)
  {
    FreshIsKept();
    var base := Fresh().databases;
    var r := AddDatabases(base, Listing(d));
    FreshFinds(db);
    AddDatabasesKnows(base, Listing(d), db, PUBLIC);
    ListingMentions(d, db, PUBLIC);
    if HasDb(d, db) {
      var a, b := Find(r, db).value, Find(d, db).value;
      assert DatabaseTidy(r, db) && DatabaseTidy(d, db);
      forall q ensures SameAt(a, b, q) {
        AddDatabasesKnows(base, Listing(d), db, q);
        ListingMentions(d, db, q);
        assert HasPublic(d, db);
        OneUnit(Find(a, q), Find(b, q));
      }
      SameLookups(a, b);
    }
  }

  lemma OneUnit(a: Option<()>, b: Option<()>)
    requires a.Some? == b.Some?
    ensures a == b
  {
    if a.Some? { assert a.value == () && b.value == (); }
  }

  lemma FreshFinds(db: Bytes)
    ensures HasDb(Fresh().databases, db) <==> db == DEFAULT_DB
    ensures forall q :: HasSchema(Fresh().databases, db, q) <==> db == DEFAULT_DB && q == PUBLIC
  {
    NewIsTidy();
    var d := Fresh().databases;
    assert Find(d[1..], db) == None;
  }

  predicate Fits(s: State) { SnapshotFormat().fits(((), SnapshotOf(s))) }

  /**
   * Decoding an encoded catalog into a fresh one gives it back exactly when the default database, every public
   * schema and the current database exist and the current database's name is not empty.
   */
  lemma CatalogReadsBackExactly(s: State)
    requires Tidy(s.databases) && Ascending(s.users) && Fits(s)
    ensures Decoded(Encoded(s), Fresh()) == Read(s) <==> Complete(s) && s.current != []
  {
    DecodesTo(s);
    DatabasesReadBackExactly(s.databases);
    AddUsersToNone(s.users);
    GatherAscending(s.users, Newer);
    AddDatabasesKnows(Fresh().databases, Listing(s.databases), s.current, PUBLIC) by { FreshIsKept(); }
  }

  lemma DecodesTo(s: State)
    requires Fits(s)
    ensures Decoded(Encoded(s), Fresh()) == Restored(Fresh(), SnapshotOf(s), true)
  {
    SnapshotSound();
    assert Returns(SnapshotFormat(), ((), SnapshotOf(s)), []);
    assert Encoded(s) + [] == Encoded(s);
  }

  /** After any operations on a fresh catalog: it reads back, but for an empty current name, which is forgotten. */
  lemma RunsReadBack(ops: seq<Op>)
    requires Fits(Run(Fresh(), ops))
    ensures var s := Run(Fresh(), ops);
            Decoded(Encoded(s), Fresh()) == Read(if s.current == [] then s.(current := DEFAULT_DB) else s)
  {
    var s := Run(Fresh(), ops);
    RunKeeps(ops);
    CatalogReadsBackExactly(s);
    DecodesTo(s);
    DatabasesReadBackExactly(s.databases);
    AddUsersToNone(s.users);
    GatherAscending(s.users, Newer);
  }

  /** A database can be named by the empty string and made current, so the case above does arise. */
  lemma EmptyNameIsForgotten()
    ensures var s := Run(Fresh(), [CreateDatabase([]), SetCurrentDatabase([])]);
            Kept(s) && s.current == [] && Restored(Fresh(), SnapshotOf(s), true) == Read(s.(current := DEFAULT_DB))
  {
    var one: seq<Op> := [CreateDatabase([])];
    var ops: seq<Op> := [CreateDatabase([]), SetCurrentDatabase([])];
    RunKeeps(ops);
    assert ops[..1] == one && one[..0] == [];
    FreshFinds([]);
    assert Run(Fresh(), []) == Fresh();
    var s1 := Run(Fresh(), one);
    FreshIsKept();
    NewIsTidy();
    EnterDatabase(Fresh().databases, [], NewDatabase());
    assert HasDb(s1.databases, []);
    var s := Run(Fresh(), ops);
    DatabasesReadBackExactly(s.databases);
    AddUsersToNone(s.users);
    GatherAscending(s.users, Newer);
  }

  lemma TornCatalogRefused(s: State, b: Bytes, base: State)
    requires Fits(s) && b < Encoded(s)
    ensures Decoded(b, base) == Refused
  {
    SnapshotSound();
    TornRejected(SnapshotFormat(), ((), SnapshotOf(s)), b);
  }

  // ---------- the catalog object ----------

  class Catalog {
    var databases: Databases
    var users: Dict<User>
    var current: Bytes

    function Contents(): State
      reads this
    {
      State(databases, users, current)
    }

    constructor ()
      ensures Contents() == Fresh()
    {
      databases, users, current := [(DEFAULT_DB, NewDatabase())], [], DEFAULT_DB;
    }

    method CreateDatabase(db: Bytes) returns (ok: bool)
      modifies this`databases
      ensures Applied(old(Contents()), Op.CreateDatabase(db), ok, Contents())
    {
      if HasDb(databases, db) { return false; }
      databases := Enter(databases, db, [(PUBLIC, ())], Newer);
      ok := true;
    }

    method DropDatabase(db: Bytes) returns (ok: bool)
      modifies this`databases, this`current
      ensures Applied(old(Contents()), Op.DropDatabase(db), ok, Contents())
    {
      if db == DEFAULT_DB { return false; }
      if !HasDb(databases, db) { return false; }
      if current == db { current := DEFAULT_DB; }
      databases := Remove(databases, db);
      ok := true;
    }

    method CreateSchema(db: Bytes, schema: Bytes) returns (ok: bool)
      modifies this`databases
      ensures Applied(old(Contents()), Op.CreateSchema(db, schema), ok, Contents())
    {
      var it := Find(databases, db);
      if it.None? { return false; }
      if Find(it.value, schema).Some? { return false; }
      databases := Enter(databases, db, Enter(it.value, schema, (), Newer), Newer);
      ok := true;
    }

    method DropSchema(db: Bytes, schema: Bytes) returns (ok: bool)
      modifies this`databases
      ensures Applied(old(Contents()), Op.DropSchema(db, schema), ok, Contents())
    {
      if schema == PUBLIC { return false; }
      var it := Find(databases, db);
      if it.None? { return false; }
      if Find(it.value, schema).None? { return false; }
      databases := Enter(databases, db, Remove(it.value, schema), Newer);
      ok := true;
    }

    method CreateUser(name: Bytes, user: User) returns (ok: bool)
      modifies this`users
      ensures Applied(old(Contents()), Op.CreateUser(name, user), ok, Contents())
    {
      if Find(users, name).Some? { return false; }
      users := Enter(users, name, user, Newer);
      ok := true;
    }

    method DropUser(name: Bytes) returns (ok: bool)
      modifies this`users
      ensures Applied(old(Contents()), Op.DropUser(name), ok, Contents())
    {
      if Find(users, name).None? { return false; }
      users := Remove(users, name);
      ok := true;
    }

    method SetCurrentDatabase(db: Bytes) returns (ok: bool)
      modifies this`current
      ensures Applied(old(Contents()), Op.SetCurrentDatabase(db), ok, Contents())
    {
      if !HasDb(databases, db) { return false; }
      current := db;
      ok := true;
    }

    method InternalSetUser(name: Bytes, user: User)
      modifies this`users
      ensures users == Enter(old(users), name, user, Newer)
    {
      users := Enter(users, name, user, Newer);
    }

    // ---------- decoding into the catalog ----------

    method EnsureSchema(db: Bytes, schema: Bytes)
      requires HasDb(databases, db) && Tidy(databases)
      modifies this`databases
      ensures databases == WithSchema(old(databases), db, schema) && Tidy(databases) && HasDb(databases, db)
    {
      AddSchemaKnows(databases, db, schema);
      if !HasSchema(databases, db, schema) {
        var _ := CreateSchema(db, schema);
      }
    }

    method DecodeSchemas(r: Payloads.PayloadReader, db: Bytes, count: nat, ghost f: Format<Bytes>) returns (ok: bool, ghost seen: seq<Bytes>)
      requires r.Valid() && ReadsAs(f, Text16()) && HasDb(databases, db) && Tidy(databases)
      modifies this`databases, r`pos
      ensures r.Valid() && Many(f, count, old(r.Left())) == if ok then Some((seen, r.Left())) else None
      ensures databases == AddSchemas(old(databases), db, seen) && Tidy(databases) && HasDb(databases, db)
    {
      ok, seen := true, [];
      ghost var start, base := r.Left(), databases;
      for i := 0 to count
        invariant r.Valid() && ok && Through(f, start, seen, r.Left()) && |seen| == i
        invariant databases == AddSchemas(base, db, seen) && Tidy(databases) && HasDb(databases, db)
      {
        ghost var was := r.Left();
        var schema;
        ok, schema := r.ReadString16();
        TookAlike(f, Text16(), was, ok, schema, r.Left());
        ThroughTook(f, count, start, seen, was, ok, schema, r.Left());
        if !ok { return; }
        EnsureSchema(db, schema);
        AddSchemasNext(base, db, seen, schema);
        seen := seen + [schema];
      }
      ThroughAll(f, start, seen, r.Left());
    }

    method DecodeDatabase(r: Payloads.PayloadReader, ghost f: Format<(Bytes, seq<Bytes>)>) returns (ok: bool, ghost e: (Bytes, seq<Bytes>))
      requires r.Valid() && ReadsAs(f, DbFormat()) && Tidy(databases)
      modifies this`databases, r`pos
      ensures r.Valid() && Took(f, old(r.Left()), ok, e, r.Left()) && Tidy(databases)
      ensures ok ==> databases == AddSchemas(Ensured(old(databases), e.0), e.0, e.1)
    {
      ghost var was := r.Left();
      ghost var seen: seq<Bytes> := [];
      var db;
      ok, db := r.ReadString16();
      ghost var mid, first := r.Left(), ok;
      if ok { ok, seen := DecodeSchemaList(r, db); }
      e := (db, seen);
      TookPair(Text16(), Counted(Text16()), was, first, db, mid, ok, seen, r.Left());
      TookAlike(f, DbFormat(), was, ok, e, r.Left());
    }

    method DecodeSchemaList(r: Payloads.PayloadReader, db: Bytes) returns (ok: bool, ghost seen: seq<Bytes>)
      requires r.Valid() && Tidy(databases)
      modifies this`databases, r`pos
      ensures r.Valid() && Took(Counted(Text16()), old(r.Left()), ok, seen, r.Left()) && Tidy(databases)
      ensures ok ==> databases == AddSchemas(Ensured(old(databases), db), db, seen)
    {
      ghost var was := r.Left();
      seen := [];
      var count;
      ok, count := r.ReadU32();
      ghost var start, first := r.Left(), ok;
      if ok {
        NewIsTidy();
        EnterDatabase(databases, db, NewDatabase());
        if !HasDb(databases, db) {
          var _ := CreateDatabase(db);
        }
        ok, seen := DecodeSchemas(r, db, count, Text16());
      }
      TookList(Word32(), Text16(), was, first, count, start, ok, seen, r.Left());
    }

    method DecodeDatabases(r: Payloads.PayloadReader) returns (ok: bool, ghost seen: DbList)
      requires r.Valid() && Tidy(databases)
      modifies this`databases, r`pos
      ensures r.Valid() && Took(Counted(DbFormat()), old(r.Left()), ok, seen, r.Left())
      ensures ok ==> databases == AddDatabases(old(databases), seen)
    {
      ghost var was := r.Left();
      seen := [];
      var count;
      ok, count := r.ReadU32();
      ghost var start, first := r.Left(), ok;
      if ok { ok, seen := DecodeEachDatabase(r, count, DbFormat()); }
      TookList(Word32(), DbFormat(), was, first, count, start, ok, seen, r.Left());
    }

    method DecodeEachDatabase(r: Payloads.PayloadReader, count: nat, ghost f: Format<(Bytes, seq<Bytes>)>) returns (ok: bool, ghost seen: DbList)
      requires r.Valid() && ReadsAs(f, DbFormat()) && Tidy(databases)
      modifies this`databases, r`pos
      ensures r.Valid() && Many(f, count, old(r.Left())) == if ok then Some((seen, r.Left())) else None
      ensures ok ==> databases == AddDatabases(old(databases), seen)
    {
      ok, seen := true, [];
      ghost var start, base := r.Left(), databases;
      for i := 0 to count
        invariant r.Valid() && ok && Through(f, start, seen, r.Left()) && |seen| == i
        invariant databases == AddDatabases(base, seen) && Tidy(databases)
      {
        ghost var was := r.Left();
        ghost var e;
        ok, e := DecodeDatabase(r, f);
        ThroughTook(f, count, start, seen, was, ok, e, r.Left());
        if !ok { return; }
        assert (seen + [e])[..|seen|] == seen;
        seen := seen + [e];
      }
      ThroughAll(f, start, seen, r.Left());
    }

    method DecodeUsers(r: Payloads.PayloadReader) returns (ok: bool, ghost seen: seq<(Bytes, User)>)
      requires r.Valid()
      modifies this`users, r`pos
      ensures r.Valid() && Took(Counted(UserFormat()), old(r.Left()), ok, seen, r.Left())
      ensures ok ==> users == AddUsers(old(users), seen)
    {
      ghost var was := r.Left();
      seen := [];
      var count;
      ok, count := r.ReadU32();
      ghost var start, first := r.Left(), ok;
      if ok { ok, seen := DecodeEachUser(r, count, UserFormat()); }
      TookList(Word32(), UserFormat(), was, first, count, start, ok, seen, r.Left());
    }

    method DecodeEachUser(r: Payloads.PayloadReader, count: nat, ghost f: Format<(Bytes, User)>) returns (ok: bool, ghost seen: seq<(Bytes, User)>)
      requires r.Valid() && ReadsAs(f, UserFormat())
      modifies this`users, r`pos
      ensures r.Valid() && Many(f, count, old(r.Left())) == if ok then Some((seen, r.Left())) else None
      ensures ok ==> users == AddUsers(old(users), seen)
    {
      ok, seen := true, [];
      ghost var start, base := r.Left(), users;
      for i := 0 to count
        invariant r.Valid() && ok && Through(f, start, seen, r.Left()) && |seen| == i
        invariant users == AddUsers(base, seen)
      {
        ghost var was := r.Left();
        var e;
        ok, e := DecodeUser(r, f);
        ThroughTook(f, count, start, seen, was, ok, e, r.Left());
        if !ok { return; }
        InternalSetUser(e.0, e.1);
        assert (seen + [e])[..|seen|] == seen;
        seen := seen + [e];
      }
      ThroughAll(f, start, seen, r.Left());
    }

    /** Everything after the version and the current database's name. */
    method DecodeLists(r: Payloads.PayloadReader) returns (ok: bool, ghost seen: (DbList, seq<(Bytes, User)>))
      requires r.Valid() && Tidy(databases)
      modifies this`databases, this`users, r`pos
      ensures r.Valid() && Took(ListsFormat(), old(r.Left()), ok, seen, r.Left())
      ensures ok ==> databases == AddDatabases(old(databases), seen.0) && users == AddUsers(old(users), seen.1)
    {
      ghost var was := r.Left();
      ghost var dbs: DbList, us: seq<(Bytes, User)> := [], [];
      ok, dbs := DecodeDatabases(r);
      ghost var mid, first := r.Left(), ok;
      if ok { ok, us := DecodeUsers(r); }
      seen := (dbs, us);
      TookPair(Counted(DbFormat()), Counted(UserFormat()), was, first, dbs, mid, ok, us, r.Left());
    }

    method DecodeSnapshot(r: Payloads.PayloadReader) returns (ok: bool, name: Bytes)
      requires r.Valid() && Tidy(databases)
      modifies this`databases, this`users, r`pos
      ensures r.Valid()
      ensures Decoded(old(r.Left()), old(Contents())) == if ok then Finished(Contents(), name, r.Left() == []) else Refused
    {
      ghost var was, base := r.Left(), Contents();
      ghost var lists: (DbList, seq<(Bytes, User)>) := ([], []);
      name := [];
      var version;
      ok, version := r.ReadU32();
      ok := ok && version == VERSION;
      ghost var mid, first := r.Left(), ok;
      TookVersion(was, ok, version, mid);
      if ok { ok, name, lists := DecodeNamed(r); }
      TookPair(Exactly(VERSION), Pair(Text16(), ListsFormat()), was, first, (), mid, ok, (name, lists), r.Left());
      DecodedOf(was, base, ok, name, lists, r.Left());
    }

    method DecodeNamed(r: Payloads.PayloadReader) returns (ok: bool, name: Bytes, ghost lists: (DbList, seq<(Bytes, User)>))
      requires r.Valid() && Tidy(databases)
      modifies this`databases, this`users, r`pos
      ensures r.Valid() && Took(Pair(Text16(), ListsFormat()), old(r.Left()), ok, (name, lists), r.Left())
      ensures ok ==> databases == AddDatabases(old(databases), lists.0) && users == AddUsers(old(users), lists.1)
    {
      ghost var was := r.Left();
      lists := ([], []);
      ok, name := r.ReadString16();
      ghost var mid, first := r.Left(), ok;
      if ok { ok, lists := DecodeLists(r); }
      TookPair(Text16(), ListsFormat(), was, first, name, mid, ok, lists, r.Left());
    }

    /** A refused or throwing decode has already added what it read. */
    method Decode(bytes: Bytes) returns (out: Outcome)
      requires Tidy(databases)
      modifies this
      ensures out == Decoded(bytes, old(Contents()))
      ensures out.Read? ==> Contents() == out.state
    {
      var r := new Payloads.PayloadReader(bytes);
      var ok, name := DecodeSnapshot(r);
      if ok {
        out := Finish(name, r.pos >= |bytes|);
      } else {
        out := Refused;
      }
    }

    method Finish(name: Bytes, end: bool) returns (out: Outcome)
      modifies this`current
      ensures out == Finished(old(Contents()), name, end)
      ensures out.Read? ==> Contents() == out.state
    {
      if name != [] {
        var found := SetCurrentDatabase(name);
        if !found { return Threw; }
      }
      out := if end then Read(State(databases, users, current)) else Refused;
    }
  }

  lemma TookVersion(was: Bytes, ok: bool, version: nat, left: Bytes)
    requires if Word32().dec(was).None? then !ok
             else version == Word32().dec(was).value.0 && left == Word32().dec(was).value.1 && (ok <==> version == VERSION)
    ensures Took(Exactly(VERSION), was, ok, (), left)
  {
  }

  lemma DecodedOf(bytes: Bytes, base: State, ok: bool, name: Bytes, lists: (DbList, seq<(Bytes, User)>), left: Bytes)
    requires Took(SnapshotFormat(), bytes, ok, ((), (name, lists)), left)
    ensures Decoded(bytes, base) == if ok then Restored(base, (name, lists), left == []) else Refused
  {
  }

  /** What an operation did: it threw and changed nothing, or made the next state. */
  ghost predicate Applied(before: State, op: Op, ok: bool, after: State) {
    match Apply(before, op)
    case None => !ok && after == before
    case Some(next) => ok && after == next
  }

  method DecodeUser(r: Payloads.PayloadReader, ghost f: Format<(Bytes, User)>) returns (ok: bool, e: (Bytes, User))
    requires r.Valid() && ReadsAs(f, UserFormat())
    modifies r`pos
    ensures r.Valid() && Took(f, old(r.Left()), ok, e, r.Left())
  {
    ghost var was := r.Left();
    var name, hash, salt := [], [], [];
    ok, name := r.ReadString16();
    ghost var mid, first := r.Left(), ok;
    if ok { ok, hash := r.ReadString16(); }
    ghost var late, second := r.Left(), ok;
    if ok { ok, salt := r.ReadString16(); }
    e := (name, (hash, salt));
    if first { TookPair(Text16(), Text16(), mid, second, hash, late, ok, salt, r.Left()); }
    TookPair(Text16(), Pair(Text16(), Text16()), was, first, name, mid, ok, (hash, salt), r.Left());
    TookAlike(f, UserFormat(), was, ok, e, r.Left());
  }

  // ---------- encoding ----------

  method EncodeCatalog(catalog: Catalog) returns (b: Bytes)
    ensures b == Encoded(catalog.Contents())
  {
    var snap := SnapshotOf(catalog.Contents());
    b := Put32(VERSION);
    b := Payloads.PutString16(b, snap.0);
    var lists := EncodeLists(snap.1.0, snap.1.1);
    b := b + lists;
    SnapshotBytes(snap);
  }

  lemma SnapshotBytes(snap: Snapshot)
    ensures SnapshotFormat().enc(((), snap)) == (Put32(VERSION) + Text16().enc(snap.0)) + ListsFormat().enc(snap.1)
  {
    PairBytes(Exactly(VERSION), Pair(Text16(), ListsFormat()), (), snap);
    PairBytes(Text16(), ListsFormat(), snap.0, snap.1);
    ViaBytes(Word32(), Being(VERSION), Held(VERSION), AnyUnit, ());
    Regroup(Put32(VERSION), Text16().enc(snap.0), ListsFormat().enc(snap.1));
  }

  method EncodeLists(dbs: DbList, users: seq<(Bytes, User)>) returns (b: Bytes)
    ensures b == ListsFormat().enc((dbs, users))
  {
    var first := EncodeDatabases(dbs, DbFormat());
    var second := EncodeUsers(users, UserFormat());
    b := first + second;
    PairBytes(Counted(DbFormat()), Counted(UserFormat()), dbs, users);
  }

  method EncodeDatabases(dbs: DbList, ghost f: Format<(Bytes, seq<Bytes>)>) returns (b: Bytes)
    requires WritesAs(f, DbFormat())
    ensures b == Counted(f).enc(dbs)
  {
    b := Put32(|dbs|);
    for i := 0 to |dbs|
      invariant b == Put32(|dbs|) + Written(f, dbs[..i])
    {
      WrittenLast(f, dbs[..i], dbs[i]);
      assert dbs[..i] + [dbs[i]] == dbs[..i + 1];
      var one := EncodeDatabase(dbs[i], f);
      b := b + one;
      Regroup(Put32(|dbs|), Written(f, dbs[..i]), one);
    }
    assert dbs[..|dbs|] == dbs;
    ListBytes(Word32(), f, dbs);
  }

  method EncodeDatabase(db: (Bytes, seq<Bytes>), ghost f: Format<(Bytes, seq<Bytes>)>) returns (b: Bytes)
    requires WritesAs(f, DbFormat())
    ensures b == f.enc(db)
  {
    b := Payloads.PutString16([], db.0);
    var names := EncodeNames(db.1, Text16());
    assert [] + Text16().enc(db.0) == Text16().enc(db.0);
    b := b + names;
    PairBytes(Text16(), Counted(Text16()), db.0, db.1);
    assert EncAlike(f, DbFormat(), db) && db == (db.0, db.1);
  }

  method EncodeNames(names: seq<Bytes>, ghost f: Format<Bytes>) returns (b: Bytes)
    requires WritesAs(f, Text16())
    ensures b == Counted(f).enc(names)
  {
    b := Put32(|names|);
    for i := 0 to |names|
      invariant b == Put32(|names|) + Written(f, names[..i])
    {
      WrittenLast(f, names[..i], names[i]);
      assert names[..i] + [names[i]] == names[..i + 1];
      Regroup(Put32(|names|), Written(f, names[..i]), f.enc(names[i]));
      assert EncAlike(f, Text16(), names[i]);
      b := Payloads.PutString16(b, names[i]);
    }
    assert names[..|names|] == names;
    ListBytes(Word32(), f, names);
  }

  method EncodeUsers(users: seq<(Bytes, User)>, ghost f: Format<(Bytes, User)>) returns (b: Bytes)
    requires WritesAs(f, UserFormat())
    ensures b == Counted(f).enc(users)
  {
    b := Put32(|users|);
    for i := 0 to |users|
      invariant b == Put32(|users|) + Written(f, users[..i])
    {
      WrittenLast(f, users[..i], users[i]);
      assert users[..i] + [users[i]] == users[..i + 1];
      Regroup(Put32(|users|), Written(f, users[..i]), f.enc(users[i]));
      b := EncodeUser(b, users[i], f);
    }
    assert users[..|users|] == users;
    ListBytes(Word32(), f, users);
  }

  method EncodeUser(buf: Bytes, e: (Bytes, User), ghost f: Format<(Bytes, User)>) returns (b: Bytes)
    requires WritesAs(f, UserFormat())
    ensures b == buf + f.enc(e)
  {
    var (name, (hash, salt)) := e;
    b := Payloads.PutString16(buf, name);
    b := Payloads.PutString16(b, hash);
    b := Payloads.PutString16(b, salt);
    UserBytes(name, hash, salt);
    ThreeParts(buf, Text16().enc(name), Text16().enc(hash), Text16().enc(salt));
    assert EncAlike(f, UserFormat(), e) && e == (name, (hash, salt));
  }

  lemma UserBytes(name: Bytes, hash: Bytes, salt: Bytes)
    ensures UserFormat().enc((name, (hash, salt))) == Text16().enc(name) + (Text16().enc(hash) + Text16().enc(salt))
  {
    PairBytes(Text16(), Pair(Text16(), Text16()), name, (hash, salt));
    PairBytes(Text16(), Text16(), hash, salt);
  }

  lemma ThreeParts(buf: Bytes, x: Bytes, y: Bytes, z: Bytes)
    ensures ((buf + x) + y) + z == buf + (x + (y + z))
  {
  }
}
