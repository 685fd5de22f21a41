/** The user store: an in-memory cache of live records in front of a JSON file
    (telegram-bot/src/storage.ts). */
module Storage {
  import opened Wrappers
  import opened Wallets

  const DEFAULT_LANG := "ru"

  type UserId = string

  datatype SendDraft = SendDraft(to: string, amount: Option<string>)

  datatype Awaiting = SendAddress | SendAmount

  /** What a record says, whichever way its fields are represented. */
  datatype User = User(
    wallet: Option<StoredWallet>,
    lang: Option<string>,
    sendDraft: Option<SendDraft>,
    awaiting: Option<Awaiting>)

  /** The record that `ensure` creates for an unknown user. */
  const NEW_USER := User(None, Some(DEFAULT_LANG), None, None)

  /** One record for every user there could be. */
  type Users = w: imap<UserId, User> | forall id: UserId :: id in w
    ghost witness imap id: UserId :: NEW_USER

  /** A property of a JavaScript object: absent, present but undefined, or present. */
  datatype Property<+T> = Missing | Undefined | Is(value: T)

  function Read<T>(p: Property<T>): Option<T> {
    match p
    case Is(v) => Some(v)
    case _ => None
  }

  /** JSON drops undefined properties. */
  function Parsed<T>(o: Option<T>): Property<T> {
    match o
    case Some(v) => Is(v)
    case None => Missing
  }

  /** The argument of `updateRecord`; a missing property leaves the record's own alone. */
  datatype Patch = Patch(
    nameonly wallet: Property<StoredWallet> := Missing,
    nameonly lang: Property<string> := Missing,
    nameonly sendDraft: Property<SendDraft> := Missing,
    nameonly awaiting: Property<Awaiting> := Missing)

  function Override<T>(o: Option<T>, p: Property<T>): Option<T> {
    if p.Missing? then o else Read(p)
  }

  function Patched(u: User, patch: Patch): User {
    User(Override(u.wallet, patch.wallet), Override(u.lang, patch.lang),
         Override(u.sendDraft, patch.sendDraft), Override(u.awaiting, patch.awaiting))
  }

  class UserRecord {
    var wallet: Property<StoredWallet>
    var lang: Property<string>
    var sendDraft: Property<SendDraft>
    var awaiting: Property<Awaiting>

    /** A record read back from JSON. */
    constructor FromSaved(u: User)
      ensures Value() == u
    {
      wallet, lang := Parsed(u.wallet), Parsed(u.lang);
      sendDraft, awaiting := Parsed(u.sendDraft), Parsed(u.awaiting);
    }

    function Value(): User
      reads this
    {
      User(Read(wallet), Read(lang), Read(sendDraft), Read(awaiting))
    }

    /** `Object.assign(rec, patch)` */
    method Assign(patch: Patch)
      modifies this
      ensures Value() == Patched(old(Value()), patch)
      ensures Value().wallet == if patch.wallet.Missing? then old(Value()).wallet else Read(patch.wallet)
      ensures Value().lang == if patch.lang.Missing? then old(Value()).lang else Read(patch.lang)
      ensures Value().sendDraft == if patch.sendDraft.Missing? then old(Value()).sendDraft else Read(patch.sendDraft)
      ensures Value().awaiting == if patch.awaiting.Missing? then old(Value()).awaiting else Read(patch.awaiting)
    {
      if !patch.wallet.Missing? { wallet := patch.wallet; }
      if !patch.lang.Missing? { lang := patch.lang; }
      if !patch.sendDraft.Missing? { sendDraft := patch.sendDraft; }
      if !patch.awaiting.Missing? { awaiting := patch.awaiting; }
    }
  }

  type Database = map<UserId, UserRecord>

  ghost predicate Distinct(db: Database) {
    forall a, b :: a in db && b in db && a != b ==> db[a] != db[b]
  }

  /** What the JSON text of a database says. */
  function Snapshot(db: Database): map<UserId, User>
    reads db.Values
  {
    map id | id in db :: db[id].Value()
  }

  /** `JSON.parse`: a new record object for every user. */
  method ParseUsers(file: map<UserId, User>) returns (db: Database)
    ensures db.Keys == file.Keys && Distinct(db) && fresh(db.Values)
    ensures forall id :: id in file ==> db[id].Value() == file[id]
  {
    db := map[];
    var rest := file.Keys;
    while rest != {}
      invariant rest <= file.Keys && db.Keys == file.Keys - rest
      invariant Distinct(db) && fresh(db.Values)
      invariant forall id :: id in db ==> db[id] in db.Values && db[id].Value() == file[id]
      decreases rest
    {
      var id :| id in rest;
      var rec := new UserRecord.FromSaved(file[id]);
      db := db[id := rec];
      rest := rest - {id};
    }
  }

  /** The total map that saved users denote: a user without a record reads as a new one. */
  ghost function Denoted(saved: Option<map<UserId, User>>): Users {
    imap id: UserId :: if saved.Some? && id in saved.value then saved.value[id] else NEW_USER
  }

  lemma DenotedUpdate(saved: map<UserId, User>, id: UserId, u: User)
    ensures Denoted(Some(saved[id := u])) == Denoted(Some(saved))[id := u]
  {
  }

  /** An entry for an unknown user does not change what a database denotes. */
  lemma UnsavedEntry(saved: map<UserId, User>, id: UserId)
    requires id !in saved
    ensures Denoted(Some(saved[id := NEW_USER])) == Denoted(Some(saved))
  {
  }

  class UserStorage {
    var cache: Option<Database>
    /** The content of users.json; `None` while it is absent or unreadable. */
    var disk: Option<map<UserId, User>>

    ghost function Records(): set<UserRecord>
      reads this
    {
      if cache.Some? then cache.value.Values else {}
    }

    /** No record is shared by two users, and cache and file denote the same users, although
        entries made by `Ensure` are not saved. */
    ghost predicate Valid()
      reads this, Records()
    {
      cache.Some? ==>
        && Distinct(cache.value)
        && Denoted(Some(Snapshot(cache.value))) == Denoted(disk)
    }

    /** Every user's record, as any read reports it. */
    ghost function Contents(): Users
      reads this, Records()
    {
      Denoted(if cache.Some? then Some(Snapshot(cache.value)) else disk)
    }

    /** A process start over whatever the file holds. */
    constructor (file: Option<map<UserId, User>>)
      ensures Valid() && cache == None && disk == file
      ensures Contents() == Denoted(file)
      ensures forall id: UserId ::
                Contents()[id] == if file.Some? && id in file.value then file.value[id] else User(None, Some("ru"), None, None)
    {
      cache, disk := None, file;
    }

    /** The process ends and starts again: only the file survives. */
    method Restart()
      requires Valid()
      modifies this
      ensures Valid() && cache == None && disk == old(disk)
      ensures Contents() == old(Contents())
    {
      cache := None;
    }

    method Load() returns (db: Database)
      requires Valid()
      modifies this
      ensures Valid() && cache == Some(db) && disk == old(disk)
      ensures old(cache).Some? ==> cache == old(cache)
      ensures fresh(Records() - old(Records()))
      ensures Contents() == old(Contents())
    {
      if cache.Some? {
        return cache.value;
      }
      if disk.Some? {
        db := ParseUsers(disk.value);
        assert Snapshot(db) == disk.value;
      } else {
        db := map[];
      }
      cache := Some(db);
    }

    method Save(db: Database)
      requires Distinct(db)
      modifies this
      ensures Valid() && cache == Some(db) && disk == Some(Snapshot(db))
      ensures Contents() == Denoted(Some(Snapshot(db)))
    {
      disk := Some(Snapshot(db));
      cache := Some(db);
    }

    /** `db.users[userId] = rec` and `save`, after `rec` changed in place. */
    method Store(id: UserId, rec: UserRecord, ghost saved: map<UserId, User>)
      requires cache.Some? && id in cache.value && cache.value[id] == rec && Distinct(cache.value)
      requires saved.Keys == cache.value.Keys
      requires forall k :: k in cache.value && k != id ==> cache.value[k].Value() == saved[k]
      modifies this
      ensures Valid() && cache == old(cache)
      ensures Contents() == Denoted(Some(saved))[id := rec.Value()]
    {
      var db := cache.value[id := rec];
      assert db == cache.value;
      assert Snapshot(db) == saved[id := rec.Value()];
      DenotedUpdate(saved, id, rec.Value());
      Save(db);
    }

    method AddNew(id: UserId)
      requires Valid() && cache.Some? && id !in cache.value
      modifies this
      ensures Valid() && disk == old(disk)
      ensures cache.Some? && id in cache.value
      ensures fresh(Records() - old(Records()))
      ensures Contents() == old(Contents())
    {
      var db := cache.value;
      ghost var saved := Snapshot(db);
      var rec := new UserRecord.FromSaved(NEW_USER);
      cache := Some(db[id := rec]);
      assert Snapshot(cache.value) == saved[id := NEW_USER];
      UnsavedEntry(saved, id);
    }

    /** The live record of a user, created in the cache but not saved when there is none. */
    method Ensure(id: UserId) returns (rec: UserRecord)
      requires Valid()
      modifies this
      ensures Valid() && disk == old(disk)
      ensures cache.Some? && id in cache.value && cache.value[id] == rec
      ensures fresh(Records() - old(Records()))
      ensures Contents() == old(Contents())
      ensures rec.Value() == Contents()[id]
      ensures old(cache).Some? && id in old(cache).value ==> cache == old(cache)
    {
      var db := Load();
      if id !in db {
        AddNew(id);
      }
      rec := cache.value[id];
    }

    method GetWallet(id: UserId) returns (wallet: Option<StoredWallet>)
      requires Valid()
      modifies this
      ensures Valid() && disk == old(disk) && fresh(Records() - old(Records()))
      ensures Contents() == old(Contents())
      ensures wallet == Contents()[id].wallet
    {
      var db := Load();
      wallet := if id in db then Read(db[id].wallet) else None;
    }

    method SetWallet(id: UserId, wallet: StoredWallet)
      requires Valid()
      modifies this, Records()
      ensures Valid() && fresh(Records() - old(Records()))
      ensures Contents() == old(Contents())[id := old(Contents()[id]).(wallet := Some(wallet))]
    {
      hide Denoted;
      var _ := Load();
      var rec := Ensure(id);
      ghost var saved := Snapshot(cache.value);
      rec.wallet := Is(wallet);
      Store(id, rec, saved);
    }

    method GetLang(id: UserId) returns (lang: string)
      requires Valid()
      modifies this
      ensures Valid() && disk == old(disk) && fresh(Records() - old(Records()))
      ensures Contents() == old(Contents())
      ensures lang == if Contents()[id].lang.Some? then Contents()[id].lang.value else "ru"
    {
      var db := Load();
      lang := if id in db && db[id].lang.Is? then db[id].lang.value else DEFAULT_LANG;
    }

    method SetLang(id: UserId, lang: string)
      requires Valid()
      modifies this, Records()
      ensures Valid() && fresh(Records() - old(Records()))
      ensures Contents() == old(Contents())[id := old(Contents()[id]).(lang := Some(lang))]
    {
      hide Denoted;
      var _ := Load();
      var rec := Ensure(id);
      ghost var saved := Snapshot(cache.value);
      rec.lang := Is(lang);
      Store(id, rec, saved);
    }

    method GetRecord(id: UserId) returns (rec: UserRecord)
      requires Valid()
      modifies this
      ensures Valid() && disk == old(disk) && fresh(Records() - old(Records()))
      ensures cache.Some? && id in cache.value && cache.value[id] == rec
      ensures Contents() == old(Contents())
      ensures rec.Value() == Contents()[id]
    {
      rec := Ensure(id);
    }

    method UpdateRecord(id: UserId, patch: Patch) returns (rec: UserRecord)
      requires Valid()
      modifies this, Records()
      ensures Valid() && fresh(Records() - old(Records()))
      ensures cache.Some? && id in cache.value && cache.value[id] == rec
      ensures Contents() == old(Contents())[id := Patched(old(Contents()[id]), patch)]
      ensures rec.Value() == Contents()[id]
      ensures old(cache).Some? && id in old(cache).value ==> rec == old(cache).value[id]
    {
      hide Denoted;
      var _ := Load();
      rec := Ensure(id);
      ghost var saved := Snapshot(cache.value);
      rec.Assign(patch);
      Store(id, rec, saved);
    }

    method ClearSendDraft(id: UserId)
      requires Valid()
      modifies this, Records()
      ensures Valid() && fresh(Records() - old(Records()))
      ensures Contents() == old(Contents())[id := old(Contents()[id]).(sendDraft := None, awaiting := None)]
    {
      var _ := UpdateRecord(id, Patch(sendDraft := Undefined, awaiting := Undefined));
    }
  }

  // ---------- the legacy wallet file ----------

  /** The wallets of wallets.json, from the entries of its object. An object has one entry per key;
      were there two, the loop below would keep the first. */
  function LegacyWallets(entries: seq<(UserId, StoredWallet)>): map<UserId, StoredWallet> {
    if entries == [] then map[]
    else
      var before := LegacyWallets(entries[..|entries| - 1]);
      var (id, wallet) := entries[|entries| - 1];
      if id in before then before else before[id := wallet]
  }

  /** Each user of the file has the wallet of the user's first entry. */
  lemma {:induction false} LegacyFirst(entries: seq<(UserId, StoredWallet)>, i: nat)
    requires i < |entries| && forall k :: 0 <= k < i ==> entries[k].0 != entries[i].0
    ensures entries[i].0 in LegacyWallets(entries) && LegacyWallets(entries)[entries[i].0] == entries[i].1
  {
    var n := |entries| - 1;
    if i < n {
      LegacyFirst(entries[..n], i);
    } else if entries[n].0 in LegacyWallets(entries[..n]) {
      var k := LegacyEntry(entries[..n], entries[n].0);
      assert false;
    }
  }

  /** No other users have one. */
  lemma {:induction false} LegacyEntry(entries: seq<(UserId, StoredWallet)>, id: UserId) returns (k: nat)
    requires id in LegacyWallets(entries)
    ensures k < |entries| && entries[k].0 == id
  {
    var n := |entries| - 1;
    if entries[n].0 == id {
      k := n;
    } else {
      k := LegacyEntry(entries[..n], id);
    }
  }

  /** Every user without a wallet gets the legacy one, if there is one. */
  ghost function Migrated(users: Users, legacy: map<UserId, StoredWallet>): Users {
    imap id: UserId ::
      if users[id].wallet == None && id in legacy then users[id].(wallet := Some(legacy[id])) else users[id]
  }

  /** A user without a wallet is given one. */
  ghost function Given(users: Users, id: UserId, wallet: StoredWallet): Users {
    if users[id].wallet == None then users[id := users[id].(wallet := Some(wallet))] else users
  }

  /** One more legacy entry matters only to a user who is still without a wallet. */
  lemma MigratedNext(users: Users, before: seq<(UserId, StoredWallet)>, e: (UserId, StoredWallet))
    ensures Migrated(users, LegacyWallets(before + [e])) ==
            Given(Migrated(users, LegacyWallets(before)), e.0, e.1)
  {
    var legacy := LegacyWallets(before);
    assert (before + [e])[..|before|] == before;
    assert LegacyWallets(before + [e]) == if e.0 in legacy then legacy else legacy[e.0 := e.1];
  }

  lemma MigratedNothing(users: Users)
    ensures Migrated(users, map[]) == users == Migrated(users, LegacyWallets([]))
  {
  }

  /** One entry of the legacy file. */
  method MigrateEntry(storage: UserStorage, id: UserId, wallet: StoredWallet)
    requires storage.Valid()
    modifies storage, storage.Records()
    ensures storage.Valid() && fresh(storage.Records() - old(storage.Records()))
    ensures storage.Contents() == Given(old(storage.Contents()), id, wallet)
  {
    hide UserStorage.Valid, UserStorage.Contents;
    var existing := storage.GetWallet(id);
    if existing.None? {
      storage.SetWallet(id, wallet);
    }
  }

  method MigrateEntries(storage: UserStorage, entries: seq<(UserId, StoredWallet)>)
    requires storage.Valid()
    modifies storage, storage.Records()
    ensures storage.Valid() && fresh(storage.Records() - old(storage.Records()))
    ensures storage.Contents() == Migrated(old(storage.Contents()), LegacyWallets(entries))
  {
    hide UserStorage.Valid, UserStorage.Contents, Migrated, Given, LegacyWallets;
    ghost var start := storage.Contents();
    MigratedNothing(start);
    assert entries[..0] == [] && entries[..|entries|] == entries;
    for i := 0 to |entries|
      invariant storage.Valid() && fresh(storage.Records() - old(storage.Records()))
      invariant storage.Contents() == Migrated(start, LegacyWallets(entries[..i]))
    {
      MigratedNext(start, entries[..i], entries[i]);
      assert entries[..i + 1] == entries[..i] + [entries[i]];
      MigrateEntry(storage, entries[i].0, entries[i].1);
    }
  }

  /** `migrateLegacyWallets`; `legacy` is `None` when the old file is absent or unreadable. */
  method MigrateLegacyWallets(storage: UserStorage, legacy: Option<seq<(UserId, StoredWallet)>>)
    requires storage.Valid()
    modifies storage, storage.Records()
    ensures storage.Valid() && fresh(storage.Records() - old(storage.Records()))
    ensures storage.Contents() ==
            Migrated(old(storage.Contents()), if legacy.Some? then LegacyWallets(legacy.value) else map[])
    ensures legacy.None? ==> storage.cache == old(storage.cache)
  {
    hide UserStorage.Valid, UserStorage.Contents, Migrated;
    MigratedNothing(storage.Contents());
    if legacy.Some? {
      MigrateEntries(storage, legacy.value);
    }
  }

  /** Every legacy user has a wallet. */
  ghost predicate Adopted(users: Users, legacy: map<UserId, StoredWallet>) {
    forall id :: id in legacy ==> users[id].wallet.Some?
  }

  /** Migration gives every legacy user without a wallet the legacy one, keeps every wallet there was and
      every other user and field, and does nothing when it is repeated. */
  lemma MigrationAdopts(users: Users, legacy: map<UserId, StoredWallet>)
    ensures Adopted(Migrated(users, legacy), legacy)
    ensures forall id :: id in legacy && users[id].wallet.None? ==>
              var u, v := users[id], Migrated(users, legacy)[id];
              v.wallet == Some(legacy[id]) && v.lang == u.lang && v.sendDraft == u.sendDraft && v.awaiting == u.awaiting
    ensures forall id: UserId :: id !in legacy ==> Migrated(users, legacy)[id] == users[id]
    ensures forall id: UserId :: users[id].wallet.Some? ==> Migrated(users, legacy)[id] == users[id]
    ensures Migrated(Migrated(users, legacy), legacy) == Migrated(users, legacy)
    ensures Adopted(users, legacy) ==> Migrated(users, legacy) == users
  {
  }
}
