/** What `sync_plex_data` (plex_service.py) does to the tables: libraries are
    upserted by section key, friends are upserted as users by plex id, and the
    sections the server shares with a friend become active share rows. */
module Sync {
  import opened Basics
  import opened Models
  import opened Schema
  import opened Remote
  import opened Access

  const SyncedMessage: string := "Sync successful."

  // ----- Libraries -----

  /** One server section: a new library row, or the existing row's title. The
      type of an existing row is not refreshed. */
  function UpsertLibrary(t: Snapshot, s: Section): Snapshot {
    match FindLibraryByKey(t.libraries, s.key)
    case None =>
      t.(libraries := t.libraries + [Library(t.nextLibraryId, s.key, s.title, s.kind)],
         nextLibraryId := t.nextLibraryId + 1)
    case Some(i) =>
      t.(libraries := t.libraries[i := t.libraries[i].(title := s.title)])
  }

  /** The library loop over the server's sections, in order. */
  function SyncLibraries(t: Snapshot, sections: seq<Section>): Snapshot
    decreases |sections|
  {
    if sections == [] then t
    else UpsertLibrary(SyncLibraries(t, sections[..|sections| - 1]), sections[|sections| - 1])
  }

  /** The title of the last section with `key`: the one whose write survives. */
  function LastTitle(sections: seq<Section>, key: string): Option<string>
    decreases |sections|
  {
    if sections == [] then None
    else if sections[|sections| - 1].key == key then Some(sections[|sections| - 1].title)
    else LastTitle(sections[..|sections| - 1], key)
  }

  predicate HasLibraryKey(libraries: seq<Library>, key: string) {
    exists j :: 0 <= j < |libraries| && libraries[j].plexKey == key
  }

  // ----- Users -----

  /** The tables after upserting one friend, and the id of the friend's row. */
  datatype Upserted = Upserted(tables: Snapshot, userId: nat)

  /** One friend: a new user row, or the existing row's name, email and thumb. */
  function UpsertUser(t: Snapshot, f: Friend): Upserted {
    match FindUserByPlexId(t.users, f.id)
    case None =>
      Upserted(t.(users := t.users + [PlexUser(t.nextUserId, f.id, f.title, f.email, f.thumb)],
                  nextUserId := t.nextUserId + 1),
               t.nextUserId)
    case Some(i) =>
      Upserted(t.(users := t.users[i := t.users[i].(username := f.title, email := f.email, thumb := f.thumb)]),
               t.users[i].id)
  }

  // ----- Shares -----

  /** The id of the library row with `key`, if there is one. */
  function LibraryIdForKey(libraries: seq<Library>, key: string): (r: Option<nat>)
    ensures r.Some? <==> HasLibraryKey(libraries, key)
    ensures r.Some? ==> exists j :: 0 <= j < |libraries| && libraries[j].plexKey == key && libraries[j].id == r.value
  {
    match FindLibraryByKey(libraries, key)
    case None => None
    case Some(l) => Some(libraries[l].id)
  }

  /** The section loop for one friend: each shared key with a library row makes
      that (user, library) share active; other keys are skipped. */
  function ImportShares(t: Snapshot, userId: nat, keys: seq<string>): Snapshot
    decreases |keys|
  {
    if keys == [] then t
    else
      var p := ImportShares(t, userId, keys[..|keys| - 1]);
      match LibraryIdForKey(p.libraries, keys[|keys| - 1])
      case None => p
      case Some(lib) => p.(shares := ActivateShare(p.shares, userId, lib))
  }

  /** The first of the friend's shared servers that is this server. */
  function FirstServerIndex(servers: seq<SharedServer>, machineIdentifier: string): (r: Option<nat>)
    ensures r.Some? ==> r.value < |servers| && servers[r.value].machineIdentifier == machineIdentifier
    ensures r.Some? ==> forall k :: 0 <= k < r.value ==> servers[k].machineIdentifier != machineIdentifier
    ensures r.None? ==> forall k :: 0 <= k < |servers| ==> servers[k].machineIdentifier != machineIdentifier
  {
    FirstIndex(servers, (s: SharedServer) => s.machineIdentifier == machineIdentifier)
  }

  /** The section keys imported for a friend: those of the first matching server
      only, or none. */
  function SharedKeys(f: Friend, machineIdentifier: string): seq<string> {
    match FirstServerIndex(f.servers, machineIdentifier)
    case None => []
    case Some(k) => f.servers[k].sectionKeys
  }

  function SyncFriend(t: Snapshot, f: Friend, machineIdentifier: string): Snapshot {
    var u := UpsertUser(t, f);
    ImportShares(u.tables, u.userId, SharedKeys(f, machineIdentifier))
  }

  /** The friend loop, in the order the account lists its friends. */
  function SyncFriends(t: Snapshot, friends: seq<Friend>, machineIdentifier: string): Snapshot
    decreases |friends|
  {
    if friends == [] then t
    else SyncFriend(SyncFriends(t, friends[..|friends| - 1], machineIdentifier), friends[|friends| - 1], machineIdentifier)
  }

  /** The tables a successful sync commits. */
  function Synced(t: Snapshot, server: Server): Snapshot {
    SyncFriends(SyncLibraries(t, server.sections), server.friends, server.machineIdentifier)
  }

  /** The returned pair and the committed tables. Nothing is committed when the
      credentials are missing or the server raises. */
  datatype SyncResult = SyncResult(outcome: Outcome, tables: Snapshot)

  function SyncPlex(settings: map<string, string>, server: Server, t: Snapshot): (r: SyncResult)
    ensures r.outcome.ok <==> r.outcome == Outcome(true, SyncedMessage)
    ensures !r.outcome.ok ==> r.tables == t
  {
    if !Configured(settings) then SyncResult(Outcome(false, NotConfiguredMessage), t)
    else if server.outage.Some? then SyncResult(Outcome(false, server.outage.value), t)
    else SyncResult(Outcome(true, SyncedMessage), Synced(t, server))
  }

  // ----- Properties of the library phase -----

  lemma UpsertLibrarySpec(t: Snapshot, s: Section)
    requires LibrariesValid(t.libraries, t.nextLibraryId)
    ensures var r := UpsertLibrary(t, s);
      && r.users == t.users && r.shares == t.shares && r.nextUserId == t.nextUserId
      && LibrariesKept(t.libraries, r.libraries)
      && (forall j :: 0 <= j < |t.libraries| ==> r.libraries[j].kind == t.libraries[j].kind)
      && (forall j :: 0 <= j < |t.libraries| && t.libraries[j].plexKey != s.key ==> r.libraries[j] == t.libraries[j])
      && (forall j :: |t.libraries| <= j < |r.libraries| ==> r.libraries[j] == Library(t.nextLibraryId, s.key, s.title, s.kind))
      && (forall j :: 0 <= j < |r.libraries| && r.libraries[j].plexKey == s.key ==> r.libraries[j].title == s.title)
      && HasLibraryKey(r.libraries, s.key)
      && LibrariesValid(r.libraries, r.nextLibraryId)
  {
    var r := UpsertLibrary(t, s);
    match FindLibraryByKey(t.libraries, s.key)
    case None =>
      assert r.libraries[|t.libraries|].plexKey == s.key;
    case Some(i) =>
      assert r.libraries[i].plexKey == s.key;
  }

  /** What the library loop over `sections` guarantees about `r`, the tables it
      leaves behind when started from `t`. */
  predicate LibraryPhase(t: Snapshot, r: Snapshot, sections: seq<Section>) {
    && r.users == t.users && r.shares == t.shares && r.nextUserId == t.nextUserId
    && LibrariesKept(t.libraries, r.libraries)
    && LibrariesValid(r.libraries, r.nextLibraryId)
    && (forall j :: 0 <= j < |t.libraries| ==> r.libraries[j].kind == t.libraries[j].kind)
    && (forall i :: 0 <= i < |sections| ==> HasLibraryKey(r.libraries, sections[i].key))
    && (forall j :: 0 <= j < |t.libraries| && LastTitle(sections, t.libraries[j].plexKey).None? ==>
          r.libraries[j] == t.libraries[j])
    && (forall j :: 0 <= j < |r.libraries| && LastTitle(sections, r.libraries[j].plexKey).Some? ==>
          r.libraries[j].title == LastTitle(sections, r.libraries[j].plexKey).value)
  }

  lemma LibraryPhaseStep(t: Snapshot, p: Snapshot, prefix: seq<Section>, s: Section)
    requires LibraryPhase(t, p, prefix)
    ensures LibraryPhase(t, UpsertLibrary(p, s), prefix + [s])
  {
    var sections := prefix + [s];
    var r := UpsertLibrary(p, s);
    UpsertLibrarySpec(p, s);
    assert sections[..|sections| - 1] == prefix && sections[|sections| - 1] == s;
    assert LibrariesKept(t.libraries, r.libraries) by {
      assert LibrariesKept(t.libraries, p.libraries) && LibrariesKept(p.libraries, r.libraries);
    }
    forall i | 0 <= i < |sections| ensures HasLibraryKey(r.libraries, sections[i].key) {
      if i < |prefix| {
        assert sections[i] == prefix[i];
        var j :| 0 <= j < |p.libraries| && p.libraries[j].plexKey == prefix[i].key;
        assert r.libraries[j].plexKey == prefix[i].key;
      }
    }
    forall j | 0 <= j < |t.libraries| && LastTitle(sections, t.libraries[j].plexKey).None?
      ensures r.libraries[j] == t.libraries[j]
    {
      assert LastTitle(prefix, t.libraries[j].plexKey).None?;
    }
    forall j | 0 <= j < |r.libraries| && LastTitle(sections, r.libraries[j].plexKey).Some?
      ensures r.libraries[j].title == LastTitle(sections, r.libraries[j].plexKey).value
    {
      var key := r.libraries[j].plexKey;
      if key == s.key {
        assert LastTitle(sections, key) == Some(s.title);
      } else {
        assert LastTitle(sections, key) == LastTitle(prefix, key);
        if j < |p.libraries| {
          assert r.libraries[j] == p.libraries[j];
        }
      }
    }
  }

  /** The library phase touches only the library table. Every section key ends
      with a row, `plex_key` stays unique, existing rows keep their id, key and
      type, rows of keys the server no longer lists are untouched, and each row
      of a listed key carries the title of the last section with that key. */
  lemma {:induction false} SyncLibrariesSpec(t: Snapshot, sections: seq<Section>)
    requires LibrariesValid(t.libraries, t.nextLibraryId)
    ensures LibraryPhase(t, SyncLibraries(t, sections), sections)
    decreases |sections|
  {
    if sections != [] {
      var prefix := sections[..|sections| - 1];
      var s := sections[|sections| - 1];
      assert prefix + [s] == sections;
      assert LibraryPhase(t, UpsertLibrary(SyncLibraries(t, prefix), s), prefix + [s]) by {
        SyncLibrariesSpec(t, prefix);
        LibraryPhaseStep(t, SyncLibraries(t, prefix), prefix, s);
      }
    }
  }

  // ----- Properties of the friend phase -----

  lemma UpsertUserSpec(t: Snapshot, f: Friend)
    ensures var u := UpsertUser(t, f); var r := u.tables;
      && r.libraries == t.libraries && r.shares == t.shares && r.nextLibraryId == t.nextLibraryId
      && UsersKept(t.users, r.users)
      && (forall j :: 0 <= j < |t.users| && t.users[j].plexId != f.id ==> r.users[j] == t.users[j])
      && (exists j :: 0 <= j < |r.users| && r.users[j] == PlexUser(u.userId, f.id, f.title, f.email, f.thumb))
      && (UsersValid(t.users, t.nextUserId) ==> UsersValid(r.users, r.nextUserId))
  {
    var u := UpsertUser(t, f);
    match FindUserByPlexId(t.users, f.id)
    case None =>
      assert u.tables.users[|t.users|] == PlexUser(u.userId, f.id, f.title, f.email, f.thumb);
    case Some(i) =>
      assert u.tables.users[i] == PlexUser(u.userId, f.id, f.title, f.email, f.thumb);
  }

  /** Importing touches only the share table: nothing is deactivated or deleted
      and pairs stay unique. */
  lemma {:induction false} ImportSharesFrame(t: Snapshot, userId: nat, keys: seq<string>)
    ensures var r := ImportShares(t, userId, keys);
      && r.users == t.users && r.libraries == t.libraries
      && r.nextUserId == t.nextUserId && r.nextLibraryId == t.nextLibraryId
      && NeverDeactivated(t.shares, r.shares)
      && (SharePairsUnique(t.shares) ==> SharePairsUnique(r.shares))
    decreases |keys|
  {
    if keys != [] {
      var p := ImportShares(t, userId, keys[..|keys| - 1]);
      ImportSharesFrame(t, userId, keys[..|keys| - 1]);
      match LibraryIdForKey(p.libraries, keys[|keys| - 1])
      case None =>
      case Some(lib) =>
        ActivateShareSpec(p.shares, userId, lib);
        NeverDeactivatedTransitive(t.shares, p.shares, ActivateShare(p.shares, userId, lib));
    }
  }

  /** Every key of `keys` with a library row has an active share of that
      library for the user. */
  predicate ActivatedAll(shares: seq<Share>, libraries: seq<Library>, userId: nat, keys: seq<string>) {
    forall i :: 0 <= i < |keys| && LibraryIdForKey(libraries, keys[i]).Some? ==>
      HasActiveShare(shares, userId, LibraryIdForKey(libraries, keys[i]).value)
  }

  lemma ActivatedAllStep(before: seq<Share>, after: seq<Share>, libraries: seq<Library>, userId: nat,
                         prefix: seq<string>, key: string)
    requires ActivatedAll(before, libraries, userId, prefix) && NeverDeactivated(before, after)
    requires LibraryIdForKey(libraries, key).Some? ==> HasActiveShare(after, userId, LibraryIdForKey(libraries, key).value)
    ensures ActivatedAll(after, libraries, userId, prefix + [key])
  {
    var keys := prefix + [key];
    forall i | 0 <= i < |keys| && LibraryIdForKey(libraries, keys[i]).Some?
      ensures HasActiveShare(after, userId, LibraryIdForKey(libraries, keys[i]).value)
    {
      if i < |prefix| {
        assert keys[i] == prefix[i];
        ActiveShareKept(before, after, userId, LibraryIdForKey(libraries, prefix[i]).value);
      }
    }
  }

  /** Every requested key with a library row ends with an active share of that
      library for the user. */
  lemma {:induction false} ImportSharesActivate(t: Snapshot, userId: nat, keys: seq<string>)
    ensures ActivatedAll(ImportShares(t, userId, keys).shares, t.libraries, userId, keys)
    decreases |keys|
  {
    if keys != [] {
      var prefix := keys[..|keys| - 1];
      var key := keys[|keys| - 1];
      var p := ImportShares(t, userId, prefix);
      var r := ImportShares(t, userId, keys);
      ImportSharesActivate(t, userId, prefix);
      ImportSharesFrame(t, userId, prefix);
      var found := LibraryIdForKey(t.libraries, key);
      if found.None? {
        assert r == p;
      } else {
        assert r.shares == ActivateShare(p.shares, userId, found.value);
        ActivateShareSpec(p.shares, userId, found.value);
      }
      ActivatedAllStep(p.shares, r.shares, t.libraries, userId, prefix, key);
      assert prefix + [key] == keys;
    }
  }

  /** Every row of `after` that is new or differs from `before` was written
      while importing `keys` for `userId`. */
  predicate ChangesImported(before: seq<Share>, after: seq<Share>, libraries: seq<Library>, userId: nat, keys: seq<string>) {
    forall i :: 0 <= i < |after| && (i >= |before| || after[i] != before[i]) ==>
      Imported(after[i], libraries, userId, keys)
  }

  /** Every share row that importing adds or changes is an active share of the
      user for the library of one of the requested keys. */
  lemma {:induction false} ImportSharesOnlyImported(t: Snapshot, userId: nat, keys: seq<string>)
    ensures ChangesImported(t.shares, ImportShares(t, userId, keys).shares, t.libraries, userId, keys)
    decreases |keys|
  {
    if keys != [] {
      var prefix := keys[..|keys| - 1];
      var key := keys[|keys| - 1];
      var p := ImportShares(t, userId, prefix);
      var r := ImportShares(t, userId, keys);
      ImportSharesOnlyImported(t, userId, prefix);
      ImportSharesFrame(t, userId, prefix);
      ImportedUnderGrowth(t.libraries, userId, prefix, keys);
      var found := LibraryIdForKey(t.libraries, key);
      if found.None? {
        assert r == p;
      } else {
        var lib := found.value;
        assert r.shares == ActivateShare(p.shares, userId, lib);
        ActivateShareSpec(p.shares, userId, lib);
        forall i | 0 <= i < |r.shares| && (i >= |t.shares| || r.shares[i] != t.shares[i])
          ensures Imported(r.shares[i], t.libraries, userId, keys)
        {
          if i >= |p.shares| || r.shares[i] != p.shares[i] {
            assert keys[|keys| - 1] == key;
          } else {
            assert Imported(p.shares[i], t.libraries, userId, prefix);
          }
        }
      }
    }
  }

  /** A row written while importing `keys` for `userId`. */
  predicate Imported(s: Share, libraries: seq<Library>, userId: nat, keys: seq<string>) {
    s.userId == userId && s.isActive &&
    exists i :: 0 <= i < |keys| && LibraryIdForKey(libraries, keys[i]) == Some(s.libraryId)
  }

  lemma ImportedUnderGrowth(libraries: seq<Library>, userId: nat, prefix: seq<string>, keys: seq<string>)
    requires |prefix| <= |keys| && prefix == keys[..|prefix|]
    ensures forall s :: Imported(s, libraries, userId, prefix) ==> Imported(s, libraries, userId, keys)
  {
    forall s | Imported(s, libraries, userId, prefix) ensures Imported(s, libraries, userId, keys) {
      var i :| 0 <= i < |prefix| && LibraryIdForKey(libraries, prefix[i]) == Some(s.libraryId);
      assert keys[i] == prefix[i];
    }
  }

  /** Importing for a user that has a row keeps every share linked. */
  lemma ImportKeepsLinked(t: Snapshot, userId: nat, keys: seq<string>)
    requires SharesLinked(t.shares, t.users, t.libraries) && HasUser(t.users, userId)
    ensures var r := ImportShares(t, userId, keys); SharesLinked(r.shares, r.users, r.libraries)
  {
    var r := ImportShares(t, userId, keys);
    ImportSharesFrame(t, userId, keys);
    ImportSharesOnlyImported(t, userId, keys);
    forall i | 0 <= i < |r.shares|
      ensures HasUser(r.users, r.shares[i].userId) && HasLibrary(r.libraries, r.shares[i].libraryId)
    {
      if i >= |t.shares| || r.shares[i] != t.shares[i] {
        assert Imported(r.shares[i], t.libraries, userId, keys);
        var k :| 0 <= k < |keys| && LibraryIdForKey(t.libraries, keys[k]) == Some(r.shares[i].libraryId);
      }
    }
  }

  predicate HasPlexId(users: seq<PlexUser>, plexId: string) {
    exists j :: 0 <= j < |users| && users[j].plexId == plexId
  }

  /** Every key shared with `f` on this server that names a library row has an
      active share for the user row of `f`. */
  predicate FriendImported(t: Snapshot, f: Friend, machineIdentifier: string) {
    var keys := SharedKeys(f, machineIdentifier);
    forall k :: 0 <= k < |keys| && LibraryIdForKey(t.libraries, keys[k]).Some? ==>
      exists j :: 0 <= j < |t.users| && t.users[j].plexId == f.id &&
        HasActiveShare(t.shares, t.users[j].id, LibraryIdForKey(t.libraries, keys[k]).value)
  }

  lemma FriendImportedKept(before: Snapshot, after: Snapshot, f: Friend, machineIdentifier: string)
    requires FriendImported(before, f, machineIdentifier)
    requires after.libraries == before.libraries && UsersKept(before.users, after.users)
    requires NeverDeactivated(before.shares, after.shares)
    ensures FriendImported(after, f, machineIdentifier)
  {
    var keys := SharedKeys(f, machineIdentifier);
    forall k | 0 <= k < |keys| && LibraryIdForKey(after.libraries, keys[k]).Some?
      ensures exists j :: 0 <= j < |after.users| && after.users[j].plexId == f.id &&
                          HasActiveShare(after.shares, after.users[j].id, LibraryIdForKey(after.libraries, keys[k]).value)
    {
      var lib := LibraryIdForKey(after.libraries, keys[k]).value;
      var j :| 0 <= j < |before.users| && before.users[j].plexId == f.id && HasActiveShare(before.shares, before.users[j].id, lib);
      ActiveShareKept(before.shares, after.shares, before.users[j].id, lib);
      assert after.users[j].plexId == f.id && after.users[j].id == before.users[j].id;
    }
  }

  /** One friend: the frame of a single step of the friend loop. */
  lemma SyncFriendFrame(t: Snapshot, f: Friend, machineIdentifier: string)
    ensures var r := SyncFriend(t, f, machineIdentifier);
      && r.libraries == t.libraries && r.nextLibraryId == t.nextLibraryId
      && UsersKept(t.users, r.users)
      && NeverDeactivated(t.shares, r.shares)
      && HasPlexId(r.users, f.id)
  {
    var u := UpsertUser(t, f);
    UpsertUserSpec(t, f);
    ImportSharesFrame(u.tables, u.userId, SharedKeys(f, machineIdentifier));
    var j :| 0 <= j < |u.tables.users| && u.tables.users[j] == PlexUser(u.userId, f.id, f.title, f.email, f.thumb);
    assert SyncFriend(t, f, machineIdentifier).users[j].plexId == f.id;
  }

  /** One friend: its shared keys are imported for its own row. */
  lemma SyncFriendImports(t: Snapshot, f: Friend, machineIdentifier: string)
    ensures FriendImported(SyncFriend(t, f, machineIdentifier), f, machineIdentifier)
  {
    var keys := SharedKeys(f, machineIdentifier);
    var r := SyncFriend(t, f, machineIdentifier);
    var u := UpsertUser(t, f);
    UpsertUserSpec(t, f);
    ImportSharesFrame(u.tables, u.userId, keys);
    ImportSharesActivate(u.tables, u.userId, keys);
    var j :| 0 <= j < |u.tables.users| && u.tables.users[j] == PlexUser(u.userId, f.id, f.title, f.email, f.thumb);
    forall k | 0 <= k < |keys| && LibraryIdForKey(r.libraries, keys[k]).Some?
      ensures exists j :: 0 <= j < |r.users| && r.users[j].plexId == f.id &&
                          HasActiveShare(r.shares, r.users[j].id, LibraryIdForKey(r.libraries, keys[k]).value)
    {
      assert r.users[j].plexId == f.id && r.users[j].id == u.userId;
    }
  }

  /** The friend phase touches only the user and share tables: existing user
      rows keep their id and plex id, and no share is deactivated or deleted. */
  lemma {:induction false} SyncFriendsFrame(t: Snapshot, friends: seq<Friend>, machineIdentifier: string)
    ensures var r := SyncFriends(t, friends, machineIdentifier);
      && r.libraries == t.libraries && r.nextLibraryId == t.nextLibraryId
      && UsersKept(t.users, r.users)
      && NeverDeactivated(t.shares, r.shares)
    decreases |friends|
  {
    if friends != [] {
      var f := friends[|friends| - 1];
      var p := SyncFriends(t, friends[..|friends| - 1], machineIdentifier);
      SyncFriendsFrame(t, friends[..|friends| - 1], machineIdentifier);
      var u := UpsertUser(p, f);
      UpsertUserSpec(p, f);
      ImportSharesFrame(u.tables, u.userId, SharedKeys(f, machineIdentifier));
      NeverDeactivatedTransitive(t.shares, p.shares, SyncFriends(t, friends, machineIdentifier).shares);
    }
  }

  /** The friend phase keeps the tables' integrity: unique plex ids and keys,
      one share per pair, and linked shares. */
  lemma {:induction false} SyncFriendsValid(t: Snapshot, friends: seq<Friend>, machineIdentifier: string)
    requires Valid(t)
    ensures Valid(SyncFriends(t, friends, machineIdentifier))
    decreases |friends|
  {
    if friends != [] {
      var f := friends[|friends| - 1];
      var p := SyncFriends(t, friends[..|friends| - 1], machineIdentifier);
      SyncFriendsValid(t, friends[..|friends| - 1], machineIdentifier);
      var u := UpsertUser(p, f);
      UpsertUserSpec(p, f);
      LinkedUnderGrowth(p.shares, p.users, p.libraries, u.tables.users, u.tables.libraries);
      assert HasUser(u.tables.users, u.userId);
      ImportSharesFrame(u.tables, u.userId, SharedKeys(f, machineIdentifier));
      ImportKeepsLinked(u.tables, u.userId, SharedKeys(f, machineIdentifier));
    }
  }

  /** Every friend in `friends` has a user row. */
  predicate FriendsHaveRows(users: seq<PlexUser>, friends: seq<Friend>) {
    forall i :: 0 <= i < |friends| ==> HasPlexId(users, friends[i].id)
  }

  lemma FriendsHaveRowsStep(before: seq<PlexUser>, after: seq<PlexUser>, prefix: seq<Friend>, f: Friend)
    requires FriendsHaveRows(before, prefix) && UsersKept(before, after) && HasPlexId(after, f.id)
    ensures FriendsHaveRows(after, prefix + [f])
  {
    var friends := prefix + [f];
    forall i | 0 <= i < |friends| ensures HasPlexId(after, friends[i].id) {
      if i < |prefix| {
        assert friends[i] == prefix[i];
        var j :| 0 <= j < |before| && before[j].plexId == prefix[i].id;
        assert after[j].plexId == prefix[i].id;
      }
    }
  }

  /** Every friend of the account ends with a user row. */
  lemma {:induction false} SyncFriendsUsers(t: Snapshot, friends: seq<Friend>, machineIdentifier: string)
    ensures FriendsHaveRows(SyncFriends(t, friends, machineIdentifier).users, friends)
    decreases |friends|
  {
    if friends != [] {
      var prefix := friends[..|friends| - 1];
      var f := friends[|friends| - 1];
      var p := SyncFriends(t, prefix, machineIdentifier);
      var r := SyncFriends(t, friends, machineIdentifier);
      assert prefix + [f] == friends;
      assert FriendsHaveRows(r.users, prefix + [f]) by {
        assert r == SyncFriend(p, f, machineIdentifier);
        SyncFriendsUsers(t, prefix, machineIdentifier);
        SyncFriendFrame(p, f, machineIdentifier);
        FriendsHaveRowsStep(p.users, r.users, prefix, f);
      }
    }
  }

  /** Every friend in `friends` has its shared keys imported. */
  predicate FriendsImported(t: Snapshot, friends: seq<Friend>, machineIdentifier: string) {
    forall i :: 0 <= i < |friends| ==> FriendImported(t, friends[i], machineIdentifier)
  }

  lemma FriendsImportedStep(p: Snapshot, r: Snapshot, prefix: seq<Friend>, f: Friend, machineIdentifier: string)
    requires FriendsImported(p, prefix, machineIdentifier) && FriendImported(r, f, machineIdentifier)
    requires r.libraries == p.libraries && UsersKept(p.users, r.users) && NeverDeactivated(p.shares, r.shares)
    ensures FriendsImported(r, prefix + [f], machineIdentifier)
  {
    var friends := prefix + [f];
    forall i | 0 <= i < |friends| ensures FriendImported(r, friends[i], machineIdentifier) {
      if i < |prefix| {
        assert friends[i] == prefix[i];
        FriendImportedKept(p, r, prefix[i], machineIdentifier);
      }
    }
  }

  /** Every section key that this server (the first matching entry of the
      friend's server list) shares with a friend, and that names a library
      row, ends with an active share for that friend's user row. */
  lemma {:induction false} SyncFriendsImport(t: Snapshot, friends: seq<Friend>, machineIdentifier: string)
    ensures FriendsImported(SyncFriends(t, friends, machineIdentifier), friends, machineIdentifier)
    decreases |friends|
  {
    if friends != [] {
      var prefix := friends[..|friends| - 1];
      var f := friends[|friends| - 1];
      var p := SyncFriends(t, prefix, machineIdentifier);
      var r := SyncFriends(t, friends, machineIdentifier);
      assert prefix + [f] == friends;
      assert FriendsImported(r, prefix + [f], machineIdentifier) by {
        assert r == SyncFriend(p, f, machineIdentifier);
        SyncFriendsImport(t, prefix, machineIdentifier);
        SyncFriendFrame(p, f, machineIdentifier);
        SyncFriendImports(p, f, machineIdentifier);
        FriendsImportedStep(p, r, prefix, f, machineIdentifier);
      }
    }
  }

  /** `s` is an active share of the row of one of `friends` for the library of a
      key this server shares with that friend. */
  predicate ImportedFor(t: Snapshot, s: Share, friends: seq<Friend>, machineIdentifier: string) {
    exists i, j :: 0 <= i < |friends| && 0 <= j < |t.users| && t.users[j].plexId == friends[i].id &&
      Imported(s, t.libraries, t.users[j].id, SharedKeys(friends[i], machineIdentifier))
  }

  lemma ImportedForGrowth(p: Snapshot, r: Snapshot, s: Share, prefix: seq<Friend>, friends: seq<Friend>, machineIdentifier: string)
    requires ImportedFor(p, s, prefix, machineIdentifier)
    requires r.libraries == p.libraries && UsersKept(p.users, r.users)
    requires |prefix| <= |friends| && prefix == friends[..|prefix|]
    ensures ImportedFor(r, s, friends, machineIdentifier)
  {
    var i, j :| 0 <= i < |prefix| && 0 <= j < |p.users| && p.users[j].plexId == prefix[i].id &&
      Imported(s, p.libraries, p.users[j].id, SharedKeys(prefix[i], machineIdentifier));
    assert friends[i] == prefix[i];
    assert r.users[j].plexId == p.users[j].plexId && r.users[j].id == p.users[j].id;
  }

  /** Every row of `r` that is new or differs from `before` is an imported
      share of one of `friends`. */
  predicate ChangesImportedFor(before: seq<Share>, r: Snapshot, friends: seq<Friend>, machineIdentifier: string) {
    forall k :: 0 <= k < |r.shares| && (k >= |before| || r.shares[k] != before[k]) ==>
      ImportedFor(r, r.shares[k], friends, machineIdentifier)
  }

  /** One friend: every row it adds or changes is one of its imported shares. */
  lemma SyncFriendOnlyImported(t: Snapshot, f: Friend, machineIdentifier: string)
    ensures ChangesImportedFor(t.shares, SyncFriend(t, f, machineIdentifier), [f], machineIdentifier)
  {
    var keys := SharedKeys(f, machineIdentifier);
    var r := SyncFriend(t, f, machineIdentifier);
    var u := UpsertUser(t, f);
    UpsertUserSpec(t, f);
    ImportSharesFrame(u.tables, u.userId, keys);
    ImportSharesOnlyImported(u.tables, u.userId, keys);
    var j :| 0 <= j < |u.tables.users| && u.tables.users[j] == PlexUser(u.userId, f.id, f.title, f.email, f.thumb);
    forall k | 0 <= k < |r.shares| && (k >= |t.shares| || r.shares[k] != t.shares[k])
      ensures ImportedFor(r, r.shares[k], [f], machineIdentifier)
    {
      assert [f][0] == f;
      assert r.users[j].plexId == f.id && r.users[j].id == u.userId;
      assert Imported(r.shares[k], r.libraries, r.users[j].id, SharedKeys([f][0], machineIdentifier));
    }
  }

  lemma ChangesImportedForStep(before: seq<Share>, p: Snapshot, r: Snapshot, prefix: seq<Friend>, f: Friend,
                               machineIdentifier: string)
    requires ChangesImportedFor(before, p, prefix, machineIdentifier)
    requires ChangesImportedFor(p.shares, r, [f], machineIdentifier)
    requires r.libraries == p.libraries && UsersKept(p.users, r.users)
    ensures ChangesImportedFor(before, r, prefix + [f], machineIdentifier)
  {
    var friends := prefix + [f];
    forall k | 0 <= k < |r.shares| && (k >= |before| || r.shares[k] != before[k])
      ensures ImportedFor(r, r.shares[k], friends, machineIdentifier)
    {
      if k < |p.shares| && r.shares[k] == p.shares[k] {
        assert friends[..|prefix|] == prefix;
        ImportedForGrowth(p, r, r.shares[k], prefix, friends, machineIdentifier);
      } else {
        var i, j :| 0 <= i < 1 && 0 <= j < |r.users| && r.users[j].plexId == [f][i].id &&
          Imported(r.shares[k], r.libraries, r.users[j].id, SharedKeys([f][i], machineIdentifier));
        assert friends[|prefix|] == [f][i];
      }
    }
  }

  /** The friend phase activates nothing else: every share row it adds or
      changes is an active share of some friend's row for the library of a key
      this server shares with that friend. */
  lemma {:induction false} SyncFriendsOnlyImported(t: Snapshot, friends: seq<Friend>, machineIdentifier: string)
    ensures ChangesImportedFor(t.shares, SyncFriends(t, friends, machineIdentifier), friends, machineIdentifier)
    decreases |friends|
  {
    if friends != [] {
      var prefix := friends[..|friends| - 1];
      var f := friends[|friends| - 1];
      var p := SyncFriends(t, prefix, machineIdentifier);
      var r := SyncFriends(t, friends, machineIdentifier);
      assert prefix + [f] == friends;
      assert ChangesImportedFor(t.shares, r, prefix + [f], machineIdentifier) by {
        assert r == SyncFriend(p, f, machineIdentifier);
        SyncFriendsOnlyImported(t, prefix, machineIdentifier);
        SyncFriendFrame(p, f, machineIdentifier);
        SyncFriendOnlyImported(p, f, machineIdentifier);
        ChangesImportedForStep(t.shares, p, r, prefix, f, machineIdentifier);
      }
    }
  }

  /** A successful sync keeps the tables' integrity (in particular `plex_key`
      and `plex_id` stay unique), keeps every existing row, never deactivates
      or deletes a share, gives every section and every friend a row, imports
      every share the server reports on its first matching entry, and
      activates nothing else. */
  lemma SyncedSpec(t: Snapshot, server: Server)
    requires Valid(t)
    ensures var r := Synced(t, server);
      && Valid(r)
      && LibrariesKept(t.libraries, r.libraries)
      && UsersKept(t.users, r.users)
      && NeverDeactivated(t.shares, r.shares)
      && (forall i :: 0 <= i < |server.sections| ==> HasLibraryKey(r.libraries, server.sections[i].key))
      && (forall i :: 0 <= i < |server.friends| ==> HasPlexId(r.users, server.friends[i].id))
      && (forall i :: 0 <= i < |server.friends| ==> FriendImported(r, server.friends[i], server.machineIdentifier))
      && (forall k :: 0 <= k < |r.shares| && (k >= |t.shares| || r.shares[k] != t.shares[k]) ==>
            ImportedFor(r, r.shares[k], server.friends, server.machineIdentifier))
  {
    var l := SyncLibraries(t, server.sections);
    SyncLibrariesSpec(t, server.sections);
    assert Valid(l) by {
      LinkedUnderGrowth(t.shares, t.users, t.libraries, l.users, l.libraries);
    }
    SyncFriendsFrame(l, server.friends, server.machineIdentifier);
    SyncFriendsValid(l, server.friends, server.machineIdentifier);
    SyncFriendsUsers(l, server.friends, server.machineIdentifier);
    SyncFriendsImport(l, server.friends, server.machineIdentifier);
    SyncFriendsOnlyImported(l, server.friends, server.machineIdentifier);
  }

  lemma SyncedValid(t: Snapshot, server: Server)
    requires Valid(t)
    ensures Valid(Synced(t, server))
  {
    SyncedSpec(t, server);
  }

  /** The library phase, on any tables: the user and share tables are left as
      they were, and every library row keeps its place, id and key. */
  lemma {:induction false} SyncLibrariesKeepsRows(t: Snapshot, sections: seq<Section>)
    ensures var r := SyncLibraries(t, sections);
      r.users == t.users && r.shares == t.shares && LibrariesKept(t.libraries, r.libraries)
    decreases |sections|
  {
    if sections != [] {
      var p := SyncLibraries(t, sections[..|sections| - 1]);
      SyncLibrariesKeepsRows(t, sections[..|sections| - 1]);
      var s := sections[|sections| - 1];
      match FindLibraryByKey(p.libraries, s.key)
      case None =>
      case Some(i) =>
    }
  }

  /** Whatever the tables hold, even share rows whose user or library is gone,
      a sync never deletes, moves or deactivates a share, and keeps every user
      and library row; a failed sync writes nothing at all. */
  lemma SyncNeverDeactivates(settings: map<string, string>, server: Server, t: Snapshot)
    ensures var r := SyncPlex(settings, server, t).tables;
      && NeverDeactivated(t.shares, r.shares)
      && UsersKept(t.users, r.users)
      && LibrariesKept(t.libraries, r.libraries)
  {
    if SyncPlex(settings, server, t).outcome.ok {
      var l := SyncLibraries(t, server.sections);
      SyncLibrariesKeepsRows(t, server.sections);
      SyncFriendsFrame(l, server.friends, server.machineIdentifier);
    }
  }
}
