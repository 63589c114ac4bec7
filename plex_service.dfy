/** The operations of plex_service.py, written as the loops the source runs and
    proved against the specifications of Access, Schedule and Sync. */
module PlexService {
  import opened Basics
  import opened Models
  import opened Schema
  import opened ShareWindow
  import opened Remote
  import opened Access
  import opened Schedule
  import opened Sync
  import Store

  /** The inner search of the section loop: the first section with `key`. */
  method FindSection(sections: seq<Section>, key: string) returns (found: Option<nat>)
    ensures found == FirstWithKey(sections, key)
  {
    var j := 0;
    while j < |sections|
      invariant 0 <= j <= |sections|
      invariant forall m :: 0 <= m < j ==> sections[m].key != key
    {
      if sections[j].key == key {
        return Some(j);
      }
      j := j + 1;
    }
    return None;
  }

  /** The section loop of `update_user_access`: for each requested key in turn,
      the first server section with that key, if any. */
  method ResolveSections(sections: seq<Section>, libraryKeys: seq<string>) returns (chosen: seq<Section>)
    ensures chosen == ResolveKeys(sections, libraryKeys)
  {
    chosen := [];
    for i := 0 to |libraryKeys|
      invariant chosen == ResolveKeys(sections, libraryKeys[..i])
    {
      assert libraryKeys[..i + 1][..i] == libraryKeys[..i];
      var found := FindSection(sections, libraryKeys[i]);
      if found.Some? {
        chosen := chosen + [sections[found.value]];
      }
    }
    assert libraryKeys[..|libraryKeys|] == libraryKeys;
  }

  /** The Default loop of `update_user_access`: the first section titled
      `default` in any case is appended unless a chosen section has its key. */
  method AddDefault(sections: seq<Section>, chosen: seq<Section>) returns (result: seq<Section>)
    ensures result == WithDefault(chosen, sections)
  {
    result := chosen;
    var k := 0;
    while k < |sections|
      invariant 0 <= k <= |sections|
      invariant forall m :: 0 <= m < k ==> !IsDefaultTitle(sections[m].title)
    {
      if Lower(sections[k].title) == "default" {
        assert FirstDefault(sections) == Some(k);
        if !HasKey(result, sections[k].key) {
          result := result + [sections[k]];
        }
        return;
      }
      k := k + 1;
    }
  }

  /** The sections `update_user_access` sends for the requested keys. */
  method ChooseSections(sections: seq<Section>, libraryKeys: seq<string>) returns (sectionsToShare: seq<Section>)
    ensures sectionsToShare == SectionsToShare(sections, libraryKeys)
  {
    var chosen := ResolveSections(sections, libraryKeys);
    sectionsToShare := AddDefault(sections, chosen);
  }

  /** `update_user_access(plex_user_id, library_keys)`: nothing is sent for an
      empty key list; otherwise, once the server is configured and answers, the
      sections of the requested keys plus the Default section are sent in one
      `updateFriend` request. */
  method UpdateUserAccess(db: Store.Database, plex: Plex, plexUserId: string, libraryKeys: seq<string>)
    returns (outcome: Outcome)
    modifies plex
    ensures var r := AccessUpdate(db.settings, plex.server, plexUserId, libraryKeys);
      outcome == r.outcome && plex.calls == old(plex.calls) + r.calls
  {
    if libraryKeys == [] {
      return Outcome(true, NoLibrariesMessage);
    }
    // `get_plex_server()` returns None without both settings rows.
    if !Configured(db.settings) {
      return Outcome(false, NotConfiguredMessage);
    }
    // Connecting, or looking the friend up, raises.
    if plex.server.outage.Some? {
      return Outcome(false, plex.server.outage.value);
    }
    if plexUserId in plex.server.failures {
      return Outcome(false, plex.server.failures[plexUserId]);
    }

    var sectionsToShare := ChooseSections(plex.server.sections, libraryKeys);
    plex.UpdateFriend(plexUserId, sectionsToShare);
    return Outcome(true, AccessUpdatedMessage);
  }

  /** The share loop of `check_schedules` for one user: the keys of the
      libraries of the rows whose window is open at `now`, in row order, or
      `None` where `share.library.plex_key` raises because a live row's library
      is missing. */
  method LiveLibraryKeys(libraries: seq<Library>, shares: seq<Share>, now: Instant) returns (keys: Option<seq<string>>)
    ensures keys == ScheduledKeys(shares, libraries, now)
  {
    var activeLibraryKeys: seq<string> := [];
    for k := 0 to |shares|
      invariant ScheduledKeys(shares[..k], libraries, now) == Some(activeLibraryKeys)
    {
      assert shares[..k + 1][..k] == shares[..k];
      var share := shares[k];
      if share.isActive {
        var shouldShare := true;
        if share.start.Some? && share.start.value > now {
          shouldShare := false;
        }
        if share.expiry.Some? && share.expiry.value <= now {
          shouldShare := false;
        }
        if shouldShare {
          var library := FindLibraryById(libraries, share.libraryId);
          if library.None? {
            PassAfterMissingLibrary(shares, libraries, now, k + 1);
            return None;
          }
          activeLibraryKeys := activeLibraryKeys + [libraries[library.value].plexKey];
        }
      }
    }
    assert shares[..|shares|] == shares;
    return Some(activeLibraryKeys);
  }

  /** The body of the user loop of `check_schedules`: the user's live keys are
      pushed with `update_user_access`; `None` when collecting them raises. */
  method ScheduleUser(db: Store.Database, plex: Plex, now: Instant, user: PlexUser) returns (outcome: Option<Outcome>)
    modifies plex
    ensures match DesiredKeys(db.Contents(), user.id, now)
      case None => outcome.None? && plex.calls == old(plex.calls)
      case Some(keys) =>
        var r := AccessUpdate(db.settings, plex.server, user.plexId, keys);
        outcome == Some(r.outcome) && plex.calls == old(plex.calls) + r.calls
  {
    var activeLibraryKeys := LiveLibraryKeys(db.libraries, SharesOf(db.shares, user.id), now);
    if activeLibraryKeys.None? {
      return None;
    }
    var o := UpdateUserAccess(db, plex, user.plexId, activeLibraryKeys.value);
    return Some(o);
  }

  /** `check_schedules()`: for every user in table order, collect the keys of the
      user's live shares at `now` and call `update_user_access` with them. The
      outcomes, which the source discards, are returned; a failed update does
      not stop the pass, a live share whose library is missing does. */
  method CheckSchedules(db: Store.Database, plex: Plex, now: Instant) returns (outcomes: seq<Outcome>, error: Option<string>)
    modifies plex
    ensures var r := SchedulePass(db.Contents(), db.settings, plex.server, now, db.users);
      outcomes == r.outcomes && error == r.error && plex.calls == old(plex.calls) + r.calls
  {
    var t := db.Contents();
    var users := db.users;
    outcomes := [];
    for i := 0 to |users|
      invariant var p := SchedulePass(t, db.settings, plex.server, now, users[..i]);
        p.error.None? && outcomes == p.outcomes && plex.calls == old(plex.calls) + p.calls
    {
      PassExtend(t, db.settings, plex.server, now, users, i);
      ghost var sent := SchedulePass(t, db.settings, plex.server, now, users[..i]).calls;
      ghost var before := plex.calls;
      var outcome := ScheduleUser(db, plex, now, users[i]);
      if outcome.None? {
        PassAfterError(t, db.settings, plex.server, now, users, i + 1);
        return outcomes, Some(MissingLibraryError);
      }
      ghost var r := AccessUpdate(db.settings, plex.server, users[i].plexId, DesiredKeys(t, users[i].id, now).value);
      assert plex.calls == before + r.calls;
      AppendAssociative(old(plex.calls), sent, r.calls);
      outcomes := outcomes + [outcome.value];
    }
    assert users[..|users|] == users;
    return outcomes, None;
  }

  // ----- sync_plex_data -----

  /** The library loop of `sync_plex_data`, on the session's copy of the tables. */
  method SyncLibraryRows(t: Snapshot, sections: seq<Section>) returns (r: Snapshot)
    ensures r == SyncLibraries(t, sections)
  {
    r := t;
    for i := 0 to |sections|
      invariant r == SyncLibraries(t, sections[..i])
    {
      assert sections[..i + 1][..i] == sections[..i];
      var lib := sections[i];
      var existing := FindLibraryByKey(r.libraries, lib.key);
      if existing.None? {
        r := r.(libraries := r.libraries + [Library(r.nextLibraryId, lib.key, lib.title, lib.kind)],
                nextLibraryId := r.nextLibraryId + 1);
      } else {
        var j := existing.value;
        r := r.(libraries := r.libraries[j := r.libraries[j].(title := lib.title)]);
      }
    }
    assert sections[..|sections|] == sections;
  }

  /** The section loop for one friend: create or re-activate the share of every
      shared key that has a library row. */
  method ImportFriendShares(t: Snapshot, userId: nat, keys: seq<string>) returns (r: Snapshot)
    ensures r == ImportShares(t, userId, keys)
  {
    r := t;
    for i := 0 to |keys|
      invariant r == ImportShares(t, userId, keys[..i])
    {
      assert keys[..i + 1][..i] == keys[..i];
      var found := FindLibraryByKey(r.libraries, keys[i]);
      if found.Some? {
        var libraryId := r.libraries[found.value].id;
        var share := FindShare(r.shares, userId, libraryId);
        if share.None? {
          r := r.(shares := r.shares + [Share(userId, libraryId, None, None, true)]);
        } else {
          var j := share.value;
          r := r.(shares := r.shares[j := r.shares[j].(isActive := true)]);
        }
      }
    }
    assert keys[..|keys|] == keys;
  }

  /** The body of the friend loop of `sync_plex_data`: upsert the friend's row
      by `plex_id`, then import the sections of the first shared server that
      is this server. */
  method SyncFriendRow(t: Snapshot, user: Friend, machineIdentifier: string) returns (r: Snapshot)
    ensures r == SyncFriend(t, user, machineIdentifier)
  {
    r := t;
    var existing := FindUserByPlexId(r.users, user.id);
    var currentId: nat;
    if existing.None? {
      currentId := r.nextUserId;
      r := r.(users := r.users + [PlexUser(r.nextUserId, user.id, user.title, user.email, user.thumb)],
              nextUserId := r.nextUserId + 1);
    } else {
      var j := existing.value;
      currentId := r.users[j].id;
      r := r.(users := r.users[j := r.users[j].(username := user.title, email := user.email, thumb := user.thumb)]);
    }
    assert Upserted(r, currentId) == UpsertUser(t, user);
    var k := 0;
    while k < |user.servers|
      invariant 0 <= k <= |user.servers|
      invariant forall m :: 0 <= m < k ==> user.servers[m].machineIdentifier != machineIdentifier
    {
      if user.servers[k].machineIdentifier == machineIdentifier {
        assert FirstServerIndex(user.servers, machineIdentifier) == Some(k);
        r := ImportFriendShares(r, currentId, user.servers[k].sectionKeys);
        return;
      }
      k := k + 1;
    }
  }

  /** The friend loop of `sync_plex_data`, in the order the account lists its
      friends. */
  method SyncFriendRows(t: Snapshot, friends: seq<Friend>, machineIdentifier: string) returns (r: Snapshot)
    ensures r == SyncFriends(t, friends, machineIdentifier)
  {
    r := t;
    for i := 0 to |friends|
      invariant r == SyncFriends(t, friends[..i], machineIdentifier)
    {
      assert friends[..i + 1][..i] == friends[..i];
      r := SyncFriendRow(r, friends[i], machineIdentifier);
    }
    assert friends[..|friends|] == friends;
  }

  /** `sync_plex_data()`: with both settings rows present and the server
      answering, the library and friend loops run on the session and the
      result is committed; otherwise nothing is written. Sync keeps the
      tables' integrity. */
  method SyncPlexData(db: Store.Database, plex: Plex) returns (outcome: Outcome)
    modifies db
    ensures var r := SyncPlex(db.settings, plex.server, old(db.Contents()));
      outcome == r.outcome && db.Contents() == r.tables
    ensures db.settings == old(db.settings)
    ensures old(db.Valid()) ==> db.Valid()
  {
    if !Configured(db.settings) {
      return Outcome(false, NotConfiguredMessage);
    }
    if plex.server.outage.Some? {
      return Outcome(false, plex.server.outage.value);
    }
    var t := db.Contents();
    var session := SyncLibraryRows(t, plex.server.sections);
    session := SyncFriendRows(session, plex.server.friends, plex.server.machineIdentifier);
    assert session == Synced(t, plex.server);
    if Schema.Valid(t) {
      SyncedValid(t, plex.server);
    }
    // db.session.commit()
    db.users, db.libraries, db.shares := session.users, session.libraries, session.shares;
    db.nextUserId, db.nextLibraryId := session.nextUserId, session.nextLibraryId;
    return Outcome(true, SyncedMessage);
  }
}
