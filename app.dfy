/** The two request handlers of app.py that drive the sharing core: the POST of
    `user_details` and `run_scheduler`. */
module App {
  import opened Basics
  import opened Models
  import opened Schema
  import opened Remote
  import opened Access
  import opened Schedule
  import opened UserForm
  import Store
  import PlexService

  /** The library loop of the POST, on the session's copy of the share rows:
      each library's row is upserted from the form and its key collected when
      the submitted window is open at `now`; `malformed` when a date does not
      parse, which raises out of the loop. */
  method FormRows(shares: seq<Share>, userId: nat, libraries: seq<Library>, form: Form, now: Instant)
    returns (rows: seq<Share>, activeLibraryKeys: seq<string>, malformed: bool)
    ensures malformed <==> FormMalformed(libraries, form)
    ensures !malformed ==> rows == SubmitForm(shares, userId, libraries, form)
    ensures !malformed ==> activeLibraryKeys == PushedKeys(libraries, form, now)
  {
    rows := shares;
    activeLibraryKeys := [];
    for i := 0 to |libraries|
      invariant rows == SubmitForm(shares, userId, libraries[..i], form)
      invariant activeLibraryKeys == PushedKeys(libraries[..i], form, now)
      invariant forall l :: 0 <= l < i ==> !Malformed(EntryFor(form, libraries[l].id))
    {
      assert libraries[..i + 1][..i] == libraries[..i];
      var lib := libraries[i];
      var entry := EntryFor(form, lib.id);
      var isChecked := entry.checkbox == Some("on");
      // `datetime.strptime` raises.
      if entry.start.Unparsable? || entry.expiry.Unparsable? {
        assert Malformed(EntryFor(form, libraries[i].id));
        return rows, activeLibraryKeys, true;
      }
      var startDate := ParsedDate(entry.start);
      var expirationDate := ParsedDate(entry.expiry);

      var existing := FindShare(rows, userId, lib.id);
      var j: nat;
      if existing.None? {
        rows := rows + [Share(userId, lib.id, None, None, true)];
        j := |rows| - 1;
      } else {
        j := existing.value;
      }
      rows := rows[j := rows[j].(isActive := isChecked, start := startDate, expiry := expirationDate)];

      var shouldShare := isChecked;
      if startDate.Some? && startDate.value > now {
        shouldShare := false;
      }
      if expirationDate.Some? && expirationDate.value <= now {
        shouldShare := false;
      }
      if shouldShare {
        activeLibraryKeys := activeLibraryKeys + [lib.plexKey];
      }
    }
    assert libraries[..|libraries|] == libraries;
    return rows, activeLibraryKeys, false;
  }

  /** `user_details(user_id)` on POST: an unknown user is a 404; a date that
      does not parse is a 500 and nothing is committed; otherwise the rows are
      committed and then `update_user_access` pushes the keys, its outcome
      deciding the flash. */
  method UserDetailsPost(db: Store.Database, plex: Plex, userId: nat, form: Form, now: Instant)
    returns (result: PostResult)
    modifies db, plex
    ensures var r := UserDetails(old(db.Contents()), old(db.settings), plex.server, userId, form, now);
      result == r.result && db.Contents() == r.tables && plex.calls == old(plex.calls) + r.calls
    ensures db.settings == old(db.settings)
    ensures old(db.Valid()) ==> db.Valid()
  {
    var t := db.Contents();
    // `PlexUser.query.get_or_404(user_id)`
    var found := FindUserById(db.users, userId);
    if found.None? {
      return NotFound;
    }
    var user := db.users[found.value];
    var shares, activeLibraryKeys, malformed := FormRows(db.shares, user.id, db.libraries, form, now);
    if malformed {
      return ServerError;
    }
    if Schema.Valid(t) {
      SubmitFormValid(t, userId, form);
    }
    // db.session.commit()
    db.shares := shares;

    var outcome := PlexService.UpdateUserAccess(db, plex, user.plexId, activeLibraryKeys);
    if outcome.ok {
      result := Redirect(true, AccessUpdatedFlash);
    } else {
      result := Redirect(false, UpdateFailedFlash + outcome.message);
    }
  }

  const SchedulerSucceededFlash: string := "Scheduler executed successfully"
  const SchedulerFailedFlash: string := "Scheduler failed: "

  /** The flash `run_scheduler` shows after a pass. */
  function SchedulerFlash(r: PassResult): (f: Outcome)
    ensures f.ok <==> r.error.None?
    ensures r.error.Some? ==> f.message == SchedulerFailedFlash + r.error.value
  {
    match r.error
    case None => Outcome(true, SchedulerSucceededFlash)
    case Some(e) => Outcome(false, SchedulerFailedFlash + e)
  }

  /** `run_scheduler()`: one `check_schedules` pass; the error that ends a pass
      early is caught and shown instead of the success message. */
  method RunScheduler(db: Store.Database, plex: Plex, now: Instant) returns (flash: Outcome)
    modifies plex
    ensures var r := SchedulePass(db.Contents(), db.settings, plex.server, now, db.users);
      flash == SchedulerFlash(r) && plex.calls == old(plex.calls) + r.calls
  {
    var outcomes, error := PlexService.CheckSchedules(db, plex, now);
    if error.None? {
      flash := Outcome(true, SchedulerSucceededFlash);
    } else {
      flash := Outcome(false, SchedulerFailedFlash + error.value);
    }
  }

  /** On tables that keep their integrity, the manual run always reports
      success, and it sends exactly the requests of a complete pass. */
  lemma SchedulerSucceedsOnValidTables(t: Snapshot, settings: map<string, string>, server: Server, now: Instant)
    requires Valid(t)
    ensures KeysDefined(t, t.users, now)
    ensures var r := SchedulePass(t, settings, server, now, t.users);
      && SchedulerFlash(r) == Outcome(true, SchedulerSucceededFlash)
      && r.calls == PassCalls(t, settings, server, now, t.users)
  {
    ValidRowsPointAtLibraries(t);
    LinkedKeysDefined(t, t.users, now);
    SchedulePassComplete(t, settings, server, now, t.users);
  }
}
