/** What one pass of `check_schedules` (plex_service.py) computes: the keys each
    user should hold at `now`, the update requests the pass sends, and where it
    stops when a live share points at a library row that does not exist. */
module Schedule {
  import opened Basics
  import opened Models
  import opened Schema
  import opened ShareWindow
  import opened Remote
  import opened Access

  /** The error raised by `share.library.plex_key` when the row's library is missing. */
  const MissingLibraryError: string := "'NoneType' object has no attribute 'plex_key'"

  /** `Share.query.filter_by(plex_user_id=userId).all()`, in table order. */
  function SharesOf(shares: seq<Share>, userId: nat): (r: seq<Share>)
    ensures forall s :: s in r <==> s in shares && s.userId == userId
    ensures |r| <= |shares|
    decreases |shares|
  {
    if shares == [] then []
    else
      var prefix := SharesOf(shares[..|shares| - 1], userId);
      var last := shares[|shares| - 1];
      assert shares == shares[..|shares| - 1] + [last];
      if last.userId == userId then prefix + [last] else prefix
  }

  /** Every row points at an existing library. */
  predicate PointAtLibraries(shares: seq<Share>, libraries: seq<Library>) {
    forall i :: 0 <= i < |shares| ==> HasLibrary(libraries, shares[i].libraryId)
  }

  lemma ValidRowsPointAtLibraries(t: Snapshot)
    requires Valid(t)
    ensures PointAtLibraries(t.shares, t.libraries)
  {
  }

  /** The keys the per-user loop collects: the library key of every live row, in
      row order; `None` when a live row's library is missing, which raises. */
  function ScheduledKeys(shares: seq<Share>, libraries: seq<Library>, now: Instant): Option<seq<string>>
    decreases |shares|
  {
    if shares == [] then Some([])
    else
      var last := shares[|shares| - 1];
      match ScheduledKeys(shares[..|shares| - 1], libraries, now)
      case None => None
      case Some(keys) =>
        if !ShareIsLive(last, now) then Some(keys)
        else
          match FindLibraryById(libraries, last.libraryId)
          case None => None
          case Some(l) => Some(keys + [libraries[l].plexKey])
  }

  /** The keys `check_schedules` computes for one user. */
  function DesiredKeys(t: Snapshot, userId: nat, now: Instant): Option<seq<string>> {
    ScheduledKeys(SharesOf(t.shares, userId), t.libraries, now)
  }

  /** No user of `users` has a live row whose library is missing. */
  predicate KeysDefined(t: Snapshot, users: seq<PlexUser>, now: Instant) {
    forall i :: 0 <= i < |users| ==> DesiredKeys(t, users[i].id, now).Some?
  }

  /** The `update_user_access` call the pass makes for one user. */
  function UserUpdate(t: Snapshot, settings: map<string, string>, server: Server, now: Instant, u: PlexUser): AccessResult
    requires DesiredKeys(t, u.id, now).Some?
  {
    AccessUpdate(settings, server, u.plexId, DesiredKeys(t, u.id, now).value)
  }

  /** The requests sent for each user, in user order. */
  function CallsPerUser(t: Snapshot, settings: map<string, string>, server: Server, now: Instant, users: seq<PlexUser>): (r: seq<seq<FriendUpdate>>)
    requires KeysDefined(t, users, now)
    ensures |r| == |users|
  {
    seq(|users|, i requires 0 <= i < |users| => UserUpdate(t, settings, server, now, users[i]).calls)
  }

  /** The requests sent for `users`, user after user: the pass written as a
      concatenation rather than as a loop. */
  function PassCalls(t: Snapshot, settings: map<string, string>, server: Server, now: Instant, users: seq<PlexUser>): seq<FriendUpdate>
    requires KeysDefined(t, users, now)
  {
    Flatten(CallsPerUser(t, settings, server, now, users))
  }

  /** The outcomes for `users`, user after user. */
  function PassOutcomes(t: Snapshot, settings: map<string, string>, server: Server, now: Instant, users: seq<PlexUser>): (r: seq<Outcome>)
    requires KeysDefined(t, users, now)
    ensures |r| == |users|
  {
    seq(|users|, i requires 0 <= i < |users| => UserUpdate(t, settings, server, now, users[i]).outcome)
  }

  /** What a pass produces: the outcome per user handled, the requests sent,
      and the error that stopped it, if any. */
  datatype PassResult = PassResult(outcomes: seq<Outcome>, calls: seq<FriendUpdate>, error: Option<string>)

  /** The user loop of `check_schedules`: each user's outcome is kept and the
      pass goes on whatever it is; a missing library stops the pass at that
      user, before its update. */
  function SchedulePass(t: Snapshot, settings: map<string, string>, server: Server, now: Instant, users: seq<PlexUser>): PassResult
    decreases |users|
  {
    if users == [] then PassResult([], [], None)
    else
      var p := SchedulePass(t, settings, server, now, users[..|users| - 1]);
      var u := users[|users| - 1];
      if p.error.Some? then p
      else
        match DesiredKeys(t, u.id, now)
        case None => p.(error := Some(MissingLibraryError))
        case Some(keys) =>
          var r := AccessUpdate(settings, server, u.plexId, keys);
          PassResult(p.outcomes + [r.outcome], p.calls + r.calls, None)
  }

  // ----- Properties of the key computation -----

  /** The keys are undefined exactly when some live row points at a library that
      does not exist. */
  lemma {:induction false} ScheduledKeysFail(shares: seq<Share>, libraries: seq<Library>, now: Instant)
    ensures ScheduledKeys(shares, libraries, now).None? <==>
      exists i :: 0 <= i < |shares| && ShareIsLive(shares[i], now) && !HasLibrary(libraries, shares[i].libraryId)
    decreases |shares|
  {
    if shares != [] {
      var prefix := shares[..|shares| - 1];
      ScheduledKeysFail(prefix, libraries, now);
      assert forall i :: 0 <= i < |prefix| ==> prefix[i] == shares[i];
      var last := shares[|shares| - 1];
      if ScheduledKeys(prefix, libraries, now).Some? && ShareIsLive(last, now) && !HasLibrary(libraries, last.libraryId) {
        assert FindLibraryById(libraries, last.libraryId).None?;
      }
    }
  }

  /** Once a live row's library is missing, later rows change nothing. */
  lemma {:induction false} PassAfterMissingLibrary(shares: seq<Share>, libraries: seq<Library>, now: Instant, n: nat)
    requires n <= |shares| && ScheduledKeys(shares[..n], libraries, now).None?
    ensures ScheduledKeys(shares, libraries, now).None?
    decreases |shares| - n
  {
    if n < |shares| {
      var m := |shares| - 1;
      assert shares[..m][..n] == shares[..n];
      PassAfterMissingLibrary(shares[..m], libraries, now, n);
    } else {
      assert shares[..n] == shares;
    }
  }

  /** Some live row of `shares` points at a library whose key is `k`. */
  predicate LiveRowWithKey(shares: seq<Share>, libraries: seq<Library>, now: Instant, k: string) {
    exists i :: 0 <= i < |shares| && ShareIsLive(shares[i], now) && HasLibrary(libraries, shares[i].libraryId) &&
                LibraryKey(libraries, shares[i].libraryId) == k
  }

  lemma LiveRowWithKeySnoc(prefix: seq<Share>, last: Share, libraries: seq<Library>, now: Instant, k: string)
    ensures LiveRowWithKey(prefix + [last], libraries, now, k) <==>
      LiveRowWithKey(prefix, libraries, now, k) ||
      (ShareIsLive(last, now) && HasLibrary(libraries, last.libraryId) && LibraryKey(libraries, last.libraryId) == k)
  {
    var shares := prefix + [last];
    if LiveRowWithKey(shares, libraries, now, k) {
      var i :| 0 <= i < |shares| && ShareIsLive(shares[i], now) && HasLibrary(libraries, shares[i].libraryId) &&
               LibraryKey(libraries, shares[i].libraryId) == k;
      if i < |prefix| {
        assert shares[i] == prefix[i];
      }
    }
    if LiveRowWithKey(prefix, libraries, now, k) {
      var i :| 0 <= i < |prefix| && ShareIsLive(prefix[i], now) && HasLibrary(libraries, prefix[i].libraryId) &&
               LibraryKey(libraries, prefix[i].libraryId) == k;
      assert shares[i] == prefix[i];
    }
    assert shares[|prefix|] == last;
  }

  /** A key is scheduled iff some live row points at a library with that key. */
  lemma {:induction false} ScheduledKeysMembers(shares: seq<Share>, libraries: seq<Library>, now: Instant, k: string)
    requires ScheduledKeys(shares, libraries, now).Some?
    ensures k in ScheduledKeys(shares, libraries, now).value <==> LiveRowWithKey(shares, libraries, now, k)
    decreases |shares|
  {
    if shares != [] {
      var prefix := shares[..|shares| - 1];
      var last := shares[|shares| - 1];
      var pv := ScheduledKeys(prefix, libraries, now);
      assert pv.Some?;
      assert k in pv.value <==> LiveRowWithKey(prefix, libraries, now, k) by {
        ScheduledKeysMembers(prefix, libraries, now, k);
      }
      LiveRowWithKeySnoc(prefix, last, libraries, now, k);
      assert prefix + [last] == shares;
      if ShareIsLive(last, now) {
        var l := FindLibraryById(libraries, last.libraryId);
        assert l.Some?;
        assert HasLibrary(libraries, last.libraryId);
        assert ScheduledKeys(shares, libraries, now).value == pv.value + [LibraryKey(libraries, last.libraryId)];
      } else {
        assert ScheduledKeys(shares, libraries, now) == pv;
      }
    }
  }

  lemma FilteredRowsPointAtLibraries(shares: seq<Share>, libraries: seq<Library>, userId: nat)
    requires PointAtLibraries(shares, libraries)
    ensures PointAtLibraries(SharesOf(shares, userId), libraries)
  {
    var mine := SharesOf(shares, userId);
    forall i | 0 <= i < |mine| ensures HasLibrary(libraries, mine[i].libraryId) {
      assert mine[i] in shares;
      var j :| 0 <= j < |shares| && shares[j] == mine[i];
    }
  }

  /** With the foreign key of every row intact, every user's keys are defined. */
  lemma LinkedKeysDefined(t: Snapshot, users: seq<PlexUser>, now: Instant)
    requires PointAtLibraries(t.shares, t.libraries)
    ensures KeysDefined(t, users, now)
  {
    forall i | 0 <= i < |users| ensures DesiredKeys(t, users[i].id, now).Some? {
      FilteredRowsPointAtLibraries(t.shares, t.libraries, users[i].id);
      ScheduledKeysFail(SharesOf(t.shares, users[i].id), t.libraries, now);
    }
  }

  /** The keys computed for a user are exactly the keys of the libraries of that
      user's live rows. */
  lemma DesiredKeysMembers(t: Snapshot, userId: nat, now: Instant, k: string)
    requires DesiredKeys(t, userId, now).Some?
    ensures k in DesiredKeys(t, userId, now).value <==>
      exists s :: s in t.shares && s.userId == userId && ShareIsLive(s, now) && HasLibrary(t.libraries, s.libraryId) &&
                  LibraryKey(t.libraries, s.libraryId) == k
  {
    var mine := SharesOf(t.shares, userId);
    ScheduledKeysMembers(mine, t.libraries, now, k);
    if exists s :: s in t.shares && s.userId == userId && ShareIsLive(s, now) && HasLibrary(t.libraries, s.libraryId) &&
                   LibraryKey(t.libraries, s.libraryId) == k {
      var s :| s in t.shares && s.userId == userId && ShareIsLive(s, now) && HasLibrary(t.libraries, s.libraryId) &&
               LibraryKey(t.libraries, s.libraryId) == k;
      assert s in mine;
      var i :| 0 <= i < |mine| && mine[i] == s;
    }
  }

  /** A user without a live row is skipped: success, and no request. */
  lemma UserWithoutLiveShareIsSkipped(t: Snapshot, settings: map<string, string>, server: Server, now: Instant, u: PlexUser)
    requires forall s :: s in t.shares && s.userId == u.id ==> !ShareIsLive(s, now)
    ensures DesiredKeys(t, u.id, now) == Some([])
    ensures UserUpdate(t, settings, server, now, u) == AccessResult(Outcome(true, NoLibrariesMessage), [])
  {
    var mine := SharesOf(t.shares, u.id);
    ScheduledKeysFail(mine, t.libraries, now);
    var keys := DesiredKeys(t, u.id, now).value;
    if keys != [] {
      assert keys[0] in keys;
      DesiredKeysMembers(t, u.id, now, keys[0]);
    }
  }

  /** When the server is configured and reachable, each user with keys gets one
      request carrying the sections resolved from its keys. */
  lemma UserUpdateSendsDesiredSections(t: Snapshot, settings: map<string, string>, server: Server, now: Instant, u: PlexUser)
    requires Configured(settings) && server.outage.None? && u.plexId !in server.failures
    requires DesiredKeys(t, u.id, now).Some? && DesiredKeys(t, u.id, now).value != []
    ensures UserUpdate(t, settings, server, now, u).calls ==
      [FriendUpdate(u.plexId, SectionsToShare(server.sections, DesiredKeys(t, u.id, now).value))]
  {
  }

  // ----- Properties of the pass -----

  /** Users are handled independently and in order: the requests for `a + b` are
      those for `a` followed by those for `b`. */
  lemma PassCallsAppend(t: Snapshot, settings: map<string, string>, server: Server, now: Instant,
                        a: seq<PlexUser>, b: seq<PlexUser>)
    requires KeysDefined(t, a + b, now)
    ensures KeysDefined(t, a, now) && KeysDefined(t, b, now)
    ensures PassCalls(t, settings, server, now, a + b) ==
      PassCalls(t, settings, server, now, a) + PassCalls(t, settings, server, now, b)
  {
    assert forall i :: 0 <= i < |a| ==> (a + b)[i] == a[i];
    assert forall i :: 0 <= i < |b| ==> (a + b)[|a| + i] == b[i];
    var pa := CallsPerUser(t, settings, server, now, a);
    var pb := CallsPerUser(t, settings, server, now, b);
    var pab := CallsPerUser(t, settings, server, now, a + b);
    forall i | 0 <= i < |pab| ensures pab[i] == (pa + pb)[i] {
      if i < |a| {
        assert (a + b)[i] == a[i];
      } else {
        assert (a + b)[i] == b[i - |a|];
      }
    }
    assert pab == pa + pb;
    FlattenAppend(pa, pb);
  }

  /** The requests of a pass over one user are that user's update requests. */
  lemma PassCallsOfOne(t: Snapshot, settings: map<string, string>, server: Server, now: Instant, u: PlexUser)
    requires DesiredKeys(t, u.id, now).Some?
    ensures KeysDefined(t, [u], now)
    ensures PassCalls(t, settings, server, now, [u]) == UserUpdate(t, settings, server, now, u).calls
  {
    var per := CallsPerUser(t, settings, server, now, [u]);
    assert per == [UserUpdate(t, settings, server, now, u).calls];
    assert per[..|per| - 1] == [];
    assert Flatten(per) == Flatten(per[..|per| - 1]) + per[0];
  }

  /** A request is sent exactly for the users that have keys to share and whose
      update the server accepts, each with that user's section list. */
  lemma PassCallsMembers(t: Snapshot, settings: map<string, string>, server: Server, now: Instant,
                         users: seq<PlexUser>, c: FriendUpdate)
    requires KeysDefined(t, users, now)
    ensures c in PassCalls(t, settings, server, now, users) <==>
      exists i :: 0 <= i < |users| && UserUpdate(t, settings, server, now, users[i]).calls == [c]
  {
    var per := CallsPerUser(t, settings, server, now, users);
    FlattenMembers(per, c);
    forall i | 0 <= i < |users|
      ensures c in per[i] <==> UserUpdate(t, settings, server, now, users[i]).calls == [c]
    {
      var calls := UserUpdate(t, settings, server, now, users[i]).calls;
      assert per[i] == calls;
      assert |calls| <= 1;
      if c in calls {
        assert calls == [calls[0]];
      }
    }
  }

  lemma PassStep(t: Snapshot, settings: map<string, string>, server: Server, now: Instant, users: seq<PlexUser>, n: nat)
    requires n < |users| && KeysDefined(t, users[..n + 1], now)
    ensures KeysDefined(t, users[..n], now)
    ensures PassOutcomes(t, settings, server, now, users[..n + 1]) ==
      PassOutcomes(t, settings, server, now, users[..n]) + [UserUpdate(t, settings, server, now, users[n]).outcome]
    ensures PassCalls(t, settings, server, now, users[..n + 1]) ==
      PassCalls(t, settings, server, now, users[..n]) + UserUpdate(t, settings, server, now, users[n]).calls
  {
    assert users[..n + 1] == users[..n] + [users[n]];
    PassCallsAppend(t, settings, server, now, users[..n], [users[n]]);
    PassCallsOfOne(t, settings, server, now, users[n]);
    var a := PassOutcomes(t, settings, server, now, users[..n]);
    var b := PassOutcomes(t, settings, server, now, users[..n + 1]);
    forall m | 0 <= m < n + 1 ensures b[m] == (a + [UserUpdate(t, settings, server, now, users[n]).outcome])[m] {
      assert users[..n + 1][m] == users[m];
      if m < n {
        assert users[..n][m] == users[m];
      }
    }
  }

  /** One more user, while the pass has not stopped: that user's keys are
      pushed, or the pass stops at that user. */
  lemma PassExtend(t: Snapshot, settings: map<string, string>, server: Server, now: Instant, users: seq<PlexUser>, n: nat)
    requires n < |users| && SchedulePass(t, settings, server, now, users[..n]).error.None?
    ensures var p := SchedulePass(t, settings, server, now, users[..n]);
      var q := SchedulePass(t, settings, server, now, users[..n + 1]);
      match DesiredKeys(t, users[n].id, now)
      case None => q == p.(error := Some(MissingLibraryError))
      case Some(keys) =>
        var r := AccessUpdate(settings, server, users[n].plexId, keys);
        q == PassResult(p.outcomes + [r.outcome], p.calls + r.calls, None)
  {
    assert users[..n + 1][..n] == users[..n];
    assert users[..n + 1][n] == users[n];
  }

  /** When no user has a live row with a missing library, the pass handles
      every user, once and in order, whatever the outcome of each: one outcome
      per user, and the requests are the concatenation of the users' requests. */
  lemma {:induction false} SchedulePassComplete(t: Snapshot, settings: map<string, string>, server: Server, now: Instant,
                                                users: seq<PlexUser>)
    requires KeysDefined(t, users, now)
    ensures SchedulePass(t, settings, server, now, users) ==
      PassResult(PassOutcomes(t, settings, server, now, users), PassCalls(t, settings, server, now, users), None)
    decreases |users|
  {
    if users != [] {
      var n := |users| - 1;
      assert users[..n + 1] == users;
      PassStep(t, settings, server, now, users, n);
      SchedulePassComplete(t, settings, server, now, users[..n]);
    } else {
      assert CallsPerUser(t, settings, server, now, users) == [];
    }
  }

  /** Once the pass has stopped, later users change nothing. */
  lemma {:induction false} PassAfterError(t: Snapshot, settings: map<string, string>, server: Server, now: Instant,
                                          users: seq<PlexUser>, n: nat)
    requires n <= |users| && SchedulePass(t, settings, server, now, users[..n]).error.Some?
    ensures SchedulePass(t, settings, server, now, users) == SchedulePass(t, settings, server, now, users[..n])
    decreases |users| - n
  {
    if n < |users| {
      var m := |users| - 1;
      assert users[..m][..n] == users[..n];
      PassAfterError(t, settings, server, now, users[..m], n);
      assert users[..m] == users[..|users| - 1];
    } else {
      assert users[..n] == users;
    }
  }

  /** The pass stops at the first user with a live row whose library is
      missing: the users before it are handled as in a complete pass, that user
      and the ones after it are not, and the error is reported. */
  lemma SchedulePassStops(t: Snapshot, settings: map<string, string>, server: Server, now: Instant,
                          users: seq<PlexUser>, f: nat)
    requires f < |users| && KeysDefined(t, users[..f], now) && DesiredKeys(t, users[f].id, now).None?
    ensures SchedulePass(t, settings, server, now, users) ==
      PassResult(PassOutcomes(t, settings, server, now, users[..f]), PassCalls(t, settings, server, now, users[..f]),
                 Some(MissingLibraryError))
  {
    SchedulePassComplete(t, settings, server, now, users[..f]);
    assert users[..f + 1][..f] == users[..f];
    PassAfterError(t, settings, server, now, users, f + 1);
  }
}
