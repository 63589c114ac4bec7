/** The three tables of the database as values: the lookups the core's queries
    perform, the integrity the schema declares (unique keys, foreign keys, one
    share per pair), and the two ways the core writes a share row. */
module Schema {
  import opened Basics
  import opened Models

  /** The contents of the user, library and share tables. The two counters stand
      for the ids the database will hand out to the next inserted rows. */
  datatype Snapshot = Snapshot(
    users: seq<PlexUser>,
    libraries: seq<Library>,
    shares: seq<Share>,
    nextUserId: nat,
    nextLibraryId: nat)

  // ----- Lookups: `Table.query.filter_by(...).first()` -----

  function FindLibraryByKey(libraries: seq<Library>, key: string): (r: Option<nat>)
    ensures r.Some? ==> r.value < |libraries| && libraries[r.value].plexKey == key
    ensures r.None? ==> forall i :: 0 <= i < |libraries| ==> libraries[i].plexKey != key
  {
    FirstIndex(libraries, (l: Library) => l.plexKey == key)
  }

  function FindLibraryById(libraries: seq<Library>, id: nat): (r: Option<nat>)
    ensures r.Some? ==> r.value < |libraries| && libraries[r.value].id == id
    ensures r.None? ==> forall i :: 0 <= i < |libraries| ==> libraries[i].id != id
  {
    FirstIndex(libraries, (l: Library) => l.id == id)
  }

  function FindUserByPlexId(users: seq<PlexUser>, plexId: string): (r: Option<nat>)
    ensures r.Some? ==> r.value < |users| && users[r.value].plexId == plexId
    ensures r.Some? ==> forall i :: 0 <= i < r.value ==> users[i].plexId != plexId
    ensures r.None? ==> forall i :: 0 <= i < |users| ==> users[i].plexId != plexId
  {
    FirstIndex(users, (u: PlexUser) => u.plexId == plexId)
  }

  function FindUserById(users: seq<PlexUser>, id: nat): (r: Option<nat>)
    ensures r.Some? ==> r.value < |users| && users[r.value].id == id
    ensures r.None? ==> forall i :: 0 <= i < |users| ==> users[i].id != id
  {
    FirstIndex(users, (u: PlexUser) => u.id == id)
  }

  function FindShare(shares: seq<Share>, userId: nat, libraryId: nat): (r: Option<nat>)
    ensures r.Some? ==> r.value < |shares| && shares[r.value].userId == userId && shares[r.value].libraryId == libraryId
    ensures r.None? ==> forall i :: 0 <= i < |shares| ==> !(shares[i].userId == userId && shares[i].libraryId == libraryId)
  {
    FirstIndex(shares, (s: Share) => s.userId == userId && s.libraryId == libraryId)
  }

  // ----- Integrity of the tables -----

  predicate HasUser(users: seq<PlexUser>, id: nat) {
    exists i :: 0 <= i < |users| && users[i].id == id
  }

  predicate HasLibrary(libraries: seq<Library>, id: nat) {
    exists i :: 0 <= i < |libraries| && libraries[i].id == id
  }

  /** Library ids are below the next id and distinct; `plex_key` is unique. */
  predicate LibrariesValid(libraries: seq<Library>, nextId: nat) {
    && (forall i :: 0 <= i < |libraries| ==> libraries[i].id < nextId)
    && (forall i, j :: 0 <= i < j < |libraries| ==> libraries[i].id != libraries[j].id)
    && (forall i, j :: 0 <= i < j < |libraries| ==> libraries[i].plexKey != libraries[j].plexKey)
  }

  /** User ids are below the next id and distinct; `plex_id` is unique. */
  predicate UsersValid(users: seq<PlexUser>, nextId: nat) {
    && (forall i :: 0 <= i < |users| ==> users[i].id < nextId)
    && (forall i, j :: 0 <= i < j < |users| ==> users[i].id != users[j].id)
    && (forall i, j :: 0 <= i < j < |users| ==> users[i].plexId != users[j].plexId)
  }

  /** At most one share row per (user, library) pair. */
  predicate SharePairsUnique(shares: seq<Share>) {
    forall i, j :: 0 <= i < j < |shares| ==>
      shares[i].userId != shares[j].userId || shares[i].libraryId != shares[j].libraryId
  }

  /** The two foreign keys of every share row point at existing rows. */
  predicate SharesLinked(shares: seq<Share>, users: seq<PlexUser>, libraries: seq<Library>) {
    forall i :: 0 <= i < |shares| ==> HasUser(users, shares[i].userId) && HasLibrary(libraries, shares[i].libraryId)
  }

  predicate Valid(t: Snapshot) {
    && LibrariesValid(t.libraries, t.nextLibraryId)
    && UsersValid(t.users, t.nextUserId)
    && SharePairsUnique(t.shares)
    && SharesLinked(t.shares, t.users, t.libraries)
  }

  /** The plex key of the library a share row points at (`share.library.plex_key`). */
  function LibraryKey(libraries: seq<Library>, libraryId: nat): (key: string)
    requires HasLibrary(libraries, libraryId)
    ensures exists i :: 0 <= i < |libraries| && libraries[i].id == libraryId && libraries[i].plexKey == key
  {
    libraries[FindLibraryById(libraries, libraryId).value].plexKey
  }

  /** With distinct ids, the key found for a library's id is that library's key. */
  lemma LibraryKeyOf(libraries: seq<Library>, nextId: nat, i: nat)
    requires LibrariesValid(libraries, nextId) && i < |libraries|
    ensures HasLibrary(libraries, libraries[i].id)
    ensures LibraryKey(libraries, libraries[i].id) == libraries[i].plexKey
  {
    var k := FindLibraryById(libraries, libraries[i].id);
    assert HasLibrary(libraries, libraries[i].id);
    assert k.Some?;
    assert k.value == i;
  }

  // ----- How rows are carried from one state of the tables to the next -----

  /** `after` keeps every library row of `before` in place, with its id and key. */
  predicate LibrariesKept(before: seq<Library>, after: seq<Library>) {
    |before| <= |after| &&
    forall i :: 0 <= i < |before| ==> after[i].id == before[i].id && after[i].plexKey == before[i].plexKey
  }

  /** `after` keeps every user row of `before` in place, with its id and plex id. */
  predicate UsersKept(before: seq<PlexUser>, after: seq<PlexUser>) {
    |before| <= |after| &&
    forall i :: 0 <= i < |before| ==> after[i].id == before[i].id && after[i].plexId == before[i].plexId
  }

  /** No share row is deleted or moved to another pair. */
  predicate SharesKept(before: seq<Share>, after: seq<Share>) {
    |before| <= |after| &&
    forall i :: 0 <= i < |before| ==> after[i].userId == before[i].userId && after[i].libraryId == before[i].libraryId
  }

  /** No share row is deleted or moved, its dates are untouched, and a row that
      was active is still active. */
  predicate NeverDeactivated(before: seq<Share>, after: seq<Share>) {
    && SharesKept(before, after)
    && forall i :: 0 <= i < |before| ==>
         after[i].start == before[i].start && after[i].expiry == before[i].expiry &&
         (before[i].isActive ==> after[i].isActive)
  }

  predicate HasActiveShare(shares: seq<Share>, userId: nat, libraryId: nat) {
    exists i :: 0 <= i < |shares| && shares[i].userId == userId && shares[i].libraryId == libraryId && shares[i].isActive
  }

  lemma LinkedUnderGrowth(shares: seq<Share>, users: seq<PlexUser>, libraries: seq<Library>,
                          users': seq<PlexUser>, libraries': seq<Library>)
    requires SharesLinked(shares, users, libraries)
    requires UsersKept(users, users') && LibrariesKept(libraries, libraries')
    ensures SharesLinked(shares, users', libraries')
  {
    forall i | 0 <= i < |shares|
      ensures HasUser(users', shares[i].userId) && HasLibrary(libraries', shares[i].libraryId)
    {
      var u :| 0 <= u < |users| && users[u].id == shares[i].userId;
      assert users'[u].id == shares[i].userId;
      var l :| 0 <= l < |libraries| && libraries[l].id == shares[i].libraryId;
      assert libraries'[l].id == shares[i].libraryId;
    }
  }

  lemma NeverDeactivatedTransitive(a: seq<Share>, b: seq<Share>, c: seq<Share>)
    requires NeverDeactivated(a, b) && NeverDeactivated(b, c)
    ensures NeverDeactivated(a, c)
  {
  }

  lemma ActiveShareKept(before: seq<Share>, after: seq<Share>, userId: nat, libraryId: nat)
    requires NeverDeactivated(before, after) && HasActiveShare(before, userId, libraryId)
    ensures HasActiveShare(after, userId, libraryId)
  {
    var i :| 0 <= i < |before| && before[i].userId == userId && before[i].libraryId == libraryId && before[i].isActive;
    assert after[i].userId == userId && after[i].libraryId == libraryId && after[i].isActive;
  }

  // ----- Writing one share row -----

  /** The sync's write (plex_service.py): an imported share is created active
      with no window, or the existing row is re-activated. */
  function ActivateShare(shares: seq<Share>, userId: nat, libraryId: nat): seq<Share> {
    match FindShare(shares, userId, libraryId)
    case None => shares + [Share(userId, libraryId, None, None, true)]
    case Some(j) => shares[j := shares[j].(isActive := true)]
  }

  lemma ActivateShareSpec(shares: seq<Share>, userId: nat, libraryId: nat)
    ensures var r := ActivateShare(shares, userId, libraryId);
      && NeverDeactivated(shares, r)
      && HasActiveShare(r, userId, libraryId)
      && |r| <= |shares| + 1
      && (forall i :: 0 <= i < |shares| && !(shares[i].userId == userId && shares[i].libraryId == libraryId) ==> r[i] == shares[i])
      && (forall i :: |shares| <= i < |r| ==> r[i].userId == userId && r[i].libraryId == libraryId)
      && (forall i :: 0 <= i < |r| && (i >= |shares| || r[i] != shares[i]) ==>
            r[i].userId == userId && r[i].libraryId == libraryId && r[i].isActive)
      && (SharePairsUnique(shares) ==> SharePairsUnique(r))
  {
    var r := ActivateShare(shares, userId, libraryId);
    match FindShare(shares, userId, libraryId)
    case None =>
      assert r[|shares|].userId == userId && r[|shares|].libraryId == libraryId && r[|shares|].isActive;
    case Some(j) =>
      assert r[j].userId == userId && r[j].libraryId == libraryId && r[j].isActive;
  }

  /** The form's write (app.py): the row is created if missing, then its flag and
      both dates are overwritten. */
  function StoreShare(shares: seq<Share>, userId: nat, libraryId: nat,
                      isActive: bool, start: Option<Instant>, expiry: Option<Instant>): seq<Share> {
    match FindShare(shares, userId, libraryId)
    case None => shares + [Share(userId, libraryId, start, expiry, isActive)]
    case Some(j) => shares[j := shares[j].(isActive := isActive, start := start, expiry := expiry)]
  }

  lemma StoreShareSpec(shares: seq<Share>, userId: nat, libraryId: nat,
                       isActive: bool, start: Option<Instant>, expiry: Option<Instant>)
    ensures var r := StoreShare(shares, userId, libraryId, isActive, start, expiry);
      && SharesKept(shares, r)
      && |r| <= |shares| + 1
      && (exists j :: 0 <= j < |r| && r[j] == Share(userId, libraryId, start, expiry, isActive))
      && (forall i :: 0 <= i < |shares| && !(shares[i].userId == userId && shares[i].libraryId == libraryId) ==> r[i] == shares[i])
      && (forall i :: |shares| <= i < |r| ==> r[i] == Share(userId, libraryId, start, expiry, isActive))
      && (SharePairsUnique(shares) ==> SharePairsUnique(r))
  {
    var r := StoreShare(shares, userId, libraryId, isActive, start, expiry);
    match FindShare(shares, userId, libraryId)
    case None =>
      assert r[|shares|] == Share(userId, libraryId, start, expiry, isActive);
    case Some(j) =>
      assert r[j] == Share(userId, libraryId, start, expiry, isActive);
  }
}
