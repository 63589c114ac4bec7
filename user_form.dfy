/** What the POST branch of `user_details` (app.py) does: one share row per
    library is written from the submitted form, the rows are committed, and the
    keys of the libraries whose new window is open are pushed to the server. */
module UserForm {
  import opened Basics
  import opened Models
  import opened Schema
  import opened ShareWindow
  import opened Remote
  import opened Access
  import opened Schedule

  /** A date field as submitted: missing or empty, a `%Y-%m-%d` date (as the
      instant it parses to), or text `strptime` rejects. */
  datatype DateInput = Blank | Date(at: Instant) | Unparsable

  /** The three fields of one library: `library_<id>`, `start_date_<id>` and
      `expiration_date_<id>`. */
  datatype LibraryForm = LibraryForm(checkbox: Option<string>, start: DateInput, expiry: DateInput)

  /** The submitted form, by library id; a library without an entry submitted
      none of its fields. */
  type Form = map<nat, LibraryForm>

  function EntryFor(form: Form, libraryId: nat): LibraryForm {
    if libraryId in form then form[libraryId] else LibraryForm(None, Blank, Blank)
  }

  /** The checkbox counts only when its value is exactly `on`. */
  predicate Checked(e: LibraryForm) {
    e.checkbox == Some("on")
  }

  function ParsedDate(d: DateInput): (r: Option<Instant>)
    ensures r.Some? <==> d.Date?
    ensures d.Date? ==> r.value == d.at
  {
    match d
    case Date(at) => Some(at)
    case _ => None
  }

  /** `strptime` raises on one of the library's dates. */
  predicate Malformed(e: LibraryForm) {
    e.start.Unparsable? || e.expiry.Unparsable?
  }

  predicate FormMalformed(libraries: seq<Library>, form: Form) {
    exists l :: 0 <= l < |libraries| && Malformed(EntryFor(form, libraries[l].id))
  }

  /** The row the form asks for: flag and both dates from the form. */
  function SubmittedShare(userId: nat, libraryId: nat, e: LibraryForm): Share {
    Share(userId, libraryId, ParsedDate(e.start), ParsedDate(e.expiry), Checked(e))
  }

  /** The share loop: libraries in table order, each row created if missing and
      then overwritten. */
  function SubmitForm(shares: seq<Share>, userId: nat, libraries: seq<Library>, form: Form): seq<Share>
    decreases |libraries|
  {
    if libraries == [] then shares
    else
      var lib := libraries[|libraries| - 1];
      var e := EntryFor(form, lib.id);
      StoreShare(SubmitForm(shares, userId, libraries[..|libraries| - 1], form), userId, lib.id,
                 Checked(e), ParsedDate(e.start), ParsedDate(e.expiry))
  }

  /** The tables the POST commits. */
  function Saved(t: Snapshot, userId: nat, form: Form): Snapshot {
    t.(shares := SubmitForm(t.shares, userId, t.libraries, form))
  }

  /** The key list built alongside: each library whose submitted window is open
      at `now`, in library order. */
  function PushedKeys(libraries: seq<Library>, form: Form, now: Instant): seq<string>
    decreases |libraries|
  {
    if libraries == [] then []
    else
      var lib := libraries[|libraries| - 1];
      var e := EntryFor(form, lib.id);
      var prefix := PushedKeys(libraries[..|libraries| - 1], form, now);
      if ShouldShare(Checked(e), ParsedDate(e.start), ParsedDate(e.expiry), now) then prefix + [lib.plexKey] else prefix
  }

  /** What the handler answers: a 404 for an unknown user, a 500 when a date
      does not parse, or a redirect with a flash message. */
  datatype PostResult = NotFound | ServerError | Redirect(ok: bool, flash: string)

  const AccessUpdatedFlash: string := "Access updated successfully on Plex."
  const UpdateFailedFlash: string := "Local saved, but Plex update failed: "

  /** The answer, the committed tables, and the requests sent. */
  datatype PostEffect = PostEffect(result: PostResult, tables: Snapshot, calls: seq<FriendUpdate>)

  function UserDetails(t: Snapshot, settings: map<string, string>, server: Server,
                       userId: nat, form: Form, now: Instant): (r: PostEffect)
    ensures r.result.NotFound? <==> FindUserById(t.users, userId).None?
    ensures !r.result.Redirect? ==> r.tables == t && r.calls == []
  {
    match FindUserById(t.users, userId)
    case None => PostEffect(NotFound, t, [])
    case Some(u) =>
      if FormMalformed(t.libraries, form) then PostEffect(ServerError, t, [])
      else
        var saved := Saved(t, userId, form);
        var a := AccessUpdate(settings, server, t.users[u].plexId, PushedKeys(t.libraries, form, now));
        PostEffect(Redirect(a.outcome.ok, if a.outcome.ok then AccessUpdatedFlash else UpdateFailedFlash + a.outcome.message),
                   saved, a.calls)
  }

  // ----- Properties of the share loop -----

  predicate IdsDistinct(libraries: seq<Library>) {
    forall i, j :: 0 <= i < j < |libraries| ==> libraries[i].id != libraries[j].id
  }

  predicate Listed(libraries: seq<Library>, libraryId: nat) {
    exists l :: 0 <= l < |libraries| && libraries[l].id == libraryId
  }

  /** No row is deleted or moved to another pair; a row of another user, or of
      a library that is not listed, is left as it was; new rows are the user's,
      for listed libraries; pairs stay unique. */
  lemma {:induction false} SubmitFormFrame(shares: seq<Share>, userId: nat, libraries: seq<Library>, form: Form)
    ensures var r := SubmitForm(shares, userId, libraries, form);
      && SharesKept(shares, r)
      && |r| <= |shares| + |libraries|
      && (forall i :: 0 <= i < |shares| && (shares[i].userId != userId || !Listed(libraries, shares[i].libraryId)) ==>
            r[i] == shares[i])
      && (forall i :: |shares| <= i < |r| ==> r[i].userId == userId && Listed(libraries, r[i].libraryId))
      && (SharePairsUnique(shares) ==> SharePairsUnique(r))
    decreases |libraries|
  {
    if libraries != [] {
      var prefix := libraries[..|libraries| - 1];
      var lib := libraries[|libraries| - 1];
      var e := EntryFor(form, lib.id);
      var p := SubmitForm(shares, userId, prefix, form);
      SubmitFormFrame(shares, userId, prefix, form);
      StoreShareSpec(p, userId, lib.id, Checked(e), ParsedDate(e.start), ParsedDate(e.expiry));
      var r := SubmitForm(shares, userId, libraries, form);
      forall l | 0 <= l < |prefix| ensures prefix[l] == libraries[l] {
      }
      forall i | 0 <= i < |shares| && (shares[i].userId != userId || !Listed(libraries, shares[i].libraryId))
        ensures r[i] == shares[i]
      {
        if Listed(prefix, shares[i].libraryId) {
          var l :| 0 <= l < |prefix| && prefix[l].id == shares[i].libraryId;
          assert libraries[l].id == shares[i].libraryId;
        }
        assert shares[i].userId != userId || shares[i].libraryId != libraries[|libraries| - 1].id;
      }
      forall i | |shares| <= i < |r| ensures r[i].userId == userId && Listed(libraries, r[i].libraryId) {
        if i < |p| {
          var l :| 0 <= l < |prefix| && prefix[l].id == p[i].libraryId;
          assert libraries[l].id == p[i].libraryId;
        } else {
          assert libraries[|libraries| - 1].id == r[i].libraryId;
        }
      }
    }
  }

  /** Every listed library has, in `r`, the row the form asks for. */
  predicate RowsSubmitted(r: seq<Share>, userId: nat, libraries: seq<Library>, form: Form) {
    forall l :: 0 <= l < |libraries| ==>
      exists j :: 0 <= j < |r| && r[j] == SubmittedShare(userId, libraries[l].id, EntryFor(form, libraries[l].id))
  }

  /** Every listed library ends with the row the form asks for. */
  lemma {:induction false} SubmitFormRows(shares: seq<Share>, userId: nat, libraries: seq<Library>, form: Form)
    requires IdsDistinct(libraries)
    ensures RowsSubmitted(SubmitForm(shares, userId, libraries, form), userId, libraries, form)
    decreases |libraries|
  {
    if libraries != [] {
      var prefix := libraries[..|libraries| - 1];
      var lib := libraries[|libraries| - 1];
      var e := EntryFor(form, lib.id);
      var p := SubmitForm(shares, userId, prefix, form);
      assert IdsDistinct(prefix);
      SubmitFormRows(shares, userId, prefix, form);
      StoreShareSpec(p, userId, lib.id, Checked(e), ParsedDate(e.start), ParsedDate(e.expiry));
      var r := SubmitForm(shares, userId, libraries, form);
      forall l | 0 <= l < |libraries|
        ensures exists j :: 0 <= j < |r| && r[j] == SubmittedShare(userId, libraries[l].id, EntryFor(form, libraries[l].id))
      {
        if l < |prefix| {
          assert prefix[l] == libraries[l];
          var j :| 0 <= j < |p| && p[j] == SubmittedShare(userId, prefix[l].id, EntryFor(form, prefix[l].id));
          assert libraries[l].id != lib.id;
          assert r[j] == p[j];
        } else {
          assert libraries[l] == lib;
          assert SubmittedShare(userId, lib.id, e) == Share(userId, lib.id, ParsedDate(e.start), ParsedDate(e.expiry), Checked(e));
        }
      }
    }
  }

  /** With one row per pair before the POST, every library has exactly one row
      for the user afterwards, holding the submitted flag and dates. */
  lemma ExactlyOneRowPerLibrary(shares: seq<Share>, userId: nat, libraries: seq<Library>, form: Form)
    requires IdsDistinct(libraries) && SharePairsUnique(shares)
    ensures var r := SubmitForm(shares, userId, libraries, form);
      forall l :: 0 <= l < |libraries| ==>
        exists j :: 0 <= j < |r| && r[j] == SubmittedShare(userId, libraries[l].id, EntryFor(form, libraries[l].id)) &&
          forall k :: 0 <= k < |r| && r[k].userId == userId && r[k].libraryId == libraries[l].id ==> k == j
  {
    var r := SubmitForm(shares, userId, libraries, form);
    SubmitFormFrame(shares, userId, libraries, form);
    SubmitFormRows(shares, userId, libraries, form);
    forall l | 0 <= l < |libraries|
      ensures exists j :: 0 <= j < |r| && r[j] == SubmittedShare(userId, libraries[l].id, EntryFor(form, libraries[l].id)) &&
                forall k :: 0 <= k < |r| && r[k].userId == userId && r[k].libraryId == libraries[l].id ==> k == j
    {
      var j :| 0 <= j < |r| && r[j] == SubmittedShare(userId, libraries[l].id, EntryFor(form, libraries[l].id));
      forall k | 0 <= k < |r| && r[k].userId == userId && r[k].libraryId == libraries[l].id ensures k == j {
      }
    }
  }

  /** The POST keeps the tables' integrity for an existing user. */
  lemma SubmitFormValid(t: Snapshot, userId: nat, form: Form)
    requires Valid(t) && HasUser(t.users, userId)
    ensures Valid(t.(shares := SubmitForm(t.shares, userId, t.libraries, form)))
  {
    var r := SubmitForm(t.shares, userId, t.libraries, form);
    SubmitFormFrame(t.shares, userId, t.libraries, form);
    forall i | 0 <= i < |r| ensures HasUser(t.users, r[i].userId) && HasLibrary(t.libraries, r[i].libraryId) {
      if i < |t.shares| {
        assert r[i].userId == t.shares[i].userId && r[i].libraryId == t.shares[i].libraryId;
      }
    }
  }

  // ----- Properties of the pushed keys -----

  /** The keys of a concatenation of library lists are the keys of each, in
      order; a single library contributes its key iff its submitted window is
      open. Together these say the list is in library order. */
  lemma {:induction false} PushedKeysAppend(a: seq<Library>, b: seq<Library>, form: Form, now: Instant)
    ensures PushedKeys(a + b, form, now) == PushedKeys(a, form, now) + PushedKeys(b, form, now)
    decreases |b|
  {
    if b == [] {
      assert a + b == a;
    } else {
      assert (a + b)[..|a + b| - 1] == a + b[..|b| - 1];
      PushedKeysAppend(a, b[..|b| - 1], form, now);
    }
  }

  lemma PushedKeysOfOne(lib: Library, form: Form, now: Instant)
    ensures var e := EntryFor(form, lib.id);
      PushedKeys([lib], form, now) == if ShouldShare(Checked(e), ParsedDate(e.start), ParsedDate(e.expiry), now) then [lib.plexKey] else []
  {
    assert [lib][..0] == [];
  }

  /** A key is pushed iff some library with that key has an open submitted window. */
  lemma {:induction false} PushedKeysMembers(libraries: seq<Library>, form: Form, now: Instant, k: string)
    ensures k in PushedKeys(libraries, form, now) <==>
      exists l :: 0 <= l < |libraries| && libraries[l].plexKey == k &&
        ShouldShare(Checked(EntryFor(form, libraries[l].id)), ParsedDate(EntryFor(form, libraries[l].id).start),
                    ParsedDate(EntryFor(form, libraries[l].id).expiry), now)
    decreases |libraries|
  {
    if libraries != [] {
      var prefix := libraries[..|libraries| - 1];
      PushedKeysMembers(prefix, form, now, k);
      assert forall l :: 0 <= l < |prefix| ==> prefix[l] == libraries[l];
    }
  }

  /** After the POST, the user's row for a library is the submitted one. */
  lemma SavedRowIsSubmitted(t: Snapshot, userId: nat, form: Form, l: nat, s: Share)
    requires Valid(t) && l < |t.libraries|
    requires s in Saved(t, userId, form).shares && s.userId == userId && s.libraryId == t.libraries[l].id
    ensures s == SubmittedShare(userId, t.libraries[l].id, EntryFor(form, t.libraries[l].id))
  {
    var r := Saved(t, userId, form).shares;
    ExactlyOneRowPerLibrary(t.shares, userId, t.libraries, form);
    var i :| 0 <= i < |r| && r[i] == s;
    var j :| 0 <= j < |r| && r[j] == SubmittedShare(userId, t.libraries[l].id, EntryFor(form, t.libraries[l].id)) &&
             forall k :: 0 <= k < |r| && r[k].userId == userId && r[k].libraryId == t.libraries[l].id ==> k == j;
    assert i == j;
  }

  /** The scheduled pass can compute the user's keys from the committed rows. */
  lemma SavedKeysDefined(t: Snapshot, userId: nat, form: Form, now: Instant)
    requires Valid(t) && HasUser(t.users, userId)
    ensures Valid(Saved(t, userId, form))
    ensures DesiredKeys(Saved(t, userId, form), userId, now).Some?
  {
    var saved := Saved(t, userId, form);
    SubmitFormValid(t, userId, form);
    ValidRowsPointAtLibraries(saved);
    var probe := [PlexUser(userId, "", "", "", "")];
    LinkedKeysDefined(saved, probe, now);
    assert probe[0].id == userId;
  }

  lemma PushedKeyIsDesired(t: Snapshot, userId: nat, form: Form, now: Instant, k: string)
    requires Valid(t) && HasUser(t.users, userId)
    requires k in PushedKeys(t.libraries, form, now)
    ensures DesiredKeys(Saved(t, userId, form), userId, now).Some?
    ensures k in DesiredKeys(Saved(t, userId, form), userId, now).value
  {
    var saved := Saved(t, userId, form);
    SavedKeysDefined(t, userId, form, now);
    PushedKeysMembers(t.libraries, form, now, k);
    var l :| 0 <= l < |t.libraries| && t.libraries[l].plexKey == k &&
      ShouldShare(Checked(EntryFor(form, t.libraries[l].id)), ParsedDate(EntryFor(form, t.libraries[l].id).start),
                  ParsedDate(EntryFor(form, t.libraries[l].id).expiry), now);
    SubmitFormRows(t.shares, userId, t.libraries, form);
    assert RowsSubmitted(saved.shares, userId, t.libraries, form);
    var j :| 0 <= j < |saved.shares| && saved.shares[j] == SubmittedShare(userId, t.libraries[l].id, EntryFor(form, t.libraries[l].id));
    var lib := t.libraries[l];
    var s := saved.shares[j];
    assert s.libraryId == lib.id && s.userId == userId && ShareIsLive(s, now);
    assert s in saved.shares;
    LibraryKeyOf(t.libraries, t.nextLibraryId, l);
    assert HasLibrary(t.libraries, lib.id) && LibraryKey(t.libraries, lib.id) == k;
    DesiredKeysMembers(saved, userId, now, k);
  }

  lemma DesiredKeyIsPushed(t: Snapshot, userId: nat, form: Form, now: Instant, k: string)
    requires Valid(t) && HasUser(t.users, userId)
    requires DesiredKeys(Saved(t, userId, form), userId, now).Some?
    requires k in DesiredKeys(Saved(t, userId, form), userId, now).value
    ensures k in PushedKeys(t.libraries, form, now)
  {
    var saved := Saved(t, userId, form);
    PushedKeysMembers(t.libraries, form, now, k);
    DesiredKeysMembers(saved, userId, now, k);
    var s :| s in saved.shares && s.userId == userId && ShareIsLive(s, now) && HasLibrary(t.libraries, s.libraryId) &&
             LibraryKey(t.libraries, s.libraryId) == k;
    var l :| 0 <= l < |t.libraries| && t.libraries[l].id == s.libraryId;
    LibraryKeyOf(t.libraries, t.nextLibraryId, l);
    SavedRowIsSubmitted(t, userId, form, l, s);
  }

  /** The two call sites of the window rule agree: right after the POST, the keys
      it pushed are exactly the keys the scheduled pass computes for the user
      from the committed rows (as sets: the form goes in library order, the
      pass in row order). */
  lemma FormAgreesWithSchedule(t: Snapshot, userId: nat, form: Form, now: Instant)
    requires Valid(t) && HasUser(t.users, userId)
    ensures DesiredKeys(Saved(t, userId, form), userId, now).Some?
    ensures forall k :: k in PushedKeys(t.libraries, form, now) <==> k in DesiredKeys(Saved(t, userId, form), userId, now).value
  {
    SavedKeysDefined(t, userId, form, now);
    forall k ensures k in PushedKeys(t.libraries, form, now) <==> k in DesiredKeys(Saved(t, userId, form), userId, now).value {
      if k in PushedKeys(t.libraries, form, now) {
        PushedKeyIsDesired(t, userId, form, now, k);
      }
      if k in DesiredKeys(Saved(t, userId, form), userId, now).value {
        DesiredKeyIsPushed(t, userId, form, now, k);
      }
    }
  }

  // ----- Properties of the whole POST -----

  /** A date that does not parse aborts the request before the commit: nothing
      is written and nothing is sent. */
  lemma MalformedDateWritesNothing(t: Snapshot, settings: map<string, string>, server: Server,
                                   userId: nat, form: Form, now: Instant)
    requires FindUserById(t.users, userId).Some? && FormMalformed(t.libraries, form)
    ensures UserDetails(t, settings, server, userId, form, now) == PostEffect(ServerError, t, [])
  {
  }

  /** The rows are committed before the server is asked, so whatever the server
      answers the saved rows stand; a failure only changes the flash message. */
  lemma SavedBeforePush(t: Snapshot, settings: map<string, string>, server: Server,
                        userId: nat, form: Form, now: Instant)
    requires FindUserById(t.users, userId).Some? && !FormMalformed(t.libraries, form)
    ensures var r := UserDetails(t, settings, server, userId, form, now);
      var a := AccessUpdate(settings, server, t.users[FindUserById(t.users, userId).value].plexId, PushedKeys(t.libraries, form, now));
      && r.tables == Saved(t, userId, form)
      && r.calls == a.calls
      && r.result.Redirect? && r.result.ok == a.outcome.ok
      && (a.outcome.ok ==> r.result.flash == AccessUpdatedFlash)
      && (!a.outcome.ok ==> r.result.flash == UpdateFailedFlash + a.outcome.message && r.calls == [])
  {
  }
}
