/** What `update_user_access` (plex_service.py) asks of the Plex server for one
    user: which sections it shares, when it skips the server altogether, and
    how it reports each failure. */
module Access {
  import opened Basics
  import opened Remote

  /** The `(success, message)` pair the service functions return. */
  datatype Outcome = Outcome(ok: bool, message: string)

  const NoLibrariesMessage: string := "No libraries to share - user not invited."
  const NotConfiguredMessage: string := "Plex credentials not configured."
  const AccessUpdatedMessage: string := "Access updated successfully."

  const PlexUrlKey: string := "plex_url"
  const PlexTokenKey: string := "plex_token"

  /** `get_plex_server` only builds a client when both settings rows exist; what
      they hold is not inspected. */
  predicate Configured(settings: map<string, string>) {
    PlexUrlKey in settings && PlexTokenKey in settings
  }

  // ----- Resolving requested keys to server sections -----

  /** The first server section whose key equals `key`. */
  function FirstWithKey(sections: seq<Section>, key: string): (r: Option<nat>)
    ensures r.Some? ==> r.value < |sections| && sections[r.value].key == key
    ensures r.Some? ==> forall m :: 0 <= m < r.value ==> sections[m].key != key
    ensures r.None? ==> forall m :: 0 <= m < |sections| ==> sections[m].key != key
  {
    FirstIndex(sections, (s: Section) => s.key == key)
  }

  /** The section one requested key contributes: its first match, or nothing. */
  function Resolved(sections: seq<Section>, key: string): seq<Section> {
    match FirstWithKey(sections, key)
    case None => []
    case Some(j) => [sections[j]]
  }

  /** The sections chosen for the requested keys, in request order. */
  function ResolveKeys(sections: seq<Section>, keys: seq<string>): (r: seq<Section>)
    ensures |r| <= |keys|
    ensures forall i :: 0 <= i < |r| ==> r[i] in sections && r[i].key in keys
    decreases |keys|
  {
    if keys == [] then []
    else
      var prefix := ResolveKeys(sections, keys[..|keys| - 1]);
      assert forall k :: k in keys[..|keys| - 1] ==> k in keys;
      prefix + Resolved(sections, keys[|keys| - 1])
  }

  function KeysOf(ss: seq<Section>): (ks: seq<string>)
    ensures |ks| == |ss| && forall i :: 0 <= i < |ss| ==> ks[i] == ss[i].key
  {
    seq(|ss|, i requires 0 <= i < |ss| => ss[i].key)
  }

  // ----- The Default section -----

  function LowerChar(c: char): char {
    if 'A' <= c <= 'Z' then (c as int + 32) as char else c
  }

  /** `str.lower()`, on ASCII letters. */
  function Lower(s: string): string {
    seq(|s|, i requires 0 <= i < |s| => LowerChar(s[i]))
  }

  predicate IsDefaultTitle(title: string) {
    Lower(title) == "default"
  }

  /** The first section titled `default` in any letter case. */
  function FirstDefault(sections: seq<Section>): (r: Option<nat>)
    ensures r.Some? ==> r.value < |sections| && IsDefaultTitle(sections[r.value].title)
    ensures r.Some? ==> forall m :: 0 <= m < r.value ==> !IsDefaultTitle(sections[m].title)
    ensures r.None? ==> forall m :: 0 <= m < |sections| ==> !IsDefaultTitle(sections[m].title)
  {
    FirstIndex(sections, (s: Section) => IsDefaultTitle(s.title))
  }

  predicate HasKey(chosen: seq<Section>, key: string) {
    exists i :: 0 <= i < |chosen| && chosen[i].key == key
  }

  /** The Default section is appended unless a section with its key is already chosen. */
  function WithDefault(chosen: seq<Section>, sections: seq<Section>): seq<Section> {
    match FirstDefault(sections)
    case None => chosen
    case Some(d) => if HasKey(chosen, sections[d].key) then chosen else chosen + [sections[d]]
  }

  /** The section list handed to `updateFriend` for the requested keys. */
  function SectionsToShare(sections: seq<Section>, keys: seq<string>): seq<Section> {
    WithDefault(ResolveKeys(sections, keys), sections)
  }

  // ----- The whole update, as a result and the requests it sends -----

  /** The returned pair, and the `updateFriend` requests sent (none or one). */
  datatype AccessResult = AccessResult(outcome: Outcome, calls: seq<FriendUpdate>)

  function AccessUpdate(settings: map<string, string>, server: Server, plexUserId: string, keys: seq<string>): (r: AccessResult)
    ensures |r.calls| <= 1
    ensures r.calls != [] <==> r.outcome == Outcome(true, AccessUpdatedMessage)
    ensures r.calls != [] ==> r.calls[0].user == plexUserId
  {
    if keys == [] then AccessResult(Outcome(true, NoLibrariesMessage), [])
    else if !Configured(settings) then AccessResult(Outcome(false, NotConfiguredMessage), [])
    else if server.outage.Some? then AccessResult(Outcome(false, server.outage.value), [])
    else if plexUserId in server.failures then AccessResult(Outcome(false, server.failures[plexUserId]), [])
    else AccessResult(Outcome(true, AccessUpdatedMessage), [FriendUpdate(plexUserId, SectionsToShare(server.sections, keys))])
  }

  // ----- Properties -----

  /** Zero-grant safety: an empty key list succeeds without any request. */
  lemma EmptyKeysLeaveServerUntouched(settings: map<string, string>, server: Server, plexUserId: string)
    ensures AccessUpdate(settings, server, plexUserId, []) == AccessResult(Outcome(true, NoLibrariesMessage), [])
  {
  }

  /** A missing URL or token setting fails the update before any request. */
  lemma MissingCredentialsFail(settings: map<string, string>, server: Server, plexUserId: string, keys: seq<string>)
    requires keys != []
    requires PlexUrlKey !in settings || PlexTokenKey !in settings
    ensures AccessUpdate(settings, server, plexUserId, keys) == AccessResult(Outcome(false, NotConfiguredMessage), [])
  {
  }

  /** An error raised by the server is returned as the failure message, and no
      update is recorded. */
  lemma ServerErrorsAreReported(settings: map<string, string>, server: Server, plexUserId: string, keys: seq<string>)
    requires keys != [] && Configured(settings)
    requires server.outage.Some? || plexUserId in server.failures
    ensures var r := AccessUpdate(settings, server, plexUserId, keys);
      && !r.outcome.ok && r.calls == []
      && r.outcome.message == if server.outage.Some? then server.outage.value else server.failures[plexUserId]
  {
  }

  /** Otherwise exactly one `updateFriend` call is sent, with the sections to share. */
  lemma UpdateSendsOneCall(settings: map<string, string>, server: Server, plexUserId: string, keys: seq<string>)
    requires keys != [] && Configured(settings)
    requires server.outage.None? && plexUserId !in server.failures
    ensures AccessUpdate(settings, server, plexUserId, keys) ==
      AccessResult(Outcome(true, AccessUpdatedMessage), [FriendUpdate(plexUserId, SectionsToShare(server.sections, keys))])
  {
  }

  /** Request order: resolving a concatenation resolves each part in turn. */
  lemma {:induction false} ResolveKeysAppend(sections: seq<Section>, a: seq<string>, b: seq<string>)
    ensures ResolveKeys(sections, a + b) == ResolveKeys(sections, a) + ResolveKeys(sections, b)
    decreases |b|
  {
    if b == [] {
      assert a + b == a;
    } else {
      var b' := b[..|b| - 1];
      assert (a + b)[..|a + b| - 1] == a + b';
      assert (a + b)[|a + b| - 1] == b[|b| - 1];
      ResolveKeysAppend(sections, a, b');
    }
  }

  /** One requested key contributes at most one section: the first whose key
      equals it. */
  lemma ResolveOneKey(sections: seq<Section>, key: string)
    ensures ResolveKeys(sections, [key]) == Resolved(sections, key)
    ensures |Resolved(sections, key)| <= 1
  {
    assert [key][..0] == [];
  }

  lemma KeysOfSnoc(ss: seq<Section>, s: Section)
    ensures KeysOf(ss + [s]) == KeysOf(ss) + [s.key]
  {
  }

  /** When every requested key names a section of the server, the chosen sections
      carry exactly the requested keys, in request order. */
  lemma {:induction false} ResolveKeysWhenAllExist(sections: seq<Section>, keys: seq<string>)
    requires forall i :: 0 <= i < |keys| ==> HasKey(sections, keys[i])
    ensures KeysOf(ResolveKeys(sections, keys)) == keys
    decreases |keys|
  {
    if keys != [] {
      var prefix := keys[..|keys| - 1];
      var last := keys[|keys| - 1];
      var chosen := ResolveKeys(sections, prefix);
      assert KeysOf(chosen) == prefix by {
        forall i | 0 <= i < |prefix| ensures HasKey(sections, prefix[i]) {
          assert prefix[i] == keys[i];
        }
        ResolveKeysWhenAllExist(sections, prefix);
      }
      var found := FirstWithKey(sections, last);
      assert found.Some? by {
        assert HasKey(sections, last);
      }
      var s := sections[found.value];
      assert ResolveKeys(sections, keys) == chosen + [s];
      KeysOfSnoc(chosen, s);
      assert keys == prefix + [last];
    }
  }

  /** Distinct requested keys give a section list without repeated keys, so the
      Default section occurs once. */
  lemma {:induction false} ResolvedKeysDistinct(sections: seq<Section>, keys: seq<string>)
    requires Distinct(keys)
    ensures Distinct(KeysOf(ResolveKeys(sections, keys)))
    decreases |keys|
  {
    if keys != [] {
      var prefix := keys[..|keys| - 1];
      var last := keys[|keys| - 1];
      var chosen := ResolveKeys(sections, prefix);
      ResolvedKeysDistinct(sections, prefix);
      assert forall i :: 0 <= i < |chosen| ==> chosen[i].key != last by {
        forall i | 0 <= i < |chosen| ensures chosen[i].key != last {
          var m :| 0 <= m < |prefix| && prefix[m] == chosen[i].key;
          assert keys[m] == prefix[m];
        }
      }
    }
  }

  lemma SharedKeysDistinct(sections: seq<Section>, keys: seq<string>)
    requires Distinct(keys)
    ensures Distinct(KeysOf(SectionsToShare(sections, keys)))
  {
    ResolvedKeysDistinct(sections, keys);
  }

  /** If the server has a Default section, its key is always in the shared list,
      so an update never removes the user from the server; it is appended only
      when missing, at the end. */
  lemma DefaultIsAlwaysShared(sections: seq<Section>, keys: seq<string>)
    ensures var chosen := ResolveKeys(sections, keys);
      match FirstDefault(sections)
      case None => SectionsToShare(sections, keys) == chosen
      case Some(d) =>
        && HasKey(SectionsToShare(sections, keys), sections[d].key)
        && SectionsToShare(sections, keys) == (if HasKey(chosen, sections[d].key) then chosen else chosen + [sections[d]])
  {
    var chosen := ResolveKeys(sections, keys);
    match FirstDefault(sections)
    case None =>
    case Some(d) =>
      if !HasKey(chosen, sections[d].key) {
        assert (chosen + [sections[d]])[|chosen|].key == sections[d].key;
      }
  }

  /** Every shared section is a section of the server. */
  lemma SharedSectionsExist(sections: seq<Section>, keys: seq<string>)
    ensures forall s :: s in SectionsToShare(sections, keys) ==> s in sections
    ensures |SectionsToShare(sections, keys)| <= |keys| + 1
  {
  }

  /** The case-insensitive match on the title. */
  lemma DefaultTitles()
    ensures IsDefaultTitle("default") && IsDefaultTitle("Default") && IsDefaultTitle("DEFAULT")
    ensures !IsDefaultTitle("Defaults") && !IsDefaultTitle("Movies")
  {
    assert Lower("Defaults") != "default" by { assert |Lower("Defaults")| == 8; }
    assert Lower("Movies") != "default" by { assert |Lower("Movies")| == 6; }
  }
}
