/** The application database (`db`): the user, library and share tables and the
    settings table, updated in place by the service and the form handler. */
module Store {
  import opened Models
  import Schema

  class Database {
    var users: seq<PlexUser>
    var libraries: seq<Library>
    var shares: seq<Share>
    /** The `settings` table: a key is present iff its row exists. */
    var settings: map<string, string>
    var nextUserId: nat
    var nextLibraryId: nat

    function Contents(): Schema.Snapshot
      reads this
    {
      Schema.Snapshot(users, libraries, shares, nextUserId, nextLibraryId)
    }

    /** The integrity the schema declares (unique keys, foreign keys) and one
        share row per (user, library), which models.py does not declare but
        both writers keep by looking the row up before adding one. */
    ghost predicate Valid()
      reads this
    {
      Schema.Valid(Contents())
    }
  }
}
