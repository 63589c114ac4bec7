/** The Plex server and account as far as the core sees them. The network client
    is replaced by a snapshot of what the server would answer and a log of the
    `updateFriend` requests sent to it. */
module Remote {
  import opened Basics

  /** A library section of the server; `key` is the section key as a string. */
  datatype Section = Section(key: string, title: string, kind: string)

  /** One server that a friend has been given access to, with the keys of the
      sections shared on it. */
  datatype SharedServer = SharedServer(machineIdentifier: string, sectionKeys: seq<string>)

  /** A friend of the Plex account (`account.users()`); `id` is `str(user.id)`. */
  datatype Friend = Friend(id: string, title: string, email: string, thumb: string, servers: seq<SharedServer>)

  /** What the server and its account answer.
      `outage`: when present, every request fails with that error text (the server
      cannot be reached or the token is refused).
      `failures`: for the friends listed, requests about that friend (looking the
      friend up, updating its shares) fail with the given text. */
  datatype Server = Server(
    machineIdentifier: string,
    sections: seq<Section>,
    friends: seq<Friend>,
    outage: Option<string>,
    failures: map<string, string>)

  /** One `account.updateFriend(user, server, sections)` request. */
  datatype FriendUpdate = FriendUpdate(user: string, sections: seq<Section>)

  /** The remote service: what it answers, and the updates sent to it so far. */
  class Plex {
    const server: Server
    var calls: seq<FriendUpdate>

    constructor (server: Server)
      ensures this.server == server && calls == []
    {
      this.server := server;
      calls := [];
    }

    /** Replaces the sections shared with `user` by exactly `sections`. */
    method UpdateFriend(user: string, sections: seq<Section>)
      modifies this
      ensures calls == old(calls) + [FriendUpdate(user, sections)]
    {
      calls := calls + [FriendUpdate(user, sections)];
    }
  }
}
