/** The per-user session cache of the bot: started clients kept in memory,
    backed by a store of session strings keyed by user id. */
module Sessions {
  import opened Wrappers
  import opened Text

  /** A started user client; the store holds the string it was built from. */
  datatype Client = Client(name: string, sessionString: string)

  /** The client name `user_<id>` under which a session is started. */
  function ClientName(userId: int): (r: string)
    ensures StartsWith(r, "user_")
    ensures r[5..] == IntToString(userId)
  {
    "user_" + IntToString(userId)
  }

  /** What `/logout` answered. */
  datatype LogoutOutcome = LoggedOut | StopFailed | NotSignedIn

  class SessionCache {
    var userSessions: map<int, Client>
    var storedSessions: map<int, string>
    var storeReads: nat   // lookups of the store, to show a cache hit needs none

    /** Every cached client is one the store knows of, started under its
        user's name. */
    ghost predicate Valid()
      reads this
    {
      forall u :: u in userSessions ==>
        u in storedSessions && userSessions[u].name == ClientName(u)
    }

    /** A bot whose cache is empty; the store is as persisted. */
    constructor (stored: map<int, string>)
      ensures Valid()
      ensures userSessions == map[] && storedSessions == stored && storeReads == 0
    {
      userSessions := map[];
      storedSessions := stored;
      storeReads := 0;
    }

    /** `save_session`: an upsert of the session string of `userId`. */
    method SaveSession(userId: int, sessionString: string)
      requires Valid()
      modifies this
      ensures Valid()
      ensures storedSessions == old(storedSessions)[userId := sessionString]
      ensures userSessions == old(userSessions) && storeReads == old(storeReads)
    {
      storedSessions := storedSessions[userId := sessionString];
    }

    /** `get_user_session`: the cached client if there is one (no store read);
        otherwise the stored session is started and cached when it connects,
        and deleted from the store when it does not. `connects` is the outcome
        of starting the client. */
    method GetUserSession(userId: int, connects: bool) returns (r: Option<Client>)
      requires Valid()
      modifies this
      ensures Valid()
      ensures r.Some? ==> r.value.name == ClientName(userId) && userId in storedSessions
      ensures userId in old(userSessions) ==>
        && r == Some(old(userSessions)[userId])
        && userSessions == old(userSessions)
        && storedSessions == old(storedSessions)
        && storeReads == old(storeReads)
      ensures userId !in old(userSessions) ==> storeReads == old(storeReads) + 1
      ensures userId !in old(userSessions) && userId in old(storedSessions) && connects ==>
        && r == Some(Client(ClientName(userId), old(storedSessions)[userId]))
        && userSessions == old(userSessions)[userId := r.value]
        && storedSessions == old(storedSessions)
      ensures userId !in old(userSessions) && userId in old(storedSessions) && !connects ==>
        && r == None
        && userSessions == old(userSessions)
        && storedSessions == old(storedSessions) - {userId}
      ensures userId !in old(userSessions) && userId !in old(storedSessions) ==>
        && r == None
        && userSessions == old(userSessions)
        && storedSessions == old(storedSessions)
    {
      if userId in userSessions {
        return Some(userSessions[userId]);
      }
      storeReads := storeReads + 1;
      if userId in storedSessions {
        if connects {
          var client := Client(ClientName(userId), storedSessions[userId]);
          userSessions := userSessions[userId := client];
          return Some(client);
        }
        storedSessions := storedSessions - {userId};
      }
      return None;
    }

    /** `/logout`: a signed-in user's client is stopped, then dropped from
        the cache and the store; when stopping fails nothing is removed. */
    method Logout(userId: int, stopSucceeds: bool) returns (r: LogoutOutcome)
      requires Valid()
      modifies this
      ensures Valid()
      ensures storeReads == old(storeReads)
      ensures userId !in old(userSessions) ==>
        r == NotSignedIn && userSessions == old(userSessions) && storedSessions == old(storedSessions)
      ensures userId in old(userSessions) && !stopSucceeds ==>
        r == StopFailed && userSessions == old(userSessions) && storedSessions == old(storedSessions)
      ensures userId in old(userSessions) && stopSucceeds ==>
        && r == LoggedOut
        && userSessions == old(userSessions) - {userId}
        && storedSessions == old(storedSessions) - {userId}
    {
      if userId !in userSessions {
        return NotSignedIn;
      }
      if !stopSucceeds {
        return StopFailed;
      }
      userSessions := userSessions - {userId};
      storedSessions := storedSessions - {userId};
      r := LoggedOut;
    }
  }

  /** A second lookup right after one that returned a client is a cache hit:
      the same client, and the store is not read again. */
  method LookupTwice(bot: SessionCache, userId: int, connects: bool, connectsAgain: bool)
    returns (first: Option<Client>, second: Option<Client>)
    requires bot.Valid()
    modifies bot
    ensures first.Some? ==> second == first
    ensures first.Some? ==> bot.storeReads <= old(bot.storeReads) + 1
    ensures first.None? ==> second.None? && userId !in bot.storedSessions
  {
    first := bot.GetUserSession(userId, connects);
    second := bot.GetUserSession(userId, connectsAgain);
  }

  /** After a successful logout the user has no session: a lookup returns
      nothing whatever the connection would do. */
  method LogoutThenLookup(bot: SessionCache, userId: int, connects: bool)
    returns (out: LogoutOutcome, r: Option<Client>)
    requires bot.Valid()
    modifies bot
    ensures out == LoggedOut ==> r == None
    ensures out == NotSignedIn <==> userId !in old(bot.userSessions)
  {
    out := bot.Logout(userId, true);
    r := bot.GetUserSession(userId, connects);
  }

  /** A saved session that connects is returned on the next lookup of a
      user with no cached client, under the saved string. */
  method SaveThenLookup(bot: SessionCache, userId: int, sessionString: string)
    returns (r: Option<Client>)
    requires bot.Valid()
    requires userId !in bot.userSessions
    modifies bot
    ensures r == Some(Client(ClientName(userId), sessionString))
    ensures userId in bot.userSessions && bot.storedSessions == old(bot.storedSessions)[userId := sessionString]
  {
    bot.SaveSession(userId, sessionString);
    r := bot.GetUserSession(userId, true);
  }
}
