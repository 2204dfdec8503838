/**
 * The account tables shared by the login and administration handlers:
 * `scholarize_user`, `token` (API tokens) and `admin_reset_password`.
 */
module Accounts {
  import opened Wrappers
  import Collabs

  /** A row of `scholarize_user`; `status` false means the account is disabled. */
  datatype User = User(name: string, email: string, password: string, profileImg: string, status: bool)

  /** A row of `token`: the API token last issued to a user and its expiry (Unix seconds). */
  datatype Token = Token(userId: int, apiToken: string, expire: int)

  /** A row of `admin_reset_password`. */
  datatype ResetRow = ResetRow(boarded: bool, resetToken: string, resetExpiry: int)

  /** The value `ClearApiTokenOfUser` writes over a user's tokens. */
  const CLEARED: string := "cleared"

  /** The tokens after `ClearApiTokenOfUser`: each of the user's rows says "cleared" and expires now. */
  function Cleared(tokens: map<int, Token>, userId: int, now: int): map<int, Token> {
    map id | id in tokens :: if tokens[id].userId == userId then Token(userId, CLEARED, now) else tokens[id]
  }

  /** Clearing leaves no live token for the user and touches no other user's token. */
  lemma ClearedSpec(tokens: map<int, Token>, userId: int, now: int)
    ensures Cleared(tokens, userId, now).Keys == tokens.Keys
    ensures forall id :: id in tokens && tokens[id].userId == userId ==>
      Cleared(tokens, userId, now)[id].apiToken == CLEARED && Cleared(tokens, userId, now)[id].userId == userId
    ensures forall id :: id in tokens && tokens[id].userId != userId ==> Cleared(tokens, userId, now)[id] == tokens[id]
  {
  }

  /** Clearing a user's tokens twice in the same instant is clearing them once. */
  lemma ClearedTwice(tokens: map<int, Token>, userId: int, now: int)
    ensures Cleared(Cleared(tokens, userId, now), userId, now) == Cleared(tokens, userId, now)
  {
  }

  /** `GetUserById` never fails: a missing user reads as the zero row, whose email and password are "". */
  function UserOrZero(users: map<int, User>, userId: int): User {
    if userId in users then users[userId] else User("", "", "", "", false)
  }

  /** The ids of the users with an email. */
  function IdsWithEmail(users: map<int, User>, email: string): set<int> {
    set id | id in users && users[id].email == email
  }

  /** `GetUserByEmail`: `First` picks the lowest id with that email (emails are unique in practice). */
  ghost function UserByEmail(users: map<int, User>, email: string): (r: Option<int>)
    ensures r.Some? <==> exists id :: id in users && users[id].email == email
    ensures r.Some? ==> r.value in users && users[r.value].email == email
  {
    var ids := IdsWithEmail(users, email);
    if exists id :: id in users && users[id].email == email then
      var id :| id in users && users[id].email == email;
      assert id in ids;
      Some(Collabs.Least(ids))
    else None
  }

  /** The account tables. */
  class AccountDb {
    var users: map<int, User>
    var tokens: map<int, Token>
    var resets: map<int, ResetRow>

    constructor (users: map<int, User>, tokens: map<int, Token>, resets: map<int, ResetRow>)
      ensures this.users == users && this.tokens == tokens && this.resets == resets
    {
      this.users := users;
      this.tokens := tokens;
      this.resets := resets;
    }

    /** `ClearApiTokenOfUser`. */
    method ClearApiTokenOfUser(userId: int, now: int)
      modifies this`tokens
      ensures tokens == Cleared(old(tokens), userId, now)
    {
      tokens := Cleared(tokens, userId, now);
    }

    /** `GetUserByEmail`, as the query answers it. */
    method FindUserByEmail(email: string) returns (r: Option<int>)
      ensures r == UserByEmail(users, email)
    {
      var ids := IdsWithEmail(users, email);
      if exists id :: id in ids {
        var least := Collabs.LeastId(ids);
        return Some(least);
      }
      assert forall id :: id in users ==> users[id].email != email by {
        forall id | id in users ensures users[id].email != email {
          assert (id in ids) == (id in users && users[id].email == email);
        }
      }
      return None;
    }
  }
}
