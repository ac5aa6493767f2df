/** User accounts and their sessions: every login, logout, password or role change and revocation ends all earlier sessions of the user. */
module Sessions {
  import opened FileSystem
  import opened Names
  import opened Tokens

  datatype Record = Record(role: Role, version: nat, secret: string)

  /** A token that was handed out, with what was signed into it. */
  datatype Issue = Issue(id: string, role: Role, at: int, remember: bool, version: nat)

  /** What may happen to the accounts. */
  datatype Event =
    | Create(id: string, role: Role, secret: string) | Delete(id: string)
    | LogIn(id: string, password: string, at: int, remember: bool) | Bump(id: string)
    | SetPassword(id: string, secret: string) | SetRole(id: string, role: Role)

  class Service {
    const mac: Bytes -> Bytes
    const matches: (string, string) -> bool  // whether a password fits a stored secret
    var users: map<string, Record>
    var used: set<string>           // every id ever given out; ids are random and never repeat
    ghost var issued: set<Issue>
    ghost var revoked: set<Issue>   // handed out before the user's last login, logout, change or revocation

    ghost predicate Valid()
      reads this
    {
      && users.Keys <= used
      && (forall id :: id in used ==> IsText(id) && ':' !in id)
      && (forall t :: t in issued ==> t.id in used && t.version <= MAX_INT64 && InRange(t))
      && (forall t :: t in issued && t.id in users ==> t.version <= users[t.id].version)
      && revoked <= issued
      && (forall t :: t in revoked && t.id in users ==> t.version < users[t.id].version)
      && (forall id :: id in users ==> users[id].version <= MAX_INT64)
    }

    ghost predicate InRange(t: Issue) {
      MIN_INT64 <= Expiry(t.at, t.remember) <= MAX_INT64
    }

    ghost function TokenOf(t: Issue): string
      requires IsText(t.id)
    {
      Sign(mac, t.id, t.role, t.at, t.remember, t.version)
    }

    constructor (mac: Bytes -> Bytes, matches: (string, string) -> bool)
      ensures Valid() && this.mac == mac && this.matches == matches && users == map[] && issued == {} && revoked == {}
    {
      this.mac, this.matches := mac, matches;
      users, used, issued, revoked := map[], {}, {}, {};
    }

    ghost function TokensFor(id: string): set<Issue>
      reads this
    {
      set t | t in issued && t.id == id
    }

    /** A new account under a fresh random id. */
    method CreateUser(id: string, role: Role, secret: string)
      requires Valid() && id !in used && IsText(id) && ':' !in id
      modifies this`users, this`used
      ensures Valid() && users == old(users)[id := Record(role, 0, secret)] && used == old(used) + {id}
    {
      users, used := users[id := Record(role, 0, secret)], used + {id};
    }

    method DeleteUser(id: string) returns (ok: bool)
      requires Valid()
      modifies this`users, this`revoked
      ensures Valid() && (ok <==> id in old(users)) && users == old(users) - {id}
      ensures revoked == old(revoked) + (if ok then TokensFor(id) else {})
    {
      ok := id in users;
      if ok { revoked := revoked + TokensFor(id); }
      users := users - {id};
    }

    /** The one statement behind every change that ends sessions: the next version, with whatever else changes. */
    method NextVersion(id: string, role: Role, secret: string) returns (ok: bool)
      requires Valid()
      modifies this`users, this`revoked
      ensures Valid() && (ok <==> id in old(users) && old(users)[id].version < MAX_INT64)
      ensures users == if ok then old(users)[id := Record(role, old(users)[id].version + 1, secret)] else old(users)
      ensures revoked == old(revoked) + (if ok then TokensFor(id) else {})
    {
      ok := id in users && users[id].version < MAX_INT64;
      if ok {
        users := users[id := Record(role, users[id].version + 1, secret)];
        revoked := revoked + TokensFor(id);
      }
    }

    method UpdatePassword(id: string, secret: string) returns (ok: bool)
      requires Valid()
      modifies this`users, this`revoked
      ensures Valid() && (ok <==> id in old(users) && old(users)[id].version < MAX_INT64)
      ensures users == if ok then old(users)[id := Record(old(users)[id].role, old(users)[id].version + 1, secret)] else old(users)
      ensures revoked == old(revoked) + (if ok then TokensFor(id) else {})
    {
      if id !in users { return false; }
      ok := NextVersion(id, users[id].role, secret);
    }

    method UpdateRole(id: string, role: Role) returns (ok: bool)
      requires Valid()
      modifies this`users, this`revoked
      ensures Valid() && (ok <==> id in old(users) && old(users)[id].version < MAX_INT64)
      ensures users == if ok then old(users)[id := Record(role, old(users)[id].version + 1, old(users)[id].secret)] else old(users)
      ensures revoked == old(revoked) + (if ok then TokensFor(id) else {})
    {
      if id !in users { return false; }
      ok := NextVersion(id, role, users[id].secret);
    }

    /** Logout and the revocation of all sessions. */
    method BumpSessionVersion(id: string) returns (ok: bool)
      requires Valid()
      modifies this`users, this`revoked
      ensures Valid() && (ok <==> id in old(users) && old(users)[id].version < MAX_INT64)
      ensures users == if ok then old(users)[id := old(users)[id].(version := old(users)[id].version + 1)] else old(users)
      ensures revoked == old(revoked) + (if ok then TokensFor(id) else {})
    {
      if id !in users { return false; }
      ok := NextVersion(id, users[id].role, users[id].secret);
    }

    /** A login hands out the only token of the user that is good from then on. */
    method Login(id: string, password: string, at: int, remember: bool) returns (token: Option<string>, ghost t: Issue)
      requires Valid() && MIN_INT64 <= Expiry(at, remember) <= MAX_INT64
      modifies this`users, this`revoked, this`issued
      ensures Valid()
      ensures token.Some? <==> id in old(users) && matches(old(users)[id].secret, password) && old(users)[id].version < MAX_INT64
      ensures token.Some? ==>
        && t.id == id && id in users && IsText(id) && token.value == TokenOf(t) && t !in old(issued) && t !in revoked
        && users == old(users)[id := old(users)[id].(version := old(users)[id].version + 1)]
        && t.role == users[id].role && t.version == users[id].version && t.at == at && t.remember == remember
        && issued == old(issued) + {t} && old(revoked) + old(TokensFor(id)) <= revoked
      ensures token.None? ==> users == old(users) && issued == old(issued) && revoked == old(revoked)
    {
      hide Sign, IsText;
      t := Issue(id, Admin, at, remember, 0);
      if id !in users || !matches(users[id].secret, password) { return None, t; }
      var ok := NextVersion(id, users[id].role, users[id].secret);
      if !ok { return None, t; }
      t := Issue(id, users[id].role, at, remember, users[id].version);
      issued := issued + {t};
      return Some(Sign(mac, id, users[id].role, at, remember, users[id].version)), t;
    }

    /**
     Who a token stands for: the user whose current role and version are in a payload that it shows the MAC of. A token that was handed out before the user's last login, logout, change or revocation
     stands for nobody, whenever it is shown; the current one stands for its user exactly until it expires.
     */
    method UserFromRequest(value: string, now: int) returns (r: Option<string>)
      requires Valid()
      ensures r.Some? ==>
        r.value in users && Vouches(mac, value, now, Claims(r.value, users[r.value].role, users[r.value].version))
      ensures forall id :: id in users && Vouches(mac, value, now, Claims(id, users[id].role, users[id].version)) ==> r == Some(id)
      ensures forall t :: t in revoked && IsText(t.id) && value == TokenOf(t) ==> r == None
      ensures forall t :: (t in issued && IsText(t.id) && value == TokenOf(t) && t.id in users
                           && t.role == users[t.id].role && t.version == users[t.id].version) ==>
        r == (if now <= t.at + (if t.remember then 604800 else 3600) then Some(t.id) else None)
    {
      hide Vouches, Verify;
      forall c ensures Verify(mac, value, now) == Some(c) <==> Vouches(mac, value, now, c) {
        VerifiesExactly(mac, value, now, c);
      }
      forall t | t in issued && IsText(t.id) && value == TokenOf(t)
        ensures Verify(mac, value, now) == (if now <= Expiry(t.at, t.remember) then Some(Claims(t.id, t.role, t.version)) else None)
      {
        ReadsBack(t, now);
      }
      var claims := Verify(mac, value, now);
      if claims.None? || claims.value.userID !in users { return None; }
      var user := users[claims.value.userID];
      if user.role != claims.value.role || user.version != claims.value.version { return None; }
      return Some(claims.value.userID);
    }

    lemma ReadsBack(t: Issue, now: int)
      requires Valid() && t in issued && IsText(t.id)
      ensures Verify(mac, TokenOf(t), now) ==
        if now <= Expiry(t.at, t.remember) then Some(Claims(t.id, t.role, t.version)) else None
    {
      SignedReadsAs(mac, t.id, t.role, t.at, t.remember, t.version, now);
    }

    // ----- Whole runs -----

    method Step(e: Event)
      requires Valid()
      modifies this
      ensures Valid() && issued >= old(issued) && revoked >= old(revoked)
    {
      hide Sign, Service.TokenOf, Service.TokensFor;
      match e
      case Create(id, role, secret) =>
        if id !in used && IsText(id) && ':' !in id { CreateUser(id, role, secret); }
      case Delete(id) => var _ := DeleteUser(id);
      case LogIn(id, password, at, remember) =>
        if MIN_INT64 <= Expiry(at, remember) <= MAX_INT64 { var _, _ := Login(id, password, at, remember); }
      case Bump(id) => var _ := BumpSessionVersion(id);
      case SetPassword(id, secret) => var _ := UpdatePassword(id, secret);
      case SetRole(id, role) => var _ := UpdateRole(id, role);
    }

    /** What has been revoked stays revoked, whatever happens next. */
    method Run(events: seq<Event>)
      requires Valid()
      modifies this
      ensures Valid() && issued >= old(issued) && revoked >= old(revoked)
    {
      for k := 0 to |events|
        invariant Valid() && issued >= old(issued) && revoked >= old(revoked)
      {
        Step(events[k]);
      }
    }
  }
}
