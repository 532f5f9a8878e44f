/**
 * QR pairing: a user issues a one-shot token; another user claims it and gets the one chat room
 * of the pair, created on first use.  A token is unknown, used, expired, the claimer's own, or
 * claimable, checked in that order.
 */
module PairingService {
  import opened Wrappers
  import opened Http
  import opened Query
  import opened Db

  /** The lifetime a token gets when the request names none (or a non-finite one). */
  const DefaultTtlMinutes := 10

  /** Milliseconds per minute. */
  const MinuteMs := 60 * 1000

  /** What createPairingToken returns. */
  datatype TokenRecord = TokenRecord(token: string, expiresAt: int)

  /** The expiry instant in milliseconds: `now` plus the lifetime in minutes. */
  function ExpiresAt(now: int, ttlMinutes: Option<int>): (t: int)
    ensures t - now == ttlMinutes.GetOr(DefaultTtlMinutes) * 60000
    ensures ttlMinutes.None? ==> t == now + 600000
  {
    now + ttlMinutes.GetOr(DefaultTtlMinutes) * MinuteMs
  }

  /**
   * createPairingToken: an owner with no account row is NotFound.  `token` is the random token
   * and `now` the current time in milliseconds.  A token already stored violates the unique
   * column and nothing is written.
   */
  method CreatePairingToken(db: Database, ownerId: int, ttlMinutes: Option<int>, token: string, now: int)
    returns (r: Result<TokenRecord>)
    requires db.Valid()
    modifies db`pairingTokens
    ensures db.Valid()
    ensures r.Err? ==> db.pairingTokens == old(db.pairingTokens)
    ensures !UserExists(db.users, ownerId) ==> r == Err(NotFound, 404)
    ensures UserExists(db.users, ownerId) && r.Err? ==>
      r.kind == Plain && exists i :: 0 <= i < |old(db.pairingTokens)| && old(db.pairingTokens)[i].token == token
    ensures r.Ok? ==>
      && UserExists(db.users, ownerId)
      && r.value == TokenRecord(token, ExpiresAt(now, ttlMinutes))
      && db.pairingTokens == old(db.pairingTokens) + [PairingToken(token, ownerId, ExpiresAt(now, ttlMinutes), None)]
  {
    var owner := FindFirst(db.users, (u: User) => u.id == ownerId);
    if owner.None? {
      return Fail(NotFound);
    }
    assert db.users[owner.value].id == ownerId;
    var clash := FindFirst(db.pairingTokens, (t: PairingToken) => t.token == token);
    if clash.Some? {
      return Fail(Plain);
    }
    var record := PairingToken(token, ownerId, ExpiresAt(now, ttlMinutes), None);
    db.pairingTokens := db.pairingTokens + [record];
    r := Ok(TokenRecord(token, record.expiresAt));
  }

  /** How a claim attempt stands, in the order claimPairingToken checks. */
  datatype ClaimCheck =
    | UnknownToken
    | AlreadyUsed
    | Expired
    | OwnToken
    | UserMissing
    | Claimable(index: nat, ownerId: int)

  /** The exception each failed check throws. */
  function ClaimError(c: ClaimCheck): (r: Result<ChatRoom>)
    requires !c.Claimable?
    ensures r.Err?
    ensures r.kind == (match c
                       case UnknownToken => NotFound
                       case UserMissing => NotFound
                       case OwnToken => Forbidden
                       case _ => BadRequest)
  {
    match c
    case UnknownToken => Fail(NotFound)
    case AlreadyUsed => Fail(BadRequest)
    case Expired => Fail(BadRequest)
    case OwnToken => Fail(Forbidden)
    case UserMissing => Fail(NotFound)
  }

  /** Row `i` is the row the token lookup finds: the first one with that token string. */
  ghost predicate FirstToken(tokens: seq<PairingToken>, token: string, i: int) {
    0 <= i < |tokens| && tokens[i].token == token && forall j :: 0 <= j < i ==> tokens[j].token != token
  }

  /** The stored token in row `i` is unused, unexpired at `now`, and issued by someone else. */
  ghost predicate UsableBy(t: PairingToken, claimerId: int, now: int) {
    t.usedAt.None? && now <= t.expiresAt && t.ownerId != claimerId
  }

  /**
   * The checks of claimPairingToken, in order: the token must be stored, unused, not expired
   * (expiring exactly now still counts as valid), and not the claimer's own; then both accounts
   * must exist.  Each outcome holds exactly when every earlier check passed and its own failed.
   */
  function CheckClaim(tokens: seq<PairingToken>, users: seq<User>, claimerId: int, token: string, now: int): (c: ClaimCheck)
    ensures c == UnknownToken <==> forall i :: 0 <= i < |tokens| ==> tokens[i].token != token
    ensures c == AlreadyUsed <==> exists i :: FirstToken(tokens, token, i) && tokens[i].usedAt.Some?
    ensures c == Expired <==>
      exists i :: FirstToken(tokens, token, i) && tokens[i].usedAt.None? && tokens[i].expiresAt < now
    ensures c == OwnToken <==>
      exists i :: FirstToken(tokens, token, i) && tokens[i].usedAt.None? && now <= tokens[i].expiresAt
                  && tokens[i].ownerId == claimerId
    ensures c == UserMissing <==>
      exists i :: FirstToken(tokens, token, i) && UsableBy(tokens[i], claimerId, now)
                  && (!UserExists(users, tokens[i].ownerId) || !UserExists(users, claimerId))
    ensures c.Claimable? <==>
      exists i :: FirstToken(tokens, token, i) && UsableBy(tokens[i], claimerId, now)
                  && UserExists(users, tokens[i].ownerId) && UserExists(users, claimerId)
    ensures c.Claimable? ==>
      && FirstToken(tokens, token, c.index) && UsableBy(tokens[c.index], claimerId, now)
      && c.ownerId == tokens[c.index].ownerId && UserExists(users, c.ownerId) && UserExists(users, claimerId)
  {
    match FindFirst(tokens, (t: PairingToken) => t.token == token)
    case None => UnknownToken
    case Some(i) =>
      FirstTokenUnique(tokens, token, i);
      var rec := tokens[i];
      if rec.usedAt.Some? then AlreadyUsed
      else if rec.expiresAt < now then Expired
      else if rec.ownerId == claimerId then OwnToken
      else
        var owner := FindFirst(users, (u: User) => u.id == rec.ownerId);
        var claimer := FindFirst(users, (u: User) => u.id == claimerId);
        if owner.None? || claimer.None? then UserMissing
        else
          assert users[owner.value].id == rec.ownerId && users[claimer.value].id == claimerId;
          Claimable(i, rec.ownerId)
  }

  /** Only one row is the first with a given token. */
  lemma FirstTokenUnique(tokens: seq<PairingToken>, token: string, i: int)
    requires FirstToken(tokens, token, i)
    ensures forall j :: FirstToken(tokens, token, j) ==> j == i
  {
  }

  /** A room lookup or creation: the room, and the rooms table afterwards. */
  datatype RoomResult = RoomResult(room: ChatRoom, rooms: seq<ChatRoom>)

  /**
   * createOrGetRoom: the room of the pair, stored as (smaller id, larger id).  An existing room is
   * returned and nothing changes; otherwise a new visible room with no read pointers is added.
   */
  function CreateOrGetRoom(rooms: seq<ChatRoom>, userId1: int, userId2: int, now: int): (r: RoomResult)
    ensures r.room.userAId == (if userId1 < userId2 then userId1 else userId2)
    ensures r.room.userBId == (if userId1 < userId2 then userId2 else userId1)
    ensures r.room in r.rooms
    ensures r.rooms == rooms || r.rooms == rooms + [r.room]
    ensures r.rooms == rooms <==>
      exists i :: 0 <= i < |rooms| && rooms[i].userAId == r.room.userAId && rooms[i].userBId == r.room.userBId
  {
    var a := if userId1 < userId2 then userId1 else userId2;
    var b := if userId1 < userId2 then userId2 else userId1;
    match FindFirst(rooms, (c: ChatRoom) => c.userAId == a && c.userBId == b)
    case Some(i) => RoomResult(rooms[i], rooms)
    case None =>
      var room := ChatRoom(NextId(rooms, RoomKey), a, b, false, false, None, None, now);
      assert (rooms + [room])[|rooms|] == room;
      assert rooms + [room] != rooms by { assert |rooms + [room]| != |rooms|; }
      RoomResult(room, rooms + [room])
  }

  /** The room does not depend on which user issued the token and which claimed it. */
  lemma CreateOrGetRoomSymmetric(rooms: seq<ChatRoom>, userId1: int, userId2: int, now: int)
    ensures CreateOrGetRoom(rooms, userId1, userId2, now) == CreateOrGetRoom(rooms, userId2, userId1, now)
  {
  }

  /** Find-or-create keeps at most one room per pair, with ids still increasing. */
  lemma CreateOrGetRoomKeepsKeys(rooms: seq<ChatRoom>, userId1: int, userId2: int, now: int)
    requires Increasing(rooms, RoomKey) && RoomsKeyedByPair(rooms)
    ensures Increasing(CreateOrGetRoom(rooms, userId1, userId2, now).rooms, RoomKey)
    ensures RoomsKeyedByPair(CreateOrGetRoom(rooms, userId1, userId2, now).rooms)
  {
    var r := CreateOrGetRoom(rooms, userId1, userId2, now);
    if r.rooms != rooms {
      AppendKeepsIncreasing(rooms, r.room, RoomKey);
      var after := rooms + [r.room];
      forall i, j | 0 <= i < j < |after|
        ensures (after[i].userAId, after[i].userBId) != (after[j].userAId, after[j].userBId)
      {
        if j == |rooms| {
          assert after[i] == rooms[i];
        }
      }
    }
  }

  /** Asking again for the same pair returns the same room and adds nothing. */
  lemma CreateOrGetRoomIdempotent(rooms: seq<ChatRoom>, userId1: int, userId2: int, now: int, later: int)
    requires RoomsKeyedByPair(rooms)
    ensures var first := CreateOrGetRoom(rooms, userId1, userId2, now);
      CreateOrGetRoom(first.rooms, userId1, userId2, later) == RoomResult(first.room, first.rooms)
  {
    var first := CreateOrGetRoom(rooms, userId1, userId2, now);
    var a := first.room.userAId;
    var b := first.room.userBId;
    var p := (c: ChatRoom) => c.userAId == a && c.userBId == b;
    var again := FindFirst(first.rooms, p);
    if first.rooms == rooms {
      var i := FindFirst(rooms, p).value;
      assert first.room == rooms[i];
    } else {
      assert forall j :: 0 <= j < |rooms| ==> !p(rooms[j]);
      assert first.rooms[|rooms|] == first.room;
      assert forall j :: 0 <= j < |rooms| ==> first.rooms[j] == rooms[j];
      assert again == Some(|rooms|);
    }
  }

  /** Stamping a token as used leaves every token string where it was, so they stay unique. */
  lemma MarkUsedKeepsTokensUnique(tokens: seq<PairingToken>, i: nat, now: int)
    requires i < |tokens| && TokensUnique(tokens)
    ensures TokensUnique(tokens[i := tokens[i].(usedAt := Some(now))])
  {
    var after := tokens[i := tokens[i].(usedAt := Some(now))];
    assert forall k :: 0 <= k < |tokens| ==> after[k].token == tokens[k].token;
  }

  /**
   * claimPairingToken: every failed check throws and writes nothing.  A claimable token yields
   * the pair's room (found or created) and is then marked used at `now`.
   */
  method ClaimPairingToken(db: Database, claimerId: int, token: string, now: int) returns (r: Result<ChatRoom>)
    requires db.Valid()
    modifies db`pairingTokens, db`chatRooms
    ensures db.Valid()
    ensures var c := CheckClaim(old(db.pairingTokens), db.users, claimerId, token, now);
      && (!c.Claimable? ==>
            r == ClaimError(c) && db.pairingTokens == old(db.pairingTokens) && db.chatRooms == old(db.chatRooms))
      && (c.Claimable? ==>
            var made := CreateOrGetRoom(old(db.chatRooms), c.ownerId, claimerId, now);
            && r == Ok(made.room) && db.chatRooms == made.rooms
            && db.pairingTokens == old(db.pairingTokens)[c.index := old(db.pairingTokens)[c.index].(usedAt := Some(now))])
  {
    var c := CheckClaim(db.pairingTokens, db.users, claimerId, token, now);
    if !c.Claimable? {
      return ClaimError(c);
    }
    var made := CreateOrGetRoom(db.chatRooms, c.ownerId, claimerId, now);
    CreateOrGetRoomKeepsKeys(db.chatRooms, c.ownerId, claimerId, now);
    db.chatRooms := made.rooms;
    MarkUsedKeepsTokensUnique(db.pairingTokens, c.index, now);
    db.pairingTokens := db.pairingTokens[c.index := db.pairingTokens[c.index].(usedAt := Some(now))];
    r := Ok(made.room);
  }

  /** A successful claim uses the token up: any later claim, by anyone, is refused as used. */
  lemma ClaimIsOneShot(tokens: seq<PairingToken>, users: seq<User>, claimerId: int, token: string, now: int,
                       nextClaimer: int, later: int)
    requires CheckClaim(tokens, users, claimerId, token, now).Claimable?
    ensures var i := CheckClaim(tokens, users, claimerId, token, now).index;
      CheckClaim(tokens[i := tokens[i].(usedAt := Some(now))], users, nextClaimer, token, later) == AlreadyUsed
  {
    var p := (t: PairingToken) => t.token == token;
    var i := FindFirst(tokens, p).value;
    var after := tokens[i := tokens[i].(usedAt := Some(now))];
    assert forall j :: 0 <= j < i ==> after[j] == tokens[j];
    assert p(after[i]);
    assert FindFirst(after, p) == Some(i);
  }

  /** A token whose expiry instant is exactly now can still be claimed. */
  lemma ExpiryInstantIsClaimable(tokens: seq<PairingToken>, users: seq<User>, claimerId: int, token: string, now: int)
    requires CheckClaim(tokens, users, claimerId, token, now - 1).Claimable?
    requires tokens[CheckClaim(tokens, users, claimerId, token, now - 1).index].expiresAt == now
    ensures CheckClaim(tokens, users, claimerId, token, now).Claimable?
    ensures CheckClaim(tokens, users, claimerId, token, now + 1) == Expired
  {
  }
}
