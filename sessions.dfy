/**
 * The user and refresh-token store behind `AuthService`, and the effect of each
 * service operation on it, as pure functions of the store before the call.
 *
 * Each refresh-token row keeps only an Argon2 hash of its token. A presented
 * token is matched by verifying it against every non-revoked row in store order;
 * the first row that verifies wins.
 */
module Sessions {
  import opened Wrappers
  import Hex
  import opened Crypto

  type UserId = nat
  type RowId = nat

  /** Bytes drawn from `randomBytes(64)`. */
  type Bytes64 = b: seq<Hex.byte> | |b| == 64 witness seq(64, i => 0)

  /** Lifetime of a refresh-token row: 30 days, in milliseconds. */
  const RefreshLifetimeMs: nat := 30 * 24 * 3600 * 1000

  /** Lifetime of an access token (`expiresIn: '15m'`), in seconds. */
  const AccessLifetimeSec: nat := 15 * 60

  /** The encrypted private-key envelope is stored as JSON the service never inspects. */
  datatype Json =
    | JNull
    | JBool(b: bool)
    | JNumber(n: int)
    | JString(s: string)
    | JArray(items: seq<Json>)
    | JObject(fields: seq<(string, Json)>)

  datatype User = User(
    id: UserId,
    email: string,
    passwordHash: string,
    fullName: Option<string>,
    phone: Option<string>,
    country: Option<string>,
    pubKey: string,
    blob: Json)

  datatype RefreshToken = RefreshToken(
    id: RowId,
    userId: UserId,
    tokenHash: string,
    expiresAt: int,
    revoked: bool)

  /** The two tables, and the next identifier each one hands out. */
  datatype Store = Store(
    users: seq<User>,
    tokens: seq<RefreshToken>,
    nextUserId: nat,
    nextTokenId: nat)

  /** The body of a signup request. */
  datatype SignupDto = SignupDto(
    email: string,
    password: string,
    fullName: Option<string>,
    phone: Option<string>,
    country: Option<string>,
    publicKey: string,
    encryptedPrivKeyBlob: Json)

  /** The claims of a signed access token; the signature itself is not modelled. */
  datatype AccessToken = AccessToken(sub: UserId, email: string, iat: nat, exp: nat)

  datatype TokenPair = TokenPair(accessToken: AccessToken, refreshToken: string)

  datatype SignupOk = SignupOk(user: User, tokens: TokenPair)

  /** `new Error('Email already in use')`. */
  datatype AuthError = EmailInUse

  /** Identifiers are unique and below the next one handed out; emails are unique. */
  ghost predicate Valid(st: Store)
  {
    && (forall i :: 0 <= i < |st.users| ==> st.users[i].id < st.nextUserId)
    && (forall i, j :: 0 <= i < j < |st.users| ==> st.users[i].id != st.users[j].id)
    && (forall i, j :: 0 <= i < j < |st.users| ==> st.users[i].email != st.users[j].email)
    && (forall i :: 0 <= i < |st.tokens| ==> st.tokens[i].id < st.nextTokenId)
    && UniqueRowIds(st.tokens)
  }

  ghost predicate UniqueRowIds(rows: seq<RefreshToken>)
  {
    forall i, j :: 0 <= i < j < |rows| ==> rows[i].id != rows[j].id
  }

  /** A row that is not revoked and whose hash verifies `t`. */
  predicate LiveMatch(row: RefreshToken, h: Hasher, t: string)
  {
    !row.revoked && h.verify(row.tokenHash, t)
  }

  /** No row at all verifies `t`: a freshly drawn token collides with nothing stored. */
  ghost predicate Fresh(rows: seq<RefreshToken>, h: Hasher, t: string)
  {
    forall i :: 0 <= i < |rows| ==> !h.verify(rows[i].tokenHash, t)
  }

  /** At most one row verifies `t`. */
  ghost predicate AtMostOneMatch(rows: seq<RefreshToken>, h: Hasher, t: string)
  {
    forall i, j :: 0 <= i < |rows| && 0 <= j < |rows| && i != j && h.verify(rows[i].tokenHash, t)
      ==> !h.verify(rows[j].tokenHash, t)
  }

  /** No token verifies against two different rows. */
  ghost predicate Unambiguous(rows: seq<RefreshToken>, h: Hasher)
  {
    forall i, j, t :: 0 <= i < |rows| && 0 <= j < |rows| && i != j && h.verify(rows[i].tokenHash, t)
      ==> !h.verify(rows[j].tokenHash, t)
  }

  // ---------------------------------------------------------------- queries

  /** `prisma.user.findUnique({ where: { email } })`. */
  function FindUserByEmail(users: seq<User>, email: string): (r: Option<User>)
    ensures r.Some? ==> r.value in users && r.value.email == email
    ensures r.None? <==> forall i :: 0 <= i < |users| ==> users[i].email != email
  {
    if users == [] then None
    else if users[0].email == email then Some(users[0])
    else FindUserByEmail(users[1..], email)
  }

  /** `prisma.user.findUnique({ where: { id } })`. */
  function FindUserById(users: seq<User>, id: UserId): (r: Option<User>)
    ensures r.Some? ==> r.value in users && r.value.id == id
    ensures r.None? <==> forall i :: 0 <= i < |users| ==> users[i].id != id
  {
    if users == [] then None
    else if users[0].id == id then Some(users[0])
    else FindUserById(users[1..], id)
  }

  /** `prisma.refreshToken.findMany({ where: { revoked: false } })`, in store order. */
  function LiveRows(rows: seq<RefreshToken>): (live: seq<RefreshToken>)
  {
    if rows == [] then []
    else (if rows[0].revoked then [] else [rows[0]]) + LiveRows(rows[1..])
  }

  /** The first of `rows` whose hash verifies `t`: the `for … break` scan. */
  function FirstMatch(rows: seq<RefreshToken>, h: Hasher, t: string): (r: Option<RefreshToken>)
    ensures r.Some? ==> r.value in rows && h.verify(r.value.tokenHash, t)
    ensures r.None? <==> forall i :: 0 <= i < |rows| ==> !h.verify(rows[i].tokenHash, t)
  {
    if rows == [] then None
    else if h.verify(rows[0].tokenHash, t) then Some(rows[0])
    else FirstMatch(rows[1..], h, t)
  }

  /** Row `i` is the first non-revoked row, in store order, that verifies `t`. */
  ghost predicate IsFirstLiveMatch(rows: seq<RefreshToken>, h: Hasher, t: string, i: nat)
  {
    && i < |rows|
    && LiveMatch(rows[i], h, t)
    && forall j :: 0 <= j < i ==> !LiveMatch(rows[j], h, t)
  }

  /** Reference definition of the row a scan must pick: its index in the whole store. */
  function FirstLiveIndex(rows: seq<RefreshToken>, h: Hasher, t: string): (r: Option<nat>)
    ensures r.Some? ==> IsFirstLiveMatch(rows, h, t, r.value)
    ensures r.None? <==> forall i :: 0 <= i < |rows| ==> !LiveMatch(rows[i], h, t)
  {
    if rows == [] then None
    else if LiveMatch(rows[0], h, t) then Some(0)
    else match FirstLiveIndex(rows[1..], h, t)
      case None => None
      case Some(i) => Some(i + 1)
  }

  // ---------------------------------------------------------------- updates

  /** `prisma.refreshToken.update({ where: { id }, data: { revoked: true } })`. */
  function MarkRevoked(rows: seq<RefreshToken>, id: RowId): (r: seq<RefreshToken>)
    ensures |r| == |rows|
    ensures forall i :: 0 <= i < |rows| ==> r[i] == rows[i].(revoked := r[i].revoked)
    ensures forall i :: 0 <= i < |rows| ==> r[i].revoked == (rows[i].revoked || rows[i].id == id)
  {
    if rows == [] then []
    else [if rows[0].id == id then rows[0].(revoked := true) else rows[0]] + MarkRevoked(rows[1..], id)
  }

  /** `jwtService.sign({ sub: user.id, email: user.email }, { expiresIn: '15m' })`. */
  function GenerateAccessToken(user: User, now: nat): (tok: AccessToken)
    ensures tok.sub == user.id && tok.email == user.email
    ensures tok.iat * 1000 <= now < tok.iat * 1000 + 1000
    ensures tok.exp - tok.iat == AccessLifetimeSec
  {
    var iat := now / 1000;
    AccessToken(user.id, user.email, iat, iat + AccessLifetimeSec)
  }

  /** `generateAndStoreRefreshToken`: the new store and the plaintext token. */
  function IssueRefreshToken(st: Store, h: Hasher, userId: UserId, entropy: Bytes64, salt: Salt, now: nat)
    : (Store, string)
  {
    var token := Hex.Encode(entropy);
    var row := RefreshToken(st.nextTokenId, userId, h.hash(salt, token), now + RefreshLifetimeMs, false);
    (st.(tokens := st.tokens + [row], nextTokenId := st.nextTokenId + 1), token)
  }

  /** `signup`: reject a taken email, else insert the user and issue a token pair. */
  function Signup(st: Store, h: Hasher, dto: SignupDto, passwordSalt: Salt,
                  entropy: Bytes64, tokenSalt: Salt, now: nat)
    : (Store, Result<SignupOk, AuthError>)
  {
    if FindUserByEmail(st.users, dto.email).Some? then (st, Failure(EmailInUse))
    else
      var user := User(st.nextUserId, dto.email, h.hash(passwordSalt, dto.password),
                       dto.fullName, dto.phone, dto.country, dto.publicKey, dto.encryptedPrivKeyBlob);
      var withUser := st.(users := st.users + [user], nextUserId := st.nextUserId + 1);
      var accessToken := GenerateAccessToken(user, now);
      var (after, refreshToken) := IssueRefreshToken(withUser, h, user.id, entropy, tokenSalt, now);
      (after, Success(SignupOk(user, TokenPair(accessToken, refreshToken))))
  }

  /** `refreshTokens`: revoke the first live row the token verifies and issue a new pair. */
  function Refresh(st: Store, h: Hasher, refreshToken: string, entropy: Bytes64, salt: Salt, now: nat)
    : (Store, Option<TokenPair>)
  {
    match FirstMatch(LiveRows(st.tokens), h, refreshToken)
    case None => (st, None)
    case Some(stored) =>
      match FindUserById(st.users, stored.userId)
      case None => (st, None)
      case Some(user) =>
        var revoked := st.(tokens := MarkRevoked(st.tokens, stored.id));
        var (after, newRefreshToken) := IssueRefreshToken(revoked, h, user.id, entropy, salt, now);
        (after, Some(TokenPair(GenerateAccessToken(user, now), newRefreshToken)))
  }

  /** `revokeRefreshToken`: revoke the first live row the token verifies, if any. */
  function Revoke(st: Store, h: Hasher, refreshToken: string): (Store, bool)
  {
    match FirstMatch(LiveRows(st.tokens), h, refreshToken)
    case None => (st, false)
    case Some(stored) => (st.(tokens := MarkRevoked(st.tokens, stored.id)), true)
  }

  // ---------------------------------------------------------------- the scan

  /** Scanning the live rows finds the row at the first live matching index of the store. */
  lemma {:induction false} FirstMatchOfLive(rows: seq<RefreshToken>, h: Hasher, t: string)
    ensures FirstMatch(LiveRows(rows), h, t) ==
      match FirstLiveIndex(rows, h, t)
      case None => None
      case Some(i) => Some(rows[i])
  {
    if rows != [] {
      var rest := rows[1..];
      var live := LiveRows(rows);
      if LiveMatch(rows[0], h, t) {
        assert live == [rows[0]] + LiveRows(rest);
        assert live[0] == rows[0];
      } else {
        FirstMatchOfLive(rest, h, t);
        if rows[0].revoked {
          assert live == LiveRows(rest);
        } else {
          assert live == [rows[0]] + LiveRows(rest);
          assert live[1..] == LiveRows(rest);
          assert FirstMatch(live, h, t) == FirstMatch(LiveRows(rest), h, t);
        }
        match FirstLiveIndex(rest, h, t)
        case None =>
        case Some(i) => assert rows[i + 1] == rest[i];
      }
    }
  }

  /** With unique row ids, updating by the id of row `i` changes row `i` only. */
  lemma MarkRevokedOnly(rows: seq<RefreshToken>, i: nat)
    requires UniqueRowIds(rows)
    requires i < |rows|
    ensures MarkRevoked(rows, rows[i].id) == rows[i := rows[i].(revoked := true)]
  {
    var r := MarkRevoked(rows, rows[i].id);
    forall j | 0 <= j < |rows|
      ensures r[j] == rows[i := rows[i].(revoked := true)][j]
    {
      if j != i {
        assert j < i ==> rows[j].id != rows[i].id;
        assert j > i ==> rows[i].id != rows[j].id;
      }
    }
  }

  /** The index located for `t`, when the scan finds a row. */
  lemma LocateMatch(rows: seq<RefreshToken>, h: Hasher, t: string) returns (i: nat)
    requires FirstMatch(LiveRows(rows), h, t).Some?
    ensures FirstLiveIndex(rows, h, t) == Some(i)
    ensures IsFirstLiveMatch(rows, h, t, i)
    ensures FirstMatch(LiveRows(rows), h, t) == Some(rows[i])
  {
    FirstMatchOfLive(rows, h, t);
    i := FirstLiveIndex(rows, h, t).value;
  }

  // ---------------------------------------------------------------- issuing

  /**
   * `generateAndStoreRefreshToken` appends exactly one row for `userId`, live and
   * expiring 30 days after `now`, whose hash verifies the returned token; the
   * token is 64 random bytes as 128 lowercase hex digits and is not the stored hash.
   */
  lemma IssueAppendsRow(st: Store, h: Hasher, userId: UserId, entropy: Bytes64, salt: Salt, now: nat)
    requires Sound(h)
    ensures var (st', token) := IssueRefreshToken(st, h, userId, entropy, salt, now);
      && st'.users == st.users
      && |st'.tokens| == |st.tokens| + 1
      && st'.tokens[..|st.tokens|] == st.tokens
      && var row := st'.tokens[|st.tokens|];
      && row.userId == userId
      && !row.revoked
      && row.expiresAt == now + 2592000000
      && h.verify(row.tokenHash, token)
      && row.tokenHash != token
      && |token| == 128 && Hex.IsLowerHex(token)
  {
  }

  lemma IssuePreservesValid(st: Store, h: Hasher, userId: UserId, entropy: Bytes64, salt: Salt, now: nat)
    requires Valid(st)
    ensures Valid(IssueRefreshToken(st, h, userId, entropy, salt, now).0)
  {
  }

  /** A row issued for a fresh token keeps every token matched by at most one row. */
  lemma IssuePreservesUnambiguous(st: Store, h: Hasher, userId: UserId, entropy: Bytes64, salt: Salt, now: nat)
    requires Sound(h)
    requires Unambiguous(st.tokens, h)
    requires Fresh(st.tokens, h, Hex.Encode(entropy))
    ensures Unambiguous(IssueRefreshToken(st, h, userId, entropy, salt, now).0.tokens, h)
  {
    var rows := IssueRefreshToken(st, h, userId, entropy, salt, now).0.tokens;
    var n := |st.tokens|;
    forall i, j, t | 0 <= i < |rows| && 0 <= j < |rows| && i != j && h.verify(rows[i].tokenHash, t)
      ensures !h.verify(rows[j].tokenHash, t)
    {
      if i == n {
        assert t == Hex.Encode(entropy);
        assert rows[j] == st.tokens[j];
      } else if j == n {
        assert rows[i] == st.tokens[i];
      } else {
        assert rows[i] == st.tokens[i] && rows[j] == st.tokens[j];
      }
    }
  }

  // ---------------------------------------------------------------- signup

  /** Signup fails with `EmailInUse` exactly when the email is taken, and then changes nothing. */
  lemma SignupRejectsTakenEmail(st: Store, h: Hasher, dto: SignupDto, passwordSalt: Salt,
                                entropy: Bytes64, tokenSalt: Salt, now: nat)
    ensures var (st', r) := Signup(st, h, dto, passwordSalt, entropy, tokenSalt, now);
      && (r.Failure? <==> exists i :: 0 <= i < |st.users| && st.users[i].email == dto.email)
      && (r.Failure? ==> r.error == EmailInUse && st' == st)
  {
  }

  /**
   * A successful signup adds one user carrying the request's fields, a fresh id and a
   * password hash that verifies the password and is not the password, and one live row
   * for that user whose hash verifies the returned refresh token; the access token names it.
   */
  lemma SignupCreatesUser(st: Store, h: Hasher, dto: SignupDto, passwordSalt: Salt,
                          entropy: Bytes64, tokenSalt: Salt, now: nat)
    requires Sound(h)
    requires Valid(st)
    requires Signup(st, h, dto, passwordSalt, entropy, tokenSalt, now).1.Success?
    ensures var (st', r) := Signup(st, h, dto, passwordSalt, entropy, tokenSalt, now);
      var u := r.value.user;
      && st'.users == st.users + [u]
      && (forall i :: 0 <= i < |st.users| ==> st.users[i].id != u.id)
      && u.email == dto.email && u.fullName == dto.fullName && u.phone == dto.phone
      && u.country == dto.country && u.pubKey == dto.publicKey && u.blob == dto.encryptedPrivKeyBlob
      && h.verify(u.passwordHash, dto.password)
      && u.passwordHash != dto.password
      && |st'.tokens| == |st.tokens| + 1
      && st'.tokens[..|st.tokens|] == st.tokens
      && var row := st'.tokens[|st.tokens|];
      && row.userId == u.id && !row.revoked && row.expiresAt == now + RefreshLifetimeMs
      && h.verify(row.tokenHash, r.value.tokens.refreshToken)
      && r.value.tokens.accessToken.sub == u.id
      && r.value.tokens.accessToken == GenerateAccessToken(u, now)
      && Valid(st')
  {
    var u := Signup(st, h, dto, passwordSalt, entropy, tokenSalt, now).1.value.user;
    var withUser := st.(users := st.users + [u], nextUserId := st.nextUserId + 1);
    IssueAppendsRow(withUser, h, u.id, entropy, tokenSalt, now);
    assert Valid(withUser);
    IssuePreservesValid(withUser, h, u.id, entropy, tokenSalt, now);
  }

  /** A signup whose new token collides with no row keeps every token matched by at most one row. */
  lemma SignupPreservesUnambiguous(st: Store, h: Hasher, dto: SignupDto, passwordSalt: Salt,
                                   entropy: Bytes64, tokenSalt: Salt, now: nat)
    requires Sound(h)
    requires Unambiguous(st.tokens, h)
    requires Fresh(st.tokens, h, Hex.Encode(entropy))
    ensures Unambiguous(Signup(st, h, dto, passwordSalt, entropy, tokenSalt, now).0.tokens, h)
  {
    if FindUserByEmail(st.users, dto.email).None? {
      var u := User(st.nextUserId, dto.email, h.hash(passwordSalt, dto.password),
                    dto.fullName, dto.phone, dto.country, dto.publicKey, dto.encryptedPrivKeyBlob);
      var withUser := st.(users := st.users + [u], nextUserId := st.nextUserId + 1);
      IssuePreservesUnambiguous(withUser, h, u.id, entropy, tokenSalt, now);
    }
  }

  // ---------------------------------------------------------------- refresh

  /**
   * Refresh fails exactly when no live row verifies the token or the first such
   * row's user is gone; a failed refresh leaves the store as it was.
   */
  lemma RefreshFailure(st: Store, h: Hasher, t: string, entropy: Bytes64, salt: Salt, now: nat)
    ensures var (st', r) := Refresh(st, h, t, entropy, salt, now);
      && (r.None? <==>
           || (forall i :: 0 <= i < |st.tokens| ==> !LiveMatch(st.tokens[i], h, t))
           || (exists i: nat :: IsFirstLiveMatch(st.tokens, h, t, i)
                && forall k :: 0 <= k < |st.users| ==> st.users[k].id != st.tokens[i].userId))
      && (r.None? ==> st' == st)
  {
    FirstMatchOfLive(st.tokens, h, t);
    var (st', r) := Refresh(st, h, t, entropy, salt, now);
    match FirstLiveIndex(st.tokens, h, t)
    case None =>
      assert r.None? && st' == st;
    case Some(i) =>
      assert !(forall k :: 0 <= k < |st.tokens| ==> !LiveMatch(st.tokens[k], h, t));
      forall j: nat | IsFirstLiveMatch(st.tokens, h, t, j) ensures j == i {
        FirstLiveMatchUnique(st.tokens, h, t, i, j);
      }
      var found := FindUserById(st.users, st.tokens[i].userId);
      assert r.None? <==> found.None?;
      assert found.None? ==> st' == st;
  }

  /** There is only one first live match. */
  lemma FirstLiveMatchUnique(rows: seq<RefreshToken>, h: Hasher, t: string, i: nat, j: nat)
    requires IsFirstLiveMatch(rows, h, t, i) && IsFirstLiveMatch(rows, h, t, j)
    ensures i == j
  {
  }

  /**
   * A successful refresh revokes exactly the first live row that verifies the token,
   * keeps every other row, and appends one live row for the same user whose hash
   * verifies the returned refresh token; users are untouched.
   */
  lemma RefreshRotates(st: Store, h: Hasher, t: string, entropy: Bytes64, salt: Salt, now: nat)
    requires Sound(h)
    requires Valid(st)
    requires Refresh(st, h, t, entropy, salt, now).1.Some?
    ensures var res := Refresh(st, h, t, entropy, salt, now);
      var st' := res.0;
      var pair := res.1.value;
      && FirstLiveIndex(st.tokens, h, t).Some?
      && var i := FirstLiveIndex(st.tokens, h, t).value;
      && IsFirstLiveMatch(st.tokens, h, t, i)
      && |st'.tokens| == |st.tokens| + 1
      && st'.tokens[i] == st.tokens[i].(revoked := true)
      && (forall j :: 0 <= j < |st.tokens| && j != i ==> st'.tokens[j] == st.tokens[j])
      && var row := st'.tokens[|st.tokens|];
      && row.userId == st.tokens[i].userId && !row.revoked
      && row.expiresAt == now + RefreshLifetimeMs
      && h.verify(row.tokenHash, pair.refreshToken)
      && pair.accessToken.sub == st.tokens[i].userId
      && FindUserById(st.users, st.tokens[i].userId).Some?
      && pair.accessToken == GenerateAccessToken(FindUserById(st.users, st.tokens[i].userId).value, now)
      && |pair.refreshToken| == 128 && Hex.IsLowerHex(pair.refreshToken)
      && st'.users == st.users
  {
    var i := LocateMatch(st.tokens, h, t);
    MarkRevokedOnly(st.tokens, i);
    var user := FindUserById(st.users, st.tokens[i].userId).value;
    var revoked := st.(tokens := st.tokens[i := st.tokens[i].(revoked := true)]);
    var (after, token) := IssueRefreshToken(revoked, h, user.id, entropy, salt, now);
    assert Refresh(st, h, t, entropy, salt, now) == (after, Some(TokenPair(GenerateAccessToken(user, now), token)));
    IssueAppendsRow(revoked, h, user.id, entropy, salt, now);
  }

  lemma RefreshPreservesValid(st: Store, h: Hasher, t: string, entropy: Bytes64, salt: Salt, now: nat)
    requires Valid(st)
    ensures Valid(Refresh(st, h, t, entropy, salt, now).0)
  {
    if Refresh(st, h, t, entropy, salt, now).1.Some? {
      var i := LocateMatch(st.tokens, h, t);
      MarkRevokedOnly(st.tokens, i);
      var user := FindUserById(st.users, st.tokens[i].userId).value;
      var revoked := st.(tokens := st.tokens[i := st.tokens[i].(revoked := true)]);
      assert Valid(revoked);
      IssuePreservesValid(revoked, h, user.id, entropy, salt, now);
    }
  }

  /** The store a successful refresh leaves, spelled out step by step. */
  lemma RefreshSucceeds(st: Store, h: Hasher, t: string, entropy: Bytes64, salt: Salt, now: nat,
                        stored: RefreshToken, user: User)
    requires FirstMatch(LiveRows(st.tokens), h, t) == Some(stored)
    requires FindUserById(st.users, stored.userId) == Some(user)
    ensures var issued := IssueRefreshToken(st.(tokens := MarkRevoked(st.tokens, stored.id)), h, user.id, entropy, salt, now);
      Refresh(st, h, t, entropy, salt, now) == (issued.0, Some(TokenPair(GenerateAccessToken(user, now), issued.1)))
  {
  }

  /** `refreshTokens` never reads `expiresAt`: changing one row's expiry changes no outcome. */
  lemma RefreshIgnoresExpiry(st: Store, h: Hasher, t: string, entropy: Bytes64, salt: Salt, now: nat,
                             i: nat, expiresAt: int)
    requires i < |st.tokens|
    ensures var other := st.(tokens := st.tokens[i := st.tokens[i].(expiresAt := expiresAt)]);
      Refresh(other, h, t, entropy, salt, now).1 == Refresh(st, h, t, entropy, salt, now).1
  {
    var other := st.(tokens := st.tokens[i := st.tokens[i].(expiresAt := expiresAt)]);
    FirstMatchOfLive(st.tokens, h, t);
    FirstMatchOfLive(other.tokens, h, t);
    FirstLiveIndexIgnoresExpiry(st.tokens, h, t, i, expiresAt);
  }

  lemma {:induction false} FirstLiveIndexIgnoresExpiry(rows: seq<RefreshToken>, h: Hasher, t: string,
                                                       i: nat, expiresAt: int)
    requires i < |rows|
    ensures FirstLiveIndex(rows[i := rows[i].(expiresAt := expiresAt)], h, t) == FirstLiveIndex(rows, h, t)
  {
    var other := rows[i := rows[i].(expiresAt := expiresAt)];
    if i > 0 {
      assert other[1..] == rows[1..][i - 1 := rows[i].(expiresAt := expiresAt)];
      FirstLiveIndexIgnoresExpiry(rows[1..], h, t, i - 1, expiresAt);
    } else {
      assert other[1..] == rows[1..];
    }
  }

  /**
   * A refresh token is single-use: once `t` has been rotated, presenting it again
   * fails, provided no other row verified `t` and the new token collides with no row.
   */
  lemma RefreshSingleUse(st: Store, h: Hasher, t: string, entropy: Bytes64, salt: Salt, now: nat,
                         entropy2: Bytes64, salt2: Salt, now2: nat)
    requires Sound(h)
    requires Valid(st)
    requires AtMostOneMatch(st.tokens, h, t)
    requires Fresh(st.tokens, h, Hex.Encode(entropy))
    requires Refresh(st, h, t, entropy, salt, now).1.Some?
    ensures var st' := Refresh(st, h, t, entropy, salt, now).0;
      Refresh(st', h, t, entropy2, salt2, now2) == (st', None)
  {
    var st' := Refresh(st, h, t, entropy, salt, now).0;
    RefreshRotates(st, h, t, entropy, salt, now);
    var i := FirstLiveIndex(st.tokens, h, t).value;
    assert t != Hex.Encode(entropy) by {
      assert h.verify(st.tokens[i].tokenHash, t);
    }
    forall j | 0 <= j < |st'.tokens| ensures !LiveMatch(st'.tokens[j], h, t) {
      if j < |st.tokens| && j != i {
        assert st'.tokens[j] == st.tokens[j];
      }
    }
    FirstMatchOfLive(st'.tokens, h, t);
  }

  lemma RefreshPreservesUnambiguous(st: Store, h: Hasher, t: string, entropy: Bytes64, salt: Salt, now: nat)
    requires Sound(h)
    requires Valid(st)
    requires Unambiguous(st.tokens, h)
    requires Fresh(st.tokens, h, Hex.Encode(entropy))
    ensures Unambiguous(Refresh(st, h, t, entropy, salt, now).0.tokens, h)
  {
    var (st', r) := Refresh(st, h, t, entropy, salt, now);
    if r.Some? {
      var i := LocateMatch(st.tokens, h, t);
      MarkRevokedOnly(st.tokens, i);
      var user := FindUserById(st.users, st.tokens[i].userId).value;
      var revoked := st.(tokens := MarkRevoked(st.tokens, st.tokens[i].id));
      assert Unambiguous(revoked.tokens, h) by {
        forall j, u, x | 0 <= j < |revoked.tokens| && 0 <= u < |revoked.tokens| && j != u
                         && h.verify(revoked.tokens[j].tokenHash, x)
          ensures !h.verify(revoked.tokens[u].tokenHash, x)
        {
          assert revoked.tokens[j].tokenHash == st.tokens[j].tokenHash;
          assert revoked.tokens[u].tokenHash == st.tokens[u].tokenHash;
        }
      }
      assert Fresh(revoked.tokens, h, Hex.Encode(entropy)) by {
        forall j | 0 <= j < |revoked.tokens|
          ensures !h.verify(revoked.tokens[j].tokenHash, Hex.Encode(entropy))
        {
          assert revoked.tokens[j].tokenHash == st.tokens[j].tokenHash;
        }
      }
      IssuePreservesUnambiguous(revoked, h, user.id, entropy, salt, now);
    }
  }

  // ---------------------------------------------------------------- revoke

  /**
   * Revoke answers true exactly when some live row verifies the token; then it
   * revokes the first such row only, otherwise it changes nothing.
   */
  lemma RevokeFirstOnly(st: Store, h: Hasher, t: string)
    requires Valid(st)
    ensures var (st', found) := Revoke(st, h, t);
      && (found <==> exists i :: 0 <= i < |st.tokens| && LiveMatch(st.tokens[i], h, t))
      && (!found ==> st' == st)
      && (found ==>
            && FirstLiveIndex(st.tokens, h, t).Some?
            && var i := FirstLiveIndex(st.tokens, h, t).value;
            && IsFirstLiveMatch(st.tokens, h, t, i)
            && st' == st.(tokens := st.tokens[i := st.tokens[i].(revoked := true)]))
      && Valid(st')
  {
    FirstMatchOfLive(st.tokens, h, t);
    if Revoke(st, h, t).1 {
      var i := FirstLiveIndex(st.tokens, h, t).value;
      MarkRevokedOnly(st.tokens, i);
    }
  }

  /** Revoking keeps the store well formed. */
  lemma RevokePreservesValid(st: Store, h: Hasher, t: string)
    requires Valid(st)
    ensures Valid(Revoke(st, h, t).0)
  {
    RevokeFirstOnly(st, h, t);
  }

  /** Revoking only sets `revoked`, so no token comes to verify against two rows. */
  lemma RevokePreservesUnambiguous(st: Store, h: Hasher, t: string)
    requires Valid(st)
    requires Unambiguous(st.tokens, h)
    ensures Unambiguous(Revoke(st, h, t).0.tokens, h)
  {
    RevokeFirstOnly(st, h, t);
    var rows := Revoke(st, h, t).0.tokens;
    forall i, j, x | 0 <= i < |rows| && 0 <= j < |rows| && i != j && h.verify(rows[i].tokenHash, x)
      ensures !h.verify(rows[j].tokenHash, x)
    {
      assert rows[i].tokenHash == st.tokens[i].tokenHash && rows[j].tokenHash == st.tokens[j].tokenHash;
    }
  }

  /** Revoking is idempotent: a second revoke of the same token finds nothing and changes nothing. */
  lemma RevokeIdempotent(st: Store, h: Hasher, t: string)
    requires Valid(st)
    requires AtMostOneMatch(st.tokens, h, t)
    ensures var st' := Revoke(st, h, t).0;
      Revoke(st', h, t) == (st', false)
  {
    var st' := Revoke(st, h, t).0;
    RevokeFirstOnly(st, h, t);
    RevokeFirstOnly(st', h, t);
    if Revoke(st, h, t).1 {
      var i := FirstLiveIndex(st.tokens, h, t).value;
      forall j | 0 <= j < |st'.tokens| ensures !LiveMatch(st'.tokens[j], h, t) {
        if j != i {
          assert st'.tokens[j] == st.tokens[j];
        }
      }
    }
  }
}
