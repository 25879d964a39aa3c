/**
 * `AuthService`: signup, login validation and refresh-token rotation over an
 * in-memory user table and refresh-token table. Every state-changing method is
 * proved to leave exactly the store that the matching function of `Sessions`
 * computes from the store before the call, and the lemmas of `Sessions` say
 * what that store is.
 */
module Auth {
  import opened Wrappers
  import Hex
  import opened Crypto
  import opened Sessions

  class AuthService {
    /** Argon2 `hash` and `verify`. */
    const hasher: Hasher

    /** The `user` table. */
    var users: seq<User>
    /** The `refreshToken` table. */
    var tokens: seq<RefreshToken>
    var nextUserId: nat
    var nextTokenId: nat

    /** The store as a value. */
    function State(): Store
      reads this
    {
      Store(users, tokens, nextUserId, nextTokenId)
    }

    ghost predicate Valid()
      reads this
    {
      Sound(hasher) && Sessions.Valid(State())
    }

    /** A service over empty tables. */
    constructor (h: Hasher)
      requires Sound(h)
      ensures Valid() && hasher == h
      ensures State() == Store([], [], 0, 0)
    {
      hasher := h;
      users, tokens := [], [];
      nextUserId, nextTokenId := 0, 0;
    }

    /**
     * `signup`: fails with `EmailInUse` when the email is taken; otherwise stores
     * the user with a hashed password and issues an access and a refresh token.
     */
    method Signup(dto: SignupDto, passwordSalt: Salt, entropy: Bytes64, tokenSalt: Salt, now: nat)
      returns (r: Result<SignupOk, AuthError>)
      requires Valid()
      modifies this
      ensures Valid()
      ensures (State(), r) == Sessions.Signup(old(State()), hasher, dto, passwordSalt, entropy, tokenSalt, now)
    {
      var existing := FindUserByEmail(users, dto.email);
      if existing.Some? {
        return Failure(EmailInUse);
      }
      var passwordHash := hasher.hash(passwordSalt, dto.password);
      var user := User(nextUserId, dto.email, passwordHash, dto.fullName, dto.phone, dto.country,
                       dto.publicKey, dto.encryptedPrivKeyBlob);
      users := users + [user];
      nextUserId := nextUserId + 1;
      var accessToken := GenerateAccessToken(user, now);
      var refreshToken := GenerateAndStoreRefreshToken(user.id, entropy, tokenSalt, now);
      r := Success(SignupOk(user, TokenPair(accessToken, refreshToken)));
    }

    /**
     * `validateUser`: the user with this email when the stored hash verifies the
     * password, and nothing otherwise; an unknown email and a wrong password give
     * the same answer.
     */
    function ValidateUser(email: string, password: string): (r: Option<User>)
      reads this
      requires Sessions.Valid(State())
      ensures r.Some? ==> r.value in users && r.value.email == email
      ensures r.Some? <==>
        exists i :: 0 <= i < |users| && users[i].email == email && hasher.verify(users[i].passwordHash, password)
    {
      match FindUserByEmail(users, email)
      case None => None
      case Some(user) => if hasher.verify(user.passwordHash, password) then Some(user) else None
    }

    /**
     * `generateAndStoreRefreshToken`: draws 64 random bytes, stores a live row with
     * their hash expiring in 30 days, and returns them hex-encoded.
     */
    method GenerateAndStoreRefreshToken(userId: UserId, entropy: Bytes64, salt: Salt, now: nat)
      returns (token: string)
      requires Valid()
      modifies this
      ensures Valid()
      ensures (State(), token) == IssueRefreshToken(old(State()), hasher, userId, entropy, salt, now)
    {
      token := Hex.Encode(entropy);
      var hash := hasher.hash(salt, token);
      tokens := tokens + [RefreshToken(nextTokenId, userId, hash, now + RefreshLifetimeMs, false)];
      nextTokenId := nextTokenId + 1;
    }

    /**
     * The scan both `refreshTokens` and `revokeRefreshToken` run: the first of the
     * live rows whose hash verifies the token.
     */
    method ScanLive(live: seq<RefreshToken>, refreshToken: string) returns (stored: Option<RefreshToken>)
      ensures stored == FirstMatch(live, hasher, refreshToken)
      ensures stored.Some? ==> stored.value in live && hasher.verify(stored.value.tokenHash, refreshToken)
    {
      stored := None;
      var k := 0;
      while k < |live|
        invariant 0 <= k <= |live|
        invariant FirstMatch(live[k..], hasher, refreshToken) == FirstMatch(live, hasher, refreshToken)
      {
        if hasher.verify(live[k].tokenHash, refreshToken) {
          assert live[k..][0] == live[k];
          return Some(live[k]);
        }
        assert live[k..][1..] == live[k + 1..];
        k := k + 1;
      }
    }

    /**
     * `refreshTokens`: finds the first live row that verifies the token, checks
     * its user exists, revokes that row and issues a new pair. `expiresAt` is not read.
     */
    method RefreshTokens(refreshToken: string, entropy: Bytes64, salt: Salt, now: nat)
      returns (r: Option<TokenPair>)
      requires Valid()
      modifies this
      ensures Valid()
      ensures (State(), r) == Refresh(old(State()), hasher, refreshToken, entropy, salt, now)
    {
      RefreshPreservesValid(State(), hasher, refreshToken, entropy, salt, now);
      ghost var before := State();
      var stored := ScanLive(LiveRows(tokens), refreshToken);
      if stored.None? {
        return None;
      }
      var user := FindUserById(users, stored.value.userId);
      if user.None? {
        return None;
      }
      ghost var revoked := State().(tokens := MarkRevoked(tokens, stored.value.id));
      RefreshSucceeds(before, hasher, refreshToken, entropy, salt, now, stored.value, user.value);
      tokens := MarkRevoked(tokens, stored.value.id);
      var newRefreshToken := Hex.Encode(entropy);
      var refreshHash := hasher.hash(salt, newRefreshToken);
      tokens := tokens + [RefreshToken(nextTokenId, user.value.id, refreshHash, now + RefreshLifetimeMs, false)];
      nextTokenId := nextTokenId + 1;
      var newAccessToken := GenerateAccessToken(user.value, now);
      r := Some(TokenPair(newAccessToken, newRefreshToken));
      assert State() == IssueRefreshToken(revoked, hasher, user.value.id, entropy, salt, now).0;
    }

    /** `revokeRefreshToken`: revokes the first live row that verifies the token. */
    method RevokeRefreshToken(refreshToken: string) returns (found: bool)
      requires Valid()
      modifies this
      ensures Valid()
      ensures (State(), found) == Revoke(old(State()), hasher, refreshToken)
    {
      RevokePreservesValid(State(), hasher, refreshToken);
      var stored := ScanLive(LiveRows(tokens), refreshToken);
      if stored.None? {
        return false;
      }
      tokens := MarkRevoked(tokens, stored.value.id);
      return true;
    }
  }
}
