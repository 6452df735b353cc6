/** One-time tokens in Redis: a token entry per token, and per account and type an entry naming
    the token generated last. */
module TokenManager {
  import opened Wrappers

  datatype Key = TokenKey(tokenType: string, token: string) | AccountKey(tokenType: string, accountId: string)

  /** The Redis key of an entry. */
  function KeyString(k: Key): string {
    match k
    case TokenKey(t, token) => t + ":token:" + token
    case AccountKey(t, id) => t + ":account:" + id
  }

  /** The first colon is where it was put. */
  lemma PrefixBeforeColon(t: string, u: string, x: string, y: string)
    requires ':' !in t && ':' !in u && t + ":" + x == u + ":" + y
    ensures t == u && x == y
  {
    var s := t + ":" + x;
    assert forall i :: 0 <= i < |t| ==> s[i] == t[i] && t[i] in t;
    assert forall i :: 0 <= i < |u| ==> s[i] == u[i] && u[i] in u;
    assert s[|t|] == ':' && s[|u|] == ':';
    assert t == s[..|t|] && u == s[..|u|];
    assert x == s[|t| + 1..] && y == s[|u| + 1..];
  }

  /** Entries never share a Redis key, whatever tokens and account ids contain. */
  lemma KeyStringInjective(j: Key, k: Key)
    requires ':' !in j.tokenType && ':' !in k.tokenType && KeyString(j) == KeyString(k)
    ensures j == k
  {
    var restJ := if j.TokenKey? then "token:" + j.token else "account:" + j.accountId;
    var restK := if k.TokenKey? then "token:" + k.token else "account:" + k.accountId;
    assert KeyString(j) == j.tokenType + ":" + restJ;
    assert KeyString(k) == k.tokenType + ":" + restK;
    PrefixBeforeColon(j.tokenType, k.tokenType, restJ, restK);
    assert restJ[0] == restK[0];
    if j.TokenKey? {
      assert j.token == restJ[6..] && k.token == restK[6..];
    } else {
      assert j.accountId == restJ[8..] && k.accountId == restK[8..];
    }
  }

  type Data = map<string, Option<string>>

  datatype Value = TokenData(data: Data) | Pointer(token: string)

  datatype Entry = Entry(value: Value, expiry: real)

  type Store = map<Key, Entry>

  predicate Live(store: Store, k: Key, now: real) {
    k in store && now < store[k].expiry
  }

  datatype Account = Account(id: string, email: string)

  datatype Error = NoSubject | ExpiryNotConfigured | InvalidExpiry

  /** int() cuts towards zero. */
  function Seconds(minutes: real): int {
    if minutes >= 0.0 then (minutes * 60.0).Floor else -(-minutes * 60.0).Floor
  }

  /** A lifetime is sixty seconds a minute, in whole seconds; none is left of less than a second. */
  lemma SecondsAreMinutes(minutes: real)
    ensures minutes >= 0.0 ==> Seconds(minutes) as real <= 60.0 * minutes < Seconds(minutes) as real + 1.0
    ensures Seconds(minutes) <= 0 <==> 60.0 * minutes < 1.0
  {
  }

  /** The account whose entry names the token: an account with an empty id has none. */
  function PointerOwner(account: Option<Account>): Option<string> {
    if account.Some? && account.value.id != "" then Some(account.value.id) else None
  }

  function CurrentToken(store: Store, tokenType: string, accountId: string, now: real): Option<string> {
    var k := AccountKey(tokenType, accountId);
    if Live(store, k, now) && store[k].value.Pointer? && store[k].value.token != ""
    then Some(store[k].value.token) else None
  }

  predicate PointsTo(store: Store, k: Key, token: string, expiry: real) {
    k in store && store[k].value == Pointer(token) && store[k].expiry >= expiry
  }

  /** owner gives, for every token entry of an account, that account. A live token of an
      account is the one its account entry names, and that entry outlives it. */
  ghost predicate Consistent(store: Store, owner: map<Key, string>, clock: real) {
    && (forall k :: k in owner ==> k.TokenKey? && k.token != "")
    && (forall k :: k in owner && Live(store, k, clock) ==>
          PointsTo(store, AccountKey(k.tokenType, owner[k]), k.token, store[k].expiry))
  }

  /** The store after the current token of an account is revoked. */
  function Revoked(store: Store, tokenType: string, id: Option<string>, now: real): Store {
    if id == None then store
    else match CurrentToken(store, tokenType, id.value, now)
      case None => store
      case Some(current) => store - {TokenKey(tokenType, current)}
  }

  function Written(store: Store, tokenType: string, id: Option<string>, token: string, data: Data,
                   expiry: real, pointerExpiry: real): Store
  {
    var withToken := store[TokenKey(tokenType, token) := Entry(TokenData(data), expiry)];
    if id == None then withToken
    else withToken[AccountKey(tokenType, id.value) := Entry(Pointer(token), pointerExpiry)]
  }

  function Owning(owner: map<Key, string>, tokenType: string, id: Option<string>, token: string): map<Key, string> {
    if id == None then owner - {TokenKey(tokenType, token)} else owner[TokenKey(tokenType, token) := id.value]
  }

  /** Revoking leaves the account without a live token of that type. */
  lemma RevokingClears(store: Store, owner: map<Key, string>, clock: real, tokenType: string, id: Option<string>,
                       now: real)
    requires Consistent(store, owner, clock) && clock <= now
    ensures var revoked := Revoked(store, tokenType, id, now);
            && Consistent(revoked, owner, now)
            && (id.Some? ==> forall k :: k in owner && k.tokenType == tokenType && owner[k] == id.value ==>
                !Live(revoked, k, now))
  {
    forall k | k in owner && Live(store, k, now)
      ensures PointsTo(store, AccountKey(k.tokenType, owner[k]), k.token, store[k].expiry)
    {
      assert Live(store, k, clock);
    }
  }

  lemma WritingKeeps(store: Store, owner: map<Key, string>, clock: real, tokenType: string, id: Option<string>,
                     token: string, data: Data, expiry: real, pointerExpiry: real, later: real)
    requires Consistent(store, owner, clock) && clock <= later && expiry <= pointerExpiry && token != ""
    requires id.Some? ==> forall k :: k in owner && k.tokenType == tokenType && owner[k] == id.value ==>
        !Live(store, k, clock)
    ensures Consistent(Written(store, tokenType, id, token, data, expiry, pointerExpiry),
                       Owning(owner, tokenType, id, token), later)
  {
    var store' := Written(store, tokenType, id, token, data, expiry, pointerExpiry);
    var owner' := Owning(owner, tokenType, id, token);
    forall k | k in owner' && Live(store', k, later)
      ensures PointsTo(store', AccountKey(k.tokenType, owner'[k]), k.token, store'[k].expiry)
    {
      if k != TokenKey(tokenType, token) {
        assert Live(store, k, clock);
      }
    }
  }

  function DataFor(tokenType: string, account: Option<Account>, email: Option<string>, extra: Data): Data {
    map["account_id" := if account.Some? then Some(account.value.id) else None,
        "email" := if account.Some? then Some(account.value.email) else email,
        "token_type" := Some(tokenType)] + extra
  }

  /** What a token carries: the account's own id and email where there is an account, else the given
      email, and the type; additional data on top, and nothing else. */
  lemma DataMeans(tokenType: string, account: Option<Account>, email: Option<string>, extra: Data, field: string)
    ensures var data := DataFor(tokenType, account, email, extra);
            && (field in data <==> field in extra || field in {"account_id", "email", "token_type"})
            && (field in extra ==> data[field] == extra[field])
            && (field !in extra && field == "token_type" ==> data[field] == Some(tokenType))
            && (field !in extra && field == "account_id" ==>
                  data[field] == match account case Some(a) => Some(a.id) case None => None)
            && (field !in extra && field == "email" ==>
                  data[field] == match account case Some(a) => Some(a.email) case None => email)
  {
  }

  /** Of the account entries a generation changes one at most: that of its account, if that has an
      id that is not empty. */
  lemma AccountEntries(store: Store, tokenType: string, account: Option<Account>, token: string, data: Data,
                       now: real, expiry: real, pointerExpiry: real, k: Key)
    requires k.AccountKey?
    ensures
      var id := PointerOwner(account);
      var after := Written(Revoked(store, tokenType, id, now), tokenType, id, token, data, expiry, pointerExpiry);
      if account.Some? && account.value.id != "" && k == AccountKey(tokenType, account.value.id)
      then k in after && after[k] == Entry(Pointer(token), pointerExpiry)
      else (k in after <==> k in store) && (k in after ==> after[k] == store[k])
  {
  }

  // --- What a token is good for ---------------------------------------------

  /** What callers did, one event per call. A generation that fails after the old token is gone
      has cleared the account. */
  datatype Event =
    | Generated(tokenType: string, token: string, id: Option<string>, data: Data, expiry: real)
    | Revoking(tokenType: string, token: string)
    | Cleared(tokenType: string, id: Option<string>)

  /** The account of every token generated so far for one. */
  function Owners(log: seq<Event>): map<Key, string> {
    if log == [] then map[]
    else
      var before, last := Owners(log[..|log| - 1]), log[|log| - 1];
      if last.Generated? then Owning(before, last.tokenType, last.id, last.token) else before
  }

  function OwnerOf(log: seq<Event>, tokenType: string, token: string): Option<string> {
    var k := TokenKey(tokenType, token);
    if k in Owners(log) then Some(Owners(log)[k]) else None
  }

  /** Whether an event takes the token of that owner out of use. */
  predicate Ends(e: Event, tokenType: string, token: string, owner: Option<string>) {
    match e
    case Generated(t, other, id, _, _) => t == tokenType && (other == token || (id.Some? && id == owner))
    case Revoking(t, other) => t == tokenType && other == token
    case Cleared(t, id) => t == tokenType && id.Some? && id == owner
  }

  /** What the history alone says that a token is good for. */
  function Granted(log: seq<Event>, tokenType: string, token: string, now: real): Option<Data> {
    if log == [] then None
    else
      var init, last := log[..|log| - 1], log[|log| - 1];
      if last.Generated? && last.tokenType == tokenType && last.token == token then
        if now < last.expiry then Some(last.data) else None
      else if Ends(last, tokenType, token, OwnerOf(init, tokenType, token)) then None
      else Granted(init, tokenType, token, now)
  }

  /** The i-th event made the token, it has not expired, and nothing since has ended it. */
  ghost predicate MadeBy(log: seq<Event>, i: nat, tokenType: string, token: string, data: Data, now: real)
    requires i < |log|
  {
    && log[i].Generated? && log[i].tokenType == tokenType && log[i].token == token && log[i].data == data
    && now < log[i].expiry
    && forall j :: i < j < |log| ==> !Ends(log[j], tokenType, token, log[i].id)
  }

  lemma {:induction false} OwnerIsLatest(log: seq<Event>, i: nat, tokenType: string, token: string)
    requires i < |log| && log[i].Generated? && log[i].tokenType == tokenType && log[i].token == token
    requires forall j :: i < j < |log| ==> !Ends(log[j], tokenType, token, log[i].id)
    ensures OwnerOf(log, tokenType, token) == log[i].id
  {
    var n := |log| - 1;
    if i == n {
    } else {
      OwnerIsLatest(log[..n], i, tokenType, token);
      assert !Ends(log[n], tokenType, token, log[i].id);
    }
  }

  lemma MadeByInit(log: seq<Event>, i: nat, tokenType: string, token: string, data: Data, now: real)
    requires i < |log| - 1
    ensures var init, last := log[..|log| - 1], log[|log| - 1];
            MadeBy(log, i, tokenType, token, data, now) <==>
            MadeBy(init, i, tokenType, token, data, now) &&
            !Ends(last, tokenType, token, OwnerOf(init, tokenType, token))
  {
    var n := |log| - 1;
    var init := log[..n];
    if MadeBy(init, i, tokenType, token, data, now) {
      OwnerIsLatest(init, i, tokenType, token);
      forall j | i < j < |log| && j < n ensures !Ends(log[j], tokenType, token, log[i].id) {
        assert init[j] == log[j];
      }
    }
    if MadeBy(log, i, tokenType, token, data, now) {
      forall j | i < j < n ensures !Ends(init[j], tokenType, token, init[i].id) {
        assert init[j] == log[j];
      }
      OwnerIsLatest(init, i, tokenType, token);
    }
  }

  /** A token is good for the data of the generation that made it, until that expires, is revoked,
      or the account gets another token of the type, and for nothing else. */
  lemma {:induction false} GrantedMeans(log: seq<Event>, tokenType: string, token: string, data: Data, now: real)
    ensures Granted(log, tokenType, token, now) == Some(data) <==>
            exists i: nat :: i < |log| && MadeBy(log, i, tokenType, token, data, now)
  {
    if log == [] {
    } else {
      var n := |log| - 1;
      var init, last := log[..n], log[n];
      GrantedMeans(init, tokenType, token, data, now);
      if last.Generated? && last.tokenType == tokenType && last.token == token {
        assert Ends(last, tokenType, token, None);
        assert now < last.expiry && last.data == data ==> MadeBy(log, n, tokenType, token, data, now);
        forall i: nat | i < n ensures !MadeBy(log, i, tokenType, token, data, now) {
          assert log[i].Generated? ==> Ends(log[n], tokenType, token, log[i].id);
        }
      } else {
        forall i: nat | i < n
          ensures MadeBy(log, i, tokenType, token, data, now) <==>
                  MadeBy(init, i, tokenType, token, data, now) &&
                      !Ends(last, tokenType, token, OwnerOf(init, tokenType, token))
        {
          MadeByInit(log, i, tokenType, token, data, now);
        }
        if exists i: nat :: i < |init| && MadeBy(init, i, tokenType, token, data, now) {
          var i: nat :| i < |init| && MadeBy(init, i, tokenType, token, data, now);
          assert MadeBy(log, i, tokenType, token, data, now) <==>
                 !Ends(last, tokenType, token, OwnerOf(init, tokenType, token));
        }
        if exists i: nat :: i < |log| && MadeBy(log, i, tokenType, token, data, now) {
          var i: nat :| i < |log| && MadeBy(log, i, tokenType, token, data, now);
          assert i < n;
          assert MadeBy(init, i, tokenType, token, data, now);
        }
      }
    }
  }

  // --- The store remembers the history --------------------------------------

  /** Token ids are drawn at random and do not repeat. */
  ghost predicate Fresh(log: seq<Event>) {
    forall i, j :: 0 <= i < j < |log| && log[i].Generated? && log[j].Generated? ==>
      log[i].tokenType != log[j].tokenType || log[i].token != log[j].token
  }

  function Stored(store: Store, tokenType: string, token: string, now: real): Option<Data> {
    var k := TokenKey(tokenType, token);
    if Live(store, k, now) && store[k].value.TokenData? then Some(store[k].value.data) else None
  }

  ghost predicate Remembers(store: Store, log: seq<Event>, clock: real) {
    && (forall tokenType, token, now: real :: now >= clock ==>
          Stored(store, tokenType, token, now) == Granted(log, tokenType, token, now))
    && (forall tokenType, token :: TokenKey(tokenType, token) in store ==>
          store[TokenKey(tokenType, token)].value.TokenData?)
    && (forall tokenType, id :: AccountKey(tokenType, id) in store ==>
          var v := store[AccountKey(tokenType, id)].value;
          v.Pointer? && OwnerOf(log, tokenType, v.token) == Some(id))
  }

  lemma OwnersAppend(log: seq<Event>, e: Event)
    ensures Owners(log + [e]) == if e.Generated? then Owning(Owners(log), e.tokenType, e.id, e.token) else Owners(log)
    ensures forall tokenType, token, now: real :: Granted(log + [e], tokenType, token, now) ==
              if e.Generated? && e.tokenType == tokenType && e.token == token then
                if now < e.expiry then Some(e.data) else None
              else if Ends(e, tokenType, token, OwnerOf(log, tokenType, token)) then None
              else Granted(log, tokenType, token, now)
  {
    assert (log + [e])[..|log|] == log;
  }

  lemma RevokeRemembers(store: Store, log: seq<Event>, clock: real, tokenType: string, token: string, now: real)
    requires Remembers(store, log, clock) && now >= clock
    ensures Remembers(store - {TokenKey(tokenType, token)}, log + [Revoking(tokenType, token)], now)
  {
    OwnersAppend(log, Revoking(tokenType, token));
  }

  lemma ClearRemembers(store: Store, log: seq<Event>, clock: real, tokenType: string, id: Option<string>, now: real)
    requires Remembers(store, log, clock) && Consistent(store, Owners(log), clock) && clock <= now
    ensures Remembers(Revoked(store, tokenType, id, now), log + [Cleared(tokenType, id)], now)
  {
    OwnersAppend(log, Cleared(tokenType, id));
    RevokingClears(store, Owners(log), clock, tokenType, id, now);
    var cleared := Revoked(store, tokenType, id, now);
    forall t, tok, later: real | later >= now
      ensures Stored(cleared, t, tok, later) == Granted(log + [Cleared(tokenType, id)], t, tok, later)
    {
      assert Stored(store, t, tok, later) == Granted(log, t, tok, later);
      if t == tokenType && id.Some? && OwnerOf(log, t, tok) == id {
        assert !Live(cleared, TokenKey(t, tok), now);
      } else {
        assert TokenKey(t, tok) in store <==> TokenKey(t, tok) in cleared;
      }
    }
  }

  lemma WriteStores(store: Store, tokenType: string, id: Option<string>, token: string, data: Data, expiry: real,
                    pointerExpiry: real, t: string, tok: string, now: real)
    ensures Stored(Written(store, tokenType, id, token, data, expiry, pointerExpiry), t, tok, now) ==
            if t == tokenType && tok == token then (if now < expiry then Some(data) else None)
            else Stored(store, t, tok, now)
  {
  }

  lemma WriteRemembers(store: Store, log: seq<Event>, clock: real, tokenType: string, id: Option<string>, token: string,
                       data: Data, expiry: real, pointerExpiry: real, later: real)
    requires Remembers(store, log + [Cleared(tokenType, id)], clock) && clock <= later
    requires TokenKey(tokenType, token) !in Owners(log)
    ensures Remembers(Written(store, tokenType, id, token, data, expiry, pointerExpiry),
                      log + [Generated(tokenType, token, id, data, expiry)], later)
  {
    OwnersAppend(log, Cleared(tokenType, id));
    OwnersAppend(log, Generated(tokenType, token, id, data, expiry));
    var cleared, made := log + [Cleared(tokenType, id)], log + [Generated(tokenType, token, id, data, expiry)];
    var written := Written(store, tokenType, id, token, data, expiry, pointerExpiry);
    forall t, tok, now: real | now >= later ensures Stored(written, t, tok, now) == Granted(made, t, tok, now) {
      assert Stored(store, t, tok, now) == Granted(cleared, t, tok, now);
      WriteStores(store, tokenType, id, token, data, expiry, pointerExpiry, t, tok, now);
    }
    forall t, other | AccountKey(t, other) in written
      ensures written[AccountKey(t, other)].value.Pointer?
      ensures OwnerOf(made, t, written[AccountKey(t, other)].value.token) == Some(other)
    {
      if Some(other) == id && t == tokenType {
        assert written[AccountKey(t, other)].value == Pointer(token);
      } else {
        assert AccountKey(t, other) in store && written[AccountKey(t, other)] == store[AccountKey(t, other)];
        assert OwnerOf(cleared, t, store[AccountKey(t, other)].value.token) == Some(other);
      }
    }
  }

  lemma {:induction false} FreshIsUnowned(log: seq<Event>, tokenType: string, token: string)
    requires forall i :: 0 <= i < |log| && log[i].Generated? ==> log[i].tokenType != tokenType || log[i].token != token
    ensures TokenKey(tokenType, token) !in Owners(log)
  {
    if log == [] {
    } else {
      FreshIsUnowned(log[..|log| - 1], tokenType, token);
    }
  }

  lemma FreshPrefix(log: seq<Event>, e: Event)
    requires Fresh(log + [e])
    ensures Fresh(log)
    ensures e.Generated? ==> TokenKey(e.tokenType, e.token) !in Owners(log)
  {
    var more := log + [e];
    assert forall i :: 0 <= i < |log| ==> more[i] == log[i];
    assert more[|log|] == e;
    if e.Generated? {
      FreshIsUnowned(log, e.tokenType, e.token);
    }
  }

  /** What Valid says of a manager's fields. */
  ghost predicate Sound(store: Store, log: seq<Event>, clock: real) {
    Consistent(store, Owners(log), clock) && (Fresh(log) ==> Remembers(store, log, clock))
  }

  lemma StaysConsistent(store: Store, owner: map<Key, string>, clock: real, later: real)
    requires Consistent(store, owner, clock) && clock <= later
    ensures Consistent(store, owner, later)
  {
    forall k | k in owner && Live(store, k, later)
      ensures PointsTo(store, AccountKey(k.tokenType, owner[k]), k.token, store[k].expiry)
    {
      assert Live(store, k, clock);
    }
  }

  lemma ClearedIsValid(store: Store, log: seq<Event>, clock: real, tokenType: string, id: Option<string>,
                       now: real, later: real)
    requires Sound(store, log, clock) && clock <= now <= later
    ensures Sound(Revoked(store, tokenType, id, now), log + [Cleared(tokenType, id)], later)
  {
    var e := Cleared(tokenType, id);
    OwnersAppend(log, e);
    RevokingClears(store, Owners(log), clock, tokenType, id, now);
    StaysConsistent(Revoked(store, tokenType, id, now), Owners(log), now, later);
    if Fresh(log + [e]) {
      FreshPrefix(log, e);
      ClearRemembers(store, log, clock, tokenType, id, now);
    }
  }

  lemma GeneratedIsValid(store: Store, log: seq<Event>, clock: real, tokenType: string, id: Option<string>,
                         token: string, data: Data, now: real, expiry: real, pointerExpiry: real, later: real)
    requires Sound(store, log, clock) && clock <= now <= later && expiry <= pointerExpiry && token != ""
    ensures Sound(Written(Revoked(store, tokenType, id, now), tokenType, id, token, data, expiry, pointerExpiry),
                  log + [Generated(tokenType, token, id, data, expiry)], later)
  {
    var e, revoked := Generated(tokenType, token, id, data, expiry), Revoked(store, tokenType, id, now);
    OwnersAppend(log, e);
    RevokingClears(store, Owners(log), clock, tokenType, id, now);
    WritingKeeps(revoked, Owners(log), now, tokenType, id, token, data, expiry, pointerExpiry, later);
    if Fresh(log + [e]) {
      FreshPrefix(log, e);
      ClearRemembers(store, log, clock, tokenType, id, now);
      WriteRemembers(revoked, log, now, tokenType, id, token, data, expiry, pointerExpiry, later);
    }
  }

  ghost predicate LiveTokenOf(store: Store, owner: map<Key, string>, clock: real,
                              tokenType: string, accountId: string, token: string)
  {
    var k := TokenKey(tokenType, token);
    k in owner && owner[k] == accountId && Live(store, k, clock)
  }

  /** At most one live token per account and type: the one its account entry names. */
  lemma AtMostOneLive(store: Store, owner: map<Key, string>, clock: real,
                      tokenType: string, accountId: string, token: string)
    requires Consistent(store, owner, clock) && LiveTokenOf(store, owner, clock, tokenType, accountId, token)
    ensures CurrentToken(store, tokenType, accountId, clock) == Some(token)
    ensures forall other :: LiveTokenOf(store, owner, clock, tokenType, accountId, other) ==> other == token
  {
    assert PointsTo(store, AccountKey(tokenType, accountId), token, store[TokenKey(tokenType, token)].expiry);
    forall other | LiveTokenOf(store, owner, clock, tokenType, accountId, other) ensures other == token {
      assert PointsTo(store, AccountKey(tokenType, accountId), other, store[TokenKey(tokenType, other)].expiry);
    }
  }

  // --- The manager ----------------------------------------------------------

  class TokenManager {
    /** Minutes to live by token type. */
    const expiryMinutes: map<string, real>
    var store: Store

    /** What callers did so far, and the last time seen; calls come in time order. */
    ghost var log: seq<Event>
    ghost var clock: real

    ghost predicate Valid()
      reads this
    {
      Sound(store, log, clock)
    }

    constructor (expiryMinutes: map<string, real>, now: real)
      ensures Valid() && store == map[] && log == [] && clock == now && this.expiryMinutes == expiryMinutes
    {
      this.expiryMinutes := expiryMinutes;
      store, log, clock := map[], [], now;
    }

    method RevokeToken(token: string, tokenType: string, now: real)
      requires Valid() && now >= clock
      modifies this
      ensures Valid() && clock == now && log == old(log) + [Revoking(tokenType, token)]
      ensures store == old(store) - {TokenKey(tokenType, token)}
    {
      ghost var e := Revoking(tokenType, token);
      OwnersAppend(log, e);
      if Fresh(log + [e]) {
        FreshPrefix(log, e);
        RevokeRemembers(store, log, clock, tokenType, token, now);
      }
      store := store - {TokenKey(tokenType, token)};
      log, clock := log + [e], now;
    }

    /** What the token is good for: while ids do not repeat, exactly what the history says. */
    method GetTokenData(token: string, tokenType: string, now: real) returns (data: Option<Data>)
      ensures Valid() && now >= clock && Fresh(log) ==> data == Granted(log, tokenType, token, now)
      ensures data == Stored(store, tokenType, token, now)
    {
      var k := TokenKey(tokenType, token);
      if Live(store, k, now) && store[k].value.TokenData? {
        return Some(store[k].value.data);
      }
      return None;
    }

    /** The first part of a generation: the account's current token goes. */
    method RevokeCurrent(tokenType: string, id: Option<string>, now: real, later: real)
      requires Valid() && clock <= now <= later
      modifies this
      ensures Valid() && clock == later && log == old(log) + [Cleared(tokenType, id)]
      ensures store == Revoked(old(store), tokenType, id, now)
    {
      ghost var store0, log0, clock0 := store, log, clock;
      if id.Some? {
        var oldToken := CurrentToken(store, tokenType, id.value, now);
        if oldToken.Some? {
          RevokeToken(oldToken.value, tokenType, now);
        }
      }
      ClearedIsValid(store0, log0, clock0, tokenType, id, now, later);
      log, clock := log0 + [Cleared(tokenType, id)], later;
    }

    /** The last part: the token's entry, and the account's. */
    method StoreToken(tokenType: string, id: Option<string>, token: string, data: Data,
                      expiry: real, pointerExpiry: real)
      modifies this`store
      ensures store == Written(old(store), tokenType, id, token, data, expiry, pointerExpiry)
    {
      store := store[TokenKey(tokenType, token) := Entry(TokenData(data), expiry)];
      if id.Some? {
        store := store[AccountKey(tokenType, id.value) := Entry(Pointer(token), pointerExpiry)];
      }
    }

    /** now is the time of the token's write, later the time of the account entry's. */
    method GenerateToken(tokenType: string, account: Option<Account>, email: Option<string>, extra: Data,
                         token: string, now: real, later: real) returns (r: Result<string, Error>)
      requires Valid() && clock <= now <= later && token != ""
      modifies this
      ensures Valid() && clock == later
      ensures r == if account == None && email == None then Err(NoSubject)
        else if tokenType !in expiryMinutes then Err(ExpiryNotConfigured)
        else if Seconds(expiryMinutes[tokenType]) <= 0 then Err(InvalidExpiry)
        else Ok(token)
      ensures r == Err(NoSubject) ==> store == old(store) && log == old(log)
      // any other failure comes after the old token is gone
      ensures r.Err? && r.error != NoSubject ==>
        && store == Revoked(old(store), tokenType, PointerOwner(account), now)
        && log == old(log) + [Cleared(tokenType, PointerOwner(account))]
      ensures r.Ok? ==>
        var seconds, id := Seconds(expiryMinutes[tokenType]) as real, PointerOwner(account);
        var data := DataFor(tokenType, account, email, extra);
        && store == Written(Revoked(old(store), tokenType, id, now), tokenType, id, token, data,
                            now + seconds, later + seconds)
        && log == old(log) + [Generated(tokenType, token, id, data, now + seconds)]
    {
      if account == None && email == None {
        clock := later;
        return Err(NoSubject);
      }
      var id := PointerOwner(account);
      ghost var store0, log0, clock0 := store, log, clock;
      RevokeCurrent(tokenType, id, now, later);
      if tokenType !in expiryMinutes {
        return Err(ExpiryNotConfigured);
      }
      var seconds := Seconds(expiryMinutes[tokenType]);
      if seconds <= 0 {
        return Err(InvalidExpiry);
      }
      var data := DataFor(tokenType, account, email, extra);
      var expiry, pointerExpiry := now + seconds as real, later + seconds as real;
      StoreToken(tokenType, id, token, data, expiry, pointerExpiry);
      GeneratedIsValid(store0, log0, clock0, tokenType, id, token, data, now, expiry, pointerExpiry, later);
      log := log0 + [Generated(tokenType, token, id, data, expiry)];
      return Ok(token);
    }
  }

  // --- Generations at the same time --------------------------------------------

  /** One generation for an account, as the four Redis commands it is made of; done counts those
      already run, seen is the token its read of the account entry returned (empty if none), and
      expiry is that of the token it wrote. */
  datatype Generation = Generation(token: string, done: nat, seen: string, expiry: real)

  /** Any number of calls, the token entries by their expiry, and the account entry. */
  datatype Race = Race(calls: seq<Generation>, stored: map<string, real>, named: string, namedUntil: real)

  /** Whose command runs, and when. */
  datatype Turn = Turn(who: nat, at: real)

  /** Read the account entry; delete what it named; write the token; write the account entry. A turn
      of a call that has finished changes nothing. */
  function RunTurn(r: Race, turn: Turn, ttl: real): (r': Race)
    requires turn.who < |r.calls|
    ensures |r'.calls| == |r.calls|
  {
    var g, at := r.calls[turn.who], turn.at;
    var next := g.(done := g.done + 1);
    if g.done == 0 then
      r.(calls := r.calls[turn.who := next.(seen := if at < r.namedUntil then r.named else "")])
    else if g.done == 1 then r.(calls := r.calls[turn.who := next], stored := r.stored - {g.seen})
    else if g.done == 2 then
      r.(calls := r.calls[turn.who := next.(expiry := at + ttl)], stored := r.stored[g.token := at + ttl])
    else if g.done == 3 then
      r.(calls := r.calls[turn.who := next], named := g.token, namedUntil := at + ttl)
    else r
  }

  ghost predicate Scheduled(schedule: seq<Turn>, n: nat) {
    && (forall i :: 0 <= i < |schedule| ==> schedule[i].who < n)
    && (forall i, j :: 0 <= i < j < |schedule| ==> schedule[i].at <= schedule[j].at)
  }

  function RaceAfter(start: Race, schedule: seq<Turn>, ttl: real): (r: Race)
    requires forall i :: 0 <= i < |schedule| ==> schedule[i].who < |start.calls|
    ensures |r.calls| == |start.calls|
  {
    if schedule == [] then start
    else RunTurn(RaceAfter(start, schedule[..|schedule| - 1], ttl), schedule[|schedule| - 1], ttl)
  }

  /** current is the account's token when they begin, if it is on record. */
  function RaceStart(tokens: seq<string>, current: string, expiry: real, namedUntil: real): (r: Race)
    ensures |r.calls| == |tokens|
  {
    Race(seq(|tokens|, i requires 0 <= i < |tokens| => Generation(tokens[i], 0, "", 0.0)),
         map[current := expiry], current, namedUntil)
  }

  ghost predicate Proper(tokens: seq<string>, current: string, expiry: real, namedUntil: real, ttl: real) {
    && (forall i, j :: 0 <= i < j < |tokens| ==> tokens[i] != tokens[j])
    && current !in tokens && "" !in tokens && expiry <= namedUntil && ttl >= 0.0
  }

  function Turns(schedule: seq<Turn>, who: nat): nat {
    if schedule == [] then 0
    else
      var n := Turns(schedule[..|schedule| - 1], who);
      if schedule[|schedule| - 1].who == who then n + 1 else n
  }

  /** The call that ran its fourth command last. */
  function LastFinished(schedule: seq<Turn>): Option<nat> {
    if schedule == [] then None
    else
      var who := schedule[|schedule| - 1].who;
      if Turns(schedule, who) == 4 then Some(who) else LastFinished(schedule[..|schedule| - 1])
  }

  /** The n-th turn is the first one of its call, and who is the last one to have finished. */
  predicate BeginsAfter(schedule: seq<Turn>, n: nat, who: nat)
    requires n < |schedule|
  {
    Turns(schedule[..n], schedule[n].who) == 0 && LastFinished(schedule[..n]) == Some(who)
  }

  /** A call begins while who is the last one to have finished. */
  ghost predicate Succeeded(schedule: seq<Turn>, who: nat) {
    exists n :: 0 <= n < |schedule| && BeginsAfter(schedule, n, who)
  }

  lemma SucceededAppend(schedule: seq<Turn>, turn: Turn, who: nat)
    ensures Succeeded(schedule + [turn], who) <==>
            Succeeded(schedule, who) || (Turns(schedule, turn.who) == 0 && LastFinished(schedule) == Some(who))
  {
    var more := schedule + [turn];
    assert more[..|schedule|] == schedule;
    forall n | 0 <= n < |schedule| ensures BeginsAfter(more, n, who) <==> BeginsAfter(schedule, n, who) {
      assert more[..n] == schedule[..n];
    }
    assert BeginsAfter(more, |schedule|, who) <==>
           Turns(schedule, turn.who) == 0 && LastFinished(schedule) == Some(who);
    if Succeeded(schedule, who) {
      var n :| 0 <= n < |schedule| && BeginsAfter(schedule, n, who);
      assert BeginsAfter(more, n, who);
    }
  }

  function AtMostFour(n: nat): nat {
    if n < 4 then n else 4
  }

  predicate Saw(r: Race, o: nat, token: string) {
    o < |r.calls| && r.calls[o].done >= 1 && r.calls[o].seen == token
  }

  /** How far a call is, and where its own token is: gone only if another call has seen it. */
  ghost predicate TokenInv(r: Race, now: real, schedule: seq<Turn>, ttl: real, i: nat)
    requires i < |r.calls|
  {
    var g := r.calls[i];
    && g.done == AtMostFour(Turns(schedule, i))
    && (g.done >= 3 ==> g.expiry <= now + ttl)
    && (g.token in r.stored ==> g.done >= 3 && r.stored[g.token] == g.expiry)
    && (g.done >= 3 && g.token !in r.stored ==> exists o: nat :: Saw(r, o, g.token))
  }

  /** A call sees it exactly if it begins while this one is the last to have finished, unless it has
      expired by then, and deletes it for good. */
  ghost predicate SeenInv(r: Race, now: real, schedule: seq<Turn>, i: nat)
    requires i < |r.calls|
  {
    var g := r.calls[i];
    && (Succeeded(schedule, i) ==> g.done == 4 && (g.expiry <= now || exists o: nat :: Saw(r, o, g.token)))
    && (forall o: nat :: Saw(r, o, g.token) ==>
          Succeeded(schedule, i) && (r.calls[o].done >= 2 ==> g.token !in r.stored))
  }

  ghost predicate CallInv(r: Race, now: real, schedule: seq<Turn>, ttl: real, i: nat)
    requires i < |r.calls|
  {
    TokenInv(r, now, schedule, ttl, i) && SeenInv(r, now, schedule, i)
  }

  /** The account entry names the last call that finished. */
  ghost predicate NameInv(r: Race, schedule: seq<Turn>, current: string, expiry: real) {
    match LastFinished(schedule)
    case None => r.named == current && expiry <= r.namedUntil
    case Some(i) =>
      i < |r.calls| && r.calls[i].done == 4 && r.named == r.calls[i].token && r.calls[i].expiry <= r.namedUntil
  }

  /** The token from before. */
  ghost predicate CurrentInv(r: Race, now: real, schedule: seq<Turn>, current: string, expiry: real) {
    && (current in r.stored ==> r.stored[current] == expiry)
    && (schedule != [] ==> expiry <= now || exists o: nat :: Saw(r, o, current))
    && (forall o: nat :: Saw(r, o, current) && r.calls[o].done >= 2 ==> current !in r.stored)
  }

  ghost predicate Tokens(r: Race, tokens: seq<string>) {
    |r.calls| == |tokens| && forall i :: 0 <= i < |tokens| ==> r.calls[i].token == tokens[i]
  }

  ghost predicate RaceInv(r: Race, now: real, schedule: seq<Turn>, ttl: real, tokens: seq<string>,
                          current: string, expiry: real)
  {
    && Tokens(r, tokens) && NameInv(r, schedule, current, expiry) && CurrentInv(r, now, schedule, current, expiry)
    && (forall i :: 0 <= i < |r.calls| ==> CallInv(r, now, schedule, ttl, i))
  }

  lemma SawAfter(r: Race, turn: Turn, ttl: real, o: nat, token: string)
    requires turn.who < |r.calls|
    ensures Saw(RunTurn(r, turn, ttl), o, token) <==>
            Saw(r, o, token) || (o == turn.who && r.calls[o].done == 0
                                 && token == if turn.at < r.namedUntil then r.named else "")
  {
  }

  lemma TokenKeeps(r: Race, now: real, schedule: seq<Turn>, turn: Turn, ttl: real, tokens: seq<string>,
                   current: string, expiry: real, namedUntil: real, i: nat)
    requires RaceInv(r, now, schedule, ttl, tokens, current, expiry)
    requires Proper(tokens, current, expiry, namedUntil, ttl) && now <= turn.at
    requires turn.who < |tokens| && i < |tokens|
    ensures TokenInv(RunTurn(r, turn, ttl), turn.at, schedule + [turn], ttl, i)
  {
    assert (schedule + [turn])[..|schedule|] == schedule;
    assert CallInv(r, now, schedule, ttl, i) && CallInv(r, now, schedule, ttl, turn.who);
    if o: nat :| Saw(r, o, tokens[i]) {
      SawAfter(r, turn, ttl, o, tokens[i]);
    } else if r.calls[turn.who].done == 1 && r.calls[turn.who].seen == tokens[i] {
      assert Saw(r, turn.who, tokens[i]);
    }
  }

  lemma SeenKeeps(r: Race, now: real, schedule: seq<Turn>, turn: Turn, ttl: real, tokens: seq<string>,
                  current: string, expiry: real, namedUntil: real, i: nat)
    requires RaceInv(r, now, schedule, ttl, tokens, current, expiry)
    requires Proper(tokens, current, expiry, namedUntil, ttl) && now <= turn.at
    requires turn.who < |tokens| && i < |tokens|
    ensures SeenInv(RunTurn(r, turn, ttl), turn.at, schedule + [turn], i)
  {
    var r', token := RunTurn(r, turn, ttl), tokens[i];
    SucceededAppend(schedule, turn, i);
    assert CallInv(r, now, schedule, ttl, i) && CallInv(r, now, schedule, ttl, turn.who);
    forall o: nat ensures Saw(r', o, token) <==>
        Saw(r, o, token) || (o == turn.who && r.calls[o].done == 0 && turn.at < r.namedUntil && token == r.named) {
      SawAfter(r, turn, ttl, o, token);
    }
    if o: nat :| Saw(r, o, token) {
      assert Saw(r', o, token);
    } else if r.calls[turn.who].done == 0 && LastFinished(schedule) == Some(i) && turn.at < r.namedUntil {
      assert Saw(r', turn.who, token);
    }
  }

  lemma LastFinishedAppend(schedule: seq<Turn>, turn: Turn)
    ensures LastFinished(schedule + [turn]) ==
            if Turns(schedule, turn.who) == 3 then Some(turn.who) else LastFinished(schedule)
  {
    assert (schedule + [turn])[..|schedule|] == schedule;
  }

  lemma NameKeeps(r: Race, now: real, schedule: seq<Turn>, turn: Turn, ttl: real, tokens: seq<string>,
                  current: string, expiry: real, namedUntil: real)
    requires RaceInv(r, now, schedule, ttl, tokens, current, expiry)
    requires Proper(tokens, current, expiry, namedUntil, ttl) && now <= turn.at && turn.who < |tokens|
    ensures NameInv(RunTurn(r, turn, ttl), schedule + [turn], current, expiry)
  {
    LastFinishedAppend(schedule, turn);
    assert CallInv(r, now, schedule, ttl, turn.who);
    if r.calls[turn.who].done != 3 {
      assert LastFinished(schedule + [turn]) == LastFinished(schedule);
    }
  }

  lemma CurrentKeeps(r: Race, now: real, schedule: seq<Turn>, turn: Turn, ttl: real, tokens: seq<string>,
                     current: string, expiry: real, namedUntil: real)
    requires RaceInv(r, now, schedule, ttl, tokens, current, expiry)
    requires Proper(tokens, current, expiry, namedUntil, ttl) && now <= turn.at && turn.who < |tokens|
    ensures CurrentInv(RunTurn(r, turn, ttl), turn.at, schedule + [turn], current, expiry)
  {
    var r' := RunTurn(r, turn, ttl);
    forall o: nat ensures Saw(r', o, current) <==>
        Saw(r, o, current) || (o == turn.who && r.calls[o].done == 0
                               && current == if turn.at < r.namedUntil then r.named else "") {
      SawAfter(r, turn, ttl, o, current);
    }
    assert CallInv(r, now, schedule, ttl, turn.who);
    assert tokens[turn.who] != current;
    if o: nat :| Saw(r, o, current) {
      assert Saw(r', o, current);
    }
    if schedule == [] && turn.at < r.namedUntil {
      assert Saw(r', turn.who, current);
    }
  }

  /** What interleaved generations can see of each other, after every schedule of their commands,
      with entries expiring meanwhile. */
  lemma {:induction false} RaceInvariant(tokens: seq<string>, current: string, expiry: real, namedUntil: real,
                                         ttl: real, schedule: seq<Turn>, start: real)
    requires Proper(tokens, current, expiry, namedUntil, ttl) && Scheduled(schedule, |tokens|)
    requires schedule != [] ==> start <= schedule[0].at
    ensures RaceInv(RaceAfter(RaceStart(tokens, current, expiry, namedUntil), schedule, ttl),
                    if schedule == [] then start else schedule[|schedule| - 1].at, schedule, ttl,
                    tokens, current, expiry)
  {
    var begin := RaceStart(tokens, current, expiry, namedUntil);
    if schedule == [] {
    } else {
      var init, turn := schedule[..|schedule| - 1], schedule[|schedule| - 1];
      RaceInvariant(tokens, current, expiry, namedUntil, ttl, init, start);
      assert schedule == init + [turn];
      var r, now := RaceAfter(begin, init, ttl), if init == [] then start else init[|init| - 1].at;
      NameKeeps(r, now, init, turn, ttl, tokens, current, expiry, namedUntil);
      CurrentKeeps(r, now, init, turn, ttl, tokens, current, expiry, namedUntil);
      forall i | 0 <= i < |tokens| ensures CallInv(RunTurn(r, turn, ttl), turn.at, schedule, ttl, i) {
        TokenKeeps(r, now, init, turn, ttl, tokens, current, expiry, namedUntil, i);
        SeenKeeps(r, now, init, turn, ttl, tokens, current, expiry, namedUntil, i);
      }
    }
  }

  predicate LiveIn(r: Race, token: string, now: real) {
    token in r.stored && now < r.stored[token]
  }

  /** When all calls are through, the token of each is live until it expires, exactly if no call
      began while it was the last one to have finished. The token from before is gone. */
  lemma {:induction false} RaceOutcome(tokens: seq<string>, current: string, expiry: real, namedUntil: real, ttl: real,
                                       schedule: seq<Turn>, now: real)
    requires Proper(tokens, current, expiry, namedUntil, ttl) && Scheduled(schedule, |tokens|)
    requires schedule != [] && schedule[|schedule| - 1].at <= now
    requires forall i :: 0 <= i < |tokens| ==> Turns(schedule, i) >= 4
    ensures var r := RaceAfter(RaceStart(tokens, current, expiry, namedUntil), schedule, ttl);
            && (forall i :: 0 <= i < |tokens| ==>
                  (LiveIn(r, tokens[i], now) <==> now < r.calls[i].expiry && !Succeeded(schedule, i)))
            && !LiveIn(r, current, now)
  {
    RaceInvariant(tokens, current, expiry, namedUntil, ttl, schedule, schedule[0].at);
    var r := RaceAfter(RaceStart(tokens, current, expiry, namedUntil), schedule, ttl);
    forall i | 0 <= i < |tokens|
      ensures r.calls[i].done == 4
      ensures LiveIn(r, tokens[i], now) <==> now < r.calls[i].expiry && !Succeeded(schedule, i)
    {
      assert CallInv(r, schedule[|schedule| - 1].at, schedule, ttl, i);
      forall o: nat | Saw(r, o, tokens[i]) ensures r.calls[o].done == 4 {
        assert CallInv(r, schedule[|schedule| - 1].at, schedule, ttl, o);
      }
    }
  }

  lemma {:induction false} TurnsGrow(schedule: seq<Turn>, a: nat, b: nat, who: nat)
    requires a <= b <= |schedule|
    ensures Turns(schedule[..a], who) <= Turns(schedule[..b], who)
    ensures a < b && schedule[a].who == who ==> Turns(schedule[..a], who) + 1 <= Turns(schedule[..b], who)
  {
    if a == b {
    } else {
      TurnsGrow(schedule, a, b - 1, who);
      assert schedule[..b][..b - 1] == schedule[..b - 1];
    }
  }

  lemma {:induction false} NoneFinished(schedule: seq<Turn>)
    requires forall i :: 0 <= i < |schedule| ==> schedule[i].who == i
    ensures LastFinished(schedule) == None
    ensures forall who: nat :: who >= |schedule| ==> Turns(schedule, who) == 0
  {
    if schedule == [] {
    } else {
      var init := schedule[..|schedule| - 1];
      NoneFinished(init);
      assert Turns(init, |init|) == 0;
    }
  }

  predicate OncePerRound(schedule: seq<Turn>, n: nat, i: nat)
    requires |schedule| == 4 * n && i < n
  {
    && schedule[i].who == i && schedule[n + i].who == i
    && schedule[2 * n + i].who == i && schedule[3 * n + i].who == i
  }

  /** All calls run their first command, then all their second, and so on. */
  ghost predicate InRounds(schedule: seq<Turn>, n: nat) {
    |schedule| == 4 * n && forall i :: 0 <= i < n ==> OncePerRound(schedule, n, i)
  }

  lemma RoundsFinish(schedule: seq<Turn>, n: nat, i: nat)
    requires InRounds(schedule, n) && i < n
    ensures Turns(schedule, i) >= 4
  {
    assert OncePerRound(schedule, n, i);
    TurnsGrow(schedule, i, n + i, i);
    TurnsGrow(schedule, n + i, 2 * n + i, i);
    TurnsGrow(schedule, 2 * n + i, 3 * n + i, i);
    TurnsGrow(schedule, 3 * n + i, 4 * n, i);
    assert schedule[..4 * n] == schedule;
  }

  /** The call that runs at a turn had its first turn in the first round. */
  lemma FirstRound(schedule: seq<Turn>, n: nat, k: nat)
    requires InRounds(schedule, n) && k < |schedule|
    ensures schedule[k].who < n && schedule[schedule[k].who].who == schedule[k].who <= k
    ensures k < n ==> schedule[k].who == k
  {
    var i := if k < n then k else if k < 2 * n then k - n else if k < 3 * n then k - 2 * n else k - 3 * n;
    assert OncePerRound(schedule, n, i);
  }

  lemma RoundsBeginTogether(schedule: seq<Turn>, n: nat, i: nat)
    requires InRounds(schedule, n)
    ensures !Succeeded(schedule, i)
  {
    forall k: nat | k < |schedule| ensures !BeginsAfter(schedule, k, i) {
      FirstRound(schedule, n, k);
      if k < n {
        forall j | 0 <= j < k ensures schedule[j].who == j {
          FirstRound(schedule, n, j);
        }
        NoneFinished(schedule[..k]);
      } else {
        TurnsGrow(schedule, schedule[k].who, k, schedule[k].who);
      }
    }
  }

  /** Calls whose commands alternate leave a live token each. */
  lemma {:induction false} AlternatingLeavesAll(tokens: seq<string>, current: string, expiry: real, namedUntil: real,
                                                ttl: real, schedule: seq<Turn>, now: real)
    requires Proper(tokens, current, expiry, namedUntil, ttl) && Scheduled(schedule, |tokens|)
    requires tokens != [] && InRounds(schedule, |tokens|) && schedule[|schedule| - 1].at <= now
    ensures var r := RaceAfter(RaceStart(tokens, current, expiry, namedUntil), schedule, ttl);
            forall i :: 0 <= i < |tokens| ==> (LiveIn(r, tokens[i], now) <==> now < r.calls[i].expiry)
  {
    forall i | 0 <= i < |tokens| ensures Turns(schedule, i) >= 4 && !Succeeded(schedule, i) {
      RoundsFinish(schedule, |tokens|, i);
      RoundsBeginTogether(schedule, |tokens|, i);
    }
    RaceOutcome(tokens, current, expiry, namedUntil, ttl, schedule, now);
  }

  /** Each call runs all its commands before the next one begins. */
  ghost predicate OneByOne(schedule: seq<Turn>, n: nat) {
    |schedule| == 4 * n && forall k :: 0 <= k < |schedule| ==> schedule[k].who == k / 4
  }

  lemma {:induction false} TurnsOneByOne(schedule: seq<Turn>, n: nat, k: nat, i: nat)
    requires OneByOne(schedule, n) && k <= |schedule|
    ensures Turns(schedule[..k], i) == if k <= 4 * i then 0 else AtMostFour(k - 4 * i)
  {
    if k == 0 {
    } else {
      TurnsOneByOne(schedule, n, k - 1, i);
      assert schedule[..k][..k - 1] == schedule[..k - 1];
      assert schedule[k - 1].who == (k - 1) / 4;
    }
  }

  lemma {:induction false} UnfinishedIsNotLast(schedule: seq<Turn>, i: nat)
    ensures LastFinished(schedule) == Some(i) ==> Turns(schedule, i) >= 4
  {
    if schedule == [] {
    } else {
      UnfinishedIsNotLast(schedule[..|schedule| - 1], i);
    }
  }

  lemma OneByOneSucceed(schedule: seq<Turn>, n: nat, i: nat)
    requires OneByOne(schedule, n) && i < n
    ensures Turns(schedule, i) == 4 && (Succeeded(schedule, i) <==> i + 1 < n)
  {
    assert schedule[..4 * n] == schedule;
    TurnsOneByOne(schedule, n, 4 * n, i);
    if i + 1 < n {
      var k := 4 * i + 4;
      TurnsOneByOne(schedule, n, k, i + 1);
      TurnsOneByOne(schedule, n, k, i);
      assert schedule[k].who == i + 1 && schedule[..k][k - 1].who == i;
      assert BeginsAfter(schedule, k, i);
    } else {
      forall k | 0 <= k < |schedule| ensures !BeginsAfter(schedule, k, i) {
        TurnsOneByOne(schedule, n, k, k / 4);
        if k == 4 * (k / 4) {
          UnfinishedIsNotLast(schedule[..k], i);
          TurnsOneByOne(schedule, n, k, i);
        }
      }
    }
  }

  /** Calls that run one after another leave the last one's token only. */
  lemma {:induction false} OneByOneLeavesLast(tokens: seq<string>, current: string, expiry: real, namedUntil: real,
                                              ttl: real, schedule: seq<Turn>, now: real)
    requires Proper(tokens, current, expiry, namedUntil, ttl) && Scheduled(schedule, |tokens|)
    requires tokens != [] && OneByOne(schedule, |tokens|) && schedule[|schedule| - 1].at <= now
    ensures var r := RaceAfter(RaceStart(tokens, current, expiry, namedUntil), schedule, ttl);
            forall i :: 0 <= i < |tokens| ==>
              (LiveIn(r, tokens[i], now) <==> i == |tokens| - 1 && now < r.calls[i].expiry)
  {
    forall i | 0 <= i < |tokens|
      ensures Turns(schedule, i) >= 4 && (Succeeded(schedule, i) <==> i + 1 < |tokens|)
    {
      OneByOneSucceed(schedule, |tokens|, i);
    }
    RaceOutcome(tokens, current, expiry, namedUntil, ttl, schedule, now);
  }
}
