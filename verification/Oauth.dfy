/** Redeeming authorization codes: concurrent exchanges, one key a code. */
module Oauth {
  import opened Common

  /** used_at is None until an exchange claims the code. */
  datatype Code = Code(clientId: string, accountId: nat, redirectUri: string, challenge: string, expiresAt: int,
                       usedAt: Option<int>)

  datatype Request = Request(grantType: string, code: Option<string>, redirectUri: Option<string>,
                             clientId: Option<string>, verifier: Option<string>)

  /** The two digests: the one codes are stored under, and the one challenges are made with. */
  datatype Digests = Digests(hex: string -> string, url: string -> string)

  datatype Failure = UnsupportedGrant | InvalidRequest | InvalidGrant

  // ---------------------------------------------------------------- the statements on oauth_codes

  function Swept(codes: map<string, Code>, before: int): map<string, Code> {
    map hash | hash in codes && codes[hash].expiresAt >= before :: codes[hash]
  }

  /** UPDATE ... WHERE used_at IS NULL: whether it changed a row. */
  predicate Claimable(codes: map<string, Code>, hash: string) {
    hash in codes && codes[hash].usedAt.None?
  }

  function Claimed(codes: map<string, Code>, hash: string, at: int): map<string, Code> {
    if Claimable(codes, hash) then codes[hash := codes[hash].(usedAt := Some(at))] else codes
  }

  function Lookup(codes: map<string, Code>, hash: string): Option<Code> {
    if hash in codes then Some(codes[hash]) else None
  }

  // ---------------------------------------------------------------- the checks before the claim

  predicate Complete(r: Request) {
    r.code.Some? && r.redirectUri.Some? && r.clientId.Some? && r.verifier.Some?
  }

  /** None when the exchange may go on to claim the code. */
  function Checks(d: Digests, r: Request, row: Option<Code>, at: int): Option<Failure> {
    if r.grantType != "authorization_code" then Some(UnsupportedGrant)
    else if !Complete(r) then Some(InvalidRequest)
    else if row.None? || row.value.usedAt.Some? || row.value.expiresAt <= at then Some(InvalidGrant)
    else if row.value.clientId != r.clientId.value || row.value.redirectUri != r.redirectUri.value then
      Some(InvalidGrant)
    else if d.url(r.verifier.value) != row.value.challenge then Some(InvalidGrant)
    else None
  }

  /** What a redemption must agree with: section 4.1.2 of RFC 6749 and section 4.6 of RFC 7636. */
  predicate Grants(d: Digests, r: Request, issued: Code, at: int) {
    && Complete(r) && r.clientId.value == issued.clientId && r.redirectUri.value == issued.redirectUri
    && d.url(r.verifier.value) == issued.challenge && at < issued.expiresAt
  }

  // ---------------------------------------------------------------- the protocol

  /** hash is the stored hash of the request's code; row is what was read. */
  datatype Exchange =
    | Begun(request: Request, at: int)
    | Ready(request: Request, at: int)
    | Checked(request: Request, at: int, hash: string, row: Code)
    | Holding(request: Request, at: int, hash: string, row: Code)
    | Minted(request: Request, at: int, hash: string, row: Code)
    | Failed(failure: Failure)

  datatype Key = Key(exchange: nat, hash: string, accountId: nat)

  /** issued keeps every code ever issued as it was issued. */
  datatype State = State(codes: map<string, Code>, issued: map<string, Code>, exchanges: map<nat, Exchange>,
                         keys: seq<Key>)

  datatype Event =
    | Issue(hash: string, code: Code)
    | Begin(x: nat, request: Request, at: int)
    | Sweep(x: nat)
    | Read(x: nat)
    | Claim(x: nat)
    | Mint(x: nat)

  const START := State(map[], map[], map[], [])

  ghost predicate Enabled(s: State, e: Event) {
    match e
    case Issue(hash, code) => hash !in s.issued && code.usedAt.None?
    case Begin(x, request, at) => x !in s.exchanges
    case Sweep(x) => x in s.exchanges && s.exchanges[x].Begun?
    case Read(x) => x in s.exchanges && s.exchanges[x].Ready?
    case Claim(x) => x in s.exchanges && s.exchanges[x].Checked?
    case Mint(x) => x in s.exchanges && s.exchanges[x].Holding?
  }

  ghost function AfterRead(d: Digests, s: State, x: Exchange): Exchange
    requires x.Ready?
  {
    var hash := if x.request.code.Some? then d.hex(x.request.code.value) else "";
    var row := if x.request.code.Some? then Lookup(s.codes, hash) else None;
    var problem := Checks(d, x.request, row, x.at);
    if problem.Some? then Failed(problem.value) else Checked(x.request, x.at, hash, row.value)
  }

  ghost function After(d: Digests, s: State, e: Event): State
    requires Enabled(s, e)
  {
    match e
    case Issue(hash, code) => s.(codes := s.codes[hash := code], issued := s.issued[hash := code])
    case Begin(x, request, at) => s.(exchanges := s.exchanges[x := Begun(request, at)])
    case Sweep(x) =>
      var p := s.exchanges[x];
      s.(codes := Swept(s.codes, p.at), exchanges := s.exchanges[x := Ready(p.request, p.at)])
    case Read(x) => s.(exchanges := s.exchanges[x := AfterRead(d, s, s.exchanges[x])])
    case Claim(x) =>
      var p := s.exchanges[x];
      if Claimable(s.codes, p.hash) then
        s.(codes := Claimed(s.codes, p.hash, p.at),
           exchanges := s.exchanges[x := Holding(p.request, p.at, p.hash, p.row)])
      else s.(exchanges := s.exchanges[x := Failed(InvalidGrant)])
    case Mint(x) =>
      var p := s.exchanges[x];
      s.(keys := s.keys + [Key(x, p.hash, p.row.accountId)],
         exchanges := s.exchanges[x := Minted(p.request, p.at, p.hash, p.row)])
  }

  // ---------------------------------------------------------------- the invariant

  /** The exchange has taken this code for itself. */
  ghost predicate Redeemed(s: State, x: nat, hash: string) {
    x in s.exchanges && (s.exchanges[x].Holding? || s.exchanges[x].Minted?) && s.exchanges[x].hash == hash
  }

  ghost predicate PastChecks(p: Exchange) {
    p.Checked? || p.Holding? || p.Minted?
  }

  /** A stored code is as it was issued, but for having been used. */
  ghost predicate CodesIssued(s: State) {
    forall hash :: hash in s.codes ==> hash in s.issued && s.codes[hash].(usedAt := None) == s.issued[hash]
  }

  /** An exchange past its checks read the code as issued, and it grants what was asked. */
  ghost predicate ChecksHold(d: Digests, s: State) {
    forall x :: x in s.exchanges && PastChecks(s.exchanges[x]) ==>
      && s.exchanges[x].hash in s.issued && s.exchanges[x].row == s.issued[s.exchanges[x].hash]
      && Grants(d, s.exchanges[x].request, s.exchanges[x].row, s.exchanges[x].at)
      && d.hex(s.exchanges[x].request.code.value) == s.exchanges[x].hash
  }

  /** A code is taken by one exchange only, and is then no longer there to claim. */
  ghost predicate TakenOnce(s: State) {
    && (forall x, y, hash :: Redeemed(s, x, hash) && Redeemed(s, y, hash) ==> x == y)
    && (forall x, hash :: Redeemed(s, x, hash) ==> hash in s.issued && !Claimable(s.codes, hash))
  }

  /** Keys are those of the exchanges that minted, one each. */
  ghost predicate KeysMinted(s: State) {
    && (forall i :: 0 <= i < |s.keys| ==>
         && s.keys[i].exchange in s.exchanges && s.exchanges[s.keys[i].exchange].Minted?
         && s.exchanges[s.keys[i].exchange].hash == s.keys[i].hash
         && s.exchanges[s.keys[i].exchange].row.accountId == s.keys[i].accountId)
    && (forall i, j :: 0 <= i < j < |s.keys| ==> s.keys[i].exchange != s.keys[j].exchange)
  }

  lemma ChecksHoldKeeps(d: Digests, s: State, e: Event)
    requires Enabled(s, e) && CodesIssued(s) && ChecksHold(d, s)
    ensures ChecksHold(d, After(d, s, e))
  {
    var t := After(d, s, e);
    assert forall hash :: hash in s.issued ==> hash in t.issued && t.issued[hash] == s.issued[hash];
  }

  lemma TakenOnceKeeps(d: Digests, s: State, e: Event)
    requires Enabled(s, e) && CodesIssued(s) && TakenOnce(s)
    ensures TakenOnce(After(d, s, e))
  {
    var t := After(d, s, e);
    if e.Claim? && Claimable(s.codes, s.exchanges[e.x].hash) {
      var hash := s.exchanges[e.x].hash;
      forall x, other | Redeemed(t, x, other)
        ensures (x == e.x && other == hash) || Redeemed(s, x, other)
      {
      }
      assert hash in s.issued;
      assert forall x :: !Redeemed(s, x, hash);
    } else {
      forall x, hash | Redeemed(t, x, hash)
        ensures Redeemed(s, x, hash)
      {
      }
    }
  }

  ghost predicate Inv(d: Digests, s: State) {
    CodesIssued(s) && ChecksHold(d, s) && TakenOnce(s) && KeysMinted(s)
  }

  lemma InvKeeps(d: Digests, s: State, e: Event)
    requires Enabled(s, e) && Inv(d, s)
    ensures Inv(d, After(d, s, e))
  {
    ChecksHoldKeeps(d, s, e);
    TakenOnceKeeps(d, s, e);
  }

  // ---------------------------------------------------------------- runs

  ghost predicate IsRun(d: Digests, states: seq<State>, events: seq<Event>) {
    && |states| == |events| + 1 && states[0] == START
    && (forall i :: 0 <= i < |events| ==>
         Enabled(states[i], events[i]) && states[i + 1] == After(d, states[i], events[i]))
  }

  lemma {:induction false} InvHolds(d: Digests, states: seq<State>, events: seq<Event>, i: nat)
    requires IsRun(d, states, events) && i <= |events|
    ensures Inv(d, states[i])
  {
    if i > 0 {
      InvHolds(d, states, events, i - 1);
      InvKeeps(d, states[i - 1], events[i - 1]);
    }
  }

  /** However exchanges, issues and sweeps interleave, no code ever mints two keys. */
  lemma CodeMintsOnce(d: Digests, states: seq<State>, events: seq<Event>, n: nat, i: nat, j: nat)
    requires IsRun(d, states, events) && n <= |events|
    requires i < j < |states[n].keys|
    ensures states[n].keys[i].hash != states[n].keys[j].hash
  {
    InvHolds(d, states, events, n);
    var a, b := states[n].keys[i], states[n].keys[j];
    assert Redeemed(states[n], a.exchange, a.hash) && Redeemed(states[n], b.exchange, b.hash);
  }

  /** Every key belongs to the account the code was issued for, asked for with all the code was bound to, in time. */
  lemma MintMatchesIssue(d: Digests, states: seq<State>, events: seq<Event>, n: nat, i: nat)
    requires IsRun(d, states, events) && n <= |events| && i < |states[n].keys|
    ensures var key := states[n].keys[i];
      && key.exchange in states[n].exchanges && states[n].exchanges[key.exchange].Minted?
      && key.hash in states[n].issued
      && var p := states[n].exchanges[key.exchange];
      && key.accountId == states[n].issued[key.hash].accountId
      && Grants(d, p.request, states[n].issued[key.hash], p.at)
      && d.hex(p.request.code.value) == key.hash
  {
    InvHolds(d, states, events, n);
    assert PastChecks(states[n].exchanges[states[n].keys[i].exchange]);
  }

  lemma RedeemedStays(d: Digests, s: State, e: Event, x: nat, hash: string)
    requires Enabled(s, e) && Redeemed(s, x, hash)
    ensures Redeemed(After(d, s, e), x, hash)
  {
  }

  /** Once an exchange holds a code, no exchange can claim it again, swept or not. */
  lemma {:induction false} TakenStays(d: Digests, states: seq<State>, events: seq<Event>, i: nat, j: nat, x: nat,
                                      hash: string)
    requires IsRun(d, states, events) && i <= j <= |events| && Redeemed(states[i], x, hash)
    ensures Redeemed(states[j], x, hash) && !Claimable(states[j].codes, hash)
  {
    InvHolds(d, states, events, j);
    if i < j {
      TakenStays(d, states, events, i, j - 1, x, hash);
      RedeemedStays(d, states[j - 1], events[j - 1], x, hash);
    }
  }

  /** An exchange for a good code that nobody disturbs gets its key. */
  lemma LoneExchangeMints(d: Digests, s: State, x: nat, r: Request, at: int)
    requires x !in s.exchanges && r.grantType == "authorization_code" && Complete(r)
    requires Claimable(s.codes, d.hex(r.code.value)) && Grants(d, r, s.codes[d.hex(r.code.value)], at)
    ensures var hash := d.hex(r.code.value);
      var s1 := After(d, s, Begin(x, r, at));
      var s2 := After(d, s1, Sweep(x));
      var s3 := After(d, s2, Read(x));
      Enabled(s3, Claim(x)) &&
      var s4 := After(d, s3, Claim(x));
      Enabled(s4, Mint(x)) && After(d, s4, Mint(x)).keys == s.keys + [Key(x, hash, s.codes[hash].accountId)]
  {
    var hash := d.hex(r.code.value);
    var s2 := After(d, After(d, s, Begin(x, r, at)), Sweep(x));
    assert hash in s2.codes && s2.codes[hash] == s.codes[hash];
  }

  // ---------------------------------------------------------------- the table, changed in place

  /** oauth_codes, one statement at a time, and one exchange that nobody disturbs. */
  class CodeTable {
    var codes: map<string, Code>

    constructor ()
      ensures codes == map[]
    {
      codes := map[];
    }

    method InsertOauthCode(hash: string, code: Code)
      requires hash !in codes && code.usedAt.None?
      modifies this
      ensures codes == old(codes)[hash := code]
    {
      codes := codes[hash := code];
    }

    method DeleteExpiredOauthCodes(before: int)
      modifies this
      ensures codes == Swept(old(codes), before)
    {
      codes := map hash | hash in codes && codes[hash].expiresAt >= before :: codes[hash];
    }

    method ClaimOauthCode(hash: string, at: int) returns (changed: bool)
      modifies this
      ensures changed == Claimable(old(codes), hash) && codes == Claimed(old(codes), hash, at)
    {
      changed := hash in codes && codes[hash].usedAt.None?;
      if changed {
        codes := codes[hash := codes[hash].(usedAt := Some(at))];
      }
    }

    /** The account to mint a key for, exactly when the stored code grants what is asked; then the code is spent. */
    method ExchangeToken(d: Digests, r: Request, requestedAt: int) returns (result: Result<nat, Failure>)
      modifies this
      ensures result.Ok? <==>
        && r.grantType == "authorization_code" && Complete(r) && Claimable(old(codes), d.hex(r.code.value))
        && Grants(d, r, old(codes)[d.hex(r.code.value)], requestedAt)
      ensures result.Ok? ==>
        && result.value == old(codes)[d.hex(r.code.value)].accountId
        && codes == Claimed(Swept(old(codes), requestedAt), d.hex(r.code.value), requestedAt)
        && !Claimable(codes, d.hex(r.code.value))
      ensures result.Err? ==> codes == Swept(old(codes), requestedAt)
    {
      DeleteExpiredOauthCodes(requestedAt);
      if r.grantType != "authorization_code" {
        return Err(UnsupportedGrant);
      }
      if !Complete(r) {
        return Err(InvalidRequest);
      }
      var hash := d.hex(r.code.value);
      var row := Lookup(codes, hash);
      var problem := Checks(d, r, row, requestedAt);
      if problem.Some? {
        return Err(problem.value);
      }
      var claimed := ClaimOauthCode(hash, requestedAt);
      if !claimed {
        assert false;
        return Err(InvalidGrant);
      }
      result := Ok(row.value.accountId);
    }
  }
}
