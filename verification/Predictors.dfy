/** `ts/src/predictors.ts`: the greedy walk of one bid over the best-first asks. */
module Predictors {

  datatype Option<+T> = None | Some(value: T)

  datatype OwnerKind = SubVaultOwner | OtherOwner

  datatype Seat = Seat(ownerKind: OwnerKind, subVaultId: nat)

  datatype SubVault = SubVault(subVaultId: nat, totalPrincipal: nat, deployedPrincipal: nat, maxLtvBps: nat)

  datatype Ask = Ask(index: nat, rateBps: nat, termSeconds: nat, traderSeatIndex: nat)

  datatype Bid = Bid(rateBps: nat, termSeconds: nat, principal: nat, collateral: nat)

  datatype SkipReason = Rate | Term | LtvExceeded | SubVaultIdleExhausted | SubVaultNotFound | SeatNotFound | SeatNotSubVault

  datatype Skip = Skip(askIndex: nat, reason: SkipReason)

  datatype Cross = Cross(ask: Ask, principal: nat, collateral: nat, subVaultId: nat)

  datatype Simulation = Simulation(fills: seq<Cross>, residual: nat, residualGoesToP2Pool: bool, skipped: seq<Skip>)

  /** The default estimator; a caller may pass another one. */
  const MAX_SAFE_INTEGER: real := 9_007_199_254_740_991.0

  function DefaultLtvEstimator(subVault: SubVault, principal: nat, collateral: nat): real {
    if collateral == 0 then MAX_SAFE_INTEGER else (principal * 10_000 / collateral) as real
  }

  /** What a sub-vault can lend at the start. */
  function Idle(v: SubVault): nat {
    if v.totalPrincipal >= v.deployedPrincipal then v.totalPrincipal - v.deployedPrincipal else 0
  }

  /** The sub-vault behind an id: a later record replaces an earlier one. */
  function VaultOf(vaults: seq<SubVault>, id: nat): Option<SubVault> {
    if vaults == [] then None
    else if vaults[|vaults| - 1].subVaultId == id then Some(vaults[|vaults| - 1])
    else VaultOf(vaults[..|vaults| - 1], id)
  }

  /** The sub-vault that backs an ask, if its seat leads to one. */
  function Backer(ask: Ask, seats: map<nat, Seat>, vaults: seq<SubVault>): Option<SubVault> {
    if ask.traderSeatIndex !in seats then None
    else if seats[ask.traderSeatIndex].ownerKind != SubVaultOwner then None
    else VaultOf(vaults, seats[ask.traderSeatIndex].subVaultId)
  }

  ghost function Principal(fills: seq<Cross>): nat {
    if fills == [] then 0 else Principal(fills[..|fills| - 1]) + fills[|fills| - 1].principal
  }

  ghost function Collateral(fills: seq<Cross>): nat {
    if fills == [] then 0 else Collateral(fills[..|fills| - 1]) + fills[|fills| - 1].collateral
  }

  ghost function Drawn(fills: seq<Cross>, id: nat): nat {
    if fills == [] then 0
    else Drawn(fills[..|fills| - 1], id) + if fills[|fills| - 1].subVaultId == id then fills[|fills| - 1].principal else 0
  }

  lemma Append(fills: seq<Cross>, f: Cross)
    ensures Principal(fills + [f]) == Principal(fills) + f.principal
    ensures Collateral(fills + [f]) == Collateral(fills) + f.collateral
    ensures forall id :: Drawn(fills + [f], id) == Drawn(fills, id) + if f.subVaultId == id then f.principal else 0
  {
    assert (fills + [f])[..|fills|] == fills;
  }

  ghost predicate BestFirst(asks: seq<Ask>) {
    forall j, k | 0 <= j < k < |asks| :: asks[j].rateBps <= asks[k].rateBps
  }

  /** What remains in the pool of a sub-vault. */
  ghost function Pool(vaults: seq<SubVault>, fills: seq<Cross>, id: nat): int {
    (if VaultOf(vaults, id).Some? then Idle(VaultOf(vaults, id).value) else 0) - Drawn(fills, id)
  }

  /** The size of the next cross with a sub-vault: all that is wanted or all that is there. */
  ghost function Size(bid: Bid, vaults: seq<SubVault>, fills: seq<Cross>, id: nat): int {
    var wanted, there := bid.principal - Principal(fills), Pool(vaults, fills, id);
    if wanted < there then wanted else there
  }

  /** The floored pro-rata share. */
  function Share(collateral: nat, part: nat, whole: nat): (share: nat)
    requires whole > 0
    ensures share == collateral * part / whole
  {
    collateral * part / whole
  }

  /** A fill that the program would accept, and would size in the same way after `before`. */
  ghost predicate Sound(f: Cross, before: seq<Cross>, bid: Bid, seats: map<nat, Seat>, vaults: seq<SubVault>, ltv: (SubVault, nat, nat) -> real) {
    && Fits(f.ask, bid)
    && bid.principal > 0 && 0 < f.principal == Size(bid, vaults, before, f.subVaultId)
    && f.collateral == Share(bid.collateral, f.principal, bid.principal)
    && var backer := Backer(f.ask, seats, vaults);
       backer.Some? && backer.value.subVaultId == f.subVaultId && ltv(backer.value, f.principal, f.collateral) <= backer.value.maxLtvBps as real
  }

  /** What each reason to skip an ask says about it, once the fills `before` are made. */
  ghost predicate Justified(ask: Ask, reason: SkipReason, before: seq<Cross>, bid: Bid, seats: map<nat, Seat>, vaults: seq<SubVault>,
                            ltv: (SubVault, nat, nat) -> real)
  {
    match reason
    case Rate => ask.rateBps > bid.rateBps
    case Term => ask.rateBps <= bid.rateBps && ask.termSeconds < bid.termSeconds
    case SeatNotFound => Fits(ask, bid) && ask.traderSeatIndex !in seats
    case SeatNotSubVault => Fits(ask, bid) && ask.traderSeatIndex in seats && seats[ask.traderSeatIndex].ownerKind != SubVaultOwner
    case SubVaultNotFound =>
      && Fits(ask, bid) && ask.traderSeatIndex in seats && seats[ask.traderSeatIndex].ownerKind == SubVaultOwner
      && VaultOf(vaults, seats[ask.traderSeatIndex].subVaultId).None?
    case SubVaultIdleExhausted =>
      Fits(ask, bid) && Backer(ask, seats, vaults).Some? && Pool(vaults, before, Backer(ask, seats, vaults).value.subVaultId) == 0
    case LtvExceeded =>
      Fits(ask, bid) && Backer(ask, seats, vaults).Some? && TooRisky(Backer(ask, seats, vaults).value, before, bid, vaults, ltv)
  }

  /** The next cross with this sub-vault would exceed its LTV limit. */
  ghost predicate TooRisky(v: SubVault, before: seq<Cross>, bid: Bid, vaults: seq<SubVault>, ltv: (SubVault, nat, nat) -> real) {
    var size := Size(bid, vaults, before, v.subVaultId);
    bid.principal > 0 && size > 0 && ltv(v, size, Share(bid.collateral, size, bid.principal)) > v.maxLtvBps as real
  }

  predicate Fits(ask: Ask, bid: Bid) {
    ask.rateBps <= bid.rateBps && ask.termSeconds >= bid.termSeconds
  }

  /** What the walk does with one ask. */
  datatype Turn = Fill(fill: Cross) | Pass(skip: Skip)

  /** What the fills made before say about the turn of an ask. */
  ghost predicate Right(t: Turn, ask: Ask, before: seq<Cross>, bid: Bid, seats: map<nat, Seat>, vaults: seq<SubVault>, ltv: (SubVault, nat, nat) -> real) {
    match t
    case Fill(f) => f.ask == ask && Sound(f, before, bid, seats, vaults, ltv)
    case Pass(s) => s.askIndex == ask.index && Justified(ask, s.reason, before, bid, seats, vaults, ltv)
  }

  ghost function FillsOf(turns: seq<Turn>): seq<Cross> {
    if turns == [] then [] else
      var t := turns[|turns| - 1];
      FillsOf(turns[..|turns| - 1]) + if t.Fill? then [t.fill] else []
  }

  ghost function SkipsOf(turns: seq<Turn>): seq<Skip> {
    if turns == [] then [] else
      var t := turns[|turns| - 1];
      SkipsOf(turns[..|turns| - 1]) + if t.Pass? then [t.skip] else []
  }

  lemma Grown(turns: seq<Turn>, t: Turn)
    ensures FillsOf(turns + [t]) == if t.Fill? then FillsOf(turns) + [t.fill] else FillsOf(turns)
    ensures SkipsOf(turns + [t]) == if t.Pass? then SkipsOf(turns) + [t.skip] else SkipsOf(turns)
  {
    assert (turns + [t])[..|turns|] == turns;
  }

  /** Ask `k` was reached while principal was wanted, and its turn was right then. */
  ghost predicate RightAt(bid: Bid, asks: seq<Ask>, seats: map<nat, Seat>, vaults: seq<SubVault>, ltv: (SubVault, nat, nat) -> real, turns: seq<Turn>, k: nat)
    requires k < |turns| <= |asks|
  {
    Principal(FillsOf(turns[..k])) < bid.principal && Right(turns[k], asks[k], FillsOf(turns[..k]), bid, seats, vaults, ltv)
  }

  /** One right turn for each of the first asks, in book order. */
  ghost predicate Account(bid: Bid, asks: seq<Ask>, seats: map<nat, Seat>, vaults: seq<SubVault>, ltv: (SubVault, nat, nat) -> real, turns: seq<Turn>) {
    |turns| <= |asks| && forall k | 0 <= k < |turns| :: RightAt(bid, asks, seats, vaults, ltv, turns, k)
  }

  /** Ask `k` could not be used any further: refused for its LTV at its turn, or its pool is empty. */
  ghost predicate Spent(bid: Bid, asks: seq<Ask>, seats: map<nat, Seat>, vaults: seq<SubVault>, ltv: (SubVault, nat, nat) -> real, turns: seq<Turn>, k: nat)
    requires k < |asks|
  {
    Fits(asks[k], bid) && Backer(asks[k], seats, vaults).Some? ==>
      || (k < |turns| && turns[k] == Pass(Skip(asks[k].index, LtvExceeded)))
      || Pool(vaults, FillsOf(turns), Backer(asks[k], seats, vaults).value.subVaultId) == 0
  }

  /** The two lookup tables built before the walk. */
  method BuildPools(vaults: seq<SubVault>) returns (idlePool: map<nat, nat>, subVaultById: map<nat, SubVault>)
    ensures Tables(vaults, subVaultById) && Pools(vaults, [], idlePool, subVaultById)
    ensures forall id :: Pool(vaults, [], id) >= 0
  {
    idlePool, subVaultById := map[], map[];
    for n := 0 to |vaults|
      invariant Tables(vaults[..n], subVaultById)
      invariant idlePool.Keys == subVaultById.Keys
      invariant forall id <- subVaultById :: idlePool[id] == Idle(subVaultById[id])
    {
      assert vaults[..n + 1][..n] == vaults[..n];
      var subVault := vaults[n];
      subVaultById := subVaultById[subVault.subVaultId := subVault];
      idlePool := idlePool[subVault.subVaultId := Idle(subVault)];
    }
    assert vaults[..|vaults|] == vaults;
  }

  /** Floored pro-rata shares of the collateral never add up to more than the whole. */
  lemma ProRata(collateral: nat, principal: nat, filled: nat, given: nat, more: nat)
    requires principal > 0 && given * principal <= collateral * filled
    ensures (given + collateral * more / principal) * principal <= collateral * (filled + more)
  {
    var share := collateral * more / principal;
    assert share * principal <= collateral * more;
    assert (given + share) * principal == given * principal + share * principal;
    assert collateral * (filled + more) == collateral * filled + collateral * more;
  }

  lemma ShareFits(collateral: nat, principal: nat, filled: nat, given: nat)
    requires principal > 0 && filled <= principal && given * principal <= collateral * filled
    ensures given <= collateral
  {
    assert collateral * filled <= collateral * principal;
  }

  /** Sums: no more principal than asked for, no more collateral than its share, no pool overdrawn. */
  ghost predicate Totals(bid: Bid, vaults: seq<SubVault>, fills: seq<Cross>) {
    && Principal(fills) <= bid.principal
    && Collateral(fills) * bid.principal <= bid.collateral * Principal(fills)
    && (bid.principal == 0 ==> Collateral(fills) == 0)
    && (forall id :: Pool(vaults, fills, id) >= 0)
  }

  /** While principal is left, every ask that had its turn is spent. */
  ghost predicate Settled(bid: Bid, asks: seq<Ask>, seats: map<nat, Seat>, vaults: seq<SubVault>, ltv: (SubVault, nat, nat) -> real, turns: seq<Turn>)
    requires |turns| <= |asks|
  {
    forall k | 0 <= k < |turns| ::
      (turns[k].Fill? && Principal(FillsOf(turns)) == bid.principal) || Spent(bid, asks, seats, vaults, ltv, turns, k)
  }

  /** Everything that holds after the given turns. */
  ghost predicate Walked(bid: Bid, asks: seq<Ask>, seats: map<nat, Seat>, vaults: seq<SubVault>, ltv: (SubVault, nat, nat) -> real, turns: seq<Turn>) {
    Account(bid, asks, seats, vaults, ltv, turns) && Totals(bid, vaults, FillsOf(turns)) && Settled(bid, asks, seats, vaults, ltv, turns)
  }

  /** One more turn keeps all of it. */
  lemma TakeTurn(bid: Bid, asks: seq<Ask>, seats: map<nat, Seat>, vaults: seq<SubVault>, ltv: (SubVault, nat, nat) -> real, turns: seq<Turn>, t: Turn)
    requires Walked(bid, asks, seats, vaults, ltv, turns) && |turns| < |asks| && Principal(FillsOf(turns)) < bid.principal
    requires Right(t, asks[|turns|], FillsOf(turns), bid, seats, vaults, ltv)
    ensures Walked(bid, asks, seats, vaults, ltv, turns + [t])
  {
    Grown(turns, t);
    if t.Fill? {
      FilledTotals(bid, seats, vaults, ltv, FillsOf(turns), t.fill);
    }
    AccountGrown(bid, asks, seats, vaults, ltv, turns, t);
    SettledGrown(bid, asks, seats, vaults, ltv, turns, t);
  }

  lemma AccountGrown(bid: Bid, asks: seq<Ask>, seats: map<nat, Seat>, vaults: seq<SubVault>, ltv: (SubVault, nat, nat) -> real, turns: seq<Turn>, t: Turn)
    requires Account(bid, asks, seats, vaults, ltv, turns) && |turns| < |asks| && Principal(FillsOf(turns)) < bid.principal
    requires Right(t, asks[|turns|], FillsOf(turns), bid, seats, vaults, ltv)
    ensures Account(bid, asks, seats, vaults, ltv, turns + [t])
  {
    var all := turns + [t];
    forall k | 0 <= k < |all| ensures RightAt(bid, asks, seats, vaults, ltv, all, k) {
      assert all[..k] == turns[..k];
      if k < |turns| {
        assert RightAt(bid, asks, seats, vaults, ltv, turns, k);
      } else {
        assert turns[..k] == turns;
      }
    }
  }

  lemma FilledTotals(bid: Bid, seats: map<nat, Seat>, vaults: seq<SubVault>, ltv: (SubVault, nat, nat) -> real, fills: seq<Cross>, f: Cross)
    requires Totals(bid, vaults, fills) && Sound(f, fills, bid, seats, vaults, ltv)
    ensures Totals(bid, vaults, fills + [f])
  {
    Append(fills, f);
    ProRata(bid.collateral, bid.principal, Principal(fills), Collateral(fills), f.principal);
    forall id ensures Pool(vaults, fills + [f], id) >= 0 {
      assert Pool(vaults, fills, id) >= 0;
    }
  }

  lemma SettledGrown(bid: Bid, asks: seq<Ask>, seats: map<nat, Seat>, vaults: seq<SubVault>, ltv: (SubVault, nat, nat) -> real, turns: seq<Turn>, t: Turn)
    requires |turns| < |asks| && Settled(bid, asks, seats, vaults, ltv, turns) && Principal(FillsOf(turns)) < bid.principal
    requires Right(t, asks[|turns|], FillsOf(turns), bid, seats, vaults, ltv)
    ensures Settled(bid, asks, seats, vaults, ltv, turns + [t])
  {
    forall k | 0 <= k < |turns| ensures Spent(bid, asks, seats, vaults, ltv, turns + [t], k) {
      assert Spent(bid, asks, seats, vaults, ltv, turns, k);
      StillSpent(bid, asks, seats, vaults, ltv, turns, t, k);
    }
    LastTurn(bid, asks, seats, vaults, ltv, turns, t);
  }

  /** Later turns neither take back a refusal nor refill an empty pool. */
  lemma StillSpent(bid: Bid, asks: seq<Ask>, seats: map<nat, Seat>, vaults: seq<SubVault>, ltv: (SubVault, nat, nat) -> real, turns: seq<Turn>, t: Turn, k: nat)
    requires k < |turns| < |asks| && Spent(bid, asks, seats, vaults, ltv, turns, k)
    requires Right(t, asks[|turns|], FillsOf(turns), bid, seats, vaults, ltv)
    ensures Spent(bid, asks, seats, vaults, ltv, turns + [t], k)
  {
    Grown(turns, t);
    assert (turns + [t])[k] == turns[k];
    if t.Fill? {
      Append(FillsOf(turns), t.fill);
    }
  }

  /** A fill takes all that is wanted or empties the pool. */
  lemma FillDrains(f: Cross, before: seq<Cross>, bid: Bid, seats: map<nat, Seat>, vaults: seq<SubVault>, ltv: (SubVault, nat, nat) -> real)
    requires Sound(f, before, bid, seats, vaults, ltv)
    ensures Principal(before + [f]) == bid.principal || Pool(vaults, before + [f], Backer(f.ask, seats, vaults).value.subVaultId) == 0
  {
    Append(before, f);
  }

  lemma LastTurn(bid: Bid, asks: seq<Ask>, seats: map<nat, Seat>, vaults: seq<SubVault>, ltv: (SubVault, nat, nat) -> real, turns: seq<Turn>, t: Turn)
    requires |turns| < |asks| && Right(t, asks[|turns|], FillsOf(turns), bid, seats, vaults, ltv)
    ensures (t.Fill? && Principal(FillsOf(turns + [t])) == bid.principal) || Spent(bid, asks, seats, vaults, ltv, turns + [t], |turns|)
  {
    Grown(turns, t);
    assert (turns + [t])[|turns|] == t;
    if t.Fill? {
      FillDrains(t.fill, FillsOf(turns), bid, seats, vaults, ltv);
    } else if Fits(asks[|turns|], bid) && Backer(asks[|turns|], seats, vaults).Some? {
      PassSpends(t.skip, asks[|turns|], FillsOf(turns), bid, seats, vaults, ltv);
    }
  }

  /** An ask that could be used but is skipped is refused for its LTV or has an empty pool. */
  lemma PassSpends(s: Skip, ask: Ask, before: seq<Cross>, bid: Bid, seats: map<nat, Seat>, vaults: seq<SubVault>, ltv: (SubVault, nat, nat) -> real)
    requires Right(Pass(s), ask, before, bid, seats, vaults, ltv) && Fits(ask, bid) && Backer(ask, seats, vaults).Some?
    ensures s == Skip(ask.index, LtvExceeded) || Pool(vaults, before, Backer(ask, seats, vaults).value.subVaultId) == 0
  {
  }

  ghost predicate Tables(vaults: seq<SubVault>, subVaultById: map<nat, SubVault>) {
    && (forall id :: id in subVaultById <==> VaultOf(vaults, id).Some?)
    && (forall id <- subVaultById :: VaultOf(vaults, id) == Some(subVaultById[id]) && subVaultById[id].subVaultId == id)
  }

  /** The running pools are the starting pools less what has been drawn. */
  ghost predicate Pools(vaults: seq<SubVault>, fills: seq<Cross>, idlePool: map<nat, nat>, subVaultById: map<nat, SubVault>) {
    idlePool.Keys == subVaultById.Keys && forall id <- idlePool :: idlePool[id] == Pool(vaults, fills, id)
  }

  /** The estimator of the caller, or the default one. */
  function Estimator(given: Option<(SubVault, nat, nat) -> real>): (SubVault, nat, nat) -> real {
    if given.Some? then given.value else (v: SubVault, p: nat, c: nat) => DefaultLtvEstimator(v, p, c)
  }

  /** The walk stopped because nothing was wanted any more, or at the first ask that is too
      expensive, or at the end of the book. */
  ghost predicate Stopped(bid: Bid, asks: seq<Ask>, turns: seq<Turn>)
    requires |turns| <= |asks|
  {
    var n := |turns|;
    && (n < |asks| ==> Principal(FillsOf(turns)) == bid.principal || (n > 0 && asks[n - 1].rateBps > bid.rateBps))
    && forall k | 0 <= k < n - 1 :: asks[k].rateBps <= bid.rateBps
  }

  /** What a simulation returns. `SimulationDetermined` shows that this leaves no choice. */
  ghost predicate Simulated(bid: Bid, asks: seq<Ask>, seats: map<nat, Seat>, vaults: seq<SubVault>, ltv: (SubVault, nat, nat) -> real,
                            noFallback: bool, r: Simulation, turns: seq<Turn>) {
    && Walked(bid, asks, seats, vaults, ltv, turns) && Stopped(bid, asks, turns)
    && r.fills == FillsOf(turns) && r.skipped == SkipsOf(turns)
    && Principal(r.fills) + r.residual == bid.principal
    && (r.residualGoesToP2Pool <==> r.residual > 0 && !noFallback)
  }

  /** The walk over the book; `turns` says what it did with each ask that it looked at. */
  method SimulatePlaceOrder(bid: Bid, asks: seq<Ask>, seats: map<nat, Seat>, vaults: seq<SubVault>, noFallback: bool,
                            given: Option<(SubVault, nat, nat) -> real>)
    returns (r: Simulation, ghost turns: seq<Turn>)
    ensures Simulated(bid, asks, seats, vaults, Estimator(given), noFallback, r, turns)
    ensures Collateral(r.fills) <= bid.collateral
    ensures BestFirst(asks) && r.residual > 0 ==> forall k | 0 <= k < |asks| :: Spent(bid, asks, seats, vaults, Estimator(given), turns, k)
    ensures forall k: nat | LastRecord(vaults, k) :: WithinTotal(vaults[k], r.fills)
    ensures BestFirst(asks) && r.residual > 0 ==> UsedUp(bid, asks, seats, vaults, turns)
  {
    var ltv := Estimator(given);
    var idlePool, subVaultById := BuildPools(vaults);
    var fills, skipped, remaining;
    fills, skipped, remaining, turns := WalkAsks(bid, asks, seats, vaults, ltv, idlePool, subVaultById);
    if bid.principal > 0 {
      ShareFits(bid.collateral, bid.principal, Principal(fills), Collateral(fills));
    }
    if remaining > 0 && BestFirst(asks) {
      AllSpent(bid, asks, seats, vaults, ltv, turns);
      SpentInPlain(bid, asks, seats, vaults, ltv, turns);
    }
    NoneOverdrawn(bid, vaults, fills);
    r := Simulation(fills, remaining, remaining > 0 && !noFallback, skipped);
  }

  /** The loop over the asks. */
  method WalkAsks(bid: Bid, asks: seq<Ask>, seats: map<nat, Seat>, vaults: seq<SubVault>, ltv: (SubVault, nat, nat) -> real,
                  pool: map<nat, nat>, subVaultById: map<nat, SubVault>)
    returns (fills: seq<Cross>, skipped: seq<Skip>, remaining: nat, ghost turns: seq<Turn>)
    requires Tables(vaults, subVaultById) && Pools(vaults, [], pool, subVaultById) && forall id :: Pool(vaults, [], id) >= 0
    ensures Walked(bid, asks, seats, vaults, ltv, turns) && Stopped(bid, asks, turns)
    ensures fills == FillsOf(turns) && skipped == SkipsOf(turns) && remaining == bid.principal - Principal(fills)
  {
    var idlePool := pool;
    fills, skipped, remaining := [], [], bid.principal;
    turns := [];
    var n := 0;
    while n < |asks|
      invariant n == |turns| <= |asks| && Walked(bid, asks, seats, vaults, ltv, turns)
      invariant fills == FillsOf(turns) && skipped == SkipsOf(turns) && remaining == bid.principal - Principal(fills)
      invariant Pools(vaults, fills, idlePool, subVaultById)
      invariant forall k | 0 <= k < n :: asks[k].rateBps <= bid.rateBps
    {
      if remaining == 0 {
        break;
      }
      var ask := asks[n];
      if ask.rateBps > bid.rateBps {
        Grown(turns, Pass(Skip(ask.index, Rate)));
        TakeTurn(bid, asks, seats, vaults, ltv, turns, Pass(Skip(ask.index, Rate)));
        skipped, turns := skipped + [Skip(ask.index, Rate)], turns + [Pass(Skip(ask.index, Rate))];
        break;
      }
      fills, skipped, idlePool, remaining, turns :=
        Consider(bid, asks, seats, vaults, ltv, n, fills, skipped, idlePool, remaining, subVaultById, turns);
      n := n + 1;
    }
  }

  /** With principal left nothing on a best-first book is usable, looked at or not. */
  lemma AllSpent(bid: Bid, asks: seq<Ask>, seats: map<nat, Seat>, vaults: seq<SubVault>, ltv: (SubVault, nat, nat) -> real, turns: seq<Turn>)
    requires Walked(bid, asks, seats, vaults, ltv, turns) && Stopped(bid, asks, turns)
    requires BestFirst(asks) && Principal(FillsOf(turns)) < bid.principal
    ensures forall k | 0 <= k < |asks| :: Spent(bid, asks, seats, vaults, ltv, turns, k)
  {
    forall k | |turns| <= k < |asks| ensures Spent(bid, asks, seats, vaults, ltv, turns, k) {
      assert asks[|turns| - 1].rateBps <= asks[k].rateBps;
    }
  }

  /** A fill is drawn from its pool. */
  lemma PoolDrawn(f: Cross, fills: seq<Cross>, bid: Bid, vaults: seq<SubVault>, idlePool: map<nat, nat>, subVaultById: map<nat, SubVault>)
    requires Pools(vaults, fills, idlePool, subVaultById) && f.subVaultId in idlePool && f.principal == Size(bid, vaults, fills, f.subVaultId)
    ensures f.principal <= idlePool[f.subVaultId] && f.principal <= bid.principal - Principal(fills)
    ensures Pools(vaults, fills + [f], idlePool[f.subVaultId := idlePool[f.subVaultId] - f.principal], subVaultById)
    ensures Principal(fills + [f]) == Principal(fills) + f.principal
  {
    Append(fills, f);
  }

  /** One affordable ask: a fill or an entry in the skip list. */
  method Consider(bid: Bid, asks: seq<Ask>, seats: map<nat, Seat>, vaults: seq<SubVault>, ltv: (SubVault, nat, nat) -> real, n: nat,
                  fills: seq<Cross>, skipped: seq<Skip>, idlePool: map<nat, nat>, remaining: nat, subVaultById: map<nat, SubVault>, ghost turns: seq<Turn>)
    returns (fills': seq<Cross>, skipped': seq<Skip>, idlePool': map<nat, nat>, remaining': nat, ghost turns': seq<Turn>)
    requires n == |turns| < |asks| && asks[n].rateBps <= bid.rateBps && 0 < remaining == bid.principal - Principal(fills)
    requires Walked(bid, asks, seats, vaults, ltv, turns) && fills == FillsOf(turns) && skipped == SkipsOf(turns)
    requires Tables(vaults, subVaultById) && Pools(vaults, fills, idlePool, subVaultById)
    ensures Walked(bid, asks, seats, vaults, ltv, turns') && fills' == FillsOf(turns') && skipped' == SkipsOf(turns') && |turns'| == n + 1
    ensures remaining' == bid.principal - Principal(fills') && Pools(vaults, fills', idlePool', subVaultById)
  {
    fills', skipped', idlePool', remaining' := fills, skipped, idlePool, remaining;
    var ask := asks[n];
    var reason, fill := Examine(bid, ask, seats, vaults, ltv, fills, remaining, idlePool, subVaultById);
    ghost var t := if reason.Some? then Pass(Skip(ask.index, reason.value)) else Fill(fill);
    Grown(turns, t);
    TakeTurn(bid, asks, seats, vaults, ltv, turns, t);
    turns' := turns + [t];
    if reason.Some? {
      skipped' := skipped + [Skip(ask.index, reason.value)];
    } else {
      PoolDrawn(fill, fills, bid, vaults, idlePool, subVaultById);
      fills' := fills + [fill];
      remaining' := remaining - fill.principal;
      idlePool' := idlePool[fill.subVaultId := idlePool[fill.subVaultId] - fill.principal];
    }
  }

  /** One affordable ask: the reason to skip it or the fill that it gives. */
  method Examine(bid: Bid, ask: Ask, seats: map<nat, Seat>, vaults: seq<SubVault>, ltv: (SubVault, nat, nat) -> real,
                 ghost fills: seq<Cross>, remaining: nat, idlePool: map<nat, nat>, subVaultById: map<nat, SubVault>)
    returns (reason: Option<SkipReason>, fill: Cross)
    requires 0 < remaining == bid.principal - Principal(fills) && ask.rateBps <= bid.rateBps
    requires Tables(vaults, subVaultById) && Pools(vaults, fills, idlePool, subVaultById)
    ensures reason.None? ==> fill.ask == ask && Sound(fill, fills, bid, seats, vaults, ltv) && fill.subVaultId in idlePool
    ensures reason.Some? ==> Justified(ask, reason.value, fills, bid, seats, vaults, ltv)
  {
    fill := Cross(ask, 0, 0, 0);
    if ask.termSeconds < bid.termSeconds {
      return Some(Term), fill;
    }
    if ask.traderSeatIndex !in seats {
      return Some(SeatNotFound), fill;
    }
    var seat := seats[ask.traderSeatIndex];
    if seat.ownerKind != SubVaultOwner {
      return Some(SeatNotSubVault), fill;
    }
    if seat.subVaultId !in subVaultById {
      return Some(SubVaultNotFound), fill;
    }
    var subVault := subVaultById[seat.subVaultId];
    var idle := if subVault.subVaultId in idlePool then idlePool[subVault.subVaultId] else 0;
    if idle == 0 {
      return Some(SubVaultIdleExhausted), fill;
    }
    var matchedPrincipal := if remaining < idle then remaining else idle;
    var matchedCollateral := if bid.principal == 0 then 0 else Share(bid.collateral, matchedPrincipal, bid.principal);
    if ltv(subVault, matchedPrincipal, matchedCollateral) > subVault.maxLtvBps as real {
      return Some(LtvExceeded), fill;
    }
    return None, Cross(ask, matchedPrincipal, matchedCollateral, subVault.subVaultId);
  }

  // ---- the walk in plain terms ----

  /** Record `k` is the last one of its sub-vault. */
  ghost predicate LastRecord(vaults: seq<SubVault>, k: nat) {
    k < |vaults| && forall j | k < j < |vaults| :: vaults[j].subVaultId != vaults[k].subVaultId
  }

  lemma {:induction false} VaultIsLast(vaults: seq<SubVault>, id: nat) returns (k: nat)
    ensures VaultOf(vaults, id).None? <==> forall v <- vaults :: v.subVaultId != id
    ensures VaultOf(vaults, id).Some? ==> LastRecord(vaults, k) && vaults[k].subVaultId == id && VaultOf(vaults, id) == Some(vaults[k])
  {
    k := 0;
    if vaults != [] {
      var n := |vaults| - 1;
      assert vaults == vaults[..n] + [vaults[n]];
      if vaults[n].subVaultId == id {
        k := n;
      } else {
        k := VaultIsLast(vaults[..n], id);
      }
    }
  }

  /** The last record is the one that counts. */
  lemma LastCounts(vaults: seq<SubVault>, k: nat)
    requires LastRecord(vaults, k)
    ensures VaultOf(vaults, vaults[k].subVaultId) == Some(vaults[k])
  {
    var n := VaultIsLast(vaults, vaults[k].subVaultId);
    assert vaults[k] in vaults;
  }

  /** A sub-vault lends no more than its principal that is not deployed, and nothing when more is
      deployed than it has. */
  ghost predicate WithinTotal(v: SubVault, fills: seq<Cross>) {
    if v.totalPrincipal >= v.deployedPrincipal then Drawn(fills, v.subVaultId) + v.deployedPrincipal <= v.totalPrincipal
    else Drawn(fills, v.subVaultId) == 0
  }

  /** It has nothing left to lend. */
  ghost predicate LentOut(v: SubVault, fills: seq<Cross>) {
    v.totalPrincipal < v.deployedPrincipal || Drawn(fills, v.subVaultId) + v.deployedPrincipal == v.totalPrincipal
  }

  lemma PoolsInPlain(vaults: seq<SubVault>, fills: seq<Cross>, k: nat)
    requires LastRecord(vaults, k)
    ensures Pool(vaults, fills, vaults[k].subVaultId) >= 0 ==> WithinTotal(vaults[k], fills)
    ensures Pool(vaults, fills, vaults[k].subVaultId) == 0 ==> LentOut(vaults[k], fills)
  {
    LastCounts(vaults, k);
  }

  /** Record `k` backs an ask that meets the rate and the term of the bid. */
  ghost predicate Usable(ask: Ask, bid: Bid, seats: map<nat, Seat>, vaults: seq<SubVault>, k: nat) {
    && ask.rateBps <= bid.rateBps && ask.termSeconds >= bid.termSeconds
    && LastRecord(vaults, k) && ask.traderSeatIndex in seats
    && seats[ask.traderSeatIndex] == Seat(SubVaultOwner, vaults[k].subVaultId)
  }

  lemma NoneOverdrawn(bid: Bid, vaults: seq<SubVault>, fills: seq<Cross>)
    requires Totals(bid, vaults, fills)
    ensures forall k: nat | LastRecord(vaults, k) :: WithinTotal(vaults[k], fills)
  {
    forall k: nat | LastRecord(vaults, k) ensures WithinTotal(vaults[k], fills) {
      PoolsInPlain(vaults, fills, k);
    }
  }

  /** With principal left, what backs a usable ask has nothing left, or the ask was refused for its LTV. */
  ghost predicate UsedUp(bid: Bid, asks: seq<Ask>, seats: map<nat, Seat>, vaults: seq<SubVault>, turns: seq<Turn>) {
    forall n: nat, k: nat | n < |asks| && Usable(asks[n], bid, seats, vaults, k) ::
      LentOut(vaults[k], FillsOf(turns)) || (n < |turns| && turns[n] == Pass(Skip(asks[n].index, LtvExceeded)))
  }

  lemma SpentInPlain(bid: Bid, asks: seq<Ask>, seats: map<nat, Seat>, vaults: seq<SubVault>, ltv: (SubVault, nat, nat) -> real, turns: seq<Turn>)
    requires forall n | 0 <= n < |asks| :: Spent(bid, asks, seats, vaults, ltv, turns, n)
    ensures UsedUp(bid, asks, seats, vaults, turns)
  {
    forall n: nat, k: nat | n < |asks| && Usable(asks[n], bid, seats, vaults, k)
      ensures LentOut(vaults[k], FillsOf(turns)) || (n < |turns| && turns[n] == Pass(Skip(asks[n].index, LtvExceeded)))
    {
      assert Spent(bid, asks, seats, vaults, ltv, turns, n);
      LastCounts(vaults, k);
      PoolsInPlain(vaults, FillsOf(turns), k);
    }
  }

  /** A cross takes all that is wanted or all that the sub-vault can still lend, and the floored
      pro-rata share of the collateral. */
  ghost predicate Sized(size: nat, share: nat, v: SubVault, before: seq<Cross>, bid: Bid) {
    var wanted, there := bid.principal - Principal(before), v.totalPrincipal - v.deployedPrincipal - Drawn(before, v.subVaultId);
    && 0 < size == (if wanted < there then wanted else there)
    && share * bid.principal <= bid.collateral * size < (share + 1) * bid.principal
  }

  lemma SizeInPlain(vaults: seq<SubVault>, before: seq<Cross>, bid: Bid, k: nat, size: nat)
    requires LastRecord(vaults, k) && bid.principal > 0 && 0 < size == Size(bid, vaults, before, vaults[k].subVaultId)
    ensures Sized(size, Share(bid.collateral, size, bid.principal), vaults[k], before, bid)
  {
    LastCounts(vaults, k);
    ShareBounds(bid.collateral, size, bid.principal);
  }

  lemma ShareBounds(collateral: nat, part: nat, whole: nat)
    requires whole > 0
    ensures Share(collateral, part, whole) * whole <= collateral * part < (Share(collateral, part, whole) + 1) * whole
  {
    var n, q := collateral * part, Share(collateral, part, whole);
    assert n == q * whole + n % whole;
    assert (q + 1) * whole == q * whole + whole;
  }

  /** What a fill of the walk is, in plain terms: `k` is the record that backs it. */
  lemma FillInPlain(bid: Bid, asks: seq<Ask>, seats: map<nat, Seat>, vaults: seq<SubVault>, ltv: (SubVault, nat, nat) -> real, turns: seq<Turn>, n: nat)
    returns (k: nat)
    requires Account(bid, asks, seats, vaults, ltv, turns) && n < |turns| && turns[n].Fill?
    ensures turns[n].fill.ask == asks[n] && Usable(asks[n], bid, seats, vaults, k) && turns[n].fill.subVaultId == vaults[k].subVaultId
    ensures Sized(turns[n].fill.principal, turns[n].fill.collateral, vaults[k], FillsOf(turns[..n]), bid)
    ensures ltv(vaults[k], turns[n].fill.principal, turns[n].fill.collateral) <= vaults[k].maxLtvBps as real
  {
    assert RightAt(bid, asks, seats, vaults, ltv, turns, n);
    var f := turns[n].fill;
    k := VaultIsLast(vaults, seats[f.ask.traderSeatIndex].subVaultId);
    SizeInPlain(vaults, FillsOf(turns[..n]), bid, k, f.principal);
  }

  /** What a skip of the walk says, in plain terms: `k` is the record behind the ask where there is
      one, `size` and `share` the cross that is refused for its LTV. */
  lemma SkipInPlain(bid: Bid, asks: seq<Ask>, seats: map<nat, Seat>, vaults: seq<SubVault>, ltv: (SubVault, nat, nat) -> real, turns: seq<Turn>, n: nat)
    returns (k: nat, size: nat, share: nat)
    requires Account(bid, asks, seats, vaults, ltv, turns) && n < |turns| && turns[n].Pass?
    ensures turns[n].skip.askIndex == asks[n].index
    ensures
      var ask := asks[n];
      var fits := ask.rateBps <= bid.rateBps && ask.termSeconds >= bid.termSeconds;
      match turns[n].skip.reason
      case Rate => ask.rateBps > bid.rateBps
      case Term => ask.rateBps <= bid.rateBps && ask.termSeconds < bid.termSeconds
      case SeatNotFound => fits && ask.traderSeatIndex !in seats
      case SeatNotSubVault => fits && ask.traderSeatIndex in seats && seats[ask.traderSeatIndex].ownerKind == OtherOwner
      case SubVaultNotFound =>
        && fits && ask.traderSeatIndex in seats && seats[ask.traderSeatIndex].ownerKind == SubVaultOwner
        && forall v <- vaults :: v.subVaultId != seats[ask.traderSeatIndex].subVaultId
      case SubVaultIdleExhausted => Usable(ask, bid, seats, vaults, k) && LentOut(vaults[k], FillsOf(turns[..n]))
      case LtvExceeded =>
        && Usable(ask, bid, seats, vaults, k) && Sized(size, share, vaults[k], FillsOf(turns[..n]), bid)
        && ltv(vaults[k], size, share) > vaults[k].maxLtvBps as real
  {
    assert RightAt(bid, asks, seats, vaults, ltv, turns, n);
    var ask, before := asks[n], FillsOf(turns[..n]);
    k, size, share := 0, 0, 0;
    if Fits(ask, bid) && ask.traderSeatIndex in seats && seats[ask.traderSeatIndex].ownerKind == SubVaultOwner {
      k := VaultIsLast(vaults, seats[ask.traderSeatIndex].subVaultId);
    }
    if turns[n].skip.reason == SubVaultIdleExhausted {
      PoolsInPlain(vaults, before, k);
    } else if turns[n].skip.reason == LtvExceeded {
      size := Size(bid, vaults, before, vaults[k].subVaultId);
      share := Share(bid.collateral, size, bid.principal);
      SizeInPlain(vaults, before, bid, k, size);
    }
  }

  /** The estimator of the caller is used where there is one. The default one is the principal over
      the collateral in basis points, rounded down, and the largest safe number without collateral. */
  lemma EstimatorInPlain(given: Option<(SubVault, nat, nat) -> real>, v: SubVault, principal: nat, collateral: nat) returns (bps: nat)
    ensures given.Some? ==> Estimator(given)(v, principal, collateral) == given.value(v, principal, collateral)
    ensures given.None? && collateral == 0 ==> Estimator(given)(v, principal, collateral) == 9_007_199_254_740_991.0
    ensures given.None? && collateral > 0 ==>
              Estimator(given)(v, principal, collateral) == bps as real && bps * collateral <= principal * 10_000 < (bps + 1) * collateral
  {
    bps := 0;
    if collateral > 0 {
      ShareBounds(principal, 10_000, collateral);
      bps := Share(principal, 10_000, collateral);
    }
  }

  // ---- the contract leaves no choice ----

  /** At one turn there is only one fill, or only one reason to skip, and never both. */
  lemma OneTurn(t: Turn, u: Turn, ask: Ask, before: seq<Cross>, bid: Bid, seats: map<nat, Seat>, vaults: seq<SubVault>, ltv: (SubVault, nat, nat) -> real)
    requires Right(t, ask, before, bid, seats, vaults, ltv) && Right(u, ask, before, bid, seats, vaults, ltv)
    ensures t == u
  {
  }

  /** Two accounts of the same walk agree as far as both go. */
  lemma {:induction false} AccountsAgree(bid: Bid, asks: seq<Ask>, seats: map<nat, Seat>, vaults: seq<SubVault>, ltv: (SubVault, nat, nat) -> real,
                                         turns: seq<Turn>, others: seq<Turn>, k: nat)
    requires Account(bid, asks, seats, vaults, ltv, turns) && Account(bid, asks, seats, vaults, ltv, others) && k <= |turns| && k <= |others|
    ensures turns[..k] == others[..k]
  {
    if k > 0 {
      AccountsAgree(bid, asks, seats, vaults, ltv, turns, others, k - 1);
      assert RightAt(bid, asks, seats, vaults, ltv, turns, k - 1) && RightAt(bid, asks, seats, vaults, ltv, others, k - 1);
      OneTurn(turns[k - 1], others[k - 1], asks[k - 1], FillsOf(turns[..k - 1]), bid, seats, vaults, ltv);
      assert turns[..k] == turns[..k - 1] + [turns[k - 1]] && others[..k] == others[..k - 1] + [others[k - 1]];
    }
  }

  lemma Wanted(bid: Bid, asks: seq<Ask>, seats: map<nat, Seat>, vaults: seq<SubVault>, ltv: (SubVault, nat, nat) -> real, turns: seq<Turn>, k: nat)
    requires Account(bid, asks, seats, vaults, ltv, turns)
    ensures k < |turns| ==> Principal(FillsOf(turns[..k])) < bid.principal
  {
    if k < |turns| {
      assert RightAt(bid, asks, seats, vaults, ltv, turns, k);
    }
  }

  /** A walk that has stopped has no longer continuation. */
  lemma StopsOnce(bid: Bid, asks: seq<Ask>, seats: map<nat, Seat>, vaults: seq<SubVault>, ltv: (SubVault, nat, nat) -> real, turns: seq<Turn>, others: seq<Turn>)
    requires Account(bid, asks, seats, vaults, ltv, turns) && Stopped(bid, asks, turns)
    requires Account(bid, asks, seats, vaults, ltv, others) && Stopped(bid, asks, others)
    ensures |others| <= |turns|
  {
    var n := |turns|;
    Wanted(bid, asks, seats, vaults, ltv, others, n);
    assert turns[..n] == turns;
    if n < |others| {
      AccountsAgree(bid, asks, seats, vaults, ltv, turns, others, n);
    }
  }

  /** The contract of the simulation determines its result: the fills and skips, their order and
      their sizes. */
  lemma SimulationDetermined(bid: Bid, asks: seq<Ask>, seats: map<nat, Seat>, vaults: seq<SubVault>, ltv: (SubVault, nat, nat) -> real,
                             noFallback: bool, r: Simulation, turns: seq<Turn>, other: Simulation, others: seq<Turn>)
    requires Simulated(bid, asks, seats, vaults, ltv, noFallback, r, turns) && Simulated(bid, asks, seats, vaults, ltv, noFallback, other, others)
    ensures r == other && turns == others
  {
    StopsOnce(bid, asks, seats, vaults, ltv, turns, others);
    StopsOnce(bid, asks, seats, vaults, ltv, others, turns);
    AccountsAgree(bid, asks, seats, vaults, ltv, turns, others, |turns|);
    assert turns[..|turns|] == turns && others[..|others|] == others;
  }
}
