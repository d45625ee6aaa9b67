/**
 * The speculative roll state of the execution worker
 * (`SpeculativeRollState`, massa-execution-worker/src/speculative_roll_state.rs):
 * the proof-of-stake changes accumulated while a slot is executed
 * speculatively. Each operation is a pure function from the accumulated
 * changes to the new ones. The shared execution history is read only for
 * an address's current roll count, so it is passed in as a lookup.
 */
module RollState {
  import opened Ints
  import opened Wrappers

  /** An account address; only compared. */
  type Address(==, !new)

  /** A slot (period and thread); only compared, and asked for its first bit. */
  type Slot(==, !new)

  /** A coin amount in its raw `u64` unit. */
  type Amount = u64

  /** `ActiveHistory::fetch_roll_count`: the roll count the executed history knows for an address, if any. */
  type History = Address -> Option<u64>

  /** `ProductionStats`: how many blocks an address produced and missed. */
  datatype ProductionStats = ProductionStats(blockSuccessCount: u64, blockFailureCount: u64)

  /** `PoSChanges`: the proof-of-stake changes accumulated so far. */
  datatype PoSChanges = PoSChanges(
    seedBits: seq<bool>,
    rollChanges: map<Address, u64>,
    productionStats: map<Address, ProductionStats>,
    deferredCredits: map<Slot, map<Address, Amount>>)

  /** `PoSChanges::default()`. */
  function Empty(): PoSChanges {
    PoSChanges([], map[], map[], map[])
  }

  predicate IsEmpty(c: PoSChanges) {
    c.seedBits == [] && c.rollChanges == map[] && c.productionStats == map[] && c.deferredCredits == map[]
  }

  /** `r` is the exact value `x`, or `u64::MAX` when `x` does not fit. */
  predicate Capped(x: nat, r: u64) {
    r == if x <= U64_MAX then x else U64_MAX
  }

  /** The roll count a change starts from: the one already accumulated, else the history's, else 0. */
  function BaseRolls(c: PoSChanges, history: History, a: Address): u64 {
    if a in c.rollChanges then c.rollChanges[a]
    else match history(a) case Some(n) => n case None => 0
  }

  /** `take`: hands back everything accumulated and starts over from nothing. */
  function Take(c: PoSChanges): (r: (PoSChanges, PoSChanges))
    ensures r.0 == c
    ensures IsEmpty(r.1)
  {
    (c, Empty())
  }

  /** `get_snapshot`: a copy of the accumulated changes. */
  function GetSnapshot(c: PoSChanges): (r: PoSChanges)
    ensures r == c
  {
    c
  }

  /** `reset_to_snapshot`: the accumulated changes become the snapshot, whatever they were. */
  function ResetToSnapshot(c: PoSChanges, snapshot: PoSChanges): (r: PoSChanges)
    ensures r == snapshot
  {
    snapshot
  }

  /** Only the roll-change entry of `a` differs between `c` and `r`. */
  ghost predicate OnlyRollsOf(c: PoSChanges, r: PoSChanges, a: Address) {
    && r.seedBits == c.seedBits
    && r.productionStats == c.productionStats
    && a in r.rollChanges
    && (forall b :: b != a ==> (b in r.rollChanges <==> b in c.rollChanges))
    && (forall b :: b != a && b in c.rollChanges ==> r.rollChanges[b] == c.rollChanges[b])
  }

  /** `add_rolls`: `a` buys `n` rolls; its count saturates at `u64::MAX`. */
  function AddRolls(c: PoSChanges, history: History, a: Address, n: u64): (r: PoSChanges)
    ensures OnlyRollsOf(c, r, a)
    ensures r.deferredCredits == c.deferredCredits
    ensures Capped(BaseRolls(c, history, a) + n, r.rollChanges[a])
  {
    c.(rollChanges := c.rollChanges[a := SaturatingAdd(BaseRolls(c, history, a), n)])
  }

  /** The roll-count half of `remove_rolls`: the count saturates at 0. */
  function SellRolls(c: PoSChanges, history: History, a: Address, n: u64): (r: PoSChanges)
    ensures OnlyRollsOf(c, r, a)
    ensures r.deferredCredits == c.deferredCredits
    ensures r.rollChanges[a] == (if BaseRolls(c, history, a) >= n then BaseRolls(c, history, a) - n else 0)
    ensures r.rollChanges[a] <= BaseRolls(c, history, a)
  {
    c.(rollChanges := c.rollChanges[a := SaturatingSub(BaseRolls(c, history, a), n)])
  }

  /**
   * `remove_rolls` as the source writes it: the slot's credits are set to
   * `{a: price * n}` only when the slot has none yet (`or_insert`), so a
   * later sale in the same slot is not credited.
   */
  function RemoveRollsAsWritten(c: PoSChanges, history: History, a: Address, slot: Slot, price: Amount, n: u64): (r: PoSChanges)
    ensures OnlyRollsOf(c, r, a)
    ensures r.rollChanges[a] == SellRolls(c, history, a, n).rollChanges[a]
    ensures slot !in c.deferredCredits ==>
              r.deferredCredits == c.deferredCredits[slot := map[a := SaturatingMul(price, n)]]
    ensures slot in c.deferredCredits ==> r.deferredCredits == c.deferredCredits
  {
    var sold := SellRolls(c, history, a, n);
    if slot in c.deferredCredits then sold
    else sold.(deferredCredits := c.deferredCredits[slot := map[a := SaturatingMul(price, n)]])
  }

  /** The credit `a` is owed at `slot`; 0 when there is no entry. */
  function CreditOf(credits: map<Slot, map<Address, Amount>>, slot: Slot, a: Address): Amount {
    if slot in credits && a in credits[slot] then credits[slot][a] else 0
  }

  /**
   * The credit half of the corrected `remove_rolls`: `amount` is added to
   * what `a` is owed at `slot`, saturating, creating the slot's and the
   * address's entries when missing; every other entry is left as it was.
   */
  function AddCredit(credits: map<Slot, map<Address, Amount>>, slot: Slot, a: Address, amount: Amount): (r: map<Slot, map<Address, Amount>>)
    ensures slot in r && a in r[slot]
    ensures r.Keys == credits.Keys + {slot}
    ensures r[slot].Keys == (if slot in credits then credits[slot].Keys else {}) + {a}
    ensures forall s :: s != slot && s in credits ==> r[s] == credits[s]
    ensures forall b :: b != a ==> CreditOf(r, slot, b) == CreditOf(credits, slot, b)
    ensures Capped(CreditOf(credits, slot, a) + amount, CreditOf(r, slot, a))
  {
    var before := if slot in credits then credits[slot] else map[];
    credits[slot := before[a := SaturatingAdd(CreditOf(credits, slot, a), amount)]]
  }

  /**
   * `remove_rolls` as its documentation describes it: the seller's rolls go
   * down and the sale's price is added to what the seller is owed at
   * `slot`, whoever else sold in that slot before.
   */
  function RemoveRolls(c: PoSChanges, history: History, a: Address, slot: Slot, price: Amount, n: u64): (r: PoSChanges)
    ensures OnlyRollsOf(c, r, a)
    ensures r.rollChanges[a] == SellRolls(c, history, a, n).rollChanges[a]
    ensures r.deferredCredits == AddCredit(c.deferredCredits, slot, a, SaturatingMul(price, n))
  {
    SellRolls(c, history, a, n).(deferredCredits := AddCredit(c.deferredCredits, slot, a, SaturatingMul(price, n)))
  }

  /** A counter went up by one, or stayed at `u64::MAX`. */
  predicate CountedOnce(before: u64, after: u64) {
    Capped(before + 1, after)
  }

  /** `update_production_stats`: counts a produced or missed block for a creator that already has stats. */
  function UpdateProductionStats(c: PoSChanges, firstBit: Slot -> bool, creator: Address, slot: Slot, containsBlock: bool): (r: PoSChanges)
    ensures r.rollChanges == c.rollChanges && r.deferredCredits == c.deferredCredits
    ensures creator !in c.productionStats ==> r == c
    ensures creator in c.productionStats ==>
              && r.productionStats.Keys == c.productionStats.Keys
              && (forall b :: b in c.productionStats && b != creator ==> r.productionStats[b] == c.productionStats[b])
    ensures creator in c.productionStats && containsBlock ==>
              && r.productionStats[creator].blockFailureCount == c.productionStats[creator].blockFailureCount
              && CountedOnce(c.productionStats[creator].blockSuccessCount, r.productionStats[creator].blockSuccessCount)
              && r.seedBits == c.seedBits + [firstBit(slot)]
    ensures creator in c.productionStats && !containsBlock ==>
              && r.productionStats[creator].blockSuccessCount == c.productionStats[creator].blockSuccessCount
              && CountedOnce(c.productionStats[creator].blockFailureCount, r.productionStats[creator].blockFailureCount)
              && r.seedBits == c.seedBits
  {
    if creator !in c.productionStats then c
    else
      var stats := c.productionStats[creator];
      if containsBlock then
        c.(productionStats := c.productionStats[creator := stats.(blockSuccessCount := SaturatingAdd(stats.blockSuccessCount, 1))],
           seedBits := c.seedBits + [firstBit(slot)])
      else
        c.(productionStats := c.productionStats[creator := stats.(blockFailureCount := SaturatingAdd(stats.blockFailureCount, 1))])
  }

  /** `settle_slot`: nothing is settled yet, so nothing changes. */
  function SettleSlot(c: PoSChanges, slot: Slot): (r: PoSChanges)
    ensures r == c
  {
    c
  }
}
