/**
 * Properties of the speculative roll state across several calls: repeated
 * buys and sells compose, every sale in a slot is credited to its seller
 * (and, as the source writes `remove_rolls`, only the first is), and the
 * production stats grow the seed by one bit per produced block.
 */
module RollStateProofs {
  import opened Ints
  import opened Wrappers
  import opened RollState

  /** Two buys by the same address are one buy of both amounts, saturating. */
  lemma AddRollsTwice(c: PoSChanges, history: History, a: Address, n: u64, m: u64)
    ensures AddRolls(AddRolls(c, history, a, n), history, a, m) == AddRolls(c, history, a, SaturatingAdd(n, m))
  {
    var once := AddRolls(c, history, a, n);
    assert BaseRolls(once, history, a) == once.rollChanges[a];
    var r1 := AddRolls(once, history, a, m);
    var r2 := AddRolls(c, history, a, SaturatingAdd(n, m));
    assert r1.rollChanges[a] == r2.rollChanges[a];
    assert r1.rollChanges == r2.rollChanges;
  }

  /** Two sales by the same address take off both counts, stopping at 0. */
  lemma SellRollsTwice(c: PoSChanges, history: History, a: Address, n: u64, m: u64)
    ensures SellRolls(SellRolls(c, history, a, n), history, a, m) == SellRolls(c, history, a, SaturatingAdd(n, m))
  {
    var once := SellRolls(c, history, a, n);
    assert BaseRolls(once, history, a) == once.rollChanges[a];
    var r1 := SellRolls(once, history, a, m);
    var r2 := SellRolls(c, history, a, SaturatingAdd(n, m));
    assert r1.rollChanges[a] == r2.rollChanges[a];
    assert r1.rollChanges == r2.rollChanges;
  }

  /** Selling what was just bought gives back the starting count, when the buy did not saturate. */
  lemma BuyThenSell(c: PoSChanges, history: History, a: Address, n: u64)
    requires BaseRolls(c, history, a) + n <= U64_MAX
    ensures SellRolls(AddRolls(c, history, a, n), history, a, n).rollChanges[a] == BaseRolls(c, history, a)
  {
    var bought := AddRolls(c, history, a, n);
    assert BaseRolls(bought, history, a) == BaseRolls(c, history, a) + n;
  }

  /**
   * As the source writes `remove_rolls`: when `a` and then `b` sell in a
   * slot that had no credits, `b`'s rolls are taken but `b` is owed
   * nothing at that slot.
   */
  lemma LaterSellerNotCredited(c: PoSChanges, history: History, a: Address, b: Address, slot: Slot, price: Amount, n: u64, m: u64)
    requires a != b && slot !in c.deferredCredits
    ensures var r := RemoveRollsAsWritten(RemoveRollsAsWritten(c, history, a, slot, price, n), history, b, slot, price, m);
            && r.rollChanges[b] == SaturatingSub(BaseRolls(c, history, b), m)
            && CreditOf(r.deferredCredits, slot, b) == 0
            && CreditOf(r.deferredCredits, slot, a) == SaturatingMul(price, n)
  {
    var first := RemoveRollsAsWritten(c, history, a, slot, price, n);
    assert BaseRolls(first, history, b) == BaseRolls(c, history, b);
    assert first.deferredCredits[slot] == map[a := SaturatingMul(price, n)];
  }

  /** One sale in the corrected `remove_rolls` adds `price * n` to what the seller is owed, capped at `u64::MAX`. */
  lemma SaleCredit(c: PoSChanges, history: History, a: Address, slot: Slot, price: Amount, n: u64)
    ensures CreditOf(RemoveRolls(c, history, a, slot, price, n).deferredCredits, slot, a)
            == SaturatingAdd(CreditOf(c.deferredCredits, slot, a), SaturatingMul(price, n))
    ensures Capped(CreditOf(c.deferredCredits, slot, a) + price * n, CreditOf(RemoveRolls(c, history, a, slot, price, n).deferredCredits, slot, a))
  {
    var before := CreditOf(c.deferredCredits, slot, a);
    if price * n > U64_MAX {
      assert before + price * n > U64_MAX;
    }
  }

  /** A sale of some rolls at some price in one slot. */
  datatype Sale = Sale(seller: Address, price: Amount, count: u64)

  /** The corrected `remove_rolls` for each sale in turn, all in `slot`. */
  function SellAll(c: PoSChanges, history: History, slot: Slot, sales: seq<Sale>): PoSChanges
    decreases |sales|
  {
    if |sales| == 0 then c
    else SellAll(RemoveRolls(c, history, sales[0].seller, slot, sales[0].price, sales[0].count), history, slot, sales[1..])
  }

  /** What `x` is owed after its own sales among `sales`, starting from `start`, each adding its price saturating. */
  function Owed(start: u64, x: Address, sales: seq<Sale>): u64
    decreases |sales|
  {
    if |sales| == 0 then start
    else if sales[0].seller == x then Owed(SaturatingAdd(start, SaturatingMul(sales[0].price, sales[0].count)), x, sales[1..])
    else Owed(start, x, sales[1..])
  }

  /** With the corrected `remove_rolls`, each address is owed exactly the price of its own sales, whatever the others sold. */
  lemma {:induction false} SellAllCredits(c: PoSChanges, history: History, slot: Slot, sales: seq<Sale>, x: Address)
    ensures CreditOf(SellAll(c, history, slot, sales).deferredCredits, slot, x)
            == Owed(CreditOf(c.deferredCredits, slot, x), x, sales)
    decreases |sales|
  {
    if |sales| > 0 {
      var s := sales[0];
      var next := RemoveRolls(c, history, s.seller, slot, s.price, s.count);
      SaleCredit(c, history, s.seller, slot, s.price, s.count);
      SellAllCredits(next, history, slot, sales[1..], x);
    }
  }

  /** The corrected `remove_rolls` on the scenario above: both sellers are owed their sale. */
  lemma EverySellerCredited(c: PoSChanges, history: History, a: Address, b: Address, slot: Slot, price: Amount, n: u64, m: u64)
    requires a != b && slot !in c.deferredCredits
    ensures var r := RemoveRolls(RemoveRolls(c, history, a, slot, price, n), history, b, slot, price, m);
            && r.rollChanges[b] == SaturatingSub(BaseRolls(c, history, b), m)
            && CreditOf(r.deferredCredits, slot, b) == SaturatingMul(price, m)
            && CreditOf(r.deferredCredits, slot, a) == SaturatingMul(price, n)
  {
    var sales := [Sale(a, price, n), Sale(b, price, m)];
    var first := RemoveRolls(c, history, a, slot, price, n);
    var second := RemoveRolls(first, history, b, slot, price, m);
    assert sales[1..] == [Sale(b, price, m)] && sales[1..][1..] == [];
    assert SellAll(first, history, slot, sales[1..]) == SellAll(second, history, slot, []);
    assert SellAll(c, history, slot, sales) == second;
    SellAllCredits(c, history, slot, sales, a);
    SellAllCredits(c, history, slot, sales, b);
    assert BaseRolls(first, history, b) == BaseRolls(c, history, b);
  }

  /** A call to `update_production_stats`. */
  datatype Production = Production(creator: Address, slot: Slot, containsBlock: bool)

  /** `update_production_stats` for each call in turn. */
  function RecordAll(c: PoSChanges, firstBit: Slot -> bool, ps: seq<Production>): PoSChanges
    decreases |ps|
  {
    if |ps| == 0 then c
    else RecordAll(UpdateProductionStats(c, firstBit, ps[0].creator, ps[0].slot, ps[0].containsBlock), firstBit, ps[1..])
  }

  /** The seed bits of the produced blocks among `ps` whose creator is in `known`, in order. */
  function ProducedBits(known: set<Address>, firstBit: Slot -> bool, ps: seq<Production>): seq<bool>
    decreases |ps|
  {
    if |ps| == 0 then []
    else if ps[0].creator in known && ps[0].containsBlock then [firstBit(ps[0].slot)] + ProducedBits(known, firstBit, ps[1..])
    else ProducedBits(known, firstBit, ps[1..])
  }

  /**
   * Recording production never adds or removes a creator, leaves the roll
   * changes and credits alone, and appends one seed bit per produced block
   * of a creator that has stats, in order.
   */
  lemma {:induction false} RecordAllSeedBits(c: PoSChanges, firstBit: Slot -> bool, ps: seq<Production>)
    ensures RecordAll(c, firstBit, ps).productionStats.Keys == c.productionStats.Keys
    ensures RecordAll(c, firstBit, ps).rollChanges == c.rollChanges
    ensures RecordAll(c, firstBit, ps).deferredCredits == c.deferredCredits
    ensures RecordAll(c, firstBit, ps).seedBits == c.seedBits + ProducedBits(c.productionStats.Keys, firstBit, ps)
    decreases |ps|
  {
    if |ps| == 0 {
      assert c.seedBits + [] == c.seedBits;
    } else {
      var p := ps[0];
      var next := UpdateProductionStats(c, firstBit, p.creator, p.slot, p.containsBlock);
      RecordAllSeedBits(next, firstBit, ps[1..]);
      assert next.productionStats.Keys == c.productionStats.Keys;
      if p.creator in c.productionStats && p.containsBlock {
        assert next.seedBits == c.seedBits + [firstBit(p.slot)];
      } else {
        assert next.seedBits == c.seedBits;
      }
    }
  }
}
