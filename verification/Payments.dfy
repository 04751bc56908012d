/** The payout of MoneroPool/BlockPayment.cs: shares summed by miner, the reward split in proportion. Doubles
    are exact real numbers here. */
module Payments {
  import opened Bytes
  import opened Ledger

  // ----- sums

  function SumBy<T>(s: seq<T>, f: T -> nat): nat {
    if s == [] then 0 else f(s[0]) + SumBy(s[1..], f)
  }

  lemma {:induction false} SumSame<T(!new)>(s: seq<T>, f: T -> nat, g: T -> nat)
    requires forall x :: x in s ==> f(x) == g(x)
    ensures SumBy(s, f) == SumBy(s, g)
    decreases |s|
  {
    if s != [] {
      SumSame(s[1..], f, g);
    }
  }

  lemma {:induction false} SumNone<T(!new)>(s: seq<T>, f: T -> nat)
    requires forall x :: x in s ==> f(x) == 0
    ensures SumBy(s, f) == 0
    decreases |s|
  {
    if s != [] {
      SumNone(s[1..], f);
    }
  }

  lemma {:induction false} SumPlus<T(!new)>(s: seq<T>, f: T -> nat, g: T -> nat, h: T -> nat)
    requires forall x :: x in s ==> h(x) == f(x) + g(x)
    ensures SumBy(s, h) == SumBy(s, f) + SumBy(s, g)
    decreases |s|
  {
    if s != [] {
      SumPlus(s[1..], f, g, h);
    }
  }

  lemma {:induction false} SumEnd<T(!new)>(s: seq<T>, x: T, f: T -> nat)
    ensures SumBy(s + [x], f) == SumBy(s, f) + f(x)
    decreases |s|
  {
    if s == [] {
      assert [x][1..] == [];
    } else {
      assert (s + [x])[1..] == s[1..] + [x];
      SumEnd(s[1..], x, f);
    }
  }

  function Along<X, Y>(w: (X, Y) -> nat, x: X): Y -> nat { y => w(x, y) }
  function Across<X, Y>(w: (X, Y) -> nat, y: Y): X -> nat { x => w(x, y) }
  function RowSums<X, Y>(ys: seq<Y>, w: (X, Y) -> nat): X -> nat { x => SumBy(ys, Along(w, x)) }
  function ColumnSums<X, Y>(xs: seq<X>, w: (X, Y) -> nat): Y -> nat { y => SumBy(xs, Across(w, y)) }

  /** The order of two summations does not matter. */
  lemma {:induction false} SumSwap<X(!new), Y(!new)>(xs: seq<X>, ys: seq<Y>, w: (X, Y) -> nat)
    ensures SumBy(xs, RowSums(ys, w)) == SumBy(ys, ColumnSums(xs, w))
    decreases |xs|
  {
    if xs == [] {
      SumNone(ys, ColumnSums(xs, w));
    } else {
      SumSwap(xs[1..], ys, w);
      SumPlus(ys, Along(w, xs[0]), ColumnSums(xs[1..], w), ColumnSums(xs, w));
    }
  }

  /** A sum in which only the entity with one key counts. */
  lemma {:induction false} SumOne<T(!new), K>(s: seq<T>, key: T -> K, k: K, c: T -> nat, f: T -> nat)
    requires Unique(s, key)
    requires forall x :: x in s ==> f(x) == if key(x) == k then c(x) else 0
    ensures SumBy(s, f) == match Find(s, key, k) case None => 0 case Some(x) => c(x)
    decreases |s|
  {
    if s != [] {
      assert Unique(s[1..], key);
      if key(s[0]) == k {
        forall x | x in s[1..] ensures f(x) == 0 {
          var i :| 0 < i < |s| && s[i] == x;
          assert key(s[0]) != key(s[i]);
        }
        SumNone(s[1..], f);
      } else {
        SumOne(s[1..], key, k, c, f);
      }
    }
  }

  // ----- what a payout counts

  /** A block in (low, high] with this identifier. */
  predicate BlockInRange(l: Books, id: Id, low: int, high: int) {
    exists b :: b in l.blocks && b.id == id && low < b.height <= high
  }

  predicate ShareInRange(l: Books, s: Share, low: int, high: int) {
    var r := Find(l.rewards, RewardId, s.reward);
    r.Some? && BlockInRange(l, r.value.block, low, high)
  }

  function ListedWeight(r: Reward): Share -> nat {
    (s: Share) => if s.id in r.shares then s.value else 0
  }

  /** The value of the shares in a reward record's list. */
  function ListedValue(l: Books, r: Reward): nat {
    SumBy(l.shares, ListedWeight(r))
  }

  function CountedValue(l: Books, r: Reward, low: int, high: int): nat {
    if BlockInRange(l, r.block, low, high) then ListedValue(l, r) else 0
  }

  function Counted(l: Books, low: int, high: int): Reward -> nat {
    (r: Reward) => CountedValue(l, r, low, high)
  }

  function RewardWeight(l: Books, miner: Id, low: int, high: int): Reward -> nat {
    (r: Reward) => if r.miner == miner then CountedValue(l, r, low, high) else 0
  }

  /** What the loops add up for one miner. */
  function MinerValue(l: Books, low: int, high: int): Miner -> nat {
    (m: Miner) => SumBy(l.rewards, RewardWeight(l, m.id, low, high))
  }

  function AllMinersValue(l: Books, low: int, high: int): nat {
    SumBy(l.miners, MinerValue(l, low, high))
  }

  function RangeWeight(l: Books, low: int, high: int): Share -> nat {
    (s: Share) => if ShareInRange(l, s, low, high) then s.value else 0
  }

  /** The value of the shares in the range, each counted once. */
  function RangeValue(l: Books, low: int, high: int): nat {
    SumBy(l.shares, RangeWeight(l, low, high))
  }

  function MinerTimesReward(l: Books, low: int, high: int): (Miner, Reward) -> nat {
    (m: Miner, r: Reward) => if r.miner == m.id then CountedValue(l, r, low, high) else 0
  }

  function RewardTimesShare(l: Books, low: int, high: int): (Reward, Share) -> nat {
    (r: Reward, s: Share) => if BlockInRange(l, r.block, low, high) && s.id in r.shares then s.value else 0
  }

  lemma MinersCollectRewards(l: Books, low: int, high: int)
    requires Consistent(l)
    ensures AllMinersValue(l, low, high) == SumBy(l.rewards, Counted(l, low, high))
  {
    hide CountedValue;
    var w := MinerTimesReward(l, low, high);
    forall m | m in l.miners ensures MinerValue(l, low, high)(m) == RowSums(l.rewards, w)(m) {
      SumSame(l.rewards, RewardWeight(l, m.id, low, high), Along(w, m));
    }
    SumSame(l.miners, MinerValue(l, low, high), RowSums(l.rewards, w));
    SumSwap(l.miners, l.rewards, w);
    forall r | r in l.rewards ensures ColumnSums(l.miners, w)(r) == Counted(l, low, high)(r) {
      OwnersExist(l, r);
      SumOne(l.miners, MinerId, r.miner, (m: Miner) => CountedValue(l, r, low, high), Across(w, r));
    }
    SumSame(l.rewards, ColumnSums(l.miners, w), Counted(l, low, high));
  }

  lemma RewardsCollectShares(l: Books, low: int, high: int)
    requires Consistent(l)
    ensures SumBy(l.rewards, Counted(l, low, high)) == RangeValue(l, low, high)
  {
    var w := RewardTimesShare(l, low, high);
    forall r | r in l.rewards ensures Counted(l, low, high)(r) == RowSums(l.shares, w)(r) {
      if BlockInRange(l, r.block, low, high) {
        SumSame(l.shares, ListedWeight(r), Along(w, r));
      } else {
        SumNone(l.shares, Along(w, r));
      }
    }
    SumSame(l.rewards, Counted(l, low, high), RowSums(l.shares, w));
    SumSwap(l.rewards, l.shares, w);
    forall s | s in l.shares ensures ColumnSums(l.rewards, w)(s) == RangeWeight(l, low, high)(s) {
      forall r | r in l.rewards
        ensures Across(w, s)(r) == if RewardId(r) == s.reward then ShareOf(l, s, low, high)(r) else 0
      {
        ShareIsListedOnce(l, s, r);
      }
      SumOne(l.rewards, RewardId, s.reward, ShareOf(l, s, low, high), Across(w, s));
      OwnerExists(l, s);
    }
    SumSame(l.shares, ColumnSums(l.rewards, w), RangeWeight(l, low, high));
  }

  function ShareOf(l: Books, s: Share, low: int, high: int): Reward -> nat {
    (r: Reward) => if BlockInRange(l, r.block, low, high) then s.value else 0
  }

  lemma OwnerExists(l: Books, s: Share)
    requires Consistent(l) && s in l.shares
    ensures Find(l.rewards, RewardId, s.reward).Some?
  {
    assert Listed(l.rewards, RewardId, SharesOfReward, RewardOfShare(s), ShareId(s));
  }

  /** The three nested loops count every share in the range, and each exactly once. */
  lemma EveryShareCountsOnce(l: Books, low: int, high: int)
    requires Consistent(l)
    ensures AllMinersValue(l, low, high) == RangeValue(l, low, high)
  {
    MinersCollectRewards(l, low, high);
    RewardsCollectShares(l, low, high);
  }

  // ----- whose shares they are

  /** The value of a share in the range whose reward record names the miner. */
  function OwnWeight(l: Books, miner: Id, low: int, high: int): Share -> nat {
    (s: Share) =>
      if ShareInRange(l, s, low, high) && Find(l.rewards, RewardId, s.reward).value.miner == miner then s.value else 0
  }

  function OwnRewardTimesShare(l: Books, miner: Id, low: int, high: int): (Reward, Share) -> nat {
    (r: Reward, s: Share) =>
      if r.miner == miner && BlockInRange(l, r.block, low, high) && s.id in r.shares then s.value else 0
  }

  function OwnShareOf(l: Books, s: Share, miner: Id, low: int, high: int): Reward -> nat {
    (r: Reward) => if r.miner == miner && BlockInRange(l, r.block, low, high) then s.value else 0
  }

  lemma OwnRow(l: Books, r: Reward, miner: Id, low: int, high: int)
    ensures RewardWeight(l, miner, low, high)(r) == RowSums(l.shares, OwnRewardTimesShare(l, miner, low, high))(r)
  {
    var w := OwnRewardTimesShare(l, miner, low, high);
    if r.miner == miner && BlockInRange(l, r.block, low, high) {
      SumSame(l.shares, ListedWeight(r), Along(w, r));
    } else {
      SumNone(l.shares, Along(w, r));
    }
  }

  lemma OwnColumn(l: Books, s: Share, miner: Id, low: int, high: int)
    requires Consistent(l) && s in l.shares
    ensures ColumnSums(l.rewards, OwnRewardTimesShare(l, miner, low, high))(s) == OwnWeight(l, miner, low, high)(s)
  {
    hide BlockInRange;
    var w, c := OwnRewardTimesShare(l, miner, low, high), OwnShareOf(l, s, miner, low, high);
    forall r | r in l.rewards ensures Across(w, s)(r) == if RewardId(r) == s.reward then c(r) else 0 {
      ShareIsListedOnce(l, s, r);
    }
    SumOne(l.rewards, RewardId, s.reward, c, Across(w, s));
    OwnerExists(l, s);
  }

  /** And each of them counts for the miner whom its reward record names. */
  lemma MinerGetsOwnShares(l: Books, m: Miner, low: int, high: int)
    requires Consistent(l)
    ensures MinerValue(l, low, high)(m) == SumBy(l.shares, OwnWeight(l, m.id, low, high))
  {
    hide Consistent;
    var w := OwnRewardTimesShare(l, m.id, low, high);
    forall r | r in l.rewards ensures RewardWeight(l, m.id, low, high)(r) == RowSums(l.shares, w)(r) {
      OwnRow(l, r, m.id, low, high);
    }
    SumSame(l.rewards, RewardWeight(l, m.id, low, high), RowSums(l.shares, w));
    SumSwap(l.rewards, l.shares, w);
    forall s | s in l.shares ensures ColumnSums(l.rewards, w)(s) == OwnWeight(l, m.id, low, high)(s) {
      OwnColumn(l, s, m.id, low, high);
    }
    SumSame(l.shares, ColumnSums(l.rewards, w), OwnWeight(l, m.id, low, high));
  }

  // ----- the split

  datatype Destination = Destination(address: string, amount: int)

  /** The reward of a unit of share value; `fee` is 100 more than the configured one, and 100 is added to it
      again, so the pool keeps more than half. */
  function RewardPerShare(reward: nat, poolFee: int, total: nat): real
    requires total > 0 && poolFee > -200
  {
    var fee := 100 + poolFee;
    reward as real / ((100 + fee) as real * total as real / 100.0)
  }

  /** What there is to share out. */
  function Shareable(reward: nat, poolFee: int): real
    requires poolFee > -200
  {
    reward as real * 100.0 / (200 + poolFee) as real
  }

  /** A cast to long: the fraction is cut off. */
  function Cut(x: real): nat
    requires x >= 0.0
  {
    x.Floor
  }

  function Times(value: nat, rate: real): real { value as real * rate }

  function Amount(value: nat, rate: real): nat
    requires rate >= 0.0
  {
    TimesPositive(value, rate);
    Cut(Times(value, rate))
  }

  lemma TimesPositive(value: nat, rate: real)
    requires rate >= 0.0
    ensures Times(value, rate) >= 0.0
  {}

  lemma RatePositive(reward: nat, poolFee: int, total: nat)
    requires total > 0 && poolFee > -200
    ensures RewardPerShare(reward, poolFee, total) >= 0.0
  {
    var d := (200 + poolFee) as real * total as real;
    assert d > 0.0;
  }

  /** All the shares together are worth what there is to share out. */
  lemma RateTimesTotal(reward: nat, poolFee: int, total: nat)
    requires total > 0 && poolFee > -200
    ensures Times(total, RewardPerShare(reward, poolFee, total)) == Shareable(reward, poolFee)
  {
    var r, p, t := reward as real, (200 + poolFee) as real, total as real;
    assert p * t > 0.0;
    var x := r / (p * t / 100.0);
    assert x * (p * t / 100.0) == r;
    assert x * (p * t) == r * 100.0;
    assert (x * t) * p == r * 100.0;
    assert x * t == r * 100.0 / p;
  }

  function AmountWeight(value: Miner -> nat, rate: real): Miner -> nat
    requires rate >= 0.0
  {
    (m: Miner) => Amount(value(m), rate)
  }

  /** Cutting off fractions loses less than one unit a miner. */
  lemma {:induction false} CutSum(miners: seq<Miner>, value: Miner -> nat, rate: real)
    requires rate >= 0.0
    ensures var all := SumBy(miners, AmountWeight(value, rate)) as real;
            && all <= Times(SumBy(miners, value), rate)
            && (miners != [] ==> Times(SumBy(miners, value), rate) < all + |miners| as real)
    decreases |miners|
  {
    if miners != [] {
      CutSum(miners[1..], value, rate);
      var v := value(miners[0]);
      var rest := SumBy(miners[1..], value);
      assert Times(v + rest, rate) == Times(v, rate) + Times(rest, rate);
      assert Amount(v, rate) as real <= Times(v, rate) < Amount(v, rate) as real + 1.0;
    }
  }

  /** The destinations of a payout of the books `l`; without any share value the C# code divides by zero, and
      `noValue` is what casting the result gives. */
  function AmountOf(l: Books, m: Miner, low: int, high: int, reward: nat, poolFee: int, noValue: nat): nat
    requires poolFee > -200
  {
    var total := AllMinersValue(l, low, high);
    if total == 0 then noValue
    else
      RatePositive(reward, poolFee, total);
      Amount(MinerValue(l, low, high)(m), RewardPerShare(reward, poolFee, total))
  }

  function Destinations(l: Books, low: int, high: int, reward: nat, poolFee: int, noValue: nat): seq<Destination>
    requires poolFee > -200
  {
    seq(|l.miners|, i requires 0 <= i < |l.miners| =>
      Destination(l.miners[i].address, AmountOf(l, l.miners[i], low, high, reward, poolFee, noValue)))
  }

  function MinersPaid(l: Books, low: int, high: int, reward: nat, poolFee: int, noValue: nat): (ms: seq<Miner>)
    requires poolFee > -200
    ensures |ms| == |l.miners|
  {
    seq(|l.miners|, i requires 0 <= i < |l.miners| =>
      l.miners[i].(paidOut := l.miners[i].paidOut + AmountOf(l, l.miners[i], low, high, reward, poolFee, noValue)))
  }

  function SumAmounts(ds: seq<Destination>): int {
    if ds == [] then 0 else SumAmounts(ds[..|ds| - 1]) + ds[|ds| - 1].amount
  }

  function SumPaidOut(ms: seq<Miner>): nat {
    if ms == [] then 0 else SumPaidOut(ms[..|ms| - 1]) + ms[|ms| - 1].paidOut
  }

  lemma {:induction false} PaidAsSent(before: seq<Miner>, after: seq<Miner>, ds: seq<Destination>)
    requires |before| == |after| == |ds|
    requires forall i :: 0 <= i < |ds| ==> after[i].paidOut == before[i].paidOut + ds[i].amount
    ensures SumPaidOut(after) == SumPaidOut(before) + SumAmounts(ds)
    decreases |ds|
  {
    if ds != [] {
      var n := |ds| - 1;
      PaidAsSent(before[..n], after[..n], ds[..n]);
    }
  }

  lemma {:induction false} AmountsAreSum(miners: seq<Miner>, f: Miner -> nat, ds: seq<Destination>)
    requires |ds| == |miners| && forall i :: 0 <= i < |ds| ==> ds[i].amount == f(miners[i])
    ensures SumAmounts(ds) == SumBy(miners, f)
    decreases |ds|
  {
    if ds != [] {
      var n := |ds| - 1;
      AmountsAreSum(miners[..n], f, ds[..n]);
      SumEnd(miners[..n], miners[n], f);
      assert miners == miners[..n] + [miners[n]];
    } else {
      assert miners == [];
    }
  }

  /** A payout sends no more than there is to share out, falls short of it by less than one unit a miner, and
      sends what it books as paid. The shares counted are those of the range, each once. */
  lemma PayoutIsFair(l: Books, low: int, high: int, reward: nat, poolFee: int, noValue: nat)
    requires Consistent(l) && poolFee > -200 && RangeValue(l, low, high) > 0
    ensures var ds, after := Destinations(l, low, high, reward, poolFee, noValue),
                             MinersPaid(l, low, high, reward, poolFee, noValue);
            var sent := SumAmounts(ds);
            && sent as real <= Shareable(reward, poolFee) < sent as real + |l.miners| as real
            && SumPaidOut(after) == SumPaidOut(l.miners) + sent
  {
    var total := AllMinersValue(l, low, high);
    EveryShareCountsOnce(l, low, high);
    RatePositive(reward, poolFee, total);
    var rate, value := RewardPerShare(reward, poolFee, total), MinerValue(l, low, high);
    var ds := Destinations(l, low, high, reward, poolFee, noValue);
    hide RewardPerShare, Shareable, Amount, Times, MinerValue, RangeValue;
    RateTimesTotal(reward, poolFee, total);
    CutSum(l.miners, value, rate);
    forall i | 0 <= i < |ds| ensures ds[i].amount == AmountWeight(value, rate)(l.miners[i]) {}
    AmountsAreSum(l.miners, AmountWeight(value, rate), ds);
    PaidAsSent(l.miners, MinersPaid(l, low, high, reward, poolFee, noValue), ds);
    assert l.miners == [] ==> SumBy(l.miners, value) == 0;
  }

  // ----- the code

  /** One of the two inner loops: the value of a reward record's shares. */
  method SumShares(db: PoolDatabase, r: Reward) returns (value: nat)
    ensures value == ListedValue(db.Now(), r)
  {
    value := 0;
    assert db.shares[..0] == [];
    for i := 0 to |db.shares|
      invariant value == SumBy(db.shares[..i], ListedWeight(r))
    {
      SumEnd(db.shares[..i], db.shares[i], ListedWeight(r));
      assert db.shares[..i + 1] == db.shares[..i] + [db.shares[i]];
      if db.shares[i].id in r.shares {
        value := value + db.shares[i].value;
      }
    }
    assert db.shares[..|db.shares|] == db.shares;
  }

  /** The loops of InitiatePayments for one miner. */
  method SumRewards(db: PoolDatabase, m: Miner, low: int, high: int) returns (value: nat)
    ensures value == MinerValue(db.Now(), low, high)(m)
  {
    hide ListedValue;
    ghost var l, weight := db.Now(), RewardWeight(db.Now(), m.id, low, high);
    value := 0;
    assert db.blockRewards[..0] == [];
    for i := 0 to |db.blockRewards|
      invariant value == SumBy(db.blockRewards[..i], weight)
    {
      var r := db.blockRewards[i];
      SumEnd(db.blockRewards[..i], r, weight);
      assert db.blockRewards[..i + 1] == db.blockRewards[..i] + [r];
      if r.miner == m.id && BlockInRange(Books(db.blocks, db.miners, db.blockRewards, db.shares), r.block, low, high) {
        var v := SumShares(db, r);
        value := value + v;
      }
    }
    assert db.blockRewards[..|db.blockRewards|] == db.blockRewards;
  }

  /** sharePerAddress, in the order in which the miners were added to it, and the total. */
  method SumMiners(db: PoolDatabase, low: int, high: int) returns (perAddress: seq<(string, nat)>, total: nat)
    ensures |perAddress| == |db.miners| && total == AllMinersValue(db.Now(), low, high)
    ensures forall i :: 0 <= i < |perAddress| ==>
            perAddress[i] == (db.miners[i].address, MinerValue(db.Now(), low, high)(db.miners[i]))
  {
    hide RewardWeight;
    perAddress, total := [], 0;
    ghost var value := MinerValue(db.Now(), low, high);
    assert db.miners[..0] == [];
    for i := 0 to |db.miners|
      invariant |perAddress| == i && total == SumBy(db.miners[..i], value)
      invariant forall j :: 0 <= j < i ==> perAddress[j] == (db.miners[j].address, value(db.miners[j]))
    {
      var shares := SumRewards(db, db.miners[i], low, high);
      SumEnd(db.miners[..i], db.miners[i], value);
      assert db.miners[..i + 1] == db.miners[..i] + [db.miners[i]];
      perAddress := perAddress + [(db.miners[i].address, shares)];
      total := total + shares;
    }
    assert db.miners[..|db.miners|] == db.miners;
  }

  /** InitiatePayments. Addresses are unique, or the dictionary would refuse them. */
  method InitiatePayments(db: PoolDatabase, blockHeight: int, reward: nat, poolFee: int, noValue: nat)
    returns (destinations: seq<Destination>)
    requires Unique(db.miners, MinerId) && Unique(db.miners, Address) && poolFee > -200
    modifies db`miners, db`lastPaidBlock
    ensures destinations == Destinations(old(db.Now()), old(db.lastPaidBlock), blockHeight, reward, poolFee, noValue)
    ensures db.miners == MinersPaid(old(db.Now()), old(db.lastPaidBlock), blockHeight, reward, poolFee, noValue)
    ensures db.lastPaidBlock == blockHeight
  {
    hide MinerValue, AllMinersValue, Destinations, MinersPaid, Unique;
    ghost var l, low := db.Now(), db.lastPaidBlock;
    var perAddress, total := SumMiners(db, db.lastPaidBlock, blockHeight);
    destinations := PayAll(db, perAddress, total, l, low, blockHeight, reward, poolFee, noValue);
    db.lastPaidBlock := blockHeight;
  }

  /** The foreach over sharePerAddress. */
  method PayAll(db: PoolDatabase, perAddress: seq<(string, nat)>, total: nat, ghost l: Books, ghost low: int,
                ghost high: int,
                reward: nat, poolFee: int, noValue: nat) returns (destinations: seq<Destination>)
    requires db.miners == l.miners && Unique(l.miners, MinerId) && Unique(l.miners, Address) && poolFee > -200
    requires |perAddress| == |l.miners| && total == AllMinersValue(l, low, high)
    requires forall i :: 0 <= i < |perAddress| ==>
             perAddress[i] == (l.miners[i].address, MinerValue(l, low, high)(l.miners[i]))
    modifies db`miners
    ensures destinations == Destinations(l, low, high, reward, poolFee, noValue)
    ensures db.miners == MinersPaid(l, low, high, reward, poolFee, noValue)
  {
    hide MinerValue, AllMinersValue, Destinations, MinersPaid, Unique;
    ghost var ds, ms := Destinations(l, low, high, reward, poolFee, noValue),
                        MinersPaid(l, low, high, reward, poolFee, noValue);
    destinations := [];
    PaidItems(l, low, high, reward, poolFee, noValue);
    assert db.miners == ms[..0] + l.miners[0..];
    for i := 0 to |perAddress|
      invariant destinations == ds[..i]
      invariant db.miners == ms[..i] + l.miners[i..]
    {
      var d := PayOne(db, perAddress[i].0, perAddress[i].1, total, l, ms, i, low, high, reward, poolFee, noValue);
      destinations := destinations + [d];
    }
    assert ds[..|perAddress|] == ds && ms[..|perAddress|] + l.miners[|perAddress|..] == ms;
  }

  /** One turn of that loop. */
  method PayOne(db: PoolDatabase, address: string, value: nat, total: nat, ghost l: Books, ghost ms: seq<Miner>,
                ghost i: nat,
                ghost low: int, ghost high: int, reward: nat, poolFee: int, noValue: nat) returns (d: Destination)
    requires poolFee > -200 && ms == MinersPaid(l, low, high, reward, poolFee, noValue) && i < |l.miners|
    requires Unique(l.miners, MinerId) && Unique(l.miners, Address) && db.miners == ms[..i] + l.miners[i..]
    requires address == l.miners[i].address && value == MinerValue(l, low, high)(l.miners[i])
             && total == AllMinersValue(l, low, high)
    modifies db`miners
    ensures d == Destination(l.miners[i].address, AmountOf(l, l.miners[i], low, high, reward, poolFee, noValue))
    ensures db.miners == ms[..i + 1] + l.miners[i + 1..]
  {
    hide MinerValue, AllMinersValue, MinersPaid, Unique, Find, Put, AmountOf;
    var amount := CutAmount(l, l.miners[i], value, total, low, high, reward, poolFee, noValue);
    d := Destination(address, amount);
    PaidItems(l, low, high, reward, poolFee, noValue);
    PayStep(l.miners, ms, i);
    var miner := Find(db.miners, Address, address).value;
    db.SaveMiner(miner.(paidOut := miner.paidOut + amount));
  }

  lemma PaidItems(l: Books, low: int, high: int, reward: nat, poolFee: int, noValue: nat)
    requires poolFee > -200
    ensures var ds, ms := Destinations(l, low, high, reward, poolFee, noValue),
                          MinersPaid(l, low, high, reward, poolFee, noValue);
            && |ds| == |ms| == |l.miners|
            && forall i :: 0 <= i < |l.miners| ==>
                 && ds[i] == Destination(l.miners[i].address,
                    AmountOf(l, l.miners[i], low, high, reward, poolFee, noValue))
                 && ms[i] == l.miners[i].(paidOut := l.miners[i].paidOut
                                                     + AmountOf(l, l.miners[i], low, high, reward, poolFee, noValue))
  {
    hide AmountOf;
  }

  /** The two casts on one line each: to the destination's amount and to what is booked. */
  method CutAmount(ghost l: Books, ghost m: Miner, value: nat, total: nat, ghost low: int, ghost high: int, reward: nat,
                   poolFee: int, noValue: nat)
    returns (amount: nat)
    requires poolFee > -200 && value == MinerValue(l, low, high)(m) && total == AllMinersValue(l, low, high)
    ensures amount == AmountOf(l, m, low, high, reward, poolFee, noValue)
  {
    hide MinerValue, AllMinersValue, RewardPerShare, Amount;
    if total == 0 {
      return noValue;
    }
    RatePositive(reward, poolFee, total);
    amount := Amount(value, RewardPerShare(reward, poolFee, total));
  }

  /** Bookings change neither identifiers nor addresses, so the next miner is found and replaced in its place. */
  lemma PayStep(before: seq<Miner>, after: seq<Miner>, i: nat)
    requires |before| == |after| && i < |after| && Unique(before, MinerId) && Unique(before, Address)
    requires forall j :: 0 <= j < |after| ==> after[j].id == before[j].id && after[j].address == before[j].address
    ensures var now := after[..i] + before[i..];
            && Find(now, Address, before[i].address) == Some(before[i])
            && Put(now, MinerId, after[i]) == after[..i + 1] + before[i + 1..]
  {
    var now := after[..i] + before[i..];
    assert now[i] == before[i];
    SameKeys(before, now, Address) by {
      forall j | 0 <= j < |now| ensures Address(now[j]) == Address(before[j]) {}
    }
    SameKeys(before, now, MinerId) by {
      forall j | 0 <= j < |now| ensures MinerId(now[j]) == MinerId(before[j]) {}
    }
    hide Put, Find;
    UniqueFind(now, Address, now[i]);
    EarlierDiffer(now, MinerId, i);
    PutAt(now, MinerId, after[i], i);
    assert now[..i] + [after[i]] + now[i + 1..] == after[..i + 1] + before[i + 1..];
  }

  lemma SameKeys<T(!new), K>(s: seq<T>, t: seq<T>, key: T -> K)
    requires |s| == |t| && Unique(s, key) && forall j :: 0 <= j < |t| ==> key(t[j]) == key(s[j])
    ensures Unique(t, key)
  {}

  lemma EarlierDiffer<T(!new), K>(s: seq<T>, key: T -> K, i: nat)
    requires i < |s| && Unique(s, key)
    ensures forall j :: 0 <= j < i ==> key(s[j]) != key(s[i])
  {}
}
