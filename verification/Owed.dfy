/** Who gets what (MoneroPool/CryptoNightPool.cs, MoneroPool/BlockPayment.cs): a share belongs to the miner with the
    worker's address, and what a payment pass books and sends is, up to the cut fractions, the miner's part of the
    rewards of the blocks that are confirmed. All of it is said of the shares, one by one, and of the daemon's
    answers. */
module Owed {
  import opened Bytes
  import opened Ledger
  import opened Payments
  import opened PaymentRuns

  // ----- shares and their miners

  /** The share's reward record names the miner. */
  predicate Owns(l: Books, s: Share, miner: Id) {
    var r := Find(l.rewards, RewardId, s.reward);
    r.Some? && r.value.miner == miner
  }

  function OwnedWeight(l: Books, miner: Id): Share -> nat {
    (s: Share) => if Owns(l, s, miner) then s.value else 0
  }

  function OwnedValue(l: Books, miner: Id): nat { SumBy(l.shares, OwnedWeight(l, miner)) }

  /** The record that a credit puts the share into. */
  function CreditedRecord(l: Books, height: int, address: string, ids: Fresh): Reward {
    var block, miner := BlockAt(l, height, ids.block), MinerAt(l, address, ids.miner);
    match Find(l.rewards, Pair, (miner.id, block.id))
    case Some(r) => r.(shares := r.shares + [ids.share])
    case None => Reward(ids.reward, miner.id, block.id, [ids.share])
  }

  lemma CreditParts(l: Books, height: int, address: string, value: nat, ids: Fresh)
    requires Consistent(l) && IsFresh(l, ids)
    ensures var after, r := Credit(l, height, address, value, ids), CreditedRecord(l, height, address, ids);
            && after.rewards == Put(l.rewards, RewardId, r)
            && after.shares == l.shares + [Share(ids.share, r.id, value)]
            && r.miner == MinerAt(l, address, ids.miner).id && r.block == BlockAt(l, height, ids.block).id
  {
    hide Linked, Unique;
    PutNew(l.shares, ShareId, Share(ids.share, CreditedRecord(l, height, address, ids).id, value));
  }

  /** The miner and the block of the record are those of the worker's address and of the current height. */
  lemma CreditedOwners(l: Books, height: int, address: string, value: nat, ids: Fresh)
    requires Consistent(l) && IsFresh(l, ids)
    ensures var after, r := Credit(l, height, address, value, ids), CreditedRecord(l, height, address, ids);
            && Find(after.miners, MinerId, r.miner).Some?
            && Find(after.miners, MinerId, r.miner).value.address == address
            && Find(after.blocks, BlockId, r.block).Some?
            && Find(after.blocks, BlockId, r.block).value.height == height
  {
    hide Linked, Unique;
    var block, miner := BlockAt(l, height, ids.block), MinerAt(l, address, ids.miner);
    MinerIs(l, address, ids);
    BlockIs(l, height, ids);
    var found := Find(l.rewards, Pair, (miner.id, block.id));
    var m := if found.Some? then miner else miner.(rewards := miner.rewards + [ids.reward]);
    var b := if found.Some? then block else block.(rewards := block.rewards + [ids.reward]);
    PutFind(l.miners, MinerId, m, miner.id);
    PutFind(l.blocks, BlockId, b, block.id);
  }

  /** No share known before changes hands. */
  lemma OwnersStay(l: Books, height: int, address: string, value: nat, ids: Fresh, s: Share, miner: Id)
    requires Consistent(l) && IsFresh(l, ids) && s in l.shares
    ensures Owns(Credit(l, height, address, value, ids), s, miner) <==> Owns(l, s, miner)
  {
    hide Linked, Unique, Credit;
    var r := CreditedRecord(l, height, address, ids);
    CreditParts(l, height, address, value, ids);
    OwnerExists(l, s);
    PutFind(l.rewards, RewardId, r, s.reward);
    RecordIsOldOrNew(l, height, address, ids);
  }

  lemma RecordIsOldOrNew(l: Books, height: int, address: string, ids: Fresh)
    requires Consistent(l) && IsFresh(l, ids)
    ensures var r := CreditedRecord(l, height, address, ids);
            match Find(l.rewards, RewardId, r.id)
            case Some(before) => before.miner == r.miner
            case None => r.id == ids.reward
  {
    hide Linked;
    var block, miner := BlockAt(l, height, ids.block), MinerAt(l, address, ids.miner);
    var found := Find(l.rewards, Pair, (miner.id, block.id));
    if found.Some? { UniqueFind(l.rewards, RewardId, found.value); }
  }

  /** A credit: the new share is found under its identifier, its record leads to the worker's address and the
      current height, and the share value of every miner grows by the share's if the address is his. */
  lemma CreditGoesToWorker(l: Books, height: int, address: string, value: nat, ids: Fresh, m: Miner)
    requires Consistent(l) && IsFresh(l, ids)
    ensures var after := Credit(l, height, address, value, ids);
            var s := Find(after.shares, ShareId, ids.share);
            && s.Some? && s.value.value == value
            && (exists miner, block :: Find(after.miners, Address, address) == Some(miner)
                                       && Find(after.blocks, Height, height) == Some(block)
                                       && Find(after.rewards, Pair, (miner.id, block.id)).Some?
                                       && Find(after.rewards, RewardId, s.value.reward)
                                          == Find(after.rewards, Pair, (miner.id, block.id)))
            && (m in after.miners ==>
                  OwnedValue(after, m.id) == OwnedValue(l, m.id) + if m.address == address then value else 0)
  {
    hide Credit, CreditedRecord, Consistent;
    var after, r := Credit(l, height, address, value, ids), CreditedRecord(l, height, address, ids);
    CreditKeeps(l, height, address, value, ids);
    CreditParts(l, height, address, value, ids);
    CreditedOwners(l, height, address, value, ids);
    NewShareAndRecord(l, after, r, height, address, value, ids);
    if m in after.miners {
      ByAddress(after, m, r.miner, address);
      OwnedGrows(l, height, address, value, ids, m.id);
    }
  }

  lemma NewShareAndRecord(l: Books, after: Books, r: Reward, height: int, address: string, value: nat, ids: Fresh)
    requires Consistent(l) && Consistent(after) && IsFresh(l, ids)
    requires after.rewards == Put(l.rewards, RewardId, r) && after.shares == l.shares + [Share(ids.share, r.id, value)]
    requires Find(after.miners, MinerId, r.miner).Some? && Find(after.miners, MinerId, r.miner).value.address == address
    requires Find(after.blocks, BlockId, r.block).Some? && Find(after.blocks, BlockId, r.block).value.height == height
    ensures Find(after.shares, ShareId, ids.share) == Some(Share(ids.share, r.id, value))
    ensures var miner, block := Find(after.miners, MinerId, r.miner).value, Find(after.blocks, BlockId, r.block).value;
            && Find(after.miners, Address, address) == Some(miner) && Find(after.blocks, Height, height) == Some(block)
            && Find(after.rewards, RewardId, r.id) == Some(r) == Find(after.rewards, Pair, (miner.id, block.id))
  {
    hide Linked;
    UniqueFind(after.shares, ShareId, Share(ids.share, r.id, value));
    UniqueFind(after.miners, Address, Find(after.miners, MinerId, r.miner).value);
    UniqueFind(after.blocks, Height, Find(after.blocks, BlockId, r.block).value);
    UniqueFind(after.rewards, RewardId, r);
    UniqueFind(after.rewards, Pair, r);
  }

  lemma ByAddress(l: Books, m: Miner, id: Id, address: string)
    requires Consistent(l) && m in l.miners
    requires Find(l.miners, MinerId, id).Some? && Find(l.miners, MinerId, id).value.address == address
    ensures m.address == address <==> m.id == id
  {
    hide Linked;
    UniqueFind(l.miners, MinerId, m);
    UniqueFind(l.miners, Address, m);
    UniqueFind(l.miners, Address, Find(l.miners, MinerId, id).value);
  }

  lemma OwnedGrows(l: Books, height: int, address: string, value: nat, ids: Fresh, miner: Id)
    requires Consistent(l) && IsFresh(l, ids)
    ensures OwnedValue(Credit(l, height, address, value, ids), miner)
         == OwnedValue(l, miner) + if CreditedRecord(l, height, address, ids).miner == miner then value else 0
  {
    hide Consistent, Credit, CreditedRecord;
    var after, r := Credit(l, height, address, value, ids), CreditedRecord(l, height, address, ids);
    var share := Share(ids.share, r.id, value);
    CreditParts(l, height, address, value, ids);
    PutFind(l.rewards, RewardId, r, r.id);
    SumEnd(l.shares, share, OwnedWeight(after, miner));
    forall s | s in l.shares ensures OwnedWeight(after, miner)(s) == OwnedWeight(l, miner)(s) {
      OwnersStay(l, height, address, value, ids, s, miner);
    }
    SumSame(l.shares, OwnedWeight(after, miner), OwnedWeight(l, miner));
  }

  // ----- what a range of blocks owes

  predicate InRange(l: Books, s: Share, low: int, high: int) {
    var h := HeightOf(l, s);
    h.Some? && low < h.value <= high
  }

  function PartWeight(l: Books, miner: Id, low: int, high: int): Share -> nat {
    (s: Share) => if InRange(l, s, low, high) && Owns(l, s, miner) then s.value else 0
  }

  function WholeWeight(l: Books, low: int, high: int): Share -> nat {
    (s: Share) => if InRange(l, s, low, high) then s.value else 0
  }

  function Part(l: Books, miner: Id, low: int, high: int): nat { SumBy(l.shares, PartWeight(l, miner, low, high)) }
  function Whole(l: Books, low: int, high: int): nat { SumBy(l.shares, WholeWeight(l, low, high)) }

  /** The reward less the fee, which the source adds to 100 twice. */
  function NetReward(reward: nat, rules: Settings): real
    requires rules.poolFee > -200
  {
    reward as real * 100.0 / (200 + rules.poolFee) as real
  }

  function PartOf(pot: real, part: nat, whole: nat): real
    requires whole > 0
  {
    part as real * pot / whole as real
  }

  /** The fraction is cut off. */
  predicate IsCut(amount: int, due: real) { amount as real <= due < amount as real + 1.0 }

  /** The miner's part of the reward of the block at `high`, uncut; without any share value the source divides by
      zero, and `noValue` is what comes of it. */
  function Due(l: Books, miner: Id, low: int, high: int, reward: nat, rules: Settings): real
    requires rules.poolFee > -200
  {
    var whole := Whole(l, low, high);
    if whole == 0 then rules.noValue as real
    else PartOf(NetReward(reward, rules), Part(l, miner, low, high), whole)
  }

  lemma PartIsMinerValue(l: Books, m: Miner, low: int, high: int)
    requires Consistent(l)
    ensures MinerValue(l, low, high)(m) == Part(l, m.id, low, high)
  {
    hide Consistent, HeightOf, MinerValue, ShareInRange;
    MinerGetsOwnShares(l, m, low, high);
    forall s | s in l.shares ensures OwnWeight(l, m.id, low, high)(s) == PartWeight(l, m.id, low, high)(s) {
      RangeIsHeight(l, s, low, high);
      OwnerExists(l, s);
    }
    SumSame(l.shares, OwnWeight(l, m.id, low, high), PartWeight(l, m.id, low, high));
  }

  lemma WholeIsTotal(l: Books, low: int, high: int)
    requires Consistent(l)
    ensures AllMinersValue(l, low, high) == RangeValue(l, low, high) == Whole(l, low, high)
  {
    hide Consistent, HeightOf, ShareInRange, AllMinersValue;
    EveryShareCountsOnce(l, low, high);
    forall s | s in l.shares ensures RangeWeight(l, low, high)(s) == WholeWeight(l, low, high)(s) {
      RangeIsHeight(l, s, low, high);
    }
    SumSame(l.shares, RangeWeight(l, low, high), WholeWeight(l, low, high));
  }

  lemma CutOfRate(value: nat, total: nat, shareable: real, rate: real)
    requires total > 0 && rate >= 0.0 && Times(total, rate) == shareable
    ensures IsCut(Amount(value, rate), PartOf(shareable, value, total))
  {
    AmountIsCut(value, rate);
    var v, t := value as real, total as real;
    assert shareable == t * rate;
    Regrouped(v, t, rate);
    Quotient(v * rate, v * shareable, t);
    assert PartOf(shareable, value, total) == Times(value, rate);
  }

  lemma Regrouped(v: real, t: real, rate: real)
    ensures (v * rate) * t == v * (t * rate)
  {}

  lemma Quotient(x: real, y: real, t: real)
    requires t > 0.0 && x * t == y
    ensures y / t == x
  {}

  lemma AmountIsCut(value: nat, rate: real)
    requires rate >= 0.0
    ensures IsCut(Amount(value, rate), Times(value, rate))
  {
    TimesPositive(value, rate);
    hide Times;
  }

  /** A miner gets what is due, with the fraction cut off. */
  lemma AmountIsDue(l: Books, m: Miner, low: int, high: int, reward: nat, rules: Settings)
    requires Consistent(l) && rules.poolFee > -200
    ensures IsCut(AmountOf(l, m, low, high, reward, rules.poolFee, rules.noValue),
            Due(l, m.id, low, high, reward, rules))
  {
    hide Consistent, Part, Whole, MinerValue, AllMinersValue, Amount, RewardPerShare, RangeValue, Times;
    PartIsMinerValue(l, m, low, high);
    WholeIsTotal(l, low, high);
    var total, part := AllMinersValue(l, low, high), MinerValue(l, low, high)(m);
    if total > 0 {
      var rate := RewardPerShare(reward, rules.poolFee, total);
      RatePositive(reward, rules.poolFee, total);
      RateTimesTotal(reward, rules.poolFee, total);
      assert Shareable(reward, rules.poolFee) == NetReward(reward, rules);
      hide NetReward, Shareable, IsCut, PartOf;
      CutOfRate(part, total, NetReward(reward, rules), rate);
    }
  }

  /** What is due depends on shares, records and heights only. */
  lemma SameDue(l: Books, l': Books, miner: Id, low: int, high: int, reward: nat, rules: Settings)
    requires rules.poolFee > -200 && l'.shares == l.shares && l'.rewards == l.rewards
    requires forall id :: HeightOfBlock(l'.blocks, id) == HeightOfBlock(l.blocks, id)
    ensures Due(l', miner, low, high, reward, rules) == Due(l, miner, low, high, reward, rules)
  {
    hide HeightOf, HeightOfBlock, NetReward, PartOf;
    forall s | s in l.shares
      ensures PartWeight(l', miner, low, high)(s) == PartWeight(l, miner, low, high)(s)
      ensures WholeWeight(l', low, high)(s) == WholeWeight(l, low, high)(s)
    {
      HeightsStay(l, l', s);
    }
    SumSame(l.shares, PartWeight(l', miner, low, high), PartWeight(l, miner, low, high));
    SumSame(l.shares, WholeWeight(l', low, high), WholeWeight(l, low, high));
    assert Part(l', miner, low, high) == Part(l, miner, low, high);
    assert Whole(l', low, high) == Whole(l, low, high);
  }

  // ----- a payment pass

  /** A block to pay: confirmed, as the daemon answers. */
  predicate Confirmed(b: PoolBlock, daemon: Daemon, rules: Settings) {
    !daemon(b).orphan && daemon(b).depth >= rules.confirms
  }

  /** Heights and rewards of the confirmed blocks among the pending ones. */
  function ToPay(todo: seq<PoolBlock>, daemon: Daemon, rules: Settings): seq<(int, nat)> {
    if todo == [] then []
    else
      var rest := ToPay(todo[1..], daemon, rules);
      if Confirmed(todo[0], daemon, rules) then [(todo[0].height, daemon(todo[0]).reward)] + rest else rest
  }

  /** Each block is paid for the range from the one paid before it. */
  function DueForAll(l: Books, miner: Id, low: int, blocks: seq<(int, nat)>, rules: Settings): real
    requires rules.poolFee > -200
    decreases |blocks|
  {
    if blocks == [] then 0.0
    else Due(l, miner, low, blocks[0].0, blocks[0].1, rules) + DueForAll(l, miner, blocks[0].0, blocks[1..], rules)
  }

  /** What one payout shares out. */
  function BlockPot(l: Books, low: int, high: int, reward: nat, rules: Settings): real
    requires rules.poolFee > -200
  {
    if Whole(l, low, high) == 0 then (|l.miners| * rules.noValue) as real else NetReward(reward, rules)
  }

  /** All that is shared out: for each block its reward less the fee. */
  function Pot(l: Books, low: int, blocks: seq<(int, nat)>, rules: Settings): real
    requires rules.poolFee > -200
    decreases |blocks|
  {
    if blocks == [] then 0.0
    else
      BlockPot(l, low, blocks[0].0, blocks[0].1, rules) + Pot(l, blocks[0].0, blocks[1..], rules)
  }

  lemma {:induction false} SameDueForAll(l: Books, l': Books, miner: Id, low: int, blocks: seq<(int, nat)>,
                                         rules: Settings)
    requires rules.poolFee > -200 && l'.shares == l.shares && l'.rewards == l.rewards
    requires forall id :: HeightOfBlock(l'.blocks, id) == HeightOfBlock(l.blocks, id)
    ensures DueForAll(l', miner, low, blocks, rules) == DueForAll(l, miner, low, blocks, rules)
    decreases |blocks|
  {
    hide Due, HeightOfBlock;
    if blocks != [] {
      SameDue(l, l', miner, low, blocks[0].0, blocks[0].1, rules);
      SameDueForAll(l, l', miner, blocks[0].0, blocks[1..], rules);
    }
  }

  /** A miner after some payouts: more is booked, nothing else is changed. */
  ghost predicate Booked(before: Miner, after: Miner, due: real, payouts: nat) {
    && after.(paidOut := before.paidOut) == before && after.paidOut >= before.paidOut
    && (after.paidOut - before.paidOut) as real <= due
    && due <= (after.paidOut - before.paidOut) as real + payouts as real
    && (payouts > 0 ==> due < (after.paidOut - before.paidOut) as real + payouts as real)
  }

  lemma BookedTwice(a: Miner, b: Miner, c: Miner, x: real, y: real, n: nat)
    requires Booked(a, b, x, 1) && Booked(b, c, y, n)
    ensures Booked(a, c, x + y, n + 1)
  {}

  /** What one visit leaves as it was: shares, records, heights. */
  ghost predicate SameShares(l: Books, l': Books) {
    && l'.shares == l.shares && l'.rewards == l.rewards
    && forall id :: HeightOfBlock(l'.blocks, id) == HeightOfBlock(l.blocks, id)
  }

  /** A confirmed block pays every miner what is due; any other pays nobody. */
  lemma VisitPays(p: Pool, b: PoolBlock, daemon: Daemon, rules: Settings, i: nat)
    requires Consistent(p.books) && rules.poolFee > -200 && i < |p.books.miners|
    ensures var next := Visit(p, b, daemon, rules);
            && Consistent(next.books) && SameShares(p.books, next.books) && |next.books.miners| == |p.books.miners|
            && (if Confirmed(b, daemon, rules) then
                  && next.lastPaid == b.height
                  && Booked(p.books.miners[i], next.books.miners[i],
                            Due(p.books, p.books.miners[i].id, p.lastPaid, b.height, daemon(b).reward, rules), 1)
                else next.lastPaid == p.lastPaid && next.books.miners == p.books.miners)
  {
    hide Consistent, HeightOfBlock, Due, AmountOf, Put, PaidIds;
    var l, reward := p.books, daemon(b).reward;
    if Confirmed(b, daemon, rules) {
      PaidStaysConsistent(l, p.lastPaid, b.height, reward, rules.poolFee, rules.noValue);
      PaidItems(l, p.lastPaid, b.height, reward, rules.poolFee, rules.noValue);
      AmountIsDue(l, l.miners[i], p.lastPaid, b.height, reward, rules);
      hide MinersPaid;
    } else if daemon(b).orphan {
      MarkStaysConsistent(l, b.height);
      match Find(l.blocks, Height, b.height)
      case None =>
      case Some(record) => ChangedBlock(l, record, record.(orphan := true));
    }
  }

  /** A whole pass books for every miner what is due from all the confirmed blocks, each cut once. */
  lemma {:induction false} PassPays(p: Pool, todo: seq<PoolBlock>, daemon: Daemon, rules: Settings, i: nat)
    requires Consistent(p.books) && rules.poolFee > -200 && i < |p.books.miners|
    ensures var after := Pass(p, todo, daemon, rules).books.miners;
            && |after| == |p.books.miners|
            && Booked(p.books.miners[i], after[i],
                      DueForAll(p.books, p.books.miners[i].id, p.lastPaid, ToPay(todo, daemon, rules), rules),
                      |ToPay(todo, daemon, rules)|)
    decreases |todo|
  {
    hide Consistent, Visit, Due, Stays, SameShares, HeightOfBlock, Booked, Confirmed;
    var m := p.books.miners[i];
    if todo == [] {
      assert Booked(m, m, 0.0, 0) by { NothingBooked(m); }
    } else {
      var b, rest := todo[0], todo[1..];
      var next := Visit(p, b, daemon, rules);
      VisitPays(p, b, daemon, rules, i);
      var q := if Stays(b, daemon, rules) then next.(pending := next.pending + [b]) else next;
      PassPays(q, rest, daemon, rules, i);
      var blocks := ToPay(rest, daemon, rules);
      VisitDue(p.books, next.books, m.id, next.lastPaid, blocks, rules);
      SameMiner(p, b, daemon, rules, i);
      if Confirmed(b, daemon, rules) {
        var all := ToPay(todo, daemon, rules);
        assert all[0] == (b.height, daemon(b).reward) && all[1..] == blocks;
        BookedTwice(m, next.books.miners[i], Pass(p, todo, daemon, rules).books.miners[i],
                    Due(p.books, m.id, p.lastPaid, b.height, daemon(b).reward, rules),
                    DueForAll(p.books, m.id, b.height, blocks, rules), |blocks|);
      }
    }
  }

  lemma NothingBooked(m: Miner)
    ensures Booked(m, m, 0.0, 0)
  {}

  lemma VisitDue(l: Books, l': Books, miner: Id, low: int, blocks: seq<(int, nat)>, rules: Settings)
    requires rules.poolFee > -200 && SameShares(l, l')
    ensures DueForAll(l', miner, low, blocks, rules) == DueForAll(l, miner, low, blocks, rules)
  {
    hide Due, HeightOfBlock;
    SameDueForAll(l, l', miner, low, blocks, rules);
  }

  lemma SameMiner(p: Pool, b: PoolBlock, daemon: Daemon, rules: Settings, i: nat)
    requires Consistent(p.books) && rules.poolFee > -200 && i < |p.books.miners|
    ensures var next := Visit(p, b, daemon, rules);
            |next.books.miners| == |p.books.miners| && next.books.miners[i].id == p.books.miners[i].id
  {
    hide Consistent, Due, Visit, SameShares;
    VisitPays(p, b, daemon, rules, i);
  }

  /** What is sent is what is booked: to each miner's address what is due to him, cut. */
  lemma SentIsDue(l: Books, low: int, high: int, reward: nat, rules: Settings, i: nat)
    requires Consistent(l) && rules.poolFee > -200 && i < |l.miners|
    ensures var ds, after := Destinations(l, low, high, reward, rules.poolFee, rules.noValue),
                             MinersPaid(l, low, high, reward, rules.poolFee, rules.noValue);
            && |ds| == |after| == |l.miners| && ds[i].address == l.miners[i].address
            && IsCut(ds[i].amount, Due(l, l.miners[i].id, low, high, reward, rules))
            && after[i].paidOut == l.miners[i].paidOut + ds[i].amount
  {
    hide Consistent, Due, IsCut, AmountOf;
    PaidItems(l, low, high, reward, rules.poolFee, rules.noValue);
    AmountIsDue(l, l.miners[i], low, high, reward, rules);
  }

  // ----- the totals of a pass

  lemma {:induction false} AllGrowAlike(before: seq<Miner>, after: seq<Miner>, n: nat)
    requires |after| == |before| && forall i :: 0 <= i < |before| ==> after[i].paidOut == before[i].paidOut + n
    ensures SumPaidOut(after) == SumPaidOut(before) + |before| * n
    decreases |before|
  {
    if before != [] {
      var m := |before| - 1;
      AllGrowAlike(before[..m], after[..m], n);
    }
  }

  /** One payout books no more than the reward less the fee, and less than one unit a miner below it. */
  lemma PayoutTotal(l: Books, low: int, high: int, reward: nat, rules: Settings)
    requires Consistent(l) && rules.poolFee > -200
    ensures var after := MinersPaid(l, low, high, reward, rules.poolFee, rules.noValue);
            var d := (SumPaidOut(after) - SumPaidOut(l.miners)) as real;
            && d <= BlockPot(l, low, high, reward, rules) <= d + |l.miners| as real
            && (Whole(l, low, high) > 0 ==> NetReward(reward, rules) < d + |l.miners| as real)
  {
    hide Consistent, Whole, AllMinersValue, RangeValue, MinerValue, RewardPerShare, SumPaidOut, SumAmounts;
    WholeIsTotal(l, low, high);
    assert Shareable(reward, rules.poolFee) == NetReward(reward, rules);
    hide Shareable, NetReward;
    var after := MinersPaid(l, low, high, reward, rules.poolFee, rules.noValue);
    if Whole(l, low, high) > 0 {
      PayoutIsFair(l, low, high, reward, rules.poolFee, rules.noValue);
    } else {
      AllGrowAlike(l.miners, after, rules.noValue);
    }
  }

  lemma VisitTotal(p: Pool, b: PoolBlock, daemon: Daemon, rules: Settings)
    requires Consistent(p.books) && rules.poolFee > -200
    ensures var next := Visit(p, b, daemon, rules);
            var d := (SumPaidOut(next.books.miners) - SumPaidOut(p.books.miners)) as real;
            && Consistent(next.books) && SameShares(p.books, next.books) && |next.books.miners| == |p.books.miners|
            && (if Confirmed(b, daemon, rules) then
                  var pot := BlockPot(p.books, p.lastPaid, b.height, daemon(b).reward, rules);
                  next.lastPaid == b.height && d <= pot <= d + |p.books.miners| as real
                else next.lastPaid == p.lastPaid && d == 0.0)
  {
    hide Consistent, HeightOfBlock, BlockPot, AmountOf, Put, PaidIds, SumPaidOut;
    var l, reward := p.books, daemon(b).reward;
    if Confirmed(b, daemon, rules) {
      PaidStaysConsistent(l, p.lastPaid, b.height, reward, rules.poolFee, rules.noValue);
      PayoutTotal(l, p.lastPaid, b.height, reward, rules);
      hide MinersPaid;
    } else if daemon(b).orphan {
      MarkStaysConsistent(l, b.height);
      match Find(l.blocks, Height, b.height)
      case None =>
      case Some(record) => ChangedBlock(l, record, record.(orphan := true));
    }
  }

  /** The pot depends on shares, records, heights and the number of miners only. */
  lemma {:induction false} SamePot(l: Books, l': Books, low: int, blocks: seq<(int, nat)>, rules: Settings)
    requires rules.poolFee > -200 && SameShares(l, l') && |l'.miners| == |l.miners|
    ensures Pot(l', low, blocks, rules) == Pot(l, low, blocks, rules)
    decreases |blocks|
  {
    hide SameShares, NetReward;
    if blocks != [] {
      SameWhole(l, l', low, blocks[0].0);
      SamePot(l, l', blocks[0].0, blocks[1..], rules);
    }
  }

  lemma SameWhole(l: Books, l': Books, low: int, high: int)
    requires SameShares(l, l')
    ensures Whole(l', low, high) == Whole(l, low, high)
  {
    hide HeightOf, HeightOfBlock;
    forall s | s in l.shares ensures WholeWeight(l', low, high)(s) == WholeWeight(l, low, high)(s) {
      HeightsStay(l, l', s);
    }
    SumSame(l.shares, WholeWeight(l', low, high), WholeWeight(l, low, high));
  }

  /** All that a pass books: no more than the rewards of the confirmed blocks less the fee, and at most one unit
      a miner and a block below it. */
  lemma {:induction false} PassTotal(p: Pool, todo: seq<PoolBlock>, daemon: Daemon, rules: Settings)
    requires Consistent(p.books) && rules.poolFee > -200
    ensures var after, blocks := Pass(p, todo, daemon, rules).books.miners, ToPay(todo, daemon, rules);
            var d := (SumPaidOut(after) - SumPaidOut(p.books.miners)) as real;
            d <= Pot(p.books, p.lastPaid, blocks, rules) <= d + (|blocks| * |p.books.miners|) as real
    decreases |todo|
  {
    hide Consistent, Visit, Stays, SameShares, SumPaidOut, Confirmed, Whole, NetReward;
    if todo != [] {
      var b, rest := todo[0], todo[1..];
      var next := Visit(p, b, daemon, rules);
      VisitTotal(p, b, daemon, rules);
      PassTotal(if Stays(b, daemon, rules) then next.(pending := next.pending + [b]) else next, rest, daemon, rules);
      var blocks := ToPay(rest, daemon, rules);
      SamePot(p.books, next.books, next.lastPaid, blocks, rules);
      if Confirmed(b, daemon, rules) {
        var all := ToPay(todo, daemon, rules);
        assert all[0] == (b.height, daemon(b).reward) && all[1..] == blocks;
        assert |all| * |p.books.miners| == |blocks| * |p.books.miners| + |p.books.miners|;
      }
    }
  }

  // ----- records and pending blocks

  /** The flag of the record at a height. */
  predicate Orphaned(l: Books, height: int) {
    var b := Find(l.blocks, Height, height);
    b.Some? && b.value.orphan
  }

  predicate OrphanAt(todo: seq<PoolBlock>, daemon: Daemon, height: int) {
    exists b :: b in todo && b.height == height && daemon(b).orphan
  }

  lemma VisitMarks(p: Pool, b: PoolBlock, daemon: Daemon, rules: Settings, height: int)
    requires Consistent(p.books) && rules.poolFee > -200
    ensures var next := Visit(p, b, daemon, rules);
            && Consistent(next.books)
            && (Find(next.books.blocks, Height, height).Some? <==> Find(p.books.blocks, Height, height).Some?)
            && (Orphaned(next.books, height) <==>
                  || Orphaned(p.books, height)
                  || (Find(p.books.blocks, Height, height).Some? && b.height == height && daemon(b).orphan))
  {
    hide Linked, MinersPaid, PaidIds, HeightOfBlock;
    var l := p.books;
    VisitTotal(p, b, daemon, rules);
    if !Confirmed(b, daemon, rules) && daemon(b).orphan {
      match Find(l.blocks, Height, b.height)
      case None =>
      case Some(before) =>
        var after := before.(orphan := true);
        var next := Put(l.blocks, BlockId, after);
        PutMembers(l.blocks, BlockId, after);
        MarkStaysConsistent(l, b.height);
        ChangedBlock(l, before, after);
        UniqueFind(next, Height, after);
        UniqueFind(l.blocks, BlockId, before);
        if Find(l.blocks, Height, height).Some? && height != b.height {
          var x := Find(l.blocks, Height, height).value;
          if x.id == before.id { UniqueFind(l.blocks, BlockId, x); }
          UniqueFind(next, Height, x);
        }
        if Find(next, Height, height).Some? {
          var y := Find(next, Height, height).value;
          if y != after { UniqueFind(l.blocks, Height, y); }
        }
    }
  }

  /** After a pass exactly the records of orphaned blocks, and those marked before, are marked; and the blocks that
      await payment still are those that are neither confirmed nor orphaned. */
  lemma {:induction false} PassMarks(p: Pool, todo: seq<PoolBlock>, daemon: Daemon, rules: Settings, height: int)
    requires Consistent(p.books) && rules.poolFee > -200
    ensures var after := Pass(p, todo, daemon, rules);
            && (Orphaned(after.books, height) <==>
                  || Orphaned(p.books, height)
                  || (Find(p.books.blocks, Height, height).Some? && OrphanAt(todo, daemon, height)))
            && (forall b :: b in after.pending <==>
                  b in p.pending || (b in todo && !Confirmed(b, daemon, rules) && !daemon(b).orphan))
    decreases |todo|
  {
    hide Consistent, Visit, Orphaned, Find;
    if todo != [] {
      var b, rest := todo[0], todo[1..];
      var next := Visit(p, b, daemon, rules);
      VisitMarks(p, b, daemon, rules, height);
      VisitPending(p, b, daemon, rules, p.pending);
      assert Stays(b, daemon, rules) <==> !Confirmed(b, daemon, rules) && !daemon(b).orphan;
      assert forall x :: x in todo <==> x == b || x in rest;
      assert OrphanAt(todo, daemon, height) <==>
               (b.height == height && daemon(b).orphan) || OrphanAt(rest, daemon, height);
      PassMarks(if Stays(b, daemon, rules) then next.(pending := next.pending + [b]) else next, rest,
                daemon, rules, height);
    }
  }

  /** An accepted block's record says that it was found, and by whom; no other record changes. */
  lemma SubmissionMarks(p: Pool, b: PoolBlock, answer: Answer, height: int)
    requires Consistent(p.books)
    ensures var before, after := Find(p.books.blocks, Height, height),
                                 Find(Submitted(p, b, answer).books.blocks, Height, height);
            after == if before.Some? && height == b.height && answer.Accepted?
                     then Some(before.value.(found := true, founder := b.founder)) else before
  {
    hide Linked, HeightOfBlock;
    var l, rBlock := p.books, Find(p.books.blocks, Height, b.height);
    if answer.Accepted? && rBlock.Some? {
      var before := rBlock.value;
      var record := before.(found := true, founder := b.founder);
      var next := Put(l.blocks, BlockId, record);
      PutMembers(l.blocks, BlockId, record);
      ChangedBlock(l, before, record);
      UniqueFind(next, Height, record);
      UniqueFind(l.blocks, BlockId, before);
      if Find(l.blocks, Height, height).Some? && height != b.height {
        var x := Find(l.blocks, Height, height).value;
        if x.id == before.id { UniqueFind(l.blocks, BlockId, x); }
        UniqueFind(next, Height, x);
      }
      if Find(next, Height, height).Some? {
        var y := Find(next, Height, height).value;
        if y != record { UniqueFind(l.blocks, Height, y); }
      }
    }
  }

  // ----- what a credit leaves as it is

  /** A miner's record after a credit: one there was, with the same address and bookings, or the worker's new one. */
  predicate SameAccount(l: Books, m: Miner, address: string) {
    match Find(l.miners, MinerId, m.id)
    case Some(before) => m.address == before.address && m.paidOut == before.paidOut
    case None => m.address == address && m.paidOut == 0
  }

  predicate SameFlags(l: Books, b: Block, height: int) {
    match Find(l.blocks, BlockId, b.id)
    case Some(before) =>
      b.height == before.height && b.founder == before.founder && b.found == before.found && b.orphan == before.orphan
    case None => b.height == height && b.founder == "" && !b.found && !b.orphan
  }

  lemma CreditKeepsRecords(l: Books, height: int, address: string, value: nat, ids: Fresh)
    requires Consistent(l) && IsFresh(l, ids)
    ensures var after := Credit(l, height, address, value, ids);
            && (forall m :: m in after.miners ==> SameAccount(l, m, address))
            && (forall b :: b in after.blocks ==> SameFlags(l, b, height))
  {
    hide Linked;
    var block, miner := BlockAt(l, height, ids.block), MinerAt(l, address, ids.miner);
    MinerIs(l, address, ids);
    BlockIs(l, height, ids);
    var found := Find(l.rewards, Pair, (miner.id, block.id));
    var m' := if found.Some? then miner else miner.(rewards := miner.rewards + [ids.reward]);
    var b' := if found.Some? then block else block.(rewards := block.rewards + [ids.reward]);
    PutMembers(l.miners, MinerId, m');
    PutMembers(l.blocks, BlockId, b');
    forall m | m in l.miners ensures SameAccount(l, m, address) { UniqueFind(l.miners, MinerId, m); }
    forall b | b in l.blocks ensures SameFlags(l, b, height) { UniqueFind(l.blocks, BlockId, b); }
  }

  // ----- a submission pass

  ghost predicate HeightsApart(pending: seq<PoolBlock>) {
    forall i, j :: 0 <= i < j < |pending| ==> pending[i].height != pending[j].height
  }

  lemma SubmittedApart(p: Pool, b: PoolBlock, answer: Answer)
    requires HeightsApart(p.pending) && !Awaits(p.pending, b.height)
    ensures HeightsApart(Submitted(p, b, answer).pending) && p.pending <= Submitted(p, b, answer).pending
  {
    forall i | 0 <= i < |p.pending| ensures p.pending[i].height != b.height {
      assert p.pending[i] in p.pending;
    }
  }

  /** Whatever the daemon answers, no two blocks of one height come to await payment; a submission that could not
      be asked about stays, and one stays otherwise only because its height awaits payment. */
  lemma {:induction false} SubmitPassKeepsApart(p: Pool, todo: seq<PoolBlock>, kept: seq<PoolBlock>,
                                                daemon: PoolBlock -> Answer)
    requires HeightsApart(p.pending)
    ensures var (after, left) := SubmitAll(p, todo, kept, daemon);
            && HeightsApart(after.pending) && p.pending <= after.pending
            && (forall b :: b in kept ==> b in left)
            && (forall b :: b in todo && daemon(b).Unreachable? ==> b in left)
            && (forall b :: b in left ==>
                  b in kept || (b in todo && (daemon(b).Unreachable? || Awaits(after.pending, b.height))))
    decreases |todo|
  {
    hide Submitted, Awaits, HeightsApart;
    if todo != [] {
      var b, rest := todo[0], todo[1..];
      assert forall x :: x in todo <==> x == b || x in rest;
      var (after, left) := SubmitAll(p, todo, kept, daemon);
      if PaymentRuns.Kept(p, b, daemon) {
        SubmitPassKeepsApart(p, rest, kept + [b], daemon);
        if Awaits(p.pending, b.height) { StillAwaits(p.pending, after.pending, b.height); }
      } else {
        SubmittedApart(p, b, daemon(b));
        SubmitPassKeepsApart(Submitted(p, b, daemon(b)), rest, kept, daemon);
      }
    }
  }

  /** The block gets the hash that the daemon knows it by. */
  predicate Accepts(l: Books, b: PoolBlock, answer: Answer, x: PoolBlock) {
    && Find(l.blocks, Height, b.height).Some? && answer.Accepted? && answer.hash.Some?
    && x.height == b.height && x.hash == answer.hash.value && x.founder == b.founder
  }

  predicate Recorded(l: Books, height: int) { Find(l.blocks, Height, height).Some? }

  lemma SubmittedPends(p: Pool, b: PoolBlock, answer: Answer, x: PoolBlock)
    requires Consistent(p.books)
    ensures var next := Submitted(p, b, answer);
            && Consistent(next.books) && (Recorded(next.books, x.height) <==> Recorded(p.books, x.height))
            && (x in next.pending <==> x in p.pending || Accepts(p.books, b, answer, x))
  {
    hide Consistent, Put, HeightOfBlock;
    SubmissionMarks(p, b, answer, x.height);
    var l, rBlock := p.books, Find(p.books.blocks, Height, b.height);
    if answer.Accepted? && rBlock.Some? {
      ChangedBlock(l, rBlock.value, rBlock.value.(found := true, founder := b.founder));
    }
  }

  /** After a pass a block awaits payment if it did before, or if the daemon accepted it in the pass and told its
      hash; and every block accepted so has one of its height awaiting payment. */
  lemma {:induction false} SubmitPassPends(p: Pool, todo: seq<PoolBlock>, kept: seq<PoolBlock>,
                                           daemon: PoolBlock -> Answer, x: PoolBlock)
    requires Consistent(p.books)
    ensures var after := SubmitAll(p, todo, kept, daemon).0;
            && p.pending <= after.pending
            && (x in after.pending ==> x in p.pending || exists b :: b in todo && Accepts(p.books, b, daemon(b), x))
            && ((exists b :: b in todo && Accepts(p.books, b, daemon(b), x)) ==> Awaits(after.pending, x.height))
    decreases |todo|
  {
    hide Consistent, Submitted, Awaits, Accepts;
    if todo != [] {
      var b, rest := todo[0], todo[1..];
      assert forall y :: y in todo <==> y == b || y in rest;
      var after := SubmitAll(p, todo, kept, daemon).0;
      if PaymentRuns.Kept(p, b, daemon) {
        SubmitPassPends(p, rest, kept + [b], daemon, x);
        if Accepts(p.books, b, daemon(b), x) { WasAwaited(p, b, daemon, after.pending, x); }
      } else {
        var next := Submitted(p, b, daemon(b));
        SubmittedPends(p, b, daemon(b), x);
        SubmittedGrows(p, b, daemon(b));
        SubmitPassPends(next, rest, kept, daemon, x);
        SameAccepts(p.books, next.books, x);
        if Accepts(p.books, b, daemon(b), x) { AwaitedAs(x, next.pending, after.pending); }
      }
    }
  }

  lemma SameAccepts(l: Books, l': Books, x: PoolBlock)
    requires Recorded(l', x.height) <==> Recorded(l, x.height)
    ensures forall b, answer :: Accepts(l', b, answer, x) <==> Accepts(l, b, answer, x)
  {}

  lemma SubmittedGrows(p: Pool, b: PoolBlock, answer: Answer)
    ensures p.pending <= Submitted(p, b, answer).pending
  {}

  lemma WasAwaited(p: Pool, b: PoolBlock, daemon: PoolBlock -> Answer, more: seq<PoolBlock>, x: PoolBlock)
    requires PaymentRuns.Kept(p, b, daemon) && Accepts(p.books, b, daemon(b), x) && p.pending <= more
    ensures Awaits(more, x.height)
  {
    StillAwaits(p.pending, more, b.height);
  }

  lemma AwaitedAs(x: PoolBlock, pending: seq<PoolBlock>, more: seq<PoolBlock>)
    requires x in pending && pending <= more
    ensures Awaits(more, x.height)
  {}

  lemma StillAwaits(pending: seq<PoolBlock>, more: seq<PoolBlock>, height: int)
    requires pending <= more && Awaits(pending, height)
    ensures Awaits(more, height)
  {}
}
