/** Payouts when blocks are accepted in any order (MoneroPool/BlockSubmitter.cs, MoneroPool/BlockPayment.cs): nothing in
    the pool makes the heights of its payouts increase, so here the environment may do anything but reuse
    identifiers. */
module PaymentOrder {
  import opened Bytes
  import opened Ledger
  import opened Payments
  import opened PaymentRuns

  ghost predicate OnlyFresh(w: World, e: Event) {
    e.Credited? ==> IsFresh(w.pool.books, e.ids)
  }

  ghost predicate AnyRun(worlds: seq<World>, events: seq<Event>, rules: Settings)
    requires rules.poolFee > -200
  {
    && |worlds| == |events| + 1 && worlds[0] == BEGIN
    && forall i :: 0 <= i < |events| ==>
         OnlyFresh(worlds[i], events[i]) && worlds[i + 1] == Next(worlds[i], events[i], rules)
  }

  // ----- how often the last paid block passes a height

  function LastOf(payouts: seq<Payout>): int {
    if payouts == [] then 0 else payouts[|payouts| - 1].height
  }

  /** How many payouts from number `from` on pay a range with the height in it: above the block paid before and
      at or below the block paid. */
  function Crossings(payouts: seq<Payout>, from: nat, height: int): nat
    requires from <= |payouts|
  {
    if |payouts| == from then 0
    else
      var before := payouts[..|payouts| - 1];
      Crossings(before, from, height) + if LastOf(before) < height <= LastOf(payouts) then 1 else 0
  }

  /** The last paid block after the first `k` payouts is below the height, and after the first `l` it is not. */
  predicate Passes(payouts: seq<Payout>, k: nat, l: nat, height: int)
    requires k <= |payouts| && l <= |payouts|
  {
    k < l && LastOf(payouts[..k]) < height <= LastOf(payouts[..l])
  }

  /** It passes the height, is set back below it and passes it again. */
  ghost predicate PassesTwice(payouts: seq<Payout>, from: nat, height: int) {
    exists a: nat, b: nat, c: nat, d: nat ::
      from <= a <= b <= c <= d <= |payouts| && Passes(payouts, a, b, height) && Passes(payouts, c, d, height)
  }

  lemma {:induction false} CrossingsSplit(payouts: seq<Payout>, from: nat, mid: nat, height: int)
    requires from <= mid <= |payouts|
    ensures Crossings(payouts, from, height)
         == Crossings(payouts[..mid], from, height) + Crossings(payouts, mid, height)
    decreases |payouts|
  {
    if mid == |payouts| {
      assert payouts[..mid] == payouts;
    } else {
      var before := payouts[..|payouts| - 1];
      CrossingsSplit(before, from, mid, height);
      assert before[..mid] == payouts[..mid];
    }
  }

  /** From below to not below there is a crossing. */
  lemma {:induction false} PassedIsCrossed(payouts: seq<Payout>, k: nat, height: int)
    requires k < |payouts| && LastOf(payouts[..k]) < height <= LastOf(payouts)
    ensures Crossings(payouts, k, height) >= 1
    decreases |payouts|
  {
    var before := payouts[..|payouts| - 1];
    if LastOf(before) >= height {
      assert payouts[..|before|] == before;
      assert before[..k] == payouts[..k];
      PassedIsCrossed(before, k, height);
    }
  }

  /** The last crossing there is. */
  lemma {:induction false} LastCrossing(payouts: seq<Payout>, from: nat, height: int) returns (k: nat)
    requires from <= |payouts| && Crossings(payouts, from, height) >= 1
    ensures from <= k < |payouts| && LastOf(payouts[..k]) < height <= LastOf(payouts[..k + 1])
    ensures Crossings(payouts[..k], from, height) == Crossings(payouts, from, height) - 1
    decreases |payouts|
  {
    var before := payouts[..|payouts| - 1];
    k := |before|;
    assert payouts[..k + 1] == payouts;
    if !(LastOf(before) < height <= LastOf(payouts)) {
      k := LastCrossing(before, from, height);
      assert before[..k] == payouts[..k] && before[..k + 1] == payouts[..k + 1];
    }
  }

  lemma TwoCrossings(payouts: seq<Payout>, from: nat, height: int)
    requires from <= |payouts|
    ensures Crossings(payouts, from, height) >= 2 <==> PassesTwice(payouts, from, height)
  {
    hide Crossings, LastOf;
    if Crossings(payouts, from, height) >= 2 {
      var c := LastCrossing(payouts, from, height);
      var a := LastCrossing(payouts[..c], from, height);
      assert payouts[..c][..a] == payouts[..a] && payouts[..c][..a + 1] == payouts[..a + 1];
      assert Passes(payouts, a, a + 1, height) && Passes(payouts, c, c + 1, height);
    }
    if PassesTwice(payouts, from, height) {
      var a: nat, b: nat, c: nat, d: nat :| from <= a <= b <= c <= d <= |payouts| &&
        Passes(payouts, a, b, height) && Passes(payouts, c, d, height);
      CrossedBetween(payouts, from, a, b, height);
      CrossedBetween(payouts, b, c, d, height);
      CrossingsSplit(payouts, from, b, height);
      CrossingsSplit(payouts, b, d, height);
    }
  }

  lemma CrossedBetween(payouts: seq<Payout>, from: nat, k: nat, l: nat, height: int)
    requires from <= k && l <= |payouts| && k <= l && Passes(payouts, k, l, height)
    ensures Crossings(payouts[..l], from, height) >= 1
  {
    hide Crossings, LastOf;
    var ps := payouts[..l];
    assert ps[..k] == payouts[..k];
    PassedIsCrossed(ps, k, height);
    CrossingsSplit(ps, from, k, height);
  }

  // ----- a share from the event that credits it on

  /** What every run keeps. */
  ghost predicate WellBooked(p: Pool) {
    && Consistent(p.books) && p.lastPaid == LastOf(p.payouts)
    && forall id :: Find(p.books.shares, ShareId, id).None? ==> TimesPaid(p.payouts, id) == 0
  }

  /** The share has been paid for as often as its height was passed since the first `from` payouts. */
  ghost predicate PaidByCrossings(p: Pool, s: Share, from: nat, height: int) {
    && s in p.books.shares && HeightOf(p.books, s) == Some(height)
    && from <= |p.payouts| && TimesPaid(p.payouts, s.id) == Crossings(p.payouts, from, height)
  }

  /** Changes to the books that touch no share, reward or height. */
  lemma StaysCounted(p: Pool, p': Pool, s: Share, from: nat, height: int)
    requires WellBooked(p) && Consistent(p'.books) && p'.lastPaid == p.lastPaid && p'.payouts == p.payouts
    requires p'.books.shares == p.books.shares && p'.books.rewards == p.books.rewards
    requires forall id :: HeightOfBlock(p'.books.blocks, id) == HeightOfBlock(p.books.blocks, id)
    ensures WellBooked(p')
    ensures PaidByCrossings(p, s, from, height) ==> PaidByCrossings(p', s, from, height)
  {
    hide HeightOf, HeightOfBlock, Consistent, TimesPaid, Crossings;
    HeightsStay(p.books, p'.books, s);
  }

  lemma CrossingsAfter(payouts: seq<Payout>, paid: Payout, from: nat, height: int)
    requires from <= |payouts|
    ensures Crossings(payouts + [paid], from, height)
         == Crossings(payouts, from, height) + if LastOf(payouts) < height <= paid.height then 1 else 0
  {
    assert (payouts + [paid])[..|payouts|] == payouts;
  }

  lemma PayForIsCounted(p: Pool, b: PoolBlock, reward: nat, rules: Settings, s: Share, from: nat, height: int)
    requires WellBooked(p) && rules.poolFee > -200
    ensures WellBooked(PayFor(p, b, reward, rules))
    ensures PaidByCrossings(p, s, from, height) ==> PaidByCrossings(PayFor(p, b, reward, rules), s, from, height)
  {
    hide Consistent, HeightOf, ShareInRange, PaidIds, MinersPaid, HeightOfBlock, TimesPaid, Crossings;
    var p', paid := PayFor(p, b, reward, rules), PayoutOf(p, b);
    PaidStaysConsistent(p.books, p.lastPaid, b.height, reward, rules.poolFee, rules.noValue);
    forall id | Find(p'.books.shares, ShareId, id).None? ensures TimesPaid(p'.payouts, id) == 0 {
      UnknownIsNotPaid(p.books, id, p.lastPaid, b.height);
      TimesAfter(p.payouts, paid, id);
    }
    if PaidByCrossings(p, s, from, height) {
      HeightsStay(p.books, p'.books, s);
      RangeIsHeight(p.books, s, p.lastPaid, b.height);
      PaidIdsAre(p.books, s, p.lastPaid, b.height);
      TimesAfter(p.payouts, paid, s.id);
      CrossingsAfter(p.payouts, paid, from, height);
    }
  }

  lemma MarkIsCounted(p: Pool, orphaned: int, s: Share, from: nat, height: int)
    requires WellBooked(p)
    ensures WellBooked(p.(books := MarkOrphan(p.books, orphaned)))
    ensures PaidByCrossings(p, s, from, height) ==>
            PaidByCrossings(p.(books := MarkOrphan(p.books, orphaned)), s, from, height)
  {
    hide Consistent, HeightOf, HeightOfBlock, Put, TimesPaid, Crossings;
    match Find(p.books.blocks, Height, orphaned)
    case None =>
    case Some(b) =>
      ChangedBlock(p.books, b, b.(orphan := true));
      StaysCounted(p, p.(books := MarkOrphan(p.books, orphaned)), s, from, height);
  }

  lemma VisitIsCounted(p: Pool, b: PoolBlock, daemon: Daemon, rules: Settings, s: Share, from: nat, height: int)
    requires WellBooked(p) && rules.poolFee > -200
    ensures WellBooked(Visit(p, b, daemon, rules))
    ensures PaidByCrossings(p, s, from, height) ==> PaidByCrossings(Visit(p, b, daemon, rules), s, from, height)
  {
    hide WellBooked, PaidByCrossings, PayFor, MarkOrphan;
    if Paying(daemon(b), rules) {
      PayForIsCounted(p, b, daemon(b).reward, rules, s, from, height);
    } else if daemon(b).orphan {
      MarkIsCounted(p, b.height, s, from, height);
    }
  }

  lemma PendingIsNotCounted(p: Pool, pending: seq<PoolBlock>, s: Share, from: nat, height: int)
    ensures WellBooked(p.(pending := pending)) <==> WellBooked(p)
    ensures PaidByCrossings(p.(pending := pending), s, from, height) <==> PaidByCrossings(p, s, from, height)
  {}

  lemma {:induction false} PassIsCounted(p: Pool, todo: seq<PoolBlock>, daemon: Daemon, rules: Settings,
                                         s: Share, from: nat, height: int)
    requires WellBooked(p) && rules.poolFee > -200
    ensures WellBooked(Pass(p, todo, daemon, rules))
    ensures PaidByCrossings(p, s, from, height) ==> PaidByCrossings(Pass(p, todo, daemon, rules), s, from, height)
    decreases |todo|
  {
    hide WellBooked, PaidByCrossings, Visit, Stays;
    if todo != [] {
      var b := todo[0];
      var next := Visit(p, b, daemon, rules);
      VisitIsCounted(p, b, daemon, rules, s, from, height);
      PendingIsNotCounted(next, next.pending + [b], s, from, height);
      PassIsCounted(if Stays(b, daemon, rules) then next.(pending := next.pending + [b]) else next, todo[1..],
                    daemon, rules, s, from, height);
    }
  }

  lemma AnswerIsCounted(p: Pool, b: PoolBlock, answer: Answer, s: Share, from: nat, height: int)
    requires WellBooked(p)
    ensures WellBooked(Submitted(p, b, answer))
    ensures PaidByCrossings(p, s, from, height) ==> PaidByCrossings(Submitted(p, b, answer), s, from, height)
  {
    hide Consistent, Put, HeightOf, HeightOfBlock, TimesPaid, Crossings;
    var rBlock := Find(p.books.blocks, Height, b.height);
    if answer.Accepted? && rBlock.Some? {
      ChangedBlock(p.books, rBlock.value, rBlock.value.(found := true, founder := b.founder));
      StaysCounted(p, Submitted(p, b, answer), s, from, height);
    }
  }

  lemma CreditIsCounted(p: Pool, current: int, address: string, value: nat, ids: Fresh, s: Share, from: nat,
                        height: int)
    requires WellBooked(p) && IsFresh(p.books, ids)
    ensures var p' := p.(books := Credit(p.books, current, address, value, ids));
            && WellBooked(p')
            && (PaidByCrossings(p, s, from, height) ==> PaidByCrossings(p', s, from, height))
            && (s in p'.books.shares && s !in p.books.shares ==> PaidByCrossings(p', s, |p.payouts|, current))
  {
    hide Consistent, Credit, HeightOf, TimesPaid;
    var l, l' := p.books, Credit(p.books, current, address, value, ids);
    CreditKeeps(l, current, address, value, ids);
    CreditHeights(l, current, address, value, ids, s);
    forall id | Find(l'.shares, ShareId, id).None? ensures TimesPaid(p.payouts, id) == 0 {
      CreditHeights(l, current, address, value, ids, s);
    }
    CreditKeepsShares(l, current, address, value, ids);
  }

  lemma CreditKeepsShares(l: Books, height: int, address: string, value: nat, ids: Fresh)
    requires Consistent(l) && IsFresh(l, ids)
    ensures forall s :: s in l.shares ==> s in Credit(l, height, address, value, ids).shares
  {
    hide Linked, Unique;
    var found := Find(l.rewards, Pair, (MinerAt(l, address, ids.miner).id, BlockAt(l, height, ids.block).id));
    var share := Share(ids.share, if found.Some? then found.value.id else ids.reward, value);
    PutMembers(l.shares, ShareId, share);
    assert forall s :: s in l.shares ==> ShareId(s) != ids.share;
  }

  lemma NextIsCounted(w: World, e: Event, rules: Settings, s: Share, from: nat, height: int)
    requires WellBooked(w.pool) && OnlyFresh(w, e) && rules.poolFee > -200
    ensures WellBooked(Next(w, e, rules).pool)
    ensures PaidByCrossings(w.pool, s, from, height) ==> PaidByCrossings(Next(w, e, rules).pool, s, from, height)
  {
    hide WellBooked, PaidByCrossings, Pass, Submitted;
    match e
    case Credited(address, value, ids) => CreditIsCounted(w.pool, w.current, address, value, ids, s, from, height);
    case Tip(_) =>
    case Answered(b, answer) => AnswerIsCounted(w.pool, b, answer, s, from, height);
    case Paid(daemon, _) =>
      PendingIsNotCounted(w.pool, [], s, from, height);
      PassIsCounted(w.pool.(pending := []), w.pool.pending, daemon, rules, s, from, height);
  }

  lemma {:induction false} RunsAreWellBooked(worlds: seq<World>, events: seq<Event>, rules: Settings, i: nat)
    requires rules.poolFee > -200 && AnyRun(worlds, events, rules) && i < |worlds|
    ensures WellBooked(worlds[i].pool)
  {
    hide OnlyFresh, Next;
    if i > 0 {
      hide WellBooked;
      RunsAreWellBooked(worlds, events, rules, i - 1);
      NextIsCounted(worlds[i - 1], events[i - 1], rules, Share("", "", 0), 0, 0);
    }
  }

  /** Over every run at all: a share that event `j` credits is at the height worked on then, and from then on it is
      paid for exactly as often as a payout goes from a block below that height to a block that is not. */
  lemma {:induction false} PaidAsOftenAsPassed(worlds: seq<World>, events: seq<Event>, rules: Settings, j: nat, i: nat,
                                               s: Share)
    requires rules.poolFee > -200 && AnyRun(worlds, events, rules) && j < i < |worlds|
    requires s !in worlds[j].pool.books.shares && s in worlds[j + 1].pool.books.shares
    ensures PaidByCrossings(worlds[i].pool, s, |worlds[j].pool.payouts|, worlds[j].current)
    decreases i
  {
    hide WellBooked, PaidByCrossings, Pass, Submitted, Credit;
    var from, height := |worlds[j].pool.payouts|, worlds[j].current;
    RunsAreWellBooked(worlds, events, rules, i - 1);
    assert OnlyFresh(worlds[i - 1], events[i - 1]) && worlds[i] == Next(worlds[i - 1], events[i - 1], rules);
    if i == j + 1 {
      NewShareIsCredited(worlds[j], events[j], rules, s);
      var e := events[j];
      CreditIsCounted(worlds[j].pool, height, e.address, e.value, e.ids, s, from, height);
    } else {
      PaidAsOftenAsPassed(worlds, events, rules, j, i - 1, s);
      NextIsCounted(worlds[i - 1], events[i - 1], rules, s, from, height);
    }
  }

  lemma NewShareIsCredited(w: World, e: Event, rules: Settings, s: Share)
    requires rules.poolFee > -200 && s !in w.pool.books.shares && s in Next(w, e, rules).pool.books.shares
    ensures e.Credited?
  {
    hide Pass, Credit;
    if e.Paid? { PassKeepsShares(w.pool.(pending := []), w.pool.pending, e.daemon, rules); }
  }

  lemma {:induction false} PassKeepsShares(p: Pool, todo: seq<PoolBlock>, daemon: Daemon, rules: Settings)
    requires rules.poolFee > -200
    ensures Pass(p, todo, daemon, rules).books.shares == p.books.shares
    decreases |todo|
  {
    hide MinersPaid, PaidIds, Put;
    if todo != [] {
      var b, next := todo[0], Visit(p, todo[0], daemon, rules);
      PassKeepsShares(if Stays(b, daemon, rules) then next.(pending := next.pending + [b]) else next, todo[1..],
                      daemon, rules);
    }
  }

  /** When the pool pays for a share twice, for all runs: exactly when the last paid block passes its height, is set
      back below it and passes it again. */
  lemma PaidTwiceIff(worlds: seq<World>, events: seq<Event>, rules: Settings, j: nat, i: nat, s: Share)
    requires rules.poolFee > -200 && AnyRun(worlds, events, rules) && j < i < |worlds|
    requires s !in worlds[j].pool.books.shares && s in worlds[j + 1].pool.books.shares
    ensures var p := worlds[i].pool;
            TimesPaid(p.payouts, s.id) >= 2 <==> PassesTwice(p.payouts, |worlds[j].pool.payouts|, worlds[j].current)
  {
    hide AnyRun, TimesPaid, Crossings, PassesTwice;
    PaidAsOftenAsPassed(worlds, events, rules, j, i, s);
    TwoCrossings(worlds[i].pool.payouts, |worlds[j].pool.payouts|, worlds[j].current);
  }

  // ----- a run that pays twice

  const RULES := Settings(10, 0, 0)

  function Found(height: int): Event { Answered(PoolBlock(height, "", "a"), Accepted(Some(""))) }

  function CreditedTo(ids: Fresh): Event { Credited("a", 1, ids) }

  const IDS1 := Fresh("b1", "m1", "r1", "s1")
  const IDS2 := Fresh("b2", "m2", "r2", "s2")
  const IDS3 := Fresh("b3", "m3", "r3", "s3")

  /** One chain tip, and no block is an orphan. */
  function Deep(tip: int): Daemon { (b: PoolBlock) => Header(false, tip - b.height, 0) }

  /** Shares at heights 1, 2 and 3; the block at 2 is accepted before the one at 1; one payment pass. */
  const OUT_OF_ORDER: seq<Event> := [
    CreditedTo(IDS1), Tip(2), CreditedTo(IDS2), Tip(3), CreditedTo(IDS3), Tip(4), Found(2), Found(1), Found(3),
    Paid(Deep(13), 13)]

  function WorldsOf(w: World, events: seq<Event>, rules: Settings): (worlds: seq<World>)
    requires rules.poolFee > -200
    ensures |worlds| == |events| + 1 && worlds[0] == w
    ensures forall i :: 0 <= i < |events| ==> worlds[i + 1] == Next(worlds[i], events[i], rules)
    decreases |events|
  {
    if events == [] then [w] else [w] + WorldsOf(Next(w, events[0], rules), events[1..], rules)
  }

  const BOOKS1 := Books([Block("b1", 1, "", false, false, ["r1"])], [Miner("m1", "a", ["r1"], 0)],
                        [Reward("r1", "m1", "b1", ["s1"])], [Share("s1", "r1", 1)])
  const BOOKS2 := Books([Block("b1", 1, "", false, false, ["r1"]), Block("b2", 2, "", false, false, ["r2"])],
                        [Miner("m1", "a", ["r1", "r2"], 0)],
                        [Reward("r1", "m1", "b1", ["s1"]), Reward("r2", "m1", "b2", ["s2"])],
                        [Share("s1", "r1", 1), Share("s2", "r2", 1)])

  lemma FirstBooks()
    ensures IsFresh(EMPTY, IDS1) && Credit(EMPTY, 1, "a", 1, IDS1) == BOOKS1
  {
    var none: seq<Id> := [];
    assert none + ["r1"] == ["r1"];
  }

  lemma SecondBooks()
    ensures IsFresh(BOOKS1, IDS2) && Credit(BOOKS1, 2, "a", 1, IDS2) == BOOKS2
  {
    var none: seq<Id> := [];
    assert none + ["r2"] == ["r2"] && ["r1"] + ["r2"] == ["r1", "r2"];
    assert MinerAt(BOOKS1, "a", "m2") == BOOKS1.miners[0];
    assert BlockAt(BOOKS1, 2, "b2") == Block("b2", 2, "", false, false, []);
    assert Find(BOOKS1.rewards, Pair, ("m1", "b2")) == None;
    PutNew(BOOKS1.blocks, BlockId, BOOKS2.blocks[1]);
    PutNew(BOOKS1.rewards, RewardId, BOOKS2.rewards[1]);
    PutNew(BOOKS1.shares, ShareId, BOOKS2.shares[1]);
  }

  const BOOKS3 := Credit(BOOKS2, 3, "a", 1, IDS3)

  lemma ThirdBooks()
    ensures IsFresh(BOOKS2, IDS3)
    ensures Find(BOOKS3.blocks, Height, 1).Some? && Find(BOOKS3.blocks, Height, 2).Some?
            && Find(BOOKS3.blocks, Height, 3).Some?
  {}

  function Unpaid(books: Books, current: int): World { World(Pool(books, 0, [], []), current, 0) }

  lemma CreditedWorlds(worlds: seq<World>)
    requires worlds == WorldsOf(BEGIN, OUT_OF_ORDER, RULES)
    ensures worlds[2] == Unpaid(BOOKS1, 2) && worlds[3] == Unpaid(BOOKS2, 2) && worlds[6] == Unpaid(BOOKS3, 4)
    ensures forall i :: 0 <= i < 6 ==>
              OnlyFresh(worlds[i], OUT_OF_ORDER[i]) && Allowed(worlds[i], OUT_OF_ORDER[i], RULES)
  {
    hide Credit, WorldsOf, IsFresh;
    FirstBooks();
    SecondBooks();
    ThirdBooks();
    assert worlds[1] == Next(worlds[0], OUT_OF_ORDER[0], RULES) == Unpaid(BOOKS1, 1);
    assert worlds[2] == Next(worlds[1], OUT_OF_ORDER[1], RULES);
    assert worlds[3] == Next(worlds[2], OUT_OF_ORDER[2], RULES);
    assert worlds[4] == Next(worlds[3], OUT_OF_ORDER[3], RULES) == Unpaid(BOOKS2, 3);
    assert worlds[5] == Next(worlds[4], OUT_OF_ORDER[4], RULES) == Unpaid(BOOKS3, 3);
    assert worlds[6] == Next(worlds[5], OUT_OF_ORDER[5], RULES);
  }

  lemma FoundBlock(p: Pool, height: int)
    requires Consistent(p.books) && Find(p.books.blocks, Height, height).Some?
    ensures var p' := Submitted(p, Found(height).block, Found(height).answer);
            && Consistent(p'.books) && p'.lastPaid == p.lastPaid && p'.payouts == p.payouts
            && p'.pending == p.pending + [PoolBlock(height, "", "a")]
            && forall h :: Find(p.books.blocks, Height, h).Some? ==> Find(p'.books.blocks, Height, h).Some?
  {
    hide Consistent, Put, HeightOfBlock;
    var b := Find(p.books.blocks, Height, height).value;
    ChangedBlock(p.books, b, b.(found := true, founder := "a"));
  }

  /** The three blocks that are deep enough are paid in the order in which they were accepted. */
  lemma OnePass(p: Pool)
    requires p.pending == [PoolBlock(2, "", "a"), PoolBlock(1, "", "a"), PoolBlock(3, "", "a")] && p.payouts == []
    ensures var payouts := Pass(p.(pending := []), p.pending, Deep(13), RULES).payouts;
            |payouts| == 3 && payouts[0].height == 2 && payouts[1].height == 1 && payouts[2].height == 3
  {
    hide MinersPaid, PaidIds;
    var x, y, z := p.pending[0], p.pending[1], p.pending[2];
    var p1 := PayFor(p.(pending := []), x, 0, RULES);
    var p2 := PayFor(p1, y, 0, RULES);
    var p3 := PayFor(p2, z, 0, RULES);
    assert p.pending[1..] == [y, z] && [y, z][1..] == [z] && [z][1..] == [];
    assert Pass(p3, [], Deep(13), RULES) == p3;
    assert Pass(p2, [z], Deep(13), RULES) == p3;
    assert Pass(p1, [y, z], Deep(13), RULES) == p3;
  }

  lemma FoundWorlds(worlds: seq<World>)
    requires worlds == WorldsOf(BEGIN, OUT_OF_ORDER, RULES)
    requires worlds[6] == Unpaid(BOOKS3, 4) && Consistent(BOOKS3)
    ensures worlds[7].accepted == 2 && worlds[8].accepted == 1
    ensures worlds[9].current == 4 && worlds[9].pool.payouts == []
    ensures worlds[9].pool.pending == [PoolBlock(2, "", "a"), PoolBlock(1, "", "a"), PoolBlock(3, "", "a")]
  {
    hide Credit, WorldsOf, Submitted, Consistent, Find;
    ThirdBooks();
    FoundBlock(worlds[6].pool, 2);
    assert worlds[7] == Next(worlds[6], OUT_OF_ORDER[6], RULES);
    FoundBlock(worlds[7].pool, 1);
    assert worlds[8] == Next(worlds[7], OUT_OF_ORDER[7], RULES);
    FoundBlock(worlds[8].pool, 3);
    assert worlds[9] == Next(worlds[8], OUT_OF_ORDER[8], RULES);
  }

  lemma PassesTwiceInOrder(payouts: seq<Payout>)
    requires |payouts| == 3 && payouts[0].height == 2 && payouts[1].height == 1 && payouts[2].height == 3
    ensures Crossings(payouts, 0, 2) == 2
  {
    var none: seq<Payout> := [];
    var x, y, z := payouts[0], payouts[1], payouts[2];
    CrossingsAfter(none, x, 0, 2);
    CrossingsAfter([x], y, 0, 2);
    CrossingsAfter([x, y], z, 0, 2);
    assert none + [x] == [x] && [x] + [y] == [x, y] && [x, y] + [z] == payouts;
  }

  /** One run in which everything but the order of two accepted blocks is as `Allowed` asks, and in which the
      share at height 2 is paid for twice. */
  lemma SharePaidTwice() returns (worlds: seq<World>)
    ensures worlds == WorldsOf(BEGIN, OUT_OF_ORDER, RULES) && AnyRun(worlds, OUT_OF_ORDER, RULES)
    ensures forall i :: 0 <= i < 10 ==> (Allowed(worlds[i], OUT_OF_ORDER[i], RULES) <==> i != 7)
    ensures Share("s2", "r2", 1) in worlds[10].pool.books.shares && TimesPaid(worlds[10].pool.payouts, "s2") == 2
  {
    hide Credit, Submitted, Pass, TimesPaid, Consistent, Find, WorldsOf, IsFresh, Crossings;
    worlds := WorldsOf(BEGIN, OUT_OF_ORDER, RULES);
    CreditedWorlds(worlds);
    RunsAreWellBooked(worlds, OUT_OF_ORDER, RULES, 6);
    FoundWorlds(worlds);
    assert worlds[10] == Next(worlds[9], OUT_OF_ORDER[9], RULES);
    OnePass(worlds[9].pool);
    PaidAsOftenAsPassed(worlds, OUT_OF_ORDER, RULES, 2, 10, Share("s2", "r2", 1));
    PassesTwiceInOrder(worlds[10].pool.payouts);
  }

  // ----- the passes of the code as events of a run

  function AnswersOf(p: Pool, todo: seq<PoolBlock>, daemon: PoolBlock -> Answer): seq<Event>
    decreases |todo|
  {
    if todo == [] then []
    else if Kept(p, todo[0], daemon) then AnswersOf(p, todo[1..], daemon)
    else
      [Answered(todo[0], daemon(todo[0]))] + AnswersOf(Submitted(p, todo[0], daemon(todo[0])), todo[1..], daemon)
  }

  /** A submission pass, whatever it keeps, is its answers one after the other. */
  lemma {:induction false} SubmitPassIsAnswers(w: World, todo: seq<PoolBlock>, kept: seq<PoolBlock>,
                                               daemon: PoolBlock -> Answer, rules: Settings)
    requires rules.poolFee > -200
    ensures var events := AnswersOf(w.pool, todo, daemon);
            && WorldsOf(w, events, rules)[|events|].pool == SubmitAll(w.pool, todo, kept, daemon).0
            && forall e :: e in events ==> e.Answered? && e.block in todo && e.answer == daemon(e.block)
    decreases |todo|
  {
    hide Submitted, Kept;
    if todo != [] {
      var rest := todo[1..];
      if Kept(w.pool, todo[0], daemon) {
        SubmitPassIsAnswers(w, rest, kept + [todo[0]], daemon, rules);
      } else {
        var e := Answered(todo[0], daemon(todo[0]));
        var next := Next(w, e, rules);
        SubmitPassIsAnswers(next, rest, kept, daemon, rules);
        assert AnswersOf(w.pool, todo, daemon)[1..] == AnswersOf(next.pool, rest, daemon);
      }
    }
  }

  /** So every run goes on with a submission pass, as it does with a payment pass, which is one event. */
  lemma RunGoesOnWithPass(worlds: seq<World>, events: seq<Event>, rules: Settings, todo: seq<PoolBlock>,
                          daemon: PoolBlock -> Answer) returns (worlds': seq<World>, events': seq<Event>)
    requires rules.poolFee > -200 && AnyRun(worlds, events, rules)
    ensures AnyRun(worlds', events', rules) && worlds <= worlds' && events <= events'
    ensures worlds'[|events'|].pool == SubmitAll(worlds[|events|].pool, todo, [], daemon).0
  {
    hide Next, SubmitAll;
    var w := worlds[|events|];
    var answers := AnswersOf(w.pool, todo, daemon);
    var more := WorldsOf(w, answers, rules);
    SubmitPassIsAnswers(w, todo, [], daemon, rules);
    worlds', events' := worlds + more[1..], events + answers;
    forall i | 0 <= i < |events'|
      ensures OnlyFresh(worlds'[i], events'[i]) && worlds'[i + 1] == Next(worlds'[i], events'[i], rules)
    {
      if i >= |events| {
        var k := i - |events|;
        assert worlds'[i] == more[k] && worlds'[i + 1] == more[k + 1] && events'[i] == answers[k];
        assert answers[k] in answers;
      }
    }
  }
}
