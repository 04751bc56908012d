/** From a found block to its payout (MoneroPool/BlockSubmitter.cs, MoneroPool/BlockPayment.cs), over whole runs
    of crediting, submitting, orphaning and paying. The daemon is an environment: it answers the same for the
    whole of one pass. */
module PaymentRuns {
  import opened Bytes
  import opened Ledger
  import opened Payments

  datatype PoolBlock = PoolBlock(height: int, hash: string, founder: string)

  /** getblockheaderbyhash */
  datatype Header = Header(orphan: bool, depth: int, reward: nat)
  type Daemon = PoolBlock -> Header

  datatype Settings = Settings(confirms: int, poolFee: int, noValue: nat)

  /** A payout: the height of the block it was for, and the shares it paid for. */
  datatype Payout = Payout(height: int, shares: set<Id>)

  datatype Pool = Pool(books: Books, lastPaid: int, pending: seq<PoolBlock>, payouts: seq<Payout>)

  function PaidIds(l: Books, low: int, high: int): set<Id> {
    set s | s in l.shares && ShareInRange(l, s, low, high) :: s.id
  }

  function Paying(h: Header, rules: Settings): bool { !h.orphan && h.depth >= rules.confirms }

  function PayoutOf(p: Pool, b: PoolBlock): Payout { Payout(b.height, PaidIds(p.books, p.lastPaid, b.height)) }

  function PayFor(p: Pool, b: PoolBlock, reward: nat, rules: Settings): Pool
    requires rules.poolFee > -200
  {
    p.(books := p.books.(miners := MinersPaid(p.books, p.lastPaid, b.height, reward, rules.poolFee, rules.noValue)),
       lastPaid := b.height,
       payouts := p.payouts + [PayoutOf(p, b)])
  }

  function MarkOrphan(l: Books, height: int): Books {
    match Find(l.blocks, Height, height)
    case None => l
    case Some(b) => l.(blocks := Put(l.blocks, BlockId, b.(orphan := true)))
  }

  /** What the payment loop does with one pending block; the list of pending blocks apart. */
  function Visit(p: Pool, b: PoolBlock, daemon: Daemon, rules: Settings): Pool
    requires rules.poolFee > -200
  {
    if Paying(daemon(b), rules) then PayFor(p, b, daemon(b).reward, rules)
    else if daemon(b).orphan then p.(books := MarkOrphan(p.books, b.height))
    else p
  }

  predicate Stays(b: PoolBlock, daemon: Daemon, rules: Settings) {
    !Paying(daemon(b), rules) && !daemon(b).orphan
  }

  /** One pass: every block of `todo` visited in turn, those that stay pending kept in their order. */
  function Pass(p: Pool, todo: seq<PoolBlock>, daemon: Daemon, rules: Settings): Pool
    requires rules.poolFee > -200
    decreases |todo|
  {
    if todo == [] then p
    else
      var b := todo[0];
      var next := Visit(p, b, daemon, rules);
      Pass(if Stays(b, daemon, rules) then next.(pending := next.pending + [b]) else next, todo[1..], daemon, rules)
  }

  // ----- what payouts and marks leave as it is

  lemma PaidStaysConsistent(l: Books, low: int, high: int, reward: nat, poolFee: int, noValue: nat)
    requires Consistent(l) && poolFee > -200
    ensures Consistent(l.(miners := MinersPaid(l, low, high, reward, poolFee, noValue)))
  {
    hide Linked;
    var ms := MinersPaid(l, low, high, reward, poolFee, noValue);
    PaidItems(l, low, high, reward, poolFee, noValue);
    hide MinersPaid;
    SameKeys(l.miners, ms, MinerId);
    SameKeys(l.miners, ms, Address);
    LinkMapped(l.miners, ms, MinerId, RewardsOfMiner, l.rewards, RewardId, MinerOfReward);
  }

  lemma MarkStaysConsistent(l: Books, height: int)
    requires Consistent(l)
    ensures Consistent(MarkOrphan(l, height))
  {
    hide Linked, Unique;
    match Find(l.blocks, Height, height)
    case None =>
    case Some(b) => ChangedBlock(l, b, b.(orphan := true));
  }

  /** A block record that keeps its identifier, height and rewards. */
  lemma ChangedBlock(l: Books, before: Block, b: Block)
    requires Consistent(l) && before in l.blocks
    requires b.id == before.id && b.height == before.height && b.rewards == before.rewards
    ensures Consistent(l.(blocks := Put(l.blocks, BlockId, b)))
    ensures forall h :: Find(l.blocks, Height, h).Some? ==> Find(Put(l.blocks, BlockId, b), Height, h).Some?
    ensures forall id :: HeightOfBlock(Put(l.blocks, BlockId, b), id) == HeightOfBlock(l.blocks, id)
  {
    hide Linked;
    LinkOwner(l.blocks, BlockId, RewardsOfBlock, l.rewards, RewardId, BlockOfReward, before, b);
    PutUnique(l.blocks, BlockId, BlockId, b);
    forall y | y in l.blocks && y.id != b.id ensures y.height != b.height {
      UniqueFind(l.blocks, Height, y);
      UniqueFind(l.blocks, Height, before);
    }
    PutUnique(l.blocks, BlockId, Height, b);
    PutMembers(l.blocks, BlockId, b);
    forall h | Find(l.blocks, Height, h).Some? ensures Find(Put(l.blocks, BlockId, b), Height, h).Some? {
      var y := Find(l.blocks, Height, h).value;
      if y.id == b.id {
        UniqueFind(l.blocks, BlockId, y);
        UniqueFind(l.blocks, BlockId, before);
        assert b in Put(l.blocks, BlockId, b);
      } else {
        assert y in Put(l.blocks, BlockId, b);
      }
    }
    forall id ensures HeightOfBlock(Put(l.blocks, BlockId, b), id) == HeightOfBlock(l.blocks, id) {
      PutFind(l.blocks, BlockId, b, id);
      UniqueFind(l.blocks, BlockId, before);
    }
  }

  function HeightOfBlock(blocks: seq<Block>, id: Id): Option<int> {
    match Find(blocks, BlockId, id)
    case None => None
    case Some(b) => Some(b.height)
  }

  // ----- the code

  class PoolState {
    const db: PoolDatabase
    var pending: seq<PoolBlock>
    var submissions: seq<PoolBlock>
    ghost var payouts: seq<Payout>

    ghost function Now(): Pool
      reads this, db
    {
      Pool(db.Now(), db.lastPaidBlock, pending, payouts)
    }

    constructor (db: PoolDatabase)
      ensures this.db == db && pending == [] && submissions == [] && payouts == []
    {
      this.db := db;
      pending, submissions, payouts := [], [], [];
    }

    /** The body of the payment loop, the removals apart. */
    method VisitBlock(pBlock: PoolBlock, daemon: Daemon, rules: Settings) returns (stays: bool)
      requires Consistent(db.Now()) && rules.poolFee > -200
      requires Known(db.blocks, pending) && pBlock in pending
      modifies this`payouts, db
      ensures stays == Stays(pBlock, daemon, rules)
      ensures Now() == Visit(old(Now()), pBlock, daemon, rules)
      ensures Consistent(db.Now())
      ensures Known(db.blocks, pending)
    {
      hide Consistent, MinersPaid, Put, Unique, Find, PaidIds;
      var header := daemon(pBlock);
      stays := true;
      if !header.orphan && header.depth >= rules.confirms {
        PaidStaysConsistent(db.Now(), db.lastPaidBlock, pBlock.height, header.reward, rules.poolFee, rules.noValue);
        ConsistentKeys(db.Now());
        payouts := payouts + [Payout(pBlock.height, PaidIds(db.Now(), db.lastPaidBlock, pBlock.height))];
        var destinations := InitiatePayments(db, pBlock.height, header.reward, rules.poolFee, rules.noValue);
        stays := false;
      }
      if header.orphan {
        var rBlock := Find(db.blocks, Height, pBlock.height).value;
        MarkStaysConsistent(db.Now(), pBlock.height);
        ChangedBlock(db.Now(), rBlock, rBlock.(orphan := true));
        db.SaveBlock(rBlock.(orphan := true));
        stays := false;
      }
    }

    /** One pass of BlockPayment.Start: the index steps back after a removal, so that every block that was
        pending is looked at once, in order. */
    method PayPass(daemon: Daemon, rules: Settings) returns (ghost visited: seq<PoolBlock>)
      requires Consistent(db.Now()) && rules.poolFee > -200
      requires Known(db.blocks, pending)
      modifies this, db
      ensures visited == old(pending)
      ensures Now() == Pass(old(Now()).(pending := []), old(pending), daemon, rules)
      ensures submissions == old(submissions)
    {
      hide Visit, Consistent, Known, Stays, PassAt, Seen;
      visited := [];
      ghost var todo, goal := pending, Pass(Now().(pending := []), pending, daemon, rules);
      var i := 0;
      PassStarts(Now(), pending, daemon, rules);
      while i < |pending|
        invariant 0 <= i <= |pending|
        invariant Consistent(db.Now()) && submissions == old(submissions) && Known(db.blocks, pending)
        invariant Seen(todo, visited, pending, i) && PassAt(goal, Now(), pending, i, daemon, rules)
        decreases |pending| - i
      {
        var pBlock := pending[i];
        PassStep(goal, Now(), pending, i, daemon, rules);
        SeenStep(todo, visited, pending, i);
        VisitPending(Now(), pBlock, daemon, rules, pending[..i] + pending[i + 1..]);
        var stays := VisitBlock(pBlock, daemon, rules);
        KnownOne(db.blocks, pending, i);
        visited := visited + [pBlock];
        if !stays {
          pending := pending[..i] + pending[i + 1..];
          i := i - 1;
        }
        i := i + 1;
      }
      PassDone(goal, Now(), pending, daemon, rules);
      SeenAll(todo, visited, pending);
    }

    /** The submission of one block: recorded as found if the daemon takes it and the ledger knows its height,
        and moved to the pending payments if its hash comes too. An exception in between is swallowed. */
    method Submit(block: PoolBlock, answer: Answer)
      modifies this`pending, db`blocks
      ensures Now() == Submitted(old(Now()), block, answer)
    {
      hide Put, Find;
      if answer.Accepted? {
        var rBlock := Find(db.blocks, Height, block.height);
        if rBlock.Some? {
          db.SaveBlock(rBlock.value.(found := true, founder := block.founder));
          if answer.hash.Some? {
            pending := pending + [block.(hash := answer.hash.value)];
          }
        }
      }
    }

    /** One pass of BlockSubmitter.Start: every submission is looked at once; one whose height awaits payment
        stays, and so does one that the daemon cannot be asked about; the others leave whatever it says. */
    method SubmitPass(daemon: PoolBlock -> Answer) returns (ghost visited: seq<PoolBlock>)
      modifies this, db`blocks
      ensures visited == old(submissions) && payouts == old(payouts)
      ensures (Now(), submissions) == SubmitAll(old(Now()), old(submissions), [], daemon)
    {
      hide Submitted, Awaits, SubmitAt, Seen;
      visited := [];
      ghost var todo, goal := submissions, SubmitAll(Now(), submissions, [], daemon);
      var i := 0;
      SubmitStarts(Now(), submissions, daemon);
      while i < |submissions|
        invariant 0 <= i <= |submissions| && payouts == old(payouts)
        invariant Seen(todo, visited, submissions, i) && SubmitAt(goal, Now(), submissions, i, daemon)
        decreases |submissions| - i
      {
        var block := submissions[i];
        SubmitStep(goal, Now(), submissions, i, daemon);
        SeenStep(todo, visited, submissions, i);
        visited := visited + [block];
        if !Awaits(pending, block.height) && !daemon(block).Unreachable? {
          Submit(block, daemon(block));
          submissions := submissions[..i] + submissions[i + 1..];
          i := i - 1;
        }
        i := i + 1;
      }
      SubmitDone(goal, Now(), submissions, daemon);
      SeenAll(todo, visited, submissions);
    }
  }

  /** The blocks visited and those from the index on are the ones there were at the start, in order. */
  ghost predicate Seen(todo: seq<PoolBlock>, visited: seq<PoolBlock>, list: seq<PoolBlock>, i: nat) {
    i <= |list| && todo == visited + list[i..]
  }

  lemma SeenStep(todo: seq<PoolBlock>, visited: seq<PoolBlock>, list: seq<PoolBlock>, i: nat)
    requires Seen(todo, visited, list, i) && i < |list|
    ensures Seen(todo, visited + [list[i]], list, i + 1)
    ensures Seen(todo, visited + [list[i]], list[..i] + list[i + 1..], i)
  {
    assert list[i..] == [list[i]] + list[i + 1..];
    assert (list[..i] + list[i + 1..])[i..] == list[i + 1..];
  }

  lemma SeenAll(todo: seq<PoolBlock>, visited: seq<PoolBlock>, list: seq<PoolBlock>)
    ensures Seen(list, [], list, 0)
    ensures Seen(todo, visited, list, |list|) ==> visited == todo
  {
    assert list[0..] == list;
  }

  /** What remains to be done from the index on leads to the goal. */
  ghost predicate PassAt(goal: Pool, p: Pool, pending: seq<PoolBlock>, i: nat, daemon: Daemon, rules: Settings)
    requires rules.poolFee > -200
  {
    i <= |pending| && goal == Pass(p.(pending := pending[..i]), pending[i..], daemon, rules)
  }

  /** Every pending block has a record. */
  ghost predicate Known(blocks: seq<Block>, pending: seq<PoolBlock>) {
    forall b :: b in pending ==> Find(blocks, Height, b.height).Some?
  }

  lemma KnownOne(blocks: seq<Block>, pending: seq<PoolBlock>, i: nat)
    requires Known(blocks, pending) && i < |pending|
    ensures Known(blocks, pending[..i] + pending[i + 1..])
  {
    forall b | b in pending[..i] + pending[i + 1..] ensures b in pending {}
  }

  lemma PassStarts(p: Pool, pending: seq<PoolBlock>, daemon: Daemon, rules: Settings)
    requires rules.poolFee > -200
    ensures PassAt(Pass(p.(pending := []), pending, daemon, rules), p, pending, 0, daemon, rules)
    ensures Seen(pending, [], pending, 0)
  {
    assert pending[..0] == [] && pending[0..] == pending;
  }

  /** One turn of the loop, with the index where the code leaves it. */
  lemma PassStep(goal: Pool, p: Pool, pending: seq<PoolBlock>, i: nat, daemon: Daemon, rules: Settings)
    requires i < |pending| && rules.poolFee > -200 && PassAt(goal, p, pending, i, daemon, rules)
    ensures var b, next := pending[i], Visit(p, pending[i], daemon, rules);
            if Stays(b, daemon, rules) then PassAt(goal, next, pending, i + 1, daemon, rules)
            else
              var left := pending[..i] + pending[i + 1..];
              PassAt(goal, next.(pending := left), left, i, daemon, rules)
  {
    hide Visit, Stays;
    var b := pending[i];
    VisitPending(p, b, daemon, rules, pending[..i]);
    assert pending[i..][0] == b && pending[i..][1..] == pending[i + 1..];
    if Stays(b, daemon, rules) {
      assert pending[..i + 1] == pending[..i] + [b];
    } else {
      var left := pending[..i] + pending[i + 1..];
      assert left[..i] == pending[..i] && left[i..] == pending[i + 1..];
    }
  }

  lemma PassDone(goal: Pool, p: Pool, pending: seq<PoolBlock>, daemon: Daemon, rules: Settings)
    requires rules.poolFee > -200 && PassAt(goal, p, pending, |pending|, daemon, rules)
    ensures goal == p.(pending := pending)
  {
    assert pending[..|pending|] == pending;
  }

  lemma ConsistentKeys(l: Books)
    requires Consistent(l)
    ensures Unique(l.miners, MinerId) && Unique(l.miners, Address)
  {}

  lemma VisitPending(p: Pool, b: PoolBlock, daemon: Daemon, rules: Settings, pending: seq<PoolBlock>)
    requires rules.poolFee > -200
    ensures Visit(p.(pending := pending), b, daemon, rules) == Visit(p, b, daemon, rules).(pending := pending)
    ensures Visit(p, b, daemon, rules).pending == p.pending
  {}

  // ----- submissions

  /** submitblock, and getblockheaderbyheight for the hash of an accepted block; either may fail. */
  datatype Answer = Unreachable | Rejected | Accepted(hash: Option<string>)

  function WithHash(b: PoolBlock, hash: Option<string>): seq<PoolBlock> {
    if hash.Some? then [b.(hash := hash.value)] else []
  }

  function Submitted(p: Pool, b: PoolBlock, answer: Answer): Pool {
    var rBlock := Find(p.books.blocks, Height, b.height);
    if answer.Accepted? && rBlock.Some? then
      p.(books := p.books.(blocks := Put(p.books.blocks, BlockId, rBlock.value.(found := true, founder := b.founder))),
         pending := p.pending + WithHash(b, answer.hash))
    else p
  }

  predicate Awaits(pending: seq<PoolBlock>, height: int) {
    exists x :: x in pending && x.height == height
  }

  predicate Kept(p: Pool, b: PoolBlock, daemon: PoolBlock -> Answer) {
    Awaits(p.pending, b.height) || daemon(b).Unreachable?
  }

  function SubmitAll(p: Pool, todo: seq<PoolBlock>, kept: seq<PoolBlock>, daemon: PoolBlock -> Answer)
    : (Pool, seq<PoolBlock>)
    decreases |todo|
  {
    if todo == [] then (p, kept)
    else if Kept(p, todo[0], daemon) then SubmitAll(p, todo[1..], kept + [todo[0]], daemon)
    else SubmitAll(Submitted(p, todo[0], daemon(todo[0])), todo[1..], kept, daemon)
  }

  ghost predicate SubmitAt(goal: (Pool, seq<PoolBlock>), p: Pool, list: seq<PoolBlock>, i: nat,
                           daemon: PoolBlock -> Answer)
  {
    i <= |list| && goal == SubmitAll(p, list[i..], list[..i], daemon)
  }

  lemma SubmitStarts(p: Pool, list: seq<PoolBlock>, daemon: PoolBlock -> Answer)
    ensures SubmitAt(SubmitAll(p, list, [], daemon), p, list, 0, daemon) && Seen(list, [], list, 0)
  {
    assert list[..0] == [] && list[0..] == list;
  }

  lemma SubmitStep(goal: (Pool, seq<PoolBlock>), p: Pool, list: seq<PoolBlock>, i: nat, daemon: PoolBlock -> Answer)
    requires i < |list| && SubmitAt(goal, p, list, i, daemon)
    ensures var b := list[i];
            if Kept(p, b, daemon) then SubmitAt(goal, p, list, i + 1, daemon)
            else SubmitAt(goal, Submitted(p, b, daemon(b)), list[..i] + list[i + 1..], i, daemon)
  {
    hide Submitted, Kept;
    assert list[i..][0] == list[i] && list[i..][1..] == list[i + 1..];
    if Kept(p, list[i], daemon) {
      assert list[..i + 1] == list[..i] + [list[i]];
    } else {
      var left := list[..i] + list[i + 1..];
      assert left[..i] == list[..i] && left[i..] == list[i + 1..];
    }
  }

  lemma SubmitDone(goal: (Pool, seq<PoolBlock>), p: Pool, list: seq<PoolBlock>, daemon: PoolBlock -> Answer)
    requires SubmitAt(goal, p, list, |list|, daemon)
    ensures goal == (p, list)
  {
    assert list[..|list|] == list;
  }

  // ----- whole runs

  function HeightOf(l: Books, s: Share): Option<int> {
    match Find(l.rewards, RewardId, s.reward)
    case None => None
    case Some(r) => HeightOfBlock(l.blocks, r.block)
  }

  function TimesPaid(payouts: seq<Payout>, id: Id): nat {
    if payouts == [] then 0
    else TimesPaid(payouts[..|payouts| - 1], id) + if id in payouts[|payouts| - 1].shares then 1 else 0
  }

  /** The pool with what it knows of the chain: the height worked on and the last height the daemon took. */
  datatype World = World(pool: Pool, current: int, accepted: int)

  datatype Event =
    | Credited(address: string, value: nat, ids: Fresh)
    | Tip(height: int)
    | Answered(block: PoolBlock, answer: Answer)
    | Paid(daemon: Daemon, tip: int)

  /** What is assumed of the environment: fresh identifiers; a current height above every paid one; accepted heights
      that increase; one chain tip for a whole payment pass, whose confirmed blocks are below the current height. */
  ghost predicate Allowed(w: World, e: Event, rules: Settings) {
    match e
    case Credited(_, _, ids) => IsFresh(w.pool.books, ids)
    case Tip(height) => height > w.pool.lastPaid
    case Answered(b, answer) => answer.Accepted? ==> b.height > w.accepted
    case Paid(daemon, tip) =>
      && (forall b :: b in w.pool.pending ==> daemon(b).orphan || daemon(b).depth == tip - b.height)
      && tip - rules.confirms < w.current
  }

  function Next(w: World, e: Event, rules: Settings): World
    requires rules.poolFee > -200
  {
    match e
    case Credited(address, value, ids) =>
      w.(pool := w.pool.(books := Credit(w.pool.books, w.current, address, value, ids)))
    case Tip(height) => w.(current := height)
    case Answered(b, answer) =>
      w.(pool := Submitted(w.pool, b, answer), accepted := if answer.Accepted? then b.height else w.accepted)
    case Paid(daemon, tip) => w.(pool := Pass(w.pool.(pending := []), w.pool.pending, daemon, rules))
  }

  ghost predicate Increasing(pending: seq<PoolBlock>) {
    forall i, j :: 0 <= i < j < |pending| ==> pending[i].height < pending[j].height
  }

  ghost predicate Between(pending: seq<PoolBlock>, low: int, high: int) {
    forall i :: 0 <= i < |pending| ==> low < pending[i].height <= high
  }

  /** Each share is paid for exactly once if its block is at or below the last paid one, and not at all above. */
  ghost predicate PaidRight(p: Pool) {
    && (forall s :: s in p.books.shares ==> PaidOnce(p, s))
    && (forall id :: Find(p.books.shares, ShareId, id).None? ==> TimesPaid(p.payouts, id) == 0)
  }

  predicate PaidOnce(p: Pool, s: Share) {
    var h := HeightOf(p.books, s);
    h.Some? && TimesPaid(p.payouts, s.id) == if h.value <= p.lastPaid then 1 else 0
  }

  ghost predicate Sound(w: World) {
    && Consistent(w.pool.books) && PaidRight(w.pool)
    && Increasing(w.pool.pending) && Between(w.pool.pending, w.pool.lastPaid, w.accepted)
    && w.pool.lastPaid <= w.accepted && w.pool.lastPaid < w.current
  }

  const BEGIN: World := World(Pool(EMPTY, 0, [], []), 1, 0)

  lemma BeginIsSound()
    ensures Sound(BEGIN)
  {}

  // ----- crediting

  lemma HeightIsKnown(l: Books, s: Share)
    requires Consistent(l) && s in l.shares
    ensures HeightOf(l, s).Some?
  {
    OwnerExists(l, s);
    var r := Find(l.rewards, RewardId, s.reward).value;
    OwnersExist(l, r);
  }

  /** A new share is at the current height, and the heights of the others stay. */
  lemma CreditHeights(l: Books, height: int, address: string, value: nat, ids: Fresh, s: Share)
    requires Consistent(l) && IsFresh(l, ids)
    ensures s in l.shares ==> HeightOf(Credit(l, height, address, value, ids), s) == HeightOf(l, s)
    ensures var l' := Credit(l, height, address, value, ids);
            s in l'.shares ==> s in l.shares || (s.id == ids.share && HeightOf(l', s) == Some(height))
    ensures Find(Credit(l, height, address, value, ids).shares, ShareId, ids.share).Some?
    ensures forall id :: Find(Credit(l, height, address, value, ids).shares, ShareId, id).None? ==>
            Find(l.shares, ShareId, id).None?
  {
    hide Linked, Unique;
    var l' := Credit(l, height, address, value, ids);
    var block, miner := BlockAt(l, height, ids.block), MinerAt(l, address, ids.miner);
    BlockIs(l, height, ids);
    MinerIs(l, address, ids);
    var found := Find(l.rewards, Pair, (miner.id, block.id));
    var r := if found.Some? then found.value.(shares := found.value.shares + [ids.share])
             else Reward(ids.reward, miner.id, block.id, [ids.share]);
    var b := if found.Some? then block else block.(rewards := block.rewards + [ids.reward]);
    var share := Share(ids.share, r.id, value);
    assert l'.rewards == Put(l.rewards, RewardId, r) && l'.blocks == Put(l.blocks, BlockId, b)
           && l'.shares == Put(l.shares, ShareId, share);
    if found.Some? { UniqueFind(l.rewards, RewardId, found.value); }
    PutMembers(l.shares, ShareId, share);
    PutFind(l.rewards, RewardId, r, r.id);
    PutFind(l.blocks, BlockId, b, b.id);
    PutFind(l.shares, ShareId, share, ids.share);
    forall id | Find(l'.shares, ShareId, id).None? ensures Find(l.shares, ShareId, id).None? {
      PutFind(l.shares, ShareId, share, id);
    }
    if s in l.shares {
      OwnerExists(l, s);
      var q := Find(l.rewards, RewardId, s.reward).value;
      OwnersExist(l, q);
      PutFind(l.rewards, RewardId, r, s.reward);
      PutFind(l.blocks, BlockId, b, q.block);
    }
  }

  lemma CreditIsSound(w: World, e: Event, rules: Settings)
    requires Sound(w) && e.Credited? && Allowed(w, e, rules) && rules.poolFee > -200
    ensures Sound(Next(w, e, rules))
  {
    hide Consistent, Credit, HeightOf;
    var l, next := w.pool.books, Next(w, e, rules);
    CreditKeeps(l, w.current, e.address, e.value, e.ids);
    forall s | s in next.pool.books.shares ensures PaidOnce(next.pool, s) {
      CreditHeights(l, w.current, e.address, e.value, e.ids, s);
      if s in l.shares { assert PaidOnce(w.pool, s); }
    }
    forall id | Find(next.pool.books.shares, ShareId, id).None? ensures TimesPaid(next.pool.payouts, id) == 0 {
      CreditHeights(l, w.current, e.address, e.value, e.ids, Share("", "", 0));
    }
  }

  // ----- submitting

  lemma HeightsStay(l: Books, l': Books, s: Share)
    requires l'.rewards == l.rewards && forall id :: HeightOfBlock(l'.blocks, id) == HeightOfBlock(l.blocks, id)
    ensures HeightOf(l', s) == HeightOf(l, s)
  {}

  /** Changes to the books that touch no share, reward or height. */
  lemma StaysRight(p: Pool, p': Pool)
    requires PaidRight(p) && p'.lastPaid == p.lastPaid && p'.payouts == p.payouts
    requires p'.books.shares == p.books.shares && p'.books.rewards == p.books.rewards
    requires forall id :: HeightOfBlock(p'.books.blocks, id) == HeightOfBlock(p.books.blocks, id)
    ensures PaidRight(p')
  {
    hide HeightOf, HeightOfBlock;
    forall s | s in p'.books.shares ensures PaidOnce(p', s) {
      assert PaidOnce(p, s);
      HeightsStay(p.books, p'.books, s);
    }
  }

  lemma AnswerIsSound(w: World, e: Event, rules: Settings)
    requires Sound(w) && e.Answered? && Allowed(w, e, rules) && rules.poolFee > -200
    ensures Sound(Next(w, e, rules))
  {
    hide Consistent, PaidRight, Put, HeightOfBlock;
    var p, rBlock := w.pool, Find(w.pool.books.blocks, Height, e.block.height);
    if e.answer.Accepted? && rBlock.Some? {
      var b := rBlock.value.(found := true, founder := e.block.founder);
      ChangedBlock(p.books, rBlock.value, b);
      StaysRight(p, Submitted(p, e.block, e.answer));
    }
  }

  // ----- paying

  lemma RangeIsHeight(l: Books, s: Share, low: int, high: int)
    requires Consistent(l) && s in l.shares
    ensures HeightOf(l, s).Some? && (ShareInRange(l, s, low, high) <==> low < HeightOf(l, s).value <= high)
  {
    hide Linked;
    HeightIsKnown(l, s);
    var r := Find(l.rewards, RewardId, s.reward).value;
    var b := Find(l.blocks, BlockId, r.block).value;
    assert b in l.blocks && b.id == r.block;
    forall x | x in l.blocks && x.id == r.block ensures x == b { UniqueFind(l.blocks, BlockId, x); }
  }

  lemma PaidIdsAre(l: Books, s: Share, low: int, high: int)
    requires Consistent(l) && s in l.shares
    ensures s.id in PaidIds(l, low, high) <==> ShareInRange(l, s, low, high)
  {
    hide Linked, ShareInRange;
    if s.id in PaidIds(l, low, high) {
      var x :| x in l.shares && ShareInRange(l, x, low, high) && x.id == s.id;
      UniqueFind(l.shares, ShareId, x);
      UniqueFind(l.shares, ShareId, s);
    }
  }

  lemma UnknownIsNotPaid(l: Books, id: Id, low: int, high: int)
    requires Find(l.shares, ShareId, id).None?
    ensures id !in PaidIds(l, low, high)
  {
    forall s | s in l.shares ensures ShareId(s) != id {}
  }

  lemma TimesAfter(payouts: seq<Payout>, paid: Payout, id: Id)
    ensures TimesPaid(payouts + [paid], id) == TimesPaid(payouts, id) + if id in paid.shares then 1 else 0
  {
    assert (payouts + [paid])[..|payouts|] == payouts;
  }

  /** A payout for a higher block pays for the shares above the last paid block and up to this one: those that
      no payout has paid for, shares of orphaned rounds among them. */
  lemma PayForIsRight(p: Pool, b: PoolBlock, reward: nat, rules: Settings)
    requires Consistent(p.books) && PaidRight(p) && p.lastPaid < b.height && rules.poolFee > -200
    ensures Consistent(PayFor(p, b, reward, rules).books) && PaidRight(PayFor(p, b, reward, rules))
  {
    hide Consistent, HeightOf, ShareInRange, PaidIds, MinersPaid, HeightOfBlock;
    var p', paid := PayFor(p, b, reward, rules), PayoutOf(p, b);
    PaidStaysConsistent(p.books, p.lastPaid, b.height, reward, rules.poolFee, rules.noValue);
    forall s | s in p'.books.shares ensures PaidOnce(p', s) {
      assert PaidOnce(p, s);
      HeightsStay(p.books, p'.books, s);
      RangeIsHeight(p.books, s, p.lastPaid, b.height);
      PaidIdsAre(p.books, s, p.lastPaid, b.height);
      TimesAfter(p.payouts, paid, s.id);
    }
    forall id | Find(p'.books.shares, ShareId, id).None? ensures TimesPaid(p'.payouts, id) == 0 {
      UnknownIsNotPaid(p.books, id, p.lastPaid, b.height);
      TimesAfter(p.payouts, paid, id);
    }
  }

  /** A share whose block is above the new last paid one, though it has been paid for. */
  predicate SetBack(p: Pool, b: PoolBlock, s: Share) {
    var h := HeightOf(p.books, s);
    h.Some? && b.height < h.value <= p.lastPaid
  }

  /** Without increasing heights: a payout leaves the record of what is paid right if and only if it sets the last paid
      block back below no block with shares. */
  lemma PayForIsRightIff(p: Pool, b: PoolBlock, reward: nat, rules: Settings)
    requires Consistent(p.books) && PaidRight(p) && rules.poolFee > -200
    ensures PaidRight(PayFor(p, b, reward, rules)) <==> forall s :: s in p.books.shares ==> !SetBack(p, b, s)
  {
    hide Consistent, HeightOf, ShareInRange, PaidIds, MinersPaid, HeightOfBlock;
    var p', paid := PayFor(p, b, reward, rules), PayoutOf(p, b);
    if p.lastPaid < b.height {
      PayForIsRight(p, b, reward, rules);
    } else {
      forall s | s in p.books.shares ensures PaidOnce(p', s) <==> !SetBack(p, b, s) {
        assert PaidOnce(p, s);
        HeightsStay(p.books, p'.books, s);
        RangeIsHeight(p.books, s, p.lastPaid, b.height);
        PaidIdsAre(p.books, s, p.lastPaid, b.height);
        TimesAfter(p.payouts, paid, s.id);
      }
      forall id | Find(p'.books.shares, ShareId, id).None? ensures TimesPaid(p'.payouts, id) == 0 {
        UnknownIsNotPaid(p.books, id, p.lastPaid, b.height);
        TimesAfter(p.payouts, paid, id);
      }
    }
  }

  /** And a share that is set back is paid for again by the next payout above it. */
  lemma SetBackPaysTwice(p: Pool, b: PoolBlock, c: PoolBlock, s: Share, reward: nat, rules: Settings)
    requires Consistent(p.books) && PaidRight(p) && s in p.books.shares && rules.poolFee > -200
    requires SetBack(p, b, s) && HeightOf(p.books, s).value <= c.height
    ensures TimesPaid(PayFor(PayFor(p, b, reward, rules), c, reward, rules).payouts, s.id) == 2
  {
    hide Consistent, HeightOf, ShareInRange, PaidIds, MinersPaid, HeightOfBlock, TimesPaid;
    var q := PayFor(p, b, reward, rules);
    assert PaidOnce(p, s);
    PaidStaysConsistent(p.books, p.lastPaid, b.height, reward, rules.poolFee, rules.noValue);
    HeightsStay(p.books, q.books, s);
    RangeIsHeight(p.books, s, p.lastPaid, b.height);
    PaidIdsAre(p.books, s, p.lastPaid, b.height);
    TimesAfter(p.payouts, PayoutOf(p, b), s.id);
    RangeIsHeight(q.books, s, b.height, c.height);
    PaidIdsAre(q.books, s, b.height, c.height);
    TimesAfter(q.payouts, PayoutOf(q, c), s.id);
  }

  /** What holds in the middle of a pass: blocks kept are above every block that this pass can still pay. */
  ghost predicate MidPass(p: Pool, todo: seq<PoolBlock>, limit: int, accepted: int, current: int) {
    && Consistent(p.books) && PaidRight(p) && p.lastPaid < current && p.lastPaid <= accepted
    && Increasing(p.pending) && Between(p.pending, p.lastPaid, accepted) && Between(p.pending, limit, accepted)
    && Increasing(todo) && Between(todo, p.lastPaid, accepted)
    && (forall i, j :: 0 <= i < |p.pending| && 0 <= j < |todo| ==> p.pending[i].height < todo[j].height)
  }

  lemma VisitInPass(p: Pool, todo: seq<PoolBlock>, daemon: Daemon, rules: Settings, tip: int, accepted: int,
                    current: int)
    requires todo != [] && rules.poolFee > -200 && MidPass(p, todo, tip - rules.confirms, accepted, current)
    requires daemon(todo[0]).orphan || daemon(todo[0]).depth == tip - todo[0].height
    requires tip - rules.confirms < current
    ensures var b := todo[0];
            var next := Visit(p, b, daemon, rules);
            MidPass(if Stays(b, daemon, rules) then next.(pending := next.pending + [b]) else next, todo[1..],
                    tip - rules.confirms, accepted, current)
  {
    hide Consistent, PaidRight, PayFor, MarkOrphan, HeightOfBlock;
    var b := todo[0];
    if Paying(daemon(b), rules) {
      PayForIsRight(p, b, daemon(b).reward, rules);
      PayForIs(p, b, daemon(b).reward, rules);
    } else if daemon(b).orphan {
      MarkIsRight(p, b.height);
    } else {
      StaysRight(p, p.(pending := p.pending + [b]));
    }
  }

  lemma PayForIs(p: Pool, b: PoolBlock, reward: nat, rules: Settings)
    requires rules.poolFee > -200
    ensures PayFor(p, b, reward, rules).lastPaid == b.height && PayFor(p, b, reward, rules).pending == p.pending
  {}

  lemma MarkIsRight(p: Pool, height: int)
    requires Consistent(p.books) && PaidRight(p)
    ensures var p' := p.(books := MarkOrphan(p.books, height)); Consistent(p'.books) && PaidRight(p')
  {
    hide Consistent, PaidRight, HeightOfBlock, Put;
    match Find(p.books.blocks, Height, height)
    case None =>
    case Some(b) =>
      ChangedBlock(p.books, b, b.(orphan := true));
      StaysRight(p, p.(books := MarkOrphan(p.books, height)));
  }

  lemma {:induction false} PassIsSound(p: Pool, todo: seq<PoolBlock>, daemon: Daemon, rules: Settings, tip: int,
                                       accepted: int, current: int)
    requires rules.poolFee > -200 && MidPass(p, todo, tip - rules.confirms, accepted, current)
    requires forall b :: b in todo ==> daemon(b).orphan || daemon(b).depth == tip - b.height
    requires tip - rules.confirms < current
    ensures MidPass(Pass(p, todo, daemon, rules), [], tip - rules.confirms, accepted, current)
    decreases |todo|
  {
    hide Visit, Stays, MidPass;
    if todo != [] {
      var b := todo[0];
      assert b in todo;
      VisitInPass(p, todo, daemon, rules, tip, accepted, current);
      var next := Visit(p, b, daemon, rules);
      PassIsSound(if Stays(b, daemon, rules) then next.(pending := next.pending + [b]) else next, todo[1..],
                  daemon, rules, tip, accepted, current);
    }
  }

  lemma PassEventIsSound(w: World, e: Event, rules: Settings)
    requires Sound(w) && e.Paid? && Allowed(w, e, rules) && rules.poolFee > -200
    ensures Sound(Next(w, e, rules))
  {
    hide Consistent, PaidRight, Pass, HeightOfBlock;
    StaysRight(w.pool, w.pool.(pending := []));
    PassIsSound(w.pool.(pending := []), w.pool.pending, e.daemon, rules, e.tip, w.accepted, w.current);
  }

  // ----- all runs

  ghost predicate Run(worlds: seq<World>, events: seq<Event>, rules: Settings)
    requires rules.poolFee > -200
  {
    && |worlds| == |events| + 1 && worlds[0] == BEGIN
    && forall i :: 0 <= i < |events| ==>
         Allowed(worlds[i], events[i], rules) && worlds[i + 1] == Next(worlds[i], events[i], rules)
  }

  lemma NextIsSound(w: World, e: Event, rules: Settings)
    requires Sound(w) && Allowed(w, e, rules) && rules.poolFee > -200
    ensures Sound(Next(w, e, rules))
  {
    hide Consistent, PaidRight, Increasing, Between;
    match e
    case Credited(_, _, _) => CreditIsSound(w, e, rules);
    case Tip(_) =>
    case Answered(_, _) => AnswerIsSound(w, e, rules);
    case Paid(_, _) => PassEventIsSound(w, e, rules);
  }

  lemma {:induction false} RunsAreSound(worlds: seq<World>, events: seq<Event>, rules: Settings, i: nat)
    requires rules.poolFee > -200 && Run(worlds, events, rules) && i < |worlds|
    ensures Sound(worlds[i])
  {
    hide Sound, Allowed, Next;
    if i == 0 {
      BeginIsSound();
    } else {
      RunsAreSound(worlds, events, rules, i - 1);
      NextIsSound(worlds[i - 1], events[i - 1], rules);
    }
  }

  /** Over every run: no share is paid for twice, and in every world every share whose block is at or below the last
      paid one has been paid for exactly once, whatever rounds were orphaned. */
  lemma EveryShareIsPaidOnce(worlds: seq<World>, events: seq<Event>, rules: Settings, i: nat, s: Share)
    requires rules.poolFee > -200 && Run(worlds, events, rules) && i < |worlds| && s in worlds[i].pool.books.shares
    ensures var p := worlds[i].pool;
            && TimesPaid(p.payouts, s.id) <= 1
            && HeightOf(p.books, s).Some?
            && (HeightOf(p.books, s).value <= p.lastPaid <==> TimesPaid(p.payouts, s.id) == 1)
  {
    hide Run, HeightOf, TimesPaid, Consistent;
    RunsAreSound(worlds, events, rules, i);
    assert PaidOnce(worlds[i].pool, s);
  }
}
