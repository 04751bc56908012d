/** The share ledger in memory: the upserts of MoneroPool/RedisPoolDatabase.cs and the crediting of shares in
    MoneroPool/CryptoNightPool.cs. A list of entities is a sequence in which identifiers are looked up. */
module Ledger {
  import opened Bytes

  type Id = string

  datatype Block = Block(id: Id, height: int, founder: string, found: bool, orphan: bool, rewards: seq<Id>)
  datatype Miner = Miner(id: Id, address: string, rewards: seq<Id>, paidOut: nat)
  datatype Reward = Reward(id: Id, miner: Id, block: Id, shares: seq<Id>)
  datatype Share = Share(id: Id, reward: Id, value: nat)

  function BlockId(b: Block): Id { b.id }
  function MinerId(m: Miner): Id { m.id }
  function RewardId(r: Reward): Id { r.id }
  function ShareId(s: Share): Id { s.id }
  function Height(b: Block): int { b.height }
  function Address(m: Miner): string { m.address }
  function Pair(r: Reward): (Id, Id) { (r.miner, r.block) }
  function RewardsOfBlock(b: Block): seq<Id> { b.rewards }
  function RewardsOfMiner(m: Miner): seq<Id> { m.rewards }
  function SharesOfReward(r: Reward): seq<Id> { r.shares }
  function MinerOfReward(r: Reward): Id { r.miner }
  function BlockOfReward(r: Reward): Id { r.block }
  function RewardOfShare(s: Share): Id { s.reward }

  // ----- lists

  /** First(x => key(x) == k), or none. */
  function Find<T, K(==)>(s: seq<T>, key: T -> K, k: K): (r: Option<T>)
    ensures r.Some? ==> r.value in s && key(r.value) == k
    ensures r.None? ==> forall x :: x in s ==> key(x) != k
  {
    if s == [] then None else if key(s[0]) == k then Some(s[0]) else Find(s[1..], key, k)
  }

  /** SaveChanges: the entity with the same key is replaced where it stands, or a new one added at the end. */
  function Put<T, K(==)>(s: seq<T>, key: T -> K, x: T): (r: seq<T>)
    ensures x in r
  {
    if s == [] then [x]
    else if key(s[0]) == key(x) then [x] + s[1..]
    else [s[0]] + Put(s[1..], key, x)
  }

  ghost predicate Unique<T, K>(s: seq<T>, key: T -> K) {
    forall i, j :: 0 <= i < j < |s| ==> key(s[i]) != key(s[j])
  }

  ghost predicate NoRepeats(s: seq<Id>) {
    forall i, j :: 0 <= i < j < |s| ==> s[i] != s[j]
  }

  lemma {:induction false} PutFind<T, K>(s: seq<T>, key: T -> K, x: T, k: K)
    ensures Find(Put(s, key, x), key, k) == if k == key(x) then Some(x) else Find(s, key, k)
    decreases |s|
  {
    if s != [] {
      if key(s[0]) == key(x) {
        assert ([x] + s[1..])[1..] == s[1..];
      } else {
        PutFind(s[1..], key, x, k);
        assert Put(s, key, x)[1..] == Put(s[1..], key, x);
      }
    }
  }

  /** Who is in a list after an upsert. */
  lemma {:induction false} PutMembers<T(!new), K>(s: seq<T>, key: T -> K, x: T)
    requires Unique(s, key)
    ensures forall y :: y in Put(s, key, x) <==> y == x || (y in s && key(y) != key(x))
    decreases |s|
  {
    if s != [] {
      var rest := s[1..];
      assert Unique(rest, key);
      assert forall y :: y in s <==> y == s[0] || y in rest;
      if key(s[0]) == key(x) {
        assert forall y :: y in rest ==> key(y) != key(s[0]);
      } else {
        PutMembers(rest, key, x);
      }
    }
  }

  /** An upsert keeps every key unique that the others do not share with the new entity. */
  lemma {:induction false} PutUnique<T(!new), K, L>(s: seq<T>, key: T -> K, other: T -> L, x: T)
    requires Unique(s, other) && Unique(s, key)
    requires forall y :: y in s && key(y) != key(x) ==> other(y) != other(x)
    ensures Unique(Put(s, key, x), other)
    decreases |s|
  {
    if s != [] {
      var rest := s[1..];
      assert Unique(rest, other) && Unique(rest, key);
      if key(s[0]) == key(x) {
        assert forall y :: y in rest ==> key(y) != key(x);
      } else {
        PutUnique(rest, key, other, x);
        PutMembers(rest, key, x);
        var r := Put(s, key, x);
        assert r == [s[0]] + Put(rest, key, x);
        forall i, j | 0 <= i < j < |r| ensures other(r[i]) != other(r[j]) {
          if i == 0 {
            assert r[j] in Put(rest, key, x);
          } else {
            assert r[i] == Put(rest, key, x)[i - 1] && r[j] == Put(rest, key, x)[j - 1];
          }
        }
      }
    }
  }

  lemma {:induction false} UniqueFind<T(!new), K>(s: seq<T>, key: T -> K, x: T)
    requires Unique(s, key) && x in s
    ensures Find(s, key, key(x)) == Some(x)
    decreases |s|
  {
    if s[0] != x {
      assert x in s[1..] && Unique(s[1..], key);
      var i :| 0 < i < |s| && s[i] == x;
      assert key(s[0]) != key(s[i]);
      UniqueFind(s[1..], key, x);
    }
  }

  /** Replaced at the first place with the key, or added after them all. */
  lemma {:induction false} PutAt<T, K>(s: seq<T>, key: T -> K, x: T, i: nat)
    requires i <= |s| && (forall j :: 0 <= j < i ==> key(s[j]) != key(x)) && (i < |s| ==> key(s[i]) == key(x))
    ensures Put(s, key, x) == if i < |s| then s[..i] + [x] + s[i + 1..] else s + [x]
    decreases |s|
  {
    if i > 0 {
      var rest := s[1..];
      forall j | 0 <= j < i - 1 ensures key(rest[j]) != key(x) { assert rest[j] == s[j + 1]; }
      PutAt(rest, key, x, i - 1);
      assert s == [s[0]] + rest;
    }
  }

  /** The loop of every SaveChanges. */
  method Save<T, K(==)>(list: seq<T>, key: T -> K, x: T) returns (r: seq<T>)
    ensures r == Put(list, key, x)
  {
    hide Put;
    r := list;
    var i := 0;
    while i < |r|
      invariant i <= |r| && r == list
      invariant forall j :: 0 <= j < i ==> key(list[j]) != key(x)
    {
      if key(r[i]) == key(x) {
        PutAt(list, key, x, i);
        r := r[..i] + r[i + 1..];
        r := r[..i] + [x] + r[i..];
        return;
      }
      i := i + 1;
    }
    PutAt(list, key, x, i);
    r := r + [x];
  }

  // ----- consistency

  /** Members know their owner and owners list their members, each once. */
  ghost predicate Linked<O(!new), M(!new)>(owners: seq<O>, oid: O -> Id, list: O -> seq<Id>,
                                           members: seq<M>, mid: M -> Id, owner: M -> Id)
  {
    && (forall x :: x in members ==> Listed(owners, oid, list, owner(x), mid(x)))
    && (forall o :: o in owners ==> NoRepeats(list(o)) && AllOwned(list(o), members, mid, owner, oid(o)))
  }

  predicate Listed<O>(owners: seq<O>, oid: O -> Id, list: O -> seq<Id>, k: Id, m: Id) {
    var o := Find(owners, oid, k);
    o.Some? && m in list(o.value)
  }

  ghost predicate AllOwned<M>(ids: seq<Id>, members: seq<M>, mid: M -> Id, owner: M -> Id, k: Id) {
    forall id :: id in ids ==> Owned(members, mid, owner, id, k)
  }

  predicate Owned<M>(members: seq<M>, mid: M -> Id, owner: M -> Id, id: Id, k: Id) {
    var x := Find(members, mid, id);
    x.Some? && owner(x.value) == k
  }

  /** A new member, and its owner (who may be new as well) with the member at the end of its list. */
  lemma LinkNew<O(!new), M(!new)>(owners: seq<O>, oid: O -> Id, list: O -> seq<Id>,
                                  members: seq<M>, mid: M -> Id, owner: M -> Id, o: O, x: M)
    requires Linked(owners, oid, list, members, mid, owner) && Unique(owners, oid) && Unique(members, mid)
    requires owner(x) == oid(o) && Find(members, mid, mid(x)) == None
    requires match Find(owners, oid, oid(o))
             case None => list(o) == [mid(x)]
             case Some(before) => list(o) == list(before) + [mid(x)]
    ensures Linked(Put(owners, oid, o), oid, list, Put(members, mid, x), mid, owner)
  {
    var owners', members' := Put(owners, oid, o), Put(members, mid, x);
    PutMembers(owners, oid, o);
    PutMembers(members, mid, x);
    forall y | y in members' ensures Listed(owners', oid, list, owner(y), mid(y)) {
      PutFind(owners, oid, o, owner(y));
      if y != x { assert Listed(owners, oid, list, owner(y), mid(y)); }
    }
    forall p | p in owners' ensures NoRepeats(list(p)) && AllOwned(list(p), members', mid, owner, oid(p)) {
      forall id | id in list(p) ensures Owned(members', mid, owner, id, oid(p)) {
        PutFind(members, mid, x, id);
        if p != o || id != mid(x) {
          var q := if p == o then Find(owners, oid, oid(o)).value else p;
          assert id in list(q) && q in owners;
          assert Owned(members, mid, owner, id, oid(q));
        }
      }
      if p == o && Find(owners, oid, oid(o)).Some? {
        var before := Find(owners, oid, oid(o)).value;
        assert AllOwned(list(before), members, mid, owner, oid(before));
        assert !Owned(members, mid, owner, mid(x), oid(before));
      }
    }
  }

  /** A member replaced by one with the same identifier and owner. */
  lemma LinkSame<O(!new), M(!new)>(owners: seq<O>, oid: O -> Id, list: O -> seq<Id>,
                                   members: seq<M>, mid: M -> Id, owner: M -> Id, before: M, x: M)
    requires Linked(owners, oid, list, members, mid, owner) && Unique(members, mid)
    requires before in members && mid(before) == mid(x) && owner(before) == owner(x)
    ensures Linked(owners, oid, list, Put(members, mid, x), mid, owner)
  {
    var members' := Put(members, mid, x);
    PutMembers(members, mid, x);
    assert Listed(owners, oid, list, owner(before), mid(before));
    forall o | o in owners ensures AllOwned(list(o), members', mid, owner, oid(o)) {
      forall id | id in list(o) ensures Owned(members', mid, owner, id, oid(o)) {
        PutFind(members, mid, x, id);
        assert Owned(members, mid, owner, id, oid(o));
        UniqueFind(members, mid, before);
      }
    }
  }

  /** An owner replaced by one with the same identifier and the same list. */
  lemma LinkOwner<O(!new), M(!new)>(owners: seq<O>, oid: O -> Id, list: O -> seq<Id>,
                                    members: seq<M>, mid: M -> Id, owner: M -> Id, before: O, o: O)
    requires Linked(owners, oid, list, members, mid, owner) && Unique(owners, oid)
    requires before in owners && oid(before) == oid(o) && list(before) == list(o)
    ensures Linked(Put(owners, oid, o), oid, list, members, mid, owner)
  {
    var owners' := Put(owners, oid, o);
    PutMembers(owners, oid, o);
    UniqueFind(owners, oid, before);
    forall x | x in members ensures Listed(owners', oid, list, owner(x), mid(x)) {
      PutFind(owners, oid, o, owner(x));
      assert Listed(owners, oid, list, owner(x), mid(x));
    }
    forall p | p in owners' ensures NoRepeats(list(p)) && AllOwned(list(p), members, mid, owner, oid(p)) {
      if p == o {
        assert AllOwned(list(before), members, mid, owner, oid(before));
      }
    }
  }

  /** The same keys in the same places: what is found stands in the same place. */
  lemma {:induction false} FindMapped<T, K>(s: seq<T>, t: seq<T>, key: T -> K, k: K) returns (i: nat)
    requires |s| == |t| && forall j :: 0 <= j < |t| ==> key(t[j]) == key(s[j])
    ensures Find(s, key, k).None? <==> Find(t, key, k).None?
    ensures Find(s, key, k).Some? ==> i < |s| && Find(s, key, k) == Some(s[i]) && Find(t, key, k) == Some(t[i])
    decreases |s|
  {
    i := 0;
    if s != [] && key(s[0]) != k {
      i := FindMapped(s[1..], t[1..], key, k);
      i := i + 1;
    }
  }

  /** Owners changed in anything but identifiers and lists. */
  lemma LinkMapped<O(!new), M(!new)>(owners: seq<O>, owners': seq<O>, oid: O -> Id, list: O -> seq<Id>,
                                     members: seq<M>, mid: M -> Id, owner: M -> Id)
    requires Linked(owners, oid, list, members, mid, owner) && |owners| == |owners'|
    requires forall j :: 0 <= j < |owners| ==> oid(owners'[j]) == oid(owners[j]) && list(owners'[j]) == list(owners[j])
    ensures Linked(owners', oid, list, members, mid, owner)
  {
    forall x | x in members ensures Listed(owners', oid, list, owner(x), mid(x)) {
      var i := FindMapped(owners, owners', oid, owner(x));
      assert Listed(owners, oid, list, owner(x), mid(x));
    }
    forall p | p in owners' ensures NoRepeats(list(p)) && AllOwned(list(p), members, mid, owner, oid(p)) {
      var j :| 0 <= j < |owners'| && owners'[j] == p;
      assert AllOwned(list(owners[j]), members, mid, owner, oid(owners[j]));
    }
  }

  datatype Books = Books(blocks: seq<Block>, miners: seq<Miner>, rewards: seq<Reward>, shares: seq<Share>)

  const EMPTY: Books := Books([], [], [], [])

  ghost predicate Consistent(l: Books) {
    && Unique(l.blocks, BlockId) && Unique(l.miners, MinerId)
    && Unique(l.rewards, RewardId) && Unique(l.shares, ShareId)
    && Unique(l.blocks, Height) && Unique(l.miners, Address) && Unique(l.rewards, Pair)
    && Linked(l.miners, MinerId, RewardsOfMiner, l.rewards, RewardId, MinerOfReward)
    && Linked(l.blocks, BlockId, RewardsOfBlock, l.rewards, RewardId, BlockOfReward)
    && Linked(l.rewards, RewardId, SharesOfReward, l.shares, ShareId, RewardOfShare)
  }

  function TotalValue(shares: seq<Share>): nat {
    if shares == [] then 0 else TotalValue(shares[..|shares| - 1]) + shares[|shares| - 1].value
  }

  // ----- crediting a share

  /** The identifiers drawn for what may have to be created. */
  datatype Fresh = Fresh(block: Id, miner: Id, reward: Id, share: Id)

  ghost predicate IsFresh(l: Books, ids: Fresh) {
    && Find(l.blocks, BlockId, ids.block) == None
    && Find(l.miners, MinerId, ids.miner) == None
    && Find(l.rewards, RewardId, ids.reward) == None
    && Find(l.shares, ShareId, ids.share) == None
  }

  function BlockAt(l: Books, height: int, id: Id): Block {
    match Find(l.blocks, Height, height)
    case Some(b) => b
    case None => Block(id, height, "", false, false, [])
  }

  function MinerAt(l: Books, address: string, id: Id): Miner {
    match Find(l.miners, Address, address)
    case Some(m) => m
    case None => Miner(id, address, [], 0)
  }

  function Credit(l: Books, height: int, address: string, value: nat, ids: Fresh): Books {
    var block, miner := BlockAt(l, height, ids.block), MinerAt(l, address, ids.miner);
    match Find(l.rewards, Pair, (miner.id, block.id))
    case Some(r) =>
      Books(Put(l.blocks, BlockId, block), Put(l.miners, MinerId, miner),
            Put(l.rewards, RewardId, r.(shares := r.shares + [ids.share])),
            Put(l.shares, ShareId, Share(ids.share, r.id, value)))
    case None =>
      Books(Put(l.blocks, BlockId, block.(rewards := block.rewards + [ids.reward])),
            Put(l.miners, MinerId, miner.(rewards := miner.rewards + [ids.reward])),
            Put(l.rewards, RewardId, Reward(ids.reward, miner.id, block.id, [ids.share])),
            Put(l.shares, ShareId, Share(ids.share, ids.reward, value)))
  }

  lemma {:induction false} PutSame<T(!new), K>(s: seq<T>, key: T -> K, x: T)
    requires Unique(s, key) && x in s
    ensures Put(s, key, x) == s
    decreases |s|
  {
    if s[0] != x {
      assert x in s[1..] && Unique(s[1..], key);
      var i :| 0 < i < |s| && s[i] == x;
      assert key(s[0]) != key(s[i]);
      PutSame(s[1..], key, x);
    }
  }

  lemma {:induction false} PutNew<T, K>(s: seq<T>, key: T -> K, x: T)
    requires Find(s, key, key(x)) == None
    ensures Put(s, key, x) == s + [x]
    decreases |s|
  {
    if s != [] {
      PutNew(s[1..], key, x);
    }
  }

  /** The miner that a credit works on: the one of the address, or a new one, no rewards yet. */
  lemma MinerIs(l: Books, address: string, ids: Fresh)
    requires Consistent(l) && IsFresh(l, ids)
    ensures var m := MinerAt(l, address, ids.miner);
            && m.address == address
            && match Find(l.miners, MinerId, m.id)
               case Some(before) => before == m && m in l.miners
               case None => m.rewards == [] && m.id == ids.miner && Find(l.miners, Address, address) == None
  {
    var m := MinerAt(l, address, ids.miner);
    if Find(l.miners, Address, address).Some? { UniqueFind(l.miners, MinerId, m); }
  }

  lemma BlockIs(l: Books, height: int, ids: Fresh)
    requires Consistent(l) && IsFresh(l, ids)
    ensures var b := BlockAt(l, height, ids.block);
            && b.height == height
            && match Find(l.blocks, BlockId, b.id)
               case Some(before) => before == b && b in l.blocks
               case None => b.rewards == [] && b.id == ids.block && Find(l.blocks, Height, height) == None
  {
    var b := BlockAt(l, height, ids.block);
    if Find(l.blocks, Height, height).Some? { UniqueFind(l.blocks, BlockId, b); }
  }

  lemma MinerKeysStayUnique(l: Books, address: string, ids: Fresh, rewards: seq<Id>)
    requires Consistent(l) && IsFresh(l, ids)
    ensures var ms := Put(l.miners, MinerId, MinerAt(l, address, ids.miner).(rewards := rewards));
            Unique(ms, MinerId) && Unique(ms, Address)
  {
    var m := MinerAt(l, address, ids.miner).(rewards := rewards);
    MinerIs(l, address, ids);
    PutUnique(l.miners, MinerId, MinerId, m);
    forall y | y in l.miners && y.id != m.id ensures y.address != address {
      UniqueFind(l.miners, Address, y);
    }
    PutUnique(l.miners, MinerId, Address, m);
  }

  lemma BlockKeysStayUnique(l: Books, height: int, ids: Fresh, rewards: seq<Id>)
    requires Consistent(l) && IsFresh(l, ids)
    ensures var bs := Put(l.blocks, BlockId, BlockAt(l, height, ids.block).(rewards := rewards));
            Unique(bs, BlockId) && Unique(bs, Height)
  {
    var b := BlockAt(l, height, ids.block).(rewards := rewards);
    BlockIs(l, height, ids);
    PutUnique(l.blocks, BlockId, BlockId, b);
    forall y | y in l.blocks && y.id != b.id ensures y.height != height {
      UniqueFind(l.blocks, Height, y);
    }
    PutUnique(l.blocks, BlockId, Height, b);
  }

  /** The reward record is there already: it gains the share. */
  lemma CreditOld(l: Books, height: int, address: string, value: nat, ids: Fresh)
    requires Consistent(l) && IsFresh(l, ids)
    requires Find(l.rewards, Pair, (MinerAt(l, address, ids.miner).id, BlockAt(l, height, ids.block).id)).Some?
    ensures Consistent(Credit(l, height, address, value, ids))
  {
    hide Linked, Unique;
    var block, miner := BlockAt(l, height, ids.block), MinerAt(l, address, ids.miner);
    var r := Find(l.rewards, Pair, (miner.id, block.id)).value;
    var r', s := r.(shares := r.shares + [ids.share]), Share(ids.share, r.id, value);
    MinerIs(l, address, ids);
    BlockIs(l, height, ids);
    OwnersExist(l, r);
    PutSame(l.miners, MinerId, miner);
    PutSame(l.blocks, BlockId, block);
    UniqueFind(l.rewards, RewardId, r);
    LinkNew(l.rewards, RewardId, SharesOfReward, l.shares, ShareId, RewardOfShare, r', s);
    LinkSame(l.miners, MinerId, RewardsOfMiner, l.rewards, RewardId, MinerOfReward, r, r');
    LinkSame(l.blocks, BlockId, RewardsOfBlock, l.rewards, RewardId, BlockOfReward, r, r');
    PutUnique(l.rewards, RewardId, RewardId, r');
    PairStaysUnique(l, r, r');
    PutUnique(l.shares, ShareId, ShareId, s);
  }

  lemma OwnersExist(l: Books, r: Reward)
    requires Consistent(l) && r in l.rewards
    ensures Find(l.miners, MinerId, r.miner).Some? && Find(l.blocks, BlockId, r.block).Some?
  {
    assert Listed(l.miners, MinerId, RewardsOfMiner, MinerOfReward(r), RewardId(r));
    assert Listed(l.blocks, BlockId, RewardsOfBlock, BlockOfReward(r), RewardId(r));
  }

  lemma PairStaysUnique(l: Books, r: Reward, r': Reward)
    requires Consistent(l) && r in l.rewards && r'.id == r.id && Pair(r') == Pair(r)
    ensures Unique(Put(l.rewards, RewardId, r'), Pair)
  {
    forall y | y in l.rewards && y.id != r.id ensures Pair(y) != Pair(r') {
      UniqueFind(l.rewards, Pair, y);
      UniqueFind(l.rewards, Pair, r);
    }
    PutUnique(l.rewards, RewardId, Pair, r');
  }

  /** A new reward record, for a miner and a block that may be new too. */
  lemma CreditNew(l: Books, height: int, address: string, value: nat, ids: Fresh)
    requires Consistent(l) && IsFresh(l, ids)
    requires Find(l.rewards, Pair, (MinerAt(l, address, ids.miner).id, BlockAt(l, height, ids.block).id)).None?
    ensures Consistent(Credit(l, height, address, value, ids))
  {
    hide Linked, Unique;
    var block, miner := BlockAt(l, height, ids.block), MinerAt(l, address, ids.miner);
    var block' := block.(rewards := block.rewards + [ids.reward]);
    var miner' := miner.(rewards := miner.rewards + [ids.reward]);
    var r, s := Reward(ids.reward, miner.id, block.id, [ids.share]), Share(ids.share, ids.reward, value);
    MinerIs(l, address, ids);
    BlockIs(l, height, ids);
    MinerKeysStayUnique(l, address, ids, miner'.rewards);
    BlockKeysStayUnique(l, height, ids, block'.rewards);
    assert Find(l.miners, MinerId, miner.id) == None ==> miner'.rewards == [ids.reward];
    assert Find(l.blocks, BlockId, block.id) == None ==> block'.rewards == [ids.reward];
    LinkNew(l.miners, MinerId, RewardsOfMiner, l.rewards, RewardId, MinerOfReward, miner', r);
    LinkNew(l.blocks, BlockId, RewardsOfBlock, l.rewards, RewardId, BlockOfReward, block', r);
    LinkNew(l.rewards, RewardId, SharesOfReward, l.shares, ShareId, RewardOfShare, r, s);
    PutUnique(l.rewards, RewardId, RewardId, r);
    PutUnique(l.rewards, RewardId, Pair, r);
    PutUnique(l.shares, ShareId, ShareId, s);
  }

  /** Crediting a share keeps the ledger consistent, and the total value grows by exactly the share's. */
  lemma CreditKeeps(l: Books, height: int, address: string, value: nat, ids: Fresh)
    requires Consistent(l) && IsFresh(l, ids)
    ensures var after := Credit(l, height, address, value, ids);
            && Consistent(after) && TotalValue(after.shares) == TotalValue(l.shares) + value
            && |after.shares| == |l.shares| + 1
  {
    hide Consistent;
    var r := Find(l.rewards, Pair, (MinerAt(l, address, ids.miner).id, BlockAt(l, height, ids.block).id));
    var s := Share(ids.share, if r.Some? then r.value.id else ids.reward, value);
    PutNew(l.shares, ShareId, s);
    assert (l.shares + [s])[..|l.shares|] == l.shares;
    if r.Some? {
      CreditOld(l, height, address, value, ids);
    } else {
      CreditNew(l, height, address, value, ids);
    }
  }

  /** Every share is in the list of one reward record, the one it names, and there once. */
  lemma ShareIsListedOnce(l: Books, s: Share, r: Reward)
    requires Consistent(l) && s in l.shares && r in l.rewards
    ensures s.id in r.shares <==> s.reward == r.id
    ensures Find(l.rewards, RewardId, s.reward).Some? && NoRepeats(r.shares)
  {
    UniqueFind(l.rewards, RewardId, r);
    UniqueFind(l.shares, ShareId, s);
    assert Listed(l.rewards, RewardId, SharesOfReward, RewardOfShare(s), ShareId(s));
    if s.id in r.shares {
      assert AllOwned(r.shares, l.shares, ShareId, RewardOfShare, r.id);
      assert Owned(l.shares, ShareId, RewardOfShare, s.id, r.id);
    }
  }

  // ----- the code

  class PoolDatabase {
    var blocks: seq<Block>
    var miners: seq<Miner>
    var blockRewards: seq<Reward>
    var shares: seq<Share>
    var lastPaidBlock: int

    ghost function Now(): Books
      reads this
    {
      Books(blocks, miners, blockRewards, shares)
    }

    constructor ()
      ensures Now() == EMPTY && lastPaidBlock == 0
    {
      blocks, miners, blockRewards, shares := [], [], [], [];
      lastPaidBlock := 0;
    }

    method SaveBlock(block: Block)
      modifies this`blocks
      ensures blocks == Put(old(blocks), BlockId, block)
    {
      blocks := Save(blocks, BlockId, block);
    }

    method SaveMiner(miner: Miner)
      modifies this`miners
      ensures miners == Put(old(miners), MinerId, miner)
    {
      miners := Save(miners, MinerId, miner);
    }

    method SaveBlockReward(blockReward: Reward)
      modifies this`blockRewards
      ensures blockRewards == Put(old(blockRewards), RewardId, blockReward)
    {
      blockRewards := Save(blockRewards, RewardId, blockReward);
    }

    method SaveShare(share: Share)
      modifies this`shares
      ensures shares == Put(old(shares), ShareId, share)
    {
      shares := Save(shares, ShareId, share);
    }

    /** The foreach over the block rewards, up to the first one of this block and miner. */
    method FindReward(block: Id, miner: Id) returns (r: Option<Reward>)
      ensures r == Find(blockRewards, Pair, (miner, block))
    {
      assert blockRewards[0..] == blockRewards;
      for i := 0 to |blockRewards|
        invariant Find(blockRewards, Pair, (miner, block)) == Find(blockRewards[i..], Pair, (miner, block))
      {
        assert blockRewards[i..][1..] == blockRewards[i + 1..];
        if blockRewards[i].block == block && blockRewards[i].miner == miner {
          return Some(blockRewards[i]);
        }
      }
      r := None;
    }

    /** CryptoNightPool.IncreaseShareCount for a worker's address; a base difficulty of zero makes it throw. The
        value of a share is a whole number, zero for a difficulty below the base. */
    method IncreaseShareCount(currentHeight: int, address: string, difficulty: nat, baseDifficulty: nat, ids: Fresh)
      returns (ok: bool)
      modifies this`blocks, this`miners, this`blockRewards, this`shares
      ensures ok <==> baseDifficulty != 0
      ensures Now() == if ok then Credit(old(Now()), currentHeight, address, difficulty / baseDifficulty, ids)
                       else old(Now())
    {
      hide Put;
      if baseDifficulty == 0 {
        return false;
      }
      ok := true;
      var value := difficulty / baseDifficulty;
      ghost var l := Now();
      var b := Find(blocks, Height, currentHeight);
      var block := if b.Some? then b.value else Block(ids.block, currentHeight, "", false, false, []);
      var m := Find(miners, Address, address);
      var miner := if m.Some? then m.value else Miner(ids.miner, address, [], 0);
      var found := FindReward(block.id, miner.id);
      if found.Some? {
        var fShare := Share(ids.share, found.value.id, value);
        SaveBlockReward(found.value.(shares := found.value.shares + [fShare.id]));
        SaveShare(fShare);
        SaveMiner(miner);
        SaveBlock(block);
        return;
      }
      var blockReward := Reward(ids.reward, miner.id, block.id, []);
      var share := Share(ids.share, blockReward.id, value);
      assert [] + [share.id] == [share.id];
      blockReward := blockReward.(shares := blockReward.shares + [share.id]);
      miner := miner.(rewards := miner.rewards + [blockReward.id]);
      block := block.(rewards := block.rewards + [blockReward.id]);
      SaveBlockReward(blockReward);
      SaveShare(share);
      SaveMiner(miner);
      SaveBlock(block);
    }
  }
}
