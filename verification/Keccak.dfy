/** Keccak (CryptoNight/keccak.cpp): the in-place permutation against the step mappings of FIPS 202, and the
    hash against the sponge over the padded message. */
module Keccak {
  type State = a: seq<bv64> | |a| == 25 witness seq(25, _ => 0)

  // ----- the step mappings (section 3.2 of FIPS 202); lane (x, y) is at x + 5y

  function Rotl(v: bv64, n: nat): bv64
    requires 0 < n < 64
  {
    (v << n) | (v >> (64 - n))
  }

  function Xor(a: bv64, b: bv64): bv64 { a ^ b }

  function Sum(a: bv64, b: bv64, c: bv64, d: bv64, e: bv64): bv64 { a ^ b ^ c ^ d ^ e }

  function Parity(a: State, x: nat): bv64
    requires x < 5
  {
    Sum(a[x], a[x + 5], a[x + 10], a[x + 15], a[x + 20])
  }

  function ThetaEffect(a: State, x: nat): bv64
    requires x < 5
  {
    Xor(Parity(a, (x + 4) % 5), Rotl(Parity(a, (x + 1) % 5), 1))
  }

  function Column(l: nat): (x: nat)
    ensures x < 5
  {
    l % 5
  }

  function Theta(a: State): State {
    seq(25, l requires 0 <= l < 25 => Xor(a[l], ThetaEffect(a, Column(l))))
  }

  /** Where the walk of section 3.2.2 is at step t. */
  function Walk(t: nat): (p: (nat, nat))
    ensures p.0 < 5 && p.1 < 5
  {
    if t == 0 then (1, 0) else var (x, y) := Walk(t - 1); (y, (2 * x + 3 * y) % 5)
  }

  function Lane(p: (nat, nat)): (l: nat)
    requires p.0 < 5 && p.1 < 5
    ensures l < 25
  {
    p.0 + 5 * p.1
  }

  function Offset(t: nat): (n: nat)
    ensures n < 64
  {
    (t + 1) * (t + 2) / 2 % 64
  }

  /** The first `t` steps of the walk, each turning the lane it is at. */
  function RhoSteps(a: State, t: nat): State {
    if t == 0 then a
    else
      var l := Lane(Walk(t - 1));
      RhoSteps(a, t - 1)[l := if Offset(t - 1) == 0 then a[l] else Rotl(a[l], Offset(t - 1))]
  }

  function Rho(a: State): State {
    RhoSteps(a, 24)
  }

  /** The lane that Pi puts at l. */
  function Source(l: nat): (p: nat)
    requires l < 25
    ensures p < 25
  {
    Lane(((l % 5 + 3 * (l / 5)) % 5, l % 5))
  }

  function Pi(a: State): State {
    seq(25, l requires 0 <= l < 25 => a[Source(l)])
  }

  function ChiLane(a: bv64, b: bv64, c: bv64): bv64 { a ^ (!b & c) }

  /** The lane k places on in the same row. */
  function InRow(l: nat, k: nat): (m: nat)
    requires l < 25
    ensures m < 25
  {
    5 * (l / 5) + (l % 5 + k) % 5
  }

  function Chi(a: State): State {
    seq(25, l requires 0 <= l < 25 => ChiLane(a[l], a[InRow(l, 1)], a[InRow(l, 2)]))
  }

  /** The shift register of section 3.2.5, its bit R[i] at place i. */
  function ShiftRegister(r: bv8): bv8 {
    (r << 1) ^ (if r & 0x80 != 0 then 0x71 else 0)
  }

  function Register(t: nat): bv8 {
    if t == 0 then 1 else ShiftRegister(Register(t - 1))
  }

  function RegisterBit(r: bv8): bv64 { if r & 1 != 0 then 1 else 0 }

  /** Seven output bits at the places 2^j - 1. */
  function Spread(r0: bv8, r1: bv8, r2: bv8, r3: bv8, r4: bv8, r5: bv8, r6: bv8): bv64 {
    RegisterBit(r0) | (RegisterBit(r1) << 1) | (RegisterBit(r2) << 3) | (RegisterBit(r3) << 7) |
    (RegisterBit(r4) << 15) | (RegisterBit(r5) << 31) | (RegisterBit(r6) << 63)
  }

  function RoundConstant(i: nat): bv64 {
    Spread(Register(7 * i), Register(7 * i + 1), Register(7 * i + 2), Register(7 * i + 3),
           Register(7 * i + 4), Register(7 * i + 5), Register(7 * i + 6))
  }

  function Iota(a: State, i: nat): State {
    a[0 := a[0] ^ RoundConstant(i)]
  }

  function Round(a: State, i: nat): State {
    Iota(Chi(Pi(Rho(Theta(a)))), i)
  }

  function Rounds(a: State, n: nat): State {
    if n == 0 then a else Round(Rounds(a, n - 1), n - 1)
  }

  // ----- the tables

  const RNDC: seq<bv64> := [
    0x0000000000000001, 0x0000000000008082, 0x800000000000808a,
    0x8000000080008000, 0x000000000000808b, 0x0000000080000001,
    0x8000000080008081, 0x8000000000008009, 0x000000000000008a,
    0x0000000000000088, 0x0000000080008009, 0x000000008000000a,
    0x000000008000808b, 0x800000000000008b, 0x8000000000008089,
    0x8000000000008003, 0x8000000000008002, 0x8000000000000080,
    0x000000000000800a, 0x800000008000000a, 0x8000000080008081,
    0x8000000000008080, 0x0000000080000001, 0x8000000080008008]

  const ROTC: seq<nat> := [
    1, 3, 6, 10, 15, 21, 28, 36, 45, 55, 2, 14,
    27, 41, 56, 8, 25, 43, 62, 18, 39, 61, 20, 44]

  const PILN: seq<nat> := [
    10, 7, 11, 17, 18, 3, 5, 16, 8, 21, 24, 4,
    15, 23, 19, 13, 12, 2, 20, 14, 22, 9, 6, 1]

  /** When the walk comes to a lane; 24 for lane 0, to which it never comes. */
  const ARRIVAL: seq<nat> := [
    24, 0, 18, 6, 12, 7, 23, 2, 9, 22, 1, 3, 17, 16, 20, 13, 8, 4, 5, 15, 19, 10, 21, 14, 11]

  /** Where the walk is at each step. */
  const WALK: seq<nat> := [1] + PILN

  lemma TableSizes()
    ensures |RNDC| == 24 && |ROTC| == 24 && |PILN| == 24 && |ARRIVAL| == 25 && |WALK| == 25
  {}

  lemma RotationTableLow(t: nat)
    requires t < 12
    ensures |ROTC| == 24 && ROTC[t] == Offset(t) && 0 < ROTC[t] < 64
  {}

  lemma RotationTableHigh(t: nat)
    requires 12 <= t < 24
    ensures |ROTC| == 24 && ROTC[t] == Offset(t) && 0 < ROTC[t] < 64
  {}

  /** The rotation table holds the triangular numbers. */
  lemma RotationTable(t: nat)
    requires t < 24
    ensures |ROTC| == 24 && ROTC[t] == Offset(t) && 0 < ROTC[t] < 64
  {
    hide Offset;
    if t < 12 { RotationTableLow(t); } else { RotationTableHigh(t); }
  }

  lemma WalkTable(t: nat)
    requires t < 24
    ensures |WALK| == 25 && |PILN| == 24 && PILN[t] == WALK[t + 1]
    ensures WALK[t] < 25 && WALK[t + 1] == WALK[t] / 5 + 5 * ((2 * (WALK[t] % 5) + 3 * (WALK[t] / 5)) % 5)
  {}

  lemma ArrivalTable(t: nat)
    requires t < 24
    ensures |WALK| == 25 && |ARRIVAL| == 25 && 0 < WALK[t] < 25 && ARRIVAL[WALK[t]] == t
  {}

  lemma ArrivalInverse(l: nat)
    requires l < 25
    ensures |WALK| == 25 && |ARRIVAL| == 25 && ARRIVAL[l] <= 24 && (l == 0 <==> ARRIVAL[l] == 24)
            && (l != 0 ==> WALK[ARRIVAL[l]] == l)
  {}

  // ----- the round constants

  /** Seven shifts. */
  function Shift7(r: bv8): bv8 {
    ShiftRegister(ShiftRegister(ShiftRegister(ShiftRegister(ShiftRegister(ShiftRegister(ShiftRegister(r)))))))
  }

  /** The constant of a round that starts with the register at r. */
  function ConstantFrom(r: bv8): bv64 {
    var r1 := ShiftRegister(r);
    var r2 := ShiftRegister(r1);
    var r3 := ShiftRegister(r2);
    var r4 := ShiftRegister(r3);
    var r5 := ShiftRegister(r4);
    Spread(r, r1, r2, r3, r4, r5, ShiftRegister(r5))
  }

  /** The register at the start of each round. */
  const REGISTERS: seq<bv8> := [
    0x01, 0x80, 0xd8, 0x1a, 0xdf, 0x09, 0x35, 0x4f, 0xca, 0x70, 0x41, 0xec,
    0xd5, 0xcd, 0x63, 0xab, 0xaa, 0x2a, 0xf2, 0xe8, 0x37, 0x3e, 0x0b, 0x44]

  function RegisterAt(i: nat): bv8
    requires i < 24
  {
    REGISTERS[i]
  }

  function TableConstant(i: nat): bv64
    requires i < 24
  {
    TableSizes();
    RNDC[i]
  }

  lemma ConstantsFrom0(i: nat)
    requires 0 <= i < 6
    ensures ConstantFrom(RegisterAt(i)) == TableConstant(i)
  {}

  lemma ConstantsFrom6(i: nat)
    requires 6 <= i < 12
    ensures ConstantFrom(RegisterAt(i)) == TableConstant(i)
  {}

  lemma ConstantsFrom12(i: nat)
    requires 12 <= i < 18
    ensures ConstantFrom(RegisterAt(i)) == TableConstant(i)
  {}

  lemma ConstantsFrom18(i: nat)
    requires 18 <= i < 24
    ensures ConstantFrom(RegisterAt(i)) == TableConstant(i)
  {}

  lemma RegistersLow(i: nat)
    requires i < 12
    ensures Shift7(RegisterAt(i)) == RegisterAt(i + 1)
  {}

  lemma RegistersHigh(i: nat)
    requires 12 <= i < 23
    ensures Shift7(RegisterAt(i)) == RegisterAt(i + 1)
  {}

  lemma RegisterSteps(t: nat)
    ensures Register(t + 1) == ShiftRegister(Register(t))
    ensures Register(t + 2) == ShiftRegister(Register(t + 1))
    ensures Register(t + 3) == ShiftRegister(Register(t + 2))
    ensures Register(t + 4) == ShiftRegister(Register(t + 3))
    ensures Register(t + 5) == ShiftRegister(Register(t + 4))
    ensures Register(t + 6) == ShiftRegister(Register(t + 5))
    ensures Register(t + 7) == ShiftRegister(Register(t + 6))
  {
    hide ShiftRegister;
  }

  lemma {:induction false} RegisterIs(i: nat)
    requires i < 24
    ensures Register(7 * i) == RegisterAt(i)
  {
    hide ShiftRegister, RegisterAt;
    if i > 0 {
      RegisterIs(i - 1);
      RegisterSteps(7 * (i - 1));
      hide Register;
      if i <= 12 { RegistersLow(i - 1); } else { RegistersHigh(i - 1); }
    } else {
      assert RegisterAt(0) == 1 by { FirstRegister(); }
    }
  }

  lemma FirstRegister()
    ensures RegisterAt(0) == 1
  {}

  /** The table of round constants is the shift register's. */
  lemma RoundConstantIs(i: nat)
    requires i < 24
    ensures TableConstant(i) == RoundConstant(i)
  {
    hide ShiftRegister, Register, Spread, RegisterAt, TableConstant;
    RegisterIs(i);
    RegisterSteps(7 * i);
    if i < 6 {
      ConstantsFrom0(i);
    } else if i < 12 {
      ConstantsFrom6(i);
    } else if i < 18 {
      ConstantsFrom12(i);
    } else {
      ConstantsFrom18(i);
    }
  }

  // ----- Rho and Pi in one cycle

  function Rotation(t: nat): (n: nat)
    requires t < 24
    ensures 0 < n < 64
  {
    RotationTable(t);
    ROTC[t]
  }

  function Place(t: nat): (l: nat)
    requires t <= 24
    ensures l < 25
  {
    TableSizes();
    if t < 24 then WalkTable(t); WALK[t] else 1
  }

  /** The turn of the loop that writes a lane; lane 0 keeps out of it. */
  function Turn(l: nat): (t: nat)
    requires l < 25
    ensures t <= 24
  {
    ArrivalInverse(l);
    if l == 0 then 24 else if ARRIVAL[l] == 0 then 23 else ARRIVAL[l] - 1
  }

  lemma TurnTable(t: nat)
    requires t < 24
    ensures |PILN| == 24 && PILN[t] == Place(t + 1) && Turn(PILN[t]) == t && PILN[t] != 0 && Place(t) != 0
  {}

  lemma TurnInverse(l: nat)
    requires l < 25 && Turn(l) < 24
    ensures |PILN| == 24 && PILN[Turn(l)] == l
  {}

  const SOURCES: seq<nat> := [0, 6, 12, 18, 24, 3, 9, 10, 16, 22, 1, 7, 13, 19, 20, 4, 5, 11, 17, 23, 2, 8, 14, 15, 21]

  lemma SourceTableLow(l: nat)
    requires l < 12
    ensures |SOURCES| == 25 && Source(l) == SOURCES[l]
  {}

  lemma SourceTableHigh(l: nat)
    requires 12 <= l < 25
    ensures |SOURCES| == 25 && Source(l) == SOURCES[l]
  {}

  lemma SourcePlaceLow(l: nat)
    requires l < 12
    ensures |SOURCES| == 25 && (Turn(l) < 24 ==> SOURCES[l] == Place(Turn(l)))
            && (Turn(l) == 24 ==> l == 0 && SOURCES[l] == 0)
  {}

  lemma SourcePlaceHigh(l: nat)
    requires 12 <= l < 25
    ensures |SOURCES| == 25 && Turn(l) < 24 && SOURCES[l] == Place(Turn(l))
  {}

  /** Pi moves a lane to the next place of the walk that Rho takes. */
  lemma SourceIs(l: nat)
    requires l < 25
    ensures Turn(l) < 24 ==> Source(l) == Place(Turn(l))
    ensures Turn(l) == 24 ==> l == 0 && Source(l) == 0
  {
    hide Source, Turn, Place;
    if l < 12 {
      SourceTableLow(l);
      SourcePlaceLow(l);
    } else {
      SourceTableHigh(l);
      SourcePlaceHigh(l);
    }
  }

  lemma NextPlace(t: nat)
    requires t < 24
    ensures Place(t + 1) == Place(t) / 5 + 5 * ((2 * (Place(t) % 5) + 3 * (Place(t) / 5)) % 5)
  {
    WalkTable(t);
    assert t == 23 ==> WALK[t + 1] == 1;
  }

  lemma LaneParts(p: (nat, nat))
    requires p.0 < 5 && p.1 < 5
    ensures Lane(p) % 5 == p.0 && Lane(p) / 5 == p.1
  {}

  /** The lane table is the walk. */
  lemma {:induction false} PlaceIsWalk(t: nat)
    requires t <= 24
    ensures Place(t) == Lane(Walk(t))
  {
    if t > 0 {
      PlaceIsWalk(t - 1);
      NextPlace(t - 1);
      LaneParts(Walk(t - 1));
      hide Place;
    } else {
      assert WALK[0] == 1;
    }
  }

  lemma RotationIs(t: nat)
    requires t < 24
    ensures Rotation(t) == Offset(t)
  {
    RotationTable(t);
  }

  /** Which lanes the first t steps of the walk have turned, and how far. */
  lemma {:induction false} RhoAt(a: State, t: nat, l: nat)
    requires t <= 24 && l < 25
    ensures RhoSteps(a, t)[l] == if Turned(l, t) then Rotl(a[l], TurnedBy(l)) else a[l]
  {
    hide Rotl, Turned, TurnedBy, Place, Walk, Offset, Rotation;
    if t > 0 {
      RhoAt(a, t - 1, l);
      PlaceIsWalk(t - 1);
      RotationIs(t - 1);
      TurnedNext(l, t - 1);
    } else {
      NothingTurned(l);
    }
  }

  predicate Turned(l: nat, t: nat)
    requires l < 25
  {
    ArrivalInverse(l);
    ARRIVAL[l] < t
  }

  function TurnedBy(l: nat): (n: nat)
    requires l < 25
    ensures 0 < n < 64
  {
    ArrivalInverse(l);
    if l == 0 then 1 else Rotation(ARRIVAL[l])
  }

  lemma NothingTurned(l: nat)
    requires l < 25
    ensures !Turned(l, 0)
  {}

  lemma TurnedNext(l: nat, t: nat)
    requires l < 25 && t < 24
    ensures l == Place(t) ==> Turned(l, t + 1) && !Turned(l, t) && TurnedBy(l) == Rotation(t)
    ensures l != Place(t) ==> Turned(l, t + 1) == Turned(l, t)
  {
    ArrivalTable(t);
    ArrivalInverse(l);
    TableSizes();
  }

  /** Lane l after Rho and Pi: the lane that the cycle carries there, turned. */
  lemma RhoPiAt(a: State, l: nat)
    requires l < 25
    ensures l == 0 ==> Pi(Rho(a))[l] == a[0]
    ensures l != 0 ==> Turn(l) < 24 && Pi(Rho(a))[l] == Rotl(a[Place(Turn(l))], Rotation(Turn(l)))
  {
    hide Rotl, Turned, TurnedBy, RhoSteps, Turn, Place, Source, Rotation;
    var p := Source(l);
    assert Pi(Rho(a))[l] == RhoSteps(a, 24)[p];
    RhoAt(a, 24, p);
    SourceIs(l);
    TurnRange(l);
    if l == 0 {
      OriginStays();
    } else {
      TurnedAll(Turn(l));
    }
  }

  lemma TurnRange(l: nat)
    requires l < 25
    ensures Turn(l) < 24 <==> l != 0
  {
    ArrivalInverse(l);
  }

  lemma OriginStays()
    ensures !Turned(0, 24)
  {}

  lemma TurnedAll(t: nat)
    requires t < 24
    ensures Turned(Place(t), 24) && TurnedBy(Place(t)) == Rotation(t)
  {
    ArrivalTable(t);
    TableSizes();
  }

  // ----- the permutation in place

  method Parities(st: array<bv64>) returns (bc: array<bv64>)
    requires st.Length == 25
    ensures fresh(bc) && bc.Length == 5 && forall k :: 0 <= k < 5 ==> bc[k] == Parity(st[..], k)
  {
    hide Sum;
    bc := new bv64[5](_ => 0);
    for i := 0 to 5
      invariant forall k :: 0 <= k < i ==> bc[k] == Parity(st[..], k)
    {
      bc[i] := Sum(st[i], st[i + 5], st[i + 10], st[i + 15], st[i + 20]);
    }
  }

  /** Lane l once Theta is done in the columns before `x`. */
  ghost function ThetaLane(a: State, l: nat, x: nat): bv64
    requires l < 25
  {
    if Column(l) < x then Xor(a[l], ThetaEffect(a, Column(l))) else a[l]
  }

  lemma ThetaLaneEnds(a: State, l: nat)
    requires l < 25
    ensures ThetaLane(a, l, 0) == a[l] && ThetaLane(a, l, 5) == Theta(a)[l]
  {
    hide ThetaEffect, Column, Xor;
  }

  lemma ThetaLaneNext(a: State, l: nat, x: nat)
    requires l < 25 && x < 5
    ensures var t := Xor(Parity(a, (x + 4) % 5), Rotl(Parity(a, (x + 1) % 5), 1));
            ThetaLane(a, l, x + 1) == if Column(l) == x then Xor(ThetaLane(a, l, x), t) else ThetaLane(a, l, x)
  {
    hide Parity, Rotl, Column, Xor;
  }

  method ThetaInPlace(st: array<bv64>)
    requires st.Length == 25
    modifies st
    ensures st[..] == Theta(old(st[..]))
  {
    hide Parity, Theta, Rotl, ThetaLane, Column, Xor;
    ghost var a: State := st[..];
    var bc := Parities(st);
    forall l | 0 <= l < 25 ensures st[l] == ThetaLane(a, l, 0) { ThetaLaneEnds(a, l); }
    for i := 0 to 5
      invariant forall k :: 0 <= k < 5 ==> bc[k] == Parity(a, k)
      invariant forall l :: 0 <= l < 25 ==> st[l] == ThetaLane(a, l, i)
    {
      var t := Xor(bc[(i + 4) % 5], Rotl(bc[(i + 1) % 5], 1));
      XorColumn(st, i, t);
      forall l | 0 <= l < 25 ensures st[l] == ThetaLane(a, l, i + 1) { ThetaLaneNext(a, l, i); }
    }
    forall l | 0 <= l < 25 ensures st[l] == Theta(a)[l] { ThetaLaneEnds(a, l); }
  }

  /** The inner loop of Theta. */
  method XorColumn(st: array<bv64>, i: nat, t: bv64)
    requires st.Length == 25 && i < 5
    modifies st
    ensures forall l :: 0 <= l < 25 ==> st[l] == if Column(l) == i then Xor(old(st[l]), t) else old(st[l])
  {
    InColumn(i);
    hide Column, Xor;
    var j := 0;
    while j < 25
      invariant j <= 25 && j % 5 == 0
      invariant forall l :: 0 <= l < 25 ==> st[l] == if Column(l) == i && l < j then Xor(old(st[l]), t) else old(st[l])
    {
      st[j + i] := Xor(st[j + i], t);
      j := j + 5;
    }
  }

  lemma InColumn(x: nat)
    requires x < 5
    ensures forall l :: 0 <= l < 25 ==>
            (Column(l) == x <==> l == x || l == x + 5 || l == x + 10 || l == x + 15 || l == x + 20)
  {}

  /** Lane l once i turns of the cycle are done. */
  ghost function Carried(a: State, l: nat, i: nat): bv64
    requires l < 25 && i <= 24
  {
    if Turn(l) < i then Rotl(a[Place(Turn(l))], Rotation(Turn(l))) else a[l]
  }

  lemma CarriedFirst(a: State, l: nat)
    requires l < 25
    ensures Carried(a, l, 0) == a[l] && Place(0) == 1
  {
    assert WALK[0] == 1;
  }

  lemma CarriedNext(a: State, l: nat, i: nat)
    requires l < 25 && i < 24
    ensures |PILN| == 24 && |ROTC| == 24 && Rotation(i) == ROTC[i] && PILN[i] == Place(i + 1)
    ensures l == PILN[i] ==> Carried(a, l, i) == a[l] && Carried(a, l, i + 1) == Rotl(a[Place(i)], ROTC[i])
    ensures l != PILN[i] ==> Carried(a, l, i + 1) == Carried(a, l, i)
  {
    hide Rotl, Place, Turn;
    RotationTable(i);
    TurnTable(i);
    if Turn(l) < 24 { TurnInverse(l); }
  }

  lemma CarriedLast(a: State, l: nat)
    requires l < 25
    ensures Carried(a, l, 24) == Pi(Rho(a))[l]
  {
    hide Pi, Rho, Rotl, Turn, Place;
    RhoPiAt(a, l);
    TurnRange(l);
  }

  /** The cycle that carries every lane but the first to its place gives what Rho and then Pi give. */
  method RhoPiInPlace(st: array<bv64>)
    requires st.Length == 25
    modifies st
    ensures st[..] == Pi(Rho(old(st[..])))
  {
    hide Pi, Rho, Rotl, Carried, Place;
    ghost var a: State := st[..];
    var t := st[1];
    forall l | 0 <= l < 25 ensures st[l] == Carried(a, l, 0) { CarriedFirst(a, l); }
    CarriedFirst(a, 1);
    TableSizes();
    for i := 0 to 24
      invariant forall l :: 0 <= l < 25 ==> st[l] == Carried(a, l, i)
      invariant t == a[Place(i)]
    {
      TurnTable(i);
      RotationTable(i);
      var j := PILN[i];
      forall l | 0 <= l < 25
        ensures l == j ==> Carried(a, l, i) == a[l] && Carried(a, l, i + 1) == Rotl(a[Place(i)], ROTC[i])
        ensures l != j ==> Carried(a, l, i + 1) == Carried(a, l, i)
      {
        CarriedNext(a, l, i);
      }
      var bc0 := st[j];
      st[j] := Rotl(t, ROTC[i]);
      t := bc0;
    }
    forall l | 0 <= l < 25 ensures st[l] == Pi(Rho(a))[l] { CarriedLast(a, l); }
  }

  method ChiInPlace(st: array<bv64>)
    requires st.Length == 25
    modifies st
    ensures st[..] == Chi(old(st[..]))
  {
    hide ChiLane, Chi;
    ghost var a: State := st[..];
    var bc := new bv64[5](_ => 0);
    for y := 0 to 5
      invariant forall l :: 0 <= l < 25 ==> st[l] == if l < 5 * y then Chi(a)[l] else a[l]
    {
      for i := 0 to 5
        invariant forall l :: 0 <= l < 25 ==> st[l] == if l < 5 * y then Chi(a)[l] else a[l]
        invariant forall k :: 0 <= k < i ==> bc[k] == a[5 * y + k]
      {
        bc[i] := st[5 * y + i];
      }
      for i := 0 to 5
        invariant forall k :: 0 <= k < 5 ==> bc[k] == a[5 * y + k]
        invariant forall l :: 0 <= l < 25 ==> st[l] == if l < 5 * y + i then Chi(a)[l] else a[l]
      {
        ChiIs(a, i, y);
        st[5 * y + i] := ChiLane(st[5 * y + i], bc[(i + 1) % 5], bc[(i + 2) % 5]);
      }
    }
  }

  lemma ChiIs(a: State, x: nat, y: nat)
    requires x < 5 && y < 5
    ensures Chi(a)[5 * y + x] == ChiLane(a[5 * y + x], a[5 * y + (x + 1) % 5], a[5 * y + (x + 2) % 5])
  {
    hide ChiLane, InRow;
    RowOf(x, y, 1);
    RowOf(x, y, 2);
  }

  lemma RowOf(x: nat, y: nat, k: nat)
    requires x < 5 && y < 5
    ensures InRow(5 * y + x, k) == 5 * y + (x + k) % 5
  {
    LaneParts((x, y));
  }

  method IotaInPlace(st: array<bv64>, round: nat)
    requires st.Length == 25 && round < 24
    modifies st
    ensures st[..] == Iota(old(st[..]), round)
  {
    hide RoundConstant;
    RoundConstantIs(round);
    ghost var a: State := st[..];
    st[0] := st[0] ^ RNDC[round];
    assert st[..] == Iota(a, round);
  }

  /** keccakf */
  method Permute(st: array<bv64>, rounds: nat)
    requires st.Length == 25 && rounds <= 24
    modifies st
    ensures st[..] == Rounds(old(st[..]), rounds)
  {
    hide Theta, Rho, Pi, Chi, Iota;
    for round := 0 to rounds
      invariant st[..] == Rounds(old(st[..]), round)
    {
      ThetaInPlace(st);
      RhoPiInPlace(st);
      ChiInPlace(st);
      IotaInPlace(st, round);
    }
  }

  // ----- the sponge (sections 4 and 5.1 of FIPS 202)

  /** Eight bytes as a lane, lowest first: the cast of the byte pointer on a little-endian machine. */
  function Word(b: seq<bv8>): bv64
    requires |b| == 8
  {
    (b[0] as bv64) | ((b[1] as bv64) << 8) | ((b[2] as bv64) << 16) | ((b[3] as bv64) << 24) |
    ((b[4] as bv64) << 32) | ((b[5] as bv64) << 40) | ((b[6] as bv64) << 48) | ((b[7] as bv64) << 56)
  }

  function WordByte(w: bv64, k: nat): bv8
    requires k < 8
  {
    ((w >> (8 * k)) & 0xff) as bv8
  }

  /** The bytes of the state in order. */
  function Bytes(a: State): (b: seq<bv8>)
    ensures |b| == 200
  {
    seq(200, i requires 0 <= i < 200 => WordByte(a[i / 8], i % 8))
  }

  predicate Rate(r: nat) {
    r % 8 == 0 && 0 < r <= 144
  }

  /** A block of r bytes xored into the first lanes. */
  function Xored(a: State, block: seq<bv8>): State
    requires Rate(|block|)
  {
    seq(25, i requires 0 <= i < 25 => if 8 * i < |block| then a[i] ^ Word(block[8 * i..8 * i + 8]) else a[i])
  }

  /** The state after absorbing the whole blocks of p. */
  function Absorb(a: State, p: seq<bv8>, r: nat): State
    requires Rate(r)
    decreases |p|
  {
    if |p| < r then a else Absorb(Rounds(Xored(a, p[..r]), 24), p[r..], r)
  }

  /** What is left of n after whole blocks. */
  function Rest(n: nat, r: nat): (k: nat)
    requires r > 0
    ensures k < r
    decreases n
  {
    if n < r then n else Rest(n - r, r)
  }

  /** pad10*1 in whole bytes, lowest bit first: a one bit, zeros, a one bit. */
  function Pad(k: nat): (p: seq<bv8>)
    requires k > 0
    ensures |p| == k
  {
    if k == 1 then [0x81] else [0x01] + seq(k - 2, _ => 0) + [0x80]
  }

  function Padded(m: seq<bv8>, r: nat): seq<bv8>
    requires r > 0
  {
    m + Pad(r - Rest(|m|, r))
  }

  /** Whole blocks, and no more padding than one block. */
  lemma {:induction false} PaddedIsWhole(m: seq<bv8>, r: nat)
    requires r > 0
    ensures Rest(|Padded(m, r)|, r) == 0 && |m| < |Padded(m, r)| <= |m| + r
    decreases |m|
  {
    if |m| >= r {
      PaddedIsWhole(m[r..], r);
    }
  }

  function Sponge(m: seq<bv8>, r: nat, d: nat): (md: seq<bv8>)
    requires Rate(r) && d <= 200
    ensures |md| == d
  {
    Bytes(Absorb(seq(25, _ => 0), Padded(m, r), r))[..d]
  }

  function RateOf(mdlen: nat): nat
    requires DigestLength(mdlen)
  {
    if mdlen == 200 then 136 else 200 - 2 * mdlen
  }

  /** The lengths for which the block is a number of lanes and fits the buffer of 144 bytes. */
  predicate DigestLength(mdlen: nat) {
    mdlen == 200 || (28 <= mdlen < 100 && mdlen % 4 == 0)
  }

  method XorInto(st: array<bv64>, block: seq<bv8>)
    requires st.Length == 25 && Rate(|block|)
    modifies st
    ensures st[..] == Xored(old(st[..]), block)
  {
    hide Word;
    for i := 0 to |block| / 8
      invariant forall k :: 0 <= k < 25 ==>
                  st[k] == if k < i then old(st[k]) ^ Word(block[8 * k..8 * k + 8]) else old(st[k])
    {
      st[i] := st[i] ^ Word(block[8 * i..8 * i + 8]);
    }
  }

  /** The last block with its padding, in the buffer of 144 bytes. */
  method LastBlock(left: seq<bv8>, rsiz: nat) returns (temp: array<bv8>)
    requires |left| < rsiz && Rate(rsiz)
    ensures temp.Length == 144 && fresh(temp) && temp[..rsiz] == left + Pad(rsiz - |left|)
  {
    temp := new bv8[144](_ => 0xcc);
    for i := 0 to |left|
      invariant temp[..i] == left[..i]
    {
      temp[i] := left[i];
    }
    var inlen := |left|;
    temp[inlen] := 1;
    inlen := inlen + 1;
    for i := inlen to rsiz
      invariant temp[..i] == left + [1] + seq(i - inlen, _ => 0)
    {
      temp[i] := 0;
    }
    ghost var before := temp[..rsiz];
    temp[rsiz - 1] := temp[rsiz - 1] | 0x80;
    LastBit(left, rsiz, before, temp[..rsiz]);
  }

  lemma LastBit(left: seq<bv8>, r: nat, before: seq<bv8>, after: seq<bv8>)
    requires |left| < r && before == left + [1] + seq(r - |left| - 1, _ => 0)
             && after == before[r - 1 := before[r - 1] | 0x80]
    ensures after == left + Pad(r - |left|)
  {
    if |left| == r - 1 {
      assert before[r - 1] == 1;
    } else {
      assert before[r - 1] == 0;
    }
  }

  lemma AbsorbLast(a: State, left: seq<bv8>, r: nat)
    requires Rate(r) && |left| < r
    ensures Absorb(a, Padded(left, r), r) == Rounds(Xored(a, left + Pad(r - |left|)), 24)
  {
    hide Rounds, Xored;
    var p := left + Pad(r - |left|);
    assert p == Padded(left, r) && p[..r] == p && p[r..] == [];
  }

  lemma AbsorbOne(a: State, m: seq<bv8>, r: nat)
    requires Rate(r) && |m| >= r
    ensures Absorb(a, Padded(m, r), r) == Absorb(Rounds(Xored(a, m[..r]), 24), Padded(m[r..], r), r)
  {
    hide Rounds, Xored;
    assert Padded(m, r)[..r] == m[..r] && Padded(m, r)[r..] == Padded(m[r..], r);
  }

  /** keccak is the sponge over the padded message, for every message length. */
  method Hash(m: seq<bv8>, mdlen: nat) returns (md: seq<bv8>)
    requires DigestLength(mdlen)
    ensures md == Sponge(m, RateOf(mdlen), mdlen)
  {
    hide Rounds, Xored, Absorb, Padded, Bytes;
    var rsiz := if mdlen == 200 then 136 else 200 - 2 * mdlen;
    var st := new bv64[25](_ => 0);
    ghost var zero: State := seq(25, _ => 0);
    assert st[..] == zero;
    var rest := m;
    while |rest| >= rsiz
      invariant fresh(st)
      invariant Absorb(st[..], Padded(rest, rsiz), rsiz) == Absorb(zero, Padded(m, rsiz), rsiz)
      decreases |rest|
    {
      AbsorbOne(st[..], rest, rsiz);
      XorInto(st, rest[..rsiz]);
      Permute(st, 24);
      rest := rest[rsiz..];
    }
    AbsorbLast(st[..], rest, rsiz);
    var temp := LastBlock(rest, rsiz);
    XorInto(st, temp[..rsiz]);
    Permute(st, 24);
    md := Bytes(st[..])[..mdlen];
  }
}
