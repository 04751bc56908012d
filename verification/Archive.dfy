/** The binary archive (CryptoNight/serialization/binary_archive.h, vector.h): the primitives
    every `do_serialize` is made of, as printing functions, parsing functions and the
    stream objects whose methods the C++ archives are. */
module Archive {
  import opened Bytes
  import Varint

  /** A counted vector: its size has to fit the 64-bit count written in front of it. */
  type Vec<T> = s: seq<T> | |s| < TWO_64

  type Blob32 = s: seq<Byte> | |s| == 32 witness seq(32, _ => 0)
  type Blob64 = s: seq<Byte> | |s| == 64 witness seq(64, _ => 0)

  /** A parser gives the value and what is left of the input, or None where C++ returns false. */
  type Parser<T> = seq<Byte> -> Option<(T, seq<Byte>)>

  function TakeVarint(s: seq<Byte>, bits: nat): (r: (nat, seq<Byte>))
    requires bits > 0
    ensures r.0 < Pow2(bits) && |r.1| <= |s|
  {
    var r := Varint.Read(s, 0, bits);
    Varint.ReadFits(s, 0, bits);
    (r.value, s[r.consumed..])
  }

  /** A 64-bit varint field: a failed reading is not noticed, the partial value is kept. */
  function TakeU64(s: seq<Byte>): (r: (U64, seq<Byte>))
    ensures |r.1| <= |s|
  {
    assert Pow2(64) == TWO_64 by { Pow2Of64(); }
    TakeVarint(s, 64)
  }

  lemma Pow2Of64()
    ensures Pow2(64) == TWO_64
  {
    assert Pow2(8) == 256;
    Pow2Adds(8, 8);
    Pow2Adds(16, 16);
    Pow2Adds(32, 32);
  }

  lemma TakeU64InvertsEncode(v: U64, tail: seq<Byte>)
    ensures TakeU64(Varint.Encode(v) + tail) == (v, tail)
  {
    Pow2Of64();
    Varint.ReadInvertsEncode(v, tail, 64);
  }

  function ParseU64(s: seq<Byte>): Option<(U64, seq<Byte>)> {
    Some(TakeU64(s))
  }

  function ParseByte(s: seq<Byte>): Option<(Byte, seq<Byte>)> {
    if s == [] then None else Some((s[0], s[1..]))
  }

  function ParseBlob32(s: seq<Byte>): Option<(Blob32, seq<Byte>)> {
    if |s| < 32 then None else Some((s[..32], s[32..]))
  }

  function ParseBlob64(s: seq<Byte>): Option<(Blob64, seq<Byte>)> {
    if |s| < 64 then None else Some((s[..64], s[64..]))
  }

  function PrintByte(b: Byte): seq<Byte> { [b] }
  function PrintU64(v: U64): seq<Byte> { Varint.Encode(v) }
  function PrintBlob32(b: Blob32): seq<Byte> { b }
  function PrintBlob64(b: Blob64): seq<Byte> { b }

  /** Fixed-width integers: `width` bytes, low byte first (serialize_uint). */
  function PrintUint(v: nat, width: nat): (s: seq<Byte>)
    ensures |s| == width
  {
    if width == 0 then [] else [v % 256] + PrintUint(v / 256, width - 1)
  }

  function UintOf(s: seq<Byte>): nat {
    if s == [] then 0 else s[0] + 256 * UintOf(s[1..])
  }

  lemma {:induction false} UintOfBound(s: seq<Byte>)
    ensures UintOf(s) < Pow2(8 * |s|)
  {
    if s != [] {
      UintOfBound(s[1..]);
      Pow2Adds(8, 8 * |s[1..]|);
      assert Pow2(8) == 256;
    }
  }

  lemma {:induction false} PrintUintInverse(s: seq<Byte>)
    ensures PrintUint(UintOf(s), |s|) == s
  {
    if s != [] {
      PrintUintInverse(s[1..]);
    }
  }

  lemma {:induction false} UintOfPrint(v: nat, width: nat)
    requires v < Pow2(8 * width)
    ensures UintOf(PrintUint(v, width)) == v
  {
    if width > 0 {
      Pow2Adds(8, 8 * (width - 1));
      assert Pow2(8) == 256;
      UintOfPrint(v / 256, width - 1);
    }
  }

  function ParseUint(s: seq<Byte>, width: nat): Option<(nat, seq<Byte>)> {
    if |s| < width then None else Some((UintOf(s[..width]), s[width..]))
  }

  /** Vector elements one after the other. */
  function PrintAll<T>(emit: T -> seq<Byte>, v: seq<T>): seq<Byte> {
    if v == [] then [] else emit(v[0]) + PrintAll(emit, v[1..])
  }

  function ParseAll<T>(parse: Parser<T>, n: nat, s: seq<Byte>): (r: Option<(seq<T>, seq<Byte>)>)
    ensures r.Some? ==> |r.value.0| == n
  {
    if n == 0 then Some(([], s))
    else
      var (x, rest) :- parse(s);
      var (xs, rest') :- ParseAll(parse, n - 1, rest);
      Some(([x] + xs, rest'))
  }

  /** A counted vector; a count above the number of bytes left is refused before any element is read. */
  function PrintVec<T>(emit: T -> seq<Byte>, v: Vec<T>): seq<Byte> {
    Varint.Encode(|v|) + PrintAll(emit, v)
  }

  function ParseVec<T>(parse: Parser<T>, s: seq<Byte>): Option<(Vec<T>, seq<Byte>)> {
    var (n, rest) := TakeU64(s);
    if |rest| < n then None else ParseAll(parse, n, rest)
  }

  /** `parse` undoes `emit`, whatever follows, and nothing prints as the empty string. */
  ghost predicate Inverts<T(!new)>(parse: Parser<T>, emit: T -> seq<Byte>) {
    && (forall x: T, tail: seq<Byte> :: parse(emit(x) + tail) == Some((x, tail)))
    && (forall x: T :: |emit(x)| >= 1)
  }

  lemma {:induction false} ParseAllInverts<T(!new)>(parse: Parser<T>, emit: T -> seq<Byte>, v: seq<T>, tail: seq<Byte>)
    requires Inverts(parse, emit)
    ensures ParseAll(parse, |v|, PrintAll(emit, v) + tail) == Some((v, tail))
    ensures |PrintAll(emit, v)| >= |v|
  {
    if v == [] {
      assert PrintAll(emit, v) + tail == tail;
    } else {
      ParseAllInverts(parse, emit, v[1..], tail);
      var rest := PrintAll(emit, v[1..]) + tail;
      assert PrintAll(emit, v) + tail == emit(v[0]) + rest;
      assert parse(emit(v[0]) + rest) == Some((v[0], rest));
      assert [v[0]] + v[1..] == v;
    }
  }

  /** Vectors round-trip, and the bytes-left check never refuses a printed vector. */
  lemma ParseVecInverts<T(!new)>(parse: Parser<T>, emit: T -> seq<Byte>, v: Vec<T>, tail: seq<Byte>)
    requires Inverts(parse, emit)
    ensures ParseVec(parse, PrintVec(emit, v) + tail) == Some((v, tail))
    ensures |PrintAll(emit, v) + tail| >= |v|
  {
    assert PrintVec(emit, v) + tail == Varint.Encode(|v|) + (PrintAll(emit, v) + tail);
    TakeU64InvertsEncode(|v|, PrintAll(emit, v) + tail);
    ParseAllInverts(parse, emit, v, tail);
  }

  lemma PrimitivesInvert()
    ensures Inverts(ParseByte, PrintByte)
    ensures Inverts(ParseU64, PrintU64)
    ensures Inverts(ParseBlob32, PrintBlob32)
    ensures Inverts(ParseBlob64, PrintBlob64)
  {
    forall v: U64, tail: seq<Byte> ensures ParseU64(PrintU64(v) + tail) == Some((v, tail)) {
      TakeU64InvertsEncode(v, tail);
    }
  }

  /** binary_archive<false>: an input stream, what it has left and whether it is good(). */
  class Reader {
    var rest: seq<Byte>
    var good: bool

    constructor (data: seq<Byte>)
      ensures rest == data && good
    {
      rest, good := data, true;
    }

    method ReadVarint(bits: nat) returns (v: nat)
      requires bits > 0
      modifies this`rest
      ensures (v, rest) == TakeVarint(old(rest), bits)
      ensures v < Pow2(bits)
    {
      var code, value, taken := Varint.ReadVarint(rest, bits);
      v := value;
      rest := rest[taken..];
    }

    method ReadSize() returns (n: U64)
      modifies this`rest
      ensures (n, rest) == TakeU64(old(rest))
    {
      Pow2Of64();
      n := ReadVarint(64);
    }

    /** serialize_uint: one stream_.get a byte; the first one past the end makes the stream bad. */
    method ReadUint(width: nat) returns (v: nat)
      modifies this
      ensures good == (old(good) && |old(rest)| >= width)
      ensures |old(rest)| >= width ==> ParseUint(old(rest), width) == Some((v, rest))
    {
      v := 0;
      var scale: nat, i: nat := 1, 0;
      ghost var start := rest;
      while i < width
        invariant i <= width
        invariant good == (old(good) && |start| >= i)
        invariant |start| >= i ==> rest == start[i..] && scale == Pow2(8 * i) && v == UintOf(start[..i])
        invariant |start| < i ==> rest == []
      {
        var c: Byte := 0;
        if rest == [] {
          good := false;
        } else {
          c := rest[0];
          UintOfAppend(start[..i], c);
          assert start[..i + 1] == start[..i] + [c];
          assert start[i..][1..] == start[i + 1..];
          rest := rest[1..];
        }
        assert Pow2(8 * i + 8) == Pow2(8 * i) * 256 by { Pow2Adds(8 * i, 8); assert Pow2(8) == 256; }
        v, scale, i := v + c * scale, scale * 256, i + 1;
      }
      assert |start| >= width ==> start[..width] == start[..i];
    }

    method ReadBlob(n: nat) returns (b: seq<Byte>)
      modifies this
      ensures good == (old(good) && |old(rest)| >= n)
      ensures |old(rest)| >= n ==> b == old(rest)[..n] && rest == old(rest)[n..]
    {
      if |rest| < n {
        b, rest, good := rest, [], false;
      } else {
        b, rest := rest[..n], rest[n..];
      }
    }

    method Remaining() returns (n: nat)
      ensures n == if good then |rest| else 0
    {
      n := if good then |rest| else 0;
    }

    /** do_serialize for a counted vector, the element's do_serialize being `parse`. */
    method ReadVector<T>(parse: Parser<T>) returns (ok: bool, v: Vec<T>)
      requires good
      modifies this
      ensures ok <==> ParseVec(parse, old(rest)).Some?
      ensures ok ==> good && ParseVec(parse, old(rest)) == Some((v, rest))
    {
      var cnt := ReadSize();
      var left := Remaining();
      if left < cnt {
        good := false;
        return false, [];
      }
      ok, v := ReadElements(parse, cnt);
    }

    /** The reading loop: stops at the first element that fails. */
    method ReadElements<T>(parse: Parser<T>, cnt: nat) returns (ok: bool, v: seq<T>)
      requires good
      modifies this
      ensures ok <==> ParseAll(parse, cnt, old(rest)).Some?
      ensures ok ==> good && ParseAll(parse, cnt, old(rest)) == Some((v, rest))
      ensures |v| <= cnt
    {
      hide ParseAll, Prepend;
      v := [];
      var i := 0;
      PrependNothing(ParseAll(parse, cnt, rest));
      while i < cnt
        invariant |v| == i <= cnt && good
        invariant ParseAll(parse, cnt, old(rest)) == Prepend(v, ParseAll(parse, cnt - i, rest))
      {
        ParseAllStep(parse, cnt - i, rest, v);
        match parse(rest) {
          case None =>
            good := false;
            return false, v;
          case Some((x, rest')) =>
            v, rest := v + [x], rest';
        }
        i := i + 1;
      }
      ParseAllEnds(parse, rest, v);
      ok := true;
    }
  }

  function Prepend<T>(v: seq<T>, r: Option<(seq<T>, seq<Byte>)>): Option<(seq<T>, seq<Byte>)> {
    match r
    case None => None
    case Some((w, rest)) => Some((v + w, rest))
  }

  lemma PrependNothing<T>(r: Option<(seq<T>, seq<Byte>)>)
    ensures Prepend([], r) == r
  {
    assert r.Some? ==> [] + r.value.0 == r.value.0;
  }

  lemma ParseAllStep<T>(parse: Parser<T>, n: nat, s: seq<Byte>, done: seq<T>)
    requires n > 0
    ensures Prepend(done, ParseAll(parse, n, s)) ==
            if parse(s).None? then None
            else Prepend(done + [parse(s).value.0], ParseAll(parse, n - 1, parse(s).value.1))
  {
    if parse(s).Some? {
      var (x, rest) := parse(s).value;
      var more := ParseAll(parse, n - 1, rest);
      assert more.Some? ==> done + ([x] + more.value.0) == (done + [x]) + more.value.0;
    }
  }

  lemma ParseAllEnds<T>(parse: Parser<T>, s: seq<Byte>, done: seq<T>)
    ensures Prepend(done, ParseAll(parse, 0, s)) == Some((done, s))
  {
    assert done + [] == done;
  }

  /** binary_archive<true>: an output stream into memory, which never goes bad. */
  class Writer {
    var out: seq<Byte>

    constructor ()
      ensures out == []
    {
      out := [];
    }

    method WriteVarint(v: nat)
      modifies this
      ensures out == old(out) + Varint.Encode(v)
    {
      var s := Varint.WriteVarint(v);
      out := out + s;
    }

    /** serialize_uint: put the low byte, shift right, `width` times. */
    method WriteUint(value: nat, width: nat)
      modifies this
      ensures out == old(out) + PrintUint(value, width)
    {
      var v, i := value, 0;
      while i < width
        invariant i <= width
        invariant out + PrintUint(v, width - i) == old(out) + PrintUint(value, width)
      {
        ghost var more := PrintUint(v / 256, width - i - 1);
        assert out + ([v % 256] + more) == (out + [v % 256]) + more;
        out := out + [v % 256];
        v, i := v / 256, i + 1;
      }
      assert out + [] == out;
    }

    method WriteBlob(b: seq<Byte>)
      modifies this
      ensures out == old(out) + b
    {
      out := out + b;
    }

    method WriteVector<T>(emit: T -> seq<Byte>, v: Vec<T>)
      modifies this
      ensures out == old(out) + PrintVec(emit, v)
    {
      WriteVarint(|v|);
      WriteElements(emit, v);
    }

    method WriteElements<T>(emit: T -> seq<Byte>, v: seq<T>)
      modifies this
      ensures out == old(out) + PrintAll(emit, v)
    {
      var i := 0;
      while i < |v|
        invariant i <= |v|
        invariant out + PrintAll(emit, v[i..]) == old(out) + PrintAll(emit, v)
      {
        ghost var more := PrintAll(emit, v[i + 1..]);
        assert v[i..][1..] == v[i + 1..];
        assert out + (emit(v[i]) + more) == (out + emit(v[i])) + more;
        WriteBlob(emit(v[i]));
        i := i + 1;
      }
      assert out + [] == out;
    }
  }

  lemma Pow2OfZero()
    ensures Pow2(0) == 1
  {}

  lemma Distributes(u: nat, b: Byte, q: nat)
    ensures 256 * (u + b * q) == 256 * u + b * (256 * q)
  {}

  lemma {:induction false} UintOfAppend(s: seq<Byte>, b: Byte)
    ensures UintOf(s + [b]) == UintOf(s) + b * Pow2(8 * |s|)
  {
    assert Pow2(8) == 256;
    hide Pow2;
    if s != [] {
      UintOfAppend(s[1..], b);
      assert (s + [b])[1..] == s[1..] + [b];
      Pow2Adds(8, 8 * |s[1..]|);
      Distributes(UintOf(s[1..]), b, Pow2(8 * |s[1..]|));
    } else {
      assert s + [b] == [b] && UintOf([b]) == b + 256 * UintOf([]);
      Pow2OfZero();
    }
  }
}
