/** The chunked coding of section 4.1 of RFC 7230 as Mono.HttpListener reads and prints it: one byte at a
    time on the reading side (Mono.HttpListener/ChunkStream.cs), one write at a time on the printing
    side (Mono.HttpListener/ResponseStream.cs). */
module ChunkFormat {
  import opened Bytes

  const LF: Byte := 10
  const CR: Byte := 13
  const SPACE: Byte := 32
  const SEMICOLON: Byte := 59

  // ----- hexadecimal sizes

  predicate IsHexDigit(c: Byte) {
    48 <= c <= 57 || 65 <= c <= 70 || 97 <= c <= 102
  }

  function DigitValue(c: Byte): (v: nat)
    requires IsHexDigit(c)
    ensures v < 16
  {
    if c <= 57 then c - 48 else if c <= 70 then c - 55 else c - 87
  }

  predicate AllHex(s: seq<Byte>) {
    forall i :: 0 <= i < |s| ==> IsHexDigit(s[i])
  }

  function HexValue(s: seq<Byte>): nat
    requires AllHex(s)
  {
    if s == [] then 0 else 16 * HexValue(s[..|s| - 1]) + DigitValue(s[|s| - 1])
  }

  /** The white space that Int32.Parse skips on both sides. */
  predicate IsWhite(c: Byte) {
    9 <= c <= 13 || c == SPACE
  }

  function TrimStart(s: seq<Byte>): seq<Byte> {
    if s != [] && IsWhite(s[0]) then TrimStart(s[1..]) else s
  }

  function TrimEnd(s: seq<Byte>): seq<Byte> {
    if s != [] && IsWhite(s[|s| - 1]) then TrimEnd(s[..|s| - 1]) else s
  }

  /** Int32.Parse with NumberStyles.HexNumber: 32 bits read in two's complement. */
  function ParseHex(s: seq<Byte>): Option<int> {
    var t := TrimEnd(TrimStart(s));
    if t == [] || !AllHex(t) || HexValue(t) >= TWO_32 then None
    else Some(if HexValue(t) < 0x8000_0000 then HexValue(t) else HexValue(t) - TWO_32)
  }

  function RemoveChunkExtension(s: seq<Byte>): seq<Byte> {
    if s == [] || s[0] == SEMICOLON then [] else [s[0]] + RemoveChunkExtension(s[1..])
  }

  function SizeOf(saved: seq<Byte>): Option<int> {
    ParseHex(RemoveChunkExtension(saved))
  }

  // ----- reading, one byte at a time

  datatype Mode =
    | Size(saved: seq<Byte>, sawCR: bool, gotit: bool)
    | Body
    | BodyFinished(crSeen: bool)
    | Trailer(st: nat, skipped: seq<Byte>)

  /** What is known of a stream between two bytes; `received` is the payload so far. */
  datatype Decoder = Decoder(mode: Mode, chunkSize: int, chunkRead: nat, received: seq<Byte>) {
    predicate WantMore() {
      chunkRead != chunkSize || chunkSize != 0 || !mode.Size?
    }
  }

  const BETWEEN: Mode := Size([], false, false)
  const START: Decoder := Decoder(BETWEEN, -1, 0, [])

  /** The trailer's line ends: what ReadTrailer appends when a line end breaks off at `st`. */
  function BrokenLineEnd(st: nat, empty: bool): Option<seq<Byte>>
    requires st < 4
  {
    if empty && st < 2 then None else Some([CR, LF, CR][..if empty then st - 2 else st])
  }

  /** The reaction to one byte; none is an exception. */
  function Step(d: Decoder, c: Byte): Option<Decoder> {
    match d.mode
    case Size(saved, sawCR, gotit) =>
      if c == CR then
        if sawCR then None else Some(Decoder(Size(saved, true, gotit), 0, 0, d.received))
      else if sawCR && c == LF then
        var size :- SizeOf(saved);
        Some(Decoder(if size == 0 then Trailer(2, []) else Body, size, 0, d.received))
      else
        var got := gotit || c == SPACE;
        var kept := if got then saved else saved + [c];
        if |kept| > 20 then None else Some(Decoder(Size(kept, sawCR, got), 0, 0, d.received))
    case Body =>
      if d.chunkSize <= d.chunkRead then None
      else Some(Decoder(if d.chunkRead + 1 == d.chunkSize then BodyFinished(false) else Body,
                        d.chunkSize, d.chunkRead + 1, d.received + [c]))
    case BodyFinished(crSeen) =>
      if c != (if crSeen then LF else CR) then None
      else Some(d.(mode := if crSeen then BETWEEN else BodyFinished(true)))
    case Trailer(st, skipped) =>
      if st >= 4 then None
      else if (st % 2 == 0 && c == CR) || (st % 2 == 1 && c == LF) then
        Some(d.(mode := if st == 3 then BETWEEN else Trailer(st + 1, skipped)))
      else if st == 0 then Some(d)
      else
        var tail :- BrokenLineEnd(st, skipped == []);
        if |skipped + tail| > 4196 then None else Some(d.(mode := Trailer(0, skipped + tail)))
  }

  function Feed(d: Decoder, s: seq<Byte>): Option<Decoder>
    decreases |s|
  {
    if s == [] then Some(d)
    else
      var next :- Step(d, s[0]);
      Feed(next, s[1..])
  }

  /** Where a Write ends inside a size line, the digits so far are parsed as the chunk size. */
  function Settle(d: Decoder): Option<Decoder> {
    if d.mode.Size? && d.mode.saved != [] then
      var size :- SizeOf(d.mode.saved);
      Some(d.(chunkSize := size))
    else Some(d)
  }

  /** The effect of one call to Write: its bytes one after the other, then the provisional size. */
  function Write(d: Decoder, s: seq<Byte>): Option<Decoder> {
    if s == [] then Some(d)
    else
      var next :- Feed(d, s);
      Settle(next)
  }

  lemma {:induction false} FeedTwice(d: Decoder, a: seq<Byte>, b: seq<Byte>)
    ensures Feed(d, a + b) == match Feed(d, a) case None => None case Some(m) => Feed(m, b)
    decreases |a|
  {
    hide Step;
    if a == [] {
      assert a + b == b;
    } else {
      assert (a + b)[0] == a[0] && (a + b)[1..] == a[1..] + b;
      match Step(d, a[0])
      case None =>
      case Some(next) => FeedTwice(next, a[1..], b);
    }
  }

  // ----- printing

  function HexDigit(v: nat): (c: Byte)
    requires v < 16
    ensures IsHexDigit(c) && DigitValue(c) == v
  {
    if v < 10 then 48 + v else 87 + v
  }

  /** The format {0:x}: no leading zeros, "0" for zero. */
  function HexDigits(n: nat): (s: seq<Byte>)
    ensures s != [] && AllHex(s)
  {
    if n < 16 then [HexDigit(n)] else HexDigits(n / 16) + [HexDigit(n % 16)]
  }

  const CRLF: seq<Byte> := [CR, LF]

  function ChunkSizeBytes(size: nat, final: bool): seq<Byte> {
    HexDigits(size) + CRLF + if final then CRLF else []
  }

  function PrintChunk(data: seq<Byte>): seq<Byte> {
    ChunkSizeBytes(|data|, false) + data + CRLF
  }

  function PrintChunks(writes: seq<seq<Byte>>): seq<Byte> {
    if writes == [] then [] else PrintChunk(writes[0]) + PrintChunks(writes[1..])
  }

  /** What a chunked response sends after its headers: one chunk a write, then the last chunk. */
  function PrintAll(writes: seq<seq<Byte>>): seq<Byte> {
    PrintChunks(writes) + ChunkSizeBytes(0, true)
  }

  function Payload(writes: seq<seq<Byte>>): seq<Byte> {
    if writes == [] then [] else writes[0] + Payload(writes[1..])
  }

  /** A count of bytes is a C# int. */
  ghost predicate Printable(writes: seq<seq<Byte>>) {
    forall i :: 0 <= i < |writes| ==> |writes[i]| < 0x8000_0000
  }

  // ----- the size line

  lemma {:induction false} HexRoundTrip(n: nat)
    ensures HexValue(HexDigits(n)) == n
  {
    if n >= 16 {
      HexRoundTrip(n / 16);
      var s := HexDigits(n);
      assert s[..|s| - 1] == HexDigits(n / 16);
    } else {
      assert HexDigits(n)[..0] == [];
    }
  }

  lemma {:induction false} HexLength(n: nat, k: nat)
    requires k > 0 && n < Power16(k)
    ensures |HexDigits(n)| <= k
  {
    if n >= 16 {
      HexLength(n / 16, k - 1);
    }
  }

  function Power16(k: nat): nat {
    if k == 0 then 1 else 16 * Power16(k - 1)
  }

  lemma {:induction false} HexHasNoExtension(s: seq<Byte>)
    requires AllHex(s)
    ensures RemoveChunkExtension(s) == s
  {
    if s != [] {
      HexHasNoExtension(s[1..]);
    }
  }

  lemma HexIsItsOwnTrim(s: seq<Byte>)
    requires AllHex(s)
    ensures TrimEnd(TrimStart(s)) == s
  {
    if s != [] {
      assert IsHexDigit(s[0]) && IsHexDigit(s[|s| - 1]);
    }
  }

  lemma {:induction false} HexBound(s: seq<Byte>, k: nat)
    requires AllHex(s) && |s| <= k
    ensures HexValue(s) < Power16(k)
  {
    if s != [] {
      HexBound(s[..|s| - 1], k - 1);
    } else {
      PowerPositive(k);
    }
  }

  lemma {:induction false} PowerPositive(k: nat)
    ensures Power16(k) > 0
  {
    if k > 0 { PowerPositive(k - 1); }
  }

  lemma SixteenToTheEighth()
    ensures Power16(8) == TWO_32
  {
    assert Power16(4) == 0x1_0000;
    assert Power16(8) == 0x1_0000 * Power16(4);
  }

  /** Digits make a size unless they take more than 32 bits, and up to eight digits never do. */
  lemma SizeOfHex(s: seq<Byte>)
    requires AllHex(s) && s != []
    ensures SizeOf(s) == if HexValue(s) < 0x8000_0000 then Some(HexValue(s))
                         else if HexValue(s) < TWO_32 then Some(HexValue(s) - TWO_32) else None
    ensures |s| <= 8 ==> HexValue(s) < TWO_32
  {
    hide RemoveChunkExtension, TrimStart, TrimEnd, HexValue, AllHex;
    HexHasNoExtension(s);
    HexIsItsOwnTrim(s);
    if |s| <= 8 { EightDigits(s); }
  }

  lemma EightDigits(s: seq<Byte>)
    requires AllHex(s) && |s| <= 8
    ensures HexValue(s) < TWO_32
  {
    HexBound(s, 8);
    SixteenToTheEighth();
  }

  lemma {:induction false} HexOfFront(a: seq<Byte>, b: seq<Byte>)
    requires AllHex(a) && AllHex(a + b)
    ensures HexValue(a) <= HexValue(a + b)
    decreases |b|
  {
    if b == [] {
      assert a + b == a;
    } else {
      var n := |b| - 1;
      assert a + b == (a + b[..n]) + [b[n]];
      FrontIsHex(a + b[..n], [b[n]]);
      HexOfFront(a, b[..n]);
      assert IsHexDigit((a + b)[|a| + n]) && (a + b)[..|a| + n] == a + b[..n];
    }
  }

  lemma FrontIsHex(a: seq<Byte>, b: seq<Byte>)
    requires AllHex(a + b)
    ensures AllHex(a) && (a + b)[..|a|] == a
  {
    assert forall i :: 0 <= i < |a| ==> a[i] == (a + b)[i];
  }

  lemma SizeOfDigits(n: nat)
    requires n < 0x8000_0000
    ensures SizeOf(HexDigits(n)) == Some(n) && |HexDigits(n)| <= 8
  {
    SixteenToTheEighth();
    HexLength(n, 8);
    HexRoundTrip(n);
    SizeOfHex(HexDigits(n));
  }

  // ----- reading what is printed

  /** What can be the beginning of a size line: digits that fit 32 bits, then an extension. */
  predicate SizeLineStart(s: seq<Byte>) {
    var digits := RemoveChunkExtension(s);
    AllHex(digits) && HexValue(digits) < TWO_32 && (s != [] ==> digits != [])
  }

  lemma HexStart(s: seq<Byte>)
    requires AllHex(s) && HexValue(s) < TWO_32
    ensures SizeLineStart(s) && RemoveChunkExtension(s) == s
  {
    HexHasNoExtension(s);
  }

  lemma SizeOfStart(s: seq<Byte>)
    requires SizeLineStart(s) && s != []
    ensures SizeOf(s).Some? && SizeOf(s) == SizeOf(RemoveChunkExtension(s))
  {
    SizeOfHex(RemoveChunkExtension(s));
    HexHasNoExtension(RemoveChunkExtension(s));
  }

  /** A step no strict reader refuses. */
  predicate Strict(d: Decoder) {
    d.mode.Size? ==> SizeLineStart(d.mode.saved)
  }

  function StrictFeed(d: Decoder, s: seq<Byte>): Option<Decoder>
    decreases |s|
  {
    if s == [] then Some(d)
    else
      var next :- Step(d, s[0]);
      if Strict(next) then StrictFeed(next, s[1..]) else None
  }

  lemma {:induction false} StrictTwice(d: Decoder, a: seq<Byte>, b: seq<Byte>)
    ensures StrictFeed(d, a + b) == match StrictFeed(d, a) case None => None case Some(m) => StrictFeed(m, b)
    decreases |a|
  {
    hide Step, Strict;
    if a == [] {
      assert a + b == b;
    } else {
      assert (a + b)[0] == a[0] && (a + b)[1..] == a[1..] + b;
      match Step(d, a[0])
      case None =>
      case Some(next) =>
        if Strict(next) { StrictTwice(next, a[1..], b); }
    }
  }

  lemma {:induction false} ReadDigits(d: Decoder, a: seq<Byte>, s: seq<Byte>)
    requires d.mode == Size(a, false, false) && AllHex(a + s) && HexValue(a + s) < TWO_32 && |a + s| <= 20
    ensures s != [] ==> StrictFeed(d, s) == Some(Decoder(Size(a + s, false, false), 0, 0, d.received))
    decreases |s|
  {
    if s != [] {
      assert (a + s)[|a|] == s[0];
      var next := Decoder(Size(a + [s[0]], false, false), 0, 0, d.received);
      assert a + s == (a + [s[0]]) + s[1..];
      FrontIsHex(a + [s[0]], s[1..]);
      HexOfFront(a + [s[0]], s[1..]);
      HexStart(a + [s[0]]);
      assert Step(d, s[0]) == Some(next);
      ReadDigits(next, a + [s[0]], s[1..]);
      if s[1..] == [] { assert a + s == a + [s[0]]; }
    }
  }

  lemma StrictPair(d: Decoder, m: Decoder, x: Byte, y: Byte)
    requires Step(d, x) == Some(m) && Strict(m)
    ensures StrictFeed(d, [x, y])
         == match Step(m, y) case None => None case Some(e) => if Strict(e) then Some(e) else None
  {
    hide Step, Strict;
    assert [x, y][1..] == [y] && [y][1..] == [];
    assert StrictFeed(d, [x, y]) == StrictFeed(m, [y]);
    match Step(m, y)
    case None =>
    case Some(e) => StrictNothing(e);
  }

  lemma ReadLineEnd(d: Decoder)
    requires d.mode.Size? && !d.mode.sawCR && SizeLineStart(d.mode.saved)
    ensures StrictFeed(d, CRLF)
         == match SizeOf(d.mode.saved)
            case None => None
            case Some(size) => Some(Decoder(if size == 0 then Trailer(2, []) else Body, size, 0, d.received))
  {
    hide SizeOf;
    StrictPair(d, Decoder(Size(d.mode.saved, true, d.mode.gotit), 0, 0, d.received), CR, LF);
  }

  // ----- the size lines of any sender (section 4.1 of RFC 7230)

  /** The digits of a size, and what a sender may put behind them. */
  datatype Line = Line(digits: seq<Byte>, extension: seq<Byte>) {
    function Bytes(): seq<Byte> { digits + extension }
  }

  /** The same digits, each letter in either case. */
  predicate EitherCase(s: seq<Byte>, digits: seq<Byte>) {
    && |s| == |digits|
    && forall i :: 0 <= i < |s| ==> s[i] == digits[i] || (97 <= digits[i] <= 102 && s[i] == digits[i] - 32)
  }

  function BeforeSpace(s: seq<Byte>): seq<Byte> {
    if s == [] || s[0] == SPACE then [] else [s[0]] + BeforeSpace(s[1..])
  }

  /** Leading zeros, then the digits of `n` in either case. */
  predicate Spells(s: seq<Byte>, n: nat) {
    exists z :: 0 <= z <= |s| && s[..z] == seq(z, _ => 48) && EitherCase(s[z..], HexDigits(n))
  }

  /** A line for the size `n`: its digits, then nothing or something that begins with a space or
      a semicolon; the reader keeps at most twenty bytes of it, up to the first space. */
  predicate LineFor(l: Line, n: nat) {
    && Spells(l.digits, n)
    && (l.extension != [] ==> l.extension[0] == SPACE || l.extension[0] == SEMICOLON)
    && CR !in l.extension && |BeforeSpace(l.Bytes())| <= 20
  }

  lemma {:induction false} EitherCaseValue(s: seq<Byte>, digits: seq<Byte>)
    requires AllHex(digits) && EitherCase(s, digits)
    ensures AllHex(s) && HexValue(s) == HexValue(digits)
    decreases |s|
  {
    if s != [] {
      var n := |s| - 1;
      assert digits[..n] + [digits[n]] == digits && s[..n] + [s[n]] == s;
      EitherCaseValue(s[..n], digits[..n]);
    }
  }

  lemma {:induction false} LeadingZeros(z: nat, s: seq<Byte>)
    requires AllHex(s)
    ensures AllHex(seq(z, _ => 48) + s) && HexValue(seq(z, _ => 48) + s) == HexValue(s)
    decreases z + |s|
  {
    var all := seq(z, _ => 48) + s;
    if s != [] {
      var n := |s| - 1;
      LeadingZeros(z, s[..n]);
      assert all[..z + n] == seq(z, _ => 48) + s[..n];
    } else if z > 0 {
      LeadingZeros(z - 1, s);
      assert all[..z - 1] == seq(z - 1, _ => 48) + s;
    }
  }

  /** The size is read whatever the case of its letters, and whatever zeros come first. */
  lemma SizeInEitherCase(s: seq<Byte>, n: nat)
    requires n < 0x8000_0000 && Spells(s, n)
    ensures SizeOf(s) == Some(n) && AllHex(s) && HexValue(s) == n && s != []
  {
    hide HexDigits;
    var z :| 0 <= z <= |s| && s[..z] == seq(z, _ => 48) && EitherCase(s[z..], HexDigits(n));
    HexRoundTrip(n);
    EitherCaseValue(s[z..], HexDigits(n));
    LeadingZeros(z, s[z..]);
    assert s == seq(z, _ => 48) + s[z..];
    SizeOfHex(s);
  }

  lemma {:induction false} BeforeSpaceNext(s: seq<Byte>, c: Byte)
    ensures BeforeSpace(s + [c]) == if SPACE in s || c == SPACE then BeforeSpace(s) else s + [c]
    ensures SPACE !in s ==> BeforeSpace(s) == s
    decreases |s|
  {
    if s == [] {
      assert [] + [c] == [c] && [c][1..] == [];
    } else {
      assert (s + [c])[1..] == s[1..] + [c];
      BeforeSpaceNext(s[1..], c);
      assert s == [s[0]] + s[1..];
      if SPACE !in s { assert SPACE !in s[1..]; }
    }
  }

  lemma {:induction false} ExtensionRemoved(digits: seq<Byte>, s: seq<Byte>)
    requires AllHex(digits) && (s != [] ==> s[0] == SPACE || s[0] == SEMICOLON)
    ensures RemoveChunkExtension(BeforeSpace(digits + s)) == digits
    decreases |digits|
  {
    if digits == [] {
      assert digits + s == s;
    } else {
      assert (digits + s)[0] == digits[0] && (digits + s)[1..] == digits[1..] + s;
      ExtensionRemoved(digits[1..], s);
      var kept := BeforeSpace(digits + s);
      assert IsHexDigit(digits[0]);
      assert kept == [digits[0]] + BeforeSpace(digits[1..] + s);
      assert kept[1..] == BeforeSpace(digits[1..] + s);
    }
  }

  /** Behind the digits bytes are kept up to the first space. */
  lemma {:induction false} ReadExtension(d: Decoder, digits: seq<Byte>, done: seq<Byte>, s: seq<Byte>)
    requires AllHex(digits) && digits != [] && HexValue(digits) < TWO_32 && CR !in s
    requires done + s != [] ==> (done + s)[0] == SPACE || (done + s)[0] == SEMICOLON
    requires |BeforeSpace(digits + (done + s))| <= 20
    requires d == Decoder(Size(BeforeSpace(digits + done), false, SPACE in done), 0, 0, d.received)
    ensures StrictFeed(d, s)
         == Some(Decoder(Size(BeforeSpace(digits + (done + s)), false, SPACE in done + s), 0, 0, d.received))
    decreases |s|
  {
    if s == [] {
      assert done + s == done;
    } else {
      var c, more := s[0], done + [s[0]];
      assert done + s == more + s[1..];
      assert digits + more == (digits + done) + [c];
      assert SPACE in digits + done <==> SPACE in done by { NoSpaceInHex(digits); }
      BeforeSpaceNext(digits + done, c);
      assert |BeforeSpace(digits + more)| <= 20 by {
        BeforeSpaceGrows(digits + more, s[1..]);
        Cat3(digits, more, s[1..]);
      }
      ExtensionRemoved(digits, more);
      var next := Decoder(Size(BeforeSpace(digits + more), false, SPACE in more), 0, 0, d.received);
      assert Step(d, c) == Some(next);
      ReadExtension(next, digits, more, s[1..]);
    }
  }

  lemma NoSpaceInHex(s: seq<Byte>)
    requires AllHex(s)
    ensures SPACE !in s
  {}

  lemma {:induction false} BeforeSpaceGrows(a: seq<Byte>, b: seq<Byte>)
    ensures |BeforeSpace(a)| <= |BeforeSpace(a + b)|
    decreases |a|
  {
    if a != [] {
      assert (a + b)[1..] == a[1..] + b;
      BeforeSpaceGrows(a[1..], b);
    }
  }

  /** The bytes before the line end. */
  lemma ReadLineBytes(d: Decoder, digits: seq<Byte>, extension: seq<Byte>)
    requires d.mode == BETWEEN && AllHex(digits) && digits != [] && HexValue(digits) < TWO_32 && CR !in extension
    requires extension != [] ==> extension[0] == SPACE || extension[0] == SEMICOLON
    requires |BeforeSpace(digits + extension)| <= 20
    ensures StrictFeed(d, digits + extension)
         == Some(Decoder(Size(BeforeSpace(digits + extension), false, SPACE in extension), 0, 0, d.received))
  {
    hide StrictFeed, BeforeSpace, AllHex;
    var none: seq<Byte> := [];
    assert none + digits == digits && none + extension == extension && digits + none == digits;
    NothingAfterDigits(digits);
    BeforeSpaceGrows(digits, extension);
    ReadDigits(d, none, digits);
    ReadExtension(Decoder(Size(digits, false, false), 0, 0, d.received), digits, none, extension);
    StrictTwice(d, digits, extension);
  }

  /** A whole size line, of any sender. */
  lemma ReadLine(d: Decoder, l: Line, n: nat)
    requires d.mode == BETWEEN && n < 0x8000_0000 && LineFor(l, n)
    ensures StrictFeed(d, l.Bytes() + CRLF)
         == Some(Decoder(if n == 0 then Trailer(2, []) else Body, n, 0, d.received))
  {
    hide StrictFeed, HexDigits, BeforeSpace, Spells, ParseHex, AllHex, RemoveChunkExtension;
    SizeInEitherCase(l.digits, n);
    ReadLineBytes(d, l.digits, l.extension);
    StrictTwice(d, l.Bytes(), CRLF);
    ExtensionRemoved(l.digits, l.extension);
    HexHasNoExtension(l.digits);
    ReadLineEnd(StrictFeed(d, l.Bytes()).value);
  }

  lemma NothingAfterDigits(digits: seq<Byte>)
    requires AllHex(digits)
    ensures BeforeSpace(digits) == digits
  {
    NoSpaceInHex(digits);
    BeforeSpaceNext(digits, SPACE);
  }

  lemma OwnLine(n: nat)
    requires n < 0x8000_0000
    ensures LineFor(Line(HexDigits(n), []), n) && Line(HexDigits(n), []).Bytes() + CRLF == ChunkSizeBytes(n, false)
  {
    SizeOfDigits(n);
    NothingAfterDigits(HexDigits(n));
    assert HexDigits(n)[0..] == HexDigits(n) && HexDigits(n)[..0] == seq(0, _ => 48);
    assert HexDigits(n) + [] == HexDigits(n);
    assert ChunkSizeBytes(n, false) == HexDigits(n) + CRLF;
  }

  lemma ReadSizeLine(d: Decoder, n: nat)
    requires d.mode == BETWEEN && n < 0x8000_0000
    ensures StrictFeed(d, ChunkSizeBytes(n, false))
         == Some(Decoder(if n == 0 then Trailer(2, []) else Body, n, 0, d.received))
  {
    hide StrictFeed, LineFor, HexDigits;
    OwnLine(n);
    ReadLine(d, Line(HexDigits(n), []), n);
  }

  lemma {:induction false} ReadData(d: Decoder, data: seq<Byte>)
    requires d.mode == Body && d.chunkRead + |data| <= d.chunkSize
    ensures StrictFeed(d, data) == Feed(d, data) == Some(Decoder(
              if |data| > 0 && d.chunkRead + |data| == d.chunkSize then BodyFinished(false) else Body,
              d.chunkSize, d.chunkRead + |data|, d.received + data))
    decreases |data|
  {
    if data == [] {
      assert d.received + data == d.received;
    } else {
      var next := Step(d, data[0]).value;
      if |data| > 1 {
        ReadData(next, data[1..]);
        assert next.received + data[1..] == d.received + data;
      } else {
        assert data[1..] == [] && d.received + data == d.received + [data[0]];
      }
    }
  }

  lemma ReadBodyEnd(d: Decoder)
    requires d.mode == BodyFinished(false)
    ensures StrictFeed(d, CRLF) == Some(d.(mode := BETWEEN))
  {
    StrictPair(d, d.(mode := BodyFinished(true)), CR, LF);
  }

  lemma ReadTrailerEnd(d: Decoder)
    requires d.mode == Trailer(2, [])
    ensures StrictFeed(d, CRLF) == Some(d.(mode := BETWEEN))
  {
    StrictPair(d, d.(mode := Trailer(3, [])), CR, LF);
  }

  /** A chunk as any sender may send it. */
  datatype Piece = Piece(line: Line, data: seq<Byte>) {
    function Bytes(): seq<Byte> { line.Bytes() + CRLF + data + CRLF }

    predicate Proper() { |data| < 0x8000_0000 && LineFor(line, |data|) }
  }

  function PieceBytes(pieces: seq<Piece>): seq<Byte> {
    if pieces == [] then [] else pieces[0].Bytes() + PieceBytes(pieces[1..])
  }

  /** The trailer: lines that are not empty. */
  function TrailerLines(lines: seq<seq<Byte>>): seq<Byte> {
    if lines == [] then [] else lines[0] + CRLF + TrailerLines(lines[1..])
  }

  /** Chunks, a last one of size zero, a trailer, an empty line. */
  function Said(pieces: seq<Piece>, last: Line, trailer: seq<seq<Byte>>): seq<Byte> {
    PieceBytes(pieces) + (last.Bytes() + CRLF + (TrailerLines(trailer) + CRLF))
  }

  function DataOf(pieces: seq<Piece>): seq<Byte> {
    if pieces == [] then [] else pieces[0].data + DataOf(pieces[1..])
  }

  ghost predicate AllProper(pieces: seq<Piece>, last: Line, trailer: seq<seq<Byte>>) {
    && (forall i :: 0 <= i < |pieces| ==> pieces[i].Proper()) && LineFor(last, 0)
    && ProperTrailer(trailer)
  }

  ghost predicate ProperTrailer(trailer: seq<seq<Byte>>) {
    forall i :: 0 <= i < |trailer| ==> trailer[i] != [] && CR !in trailer[i]
  }

  lemma {:induction false} SkipLine(d: Decoder, s: seq<Byte>)
    requires d.mode == Trailer(0, []) && CR !in s
    ensures StrictFeed(d, s) == Some(d)
    decreases |s|
  {
    if s != [] {
      SkipLine(d, s[1..]);
    }
  }

  lemma ReadTrailerLine(d: Decoder, line: seq<Byte>)
    requires d.mode == Trailer(2, []) && line != [] && CR !in line
    ensures StrictFeed(d, line + CRLF) == Some(d)
  {
    var inside := d.(mode := Trailer(0, []));
    assert line == [line[0]] + line[1..];
    StrictTwice(d, line, CRLF);
    assert Step(d, line[0]) == Some(inside);
    SkipLine(inside, line[1..]);
    StrictPair(inside, d.(mode := Trailer(1, [])), CR, LF);
  }

  lemma {:induction false} ReadTrailerLines(d: Decoder, trailer: seq<seq<Byte>>)
    requires d.mode == Trailer(2, []) && ProperTrailer(trailer)
    ensures StrictFeed(d, TrailerLines(trailer)) == Some(d)
    decreases |trailer|
  {
    hide StrictFeed;
    if trailer == [] {
      StrictNothing(d);
    } else {
      ReadTrailerLine(d, trailer[0]);
      ReadTrailerLines(d, trailer[1..]);
      StrictTwice(d, trailer[0] + CRLF, TrailerLines(trailer[1..]));
    }
  }

  lemma ReadPiece(d: Decoder, c: Piece)
    requires d.mode == BETWEEN && c.Proper()
    ensures StrictFeed(d, c.Bytes()) == Some(Decoder(BETWEEN, |c.data|, |c.data|, d.received + c.data))
  {
    hide Step, StrictFeed, LineFor;
    var line, data := c.line.Bytes() + CRLF, c.data;
    ReadLine(d, c.line, |data|);
    StrictTwice(d, line + data, CRLF);
    StrictTwice(d, line, data);
    if data == [] {
      assert line + data == line && d.received + data == d.received;
      ReadTrailerEnd(Decoder(Trailer(2, []), 0, 0, d.received));
    } else {
      ReadData(Decoder(Body, |data|, 0, d.received), data);
      ReadBodyEnd(Decoder(BodyFinished(false), |data|, |data|, d.received + data));
    }
  }

  lemma {:induction false} ReadPieces(d: Decoder, pieces: seq<Piece>)
    requires d.mode == BETWEEN && forall i :: 0 <= i < |pieces| ==> pieces[i].Proper()
    ensures var r := StrictFeed(d, PieceBytes(pieces));
            r.Some? && r.value.mode == BETWEEN && r.value.received == d.received + DataOf(pieces)
    decreases |pieces|
  {
    if pieces == [] {
      assert d.received + DataOf(pieces) == d.received;
    } else {
      var c := pieces[0];
      var next := Decoder(BETWEEN, |c.data|, |c.data|, d.received + c.data);
      ReadPiece(d, c);
      ReadPieces(next, pieces[1..]);
      StrictTwice(d, c.Bytes(), PieceBytes(pieces[1..]));
      Cat3(d.received, c.data, DataOf(pieces[1..]));
    }
  }

  /** Read as one run of bytes, what any sender says gives its data, and the reader wants no more. */
  lemma ReadSaid(pieces: seq<Piece>, last: Line, trailer: seq<seq<Byte>>)
    requires AllProper(pieces, last, trailer)
    ensures StrictFeed(START, Said(pieces, last, trailer)) == Some(Decoder(BETWEEN, 0, 0, DataOf(pieces)))
  {
    hide StrictFeed, PieceBytes, LineFor, TrailerLines;
    ReadPieces(START, pieces);
    assert [] + DataOf(pieces) == DataOf(pieces);
    var line, rest := last.Bytes() + CRLF, TrailerLines(trailer) + CRLF;
    StrictTwice(START, PieceBytes(pieces), line + rest);
    var d, e := StrictFeed(START, PieceBytes(pieces)).value, Decoder(Trailer(2, []), 0, 0, DataOf(pieces));
    ReadLine(d, last, 0);
    StrictTwice(d, line, rest);
    ReadTrailerLines(e, trailer);
    StrictTwice(e, TrailerLines(trailer), CRLF);
    ReadTrailerEnd(e);
  }

  // ----- the sender of this library

  function OwnPieces(writes: seq<seq<Byte>>): seq<Piece> {
    if writes == [] then [] else [Piece(Line(HexDigits(|writes[0]|), []), writes[0])] + OwnPieces(writes[1..])
  }

  const OWN_LAST: Line := Line(HexDigits(0), [])

  /** It is one of them. */
  lemma {:induction false} PrintedIsSaid(writes: seq<seq<Byte>>)
    requires Printable(writes)
    ensures AllProper(OwnPieces(writes), OWN_LAST, []) && DataOf(OwnPieces(writes)) == Payload(writes)
    ensures PieceBytes(OwnPieces(writes)) == PrintChunks(writes)
            && Said(OwnPieces(writes), OWN_LAST, []) == PrintAll(writes)
    decreases |writes|
  {
    hide HexDigits, LineFor, ChunkSizeBytes;
    OwnLine(0);
    LastIsZeroLine();
    if writes != [] {
      var rest, first := OwnPieces(writes[1..]), Piece(Line(HexDigits(|writes[0]|), []), writes[0]);
      PrintedIsSaid(writes[1..]);
      OwnLine(|writes[0]|);
      assert OwnPieces(writes) == [first] + rest && OwnPieces(writes)[1..] == rest;
    }
  }

  lemma LastIsZeroLine()
    ensures ChunkSizeBytes(0, true) == ChunkSizeBytes(0, false) + CRLF
  {}

  /** One printed chunk adds its data to the payload; an empty one reads as the last chunk does. */
  lemma ReadChunk(d: Decoder, data: seq<Byte>)
    requires d.mode == BETWEEN && |data| < 0x8000_0000
    ensures StrictFeed(d, PrintChunk(data)) == Some(Decoder(BETWEEN, |data|, |data|, d.received + data))
  {
    hide StrictFeed, HexDigits, LineFor, ChunkSizeBytes;
    OwnLine(|data|);
    ReadPiece(d, Piece(Line(HexDigits(|data|), []), data));
  }

  /** Read as one run of bytes, a printed response gives its payload and wants no more. */
  lemma ReadAll(writes: seq<seq<Byte>>)
    requires Printable(writes)
    ensures StrictFeed(START, PrintAll(writes)) == Some(Decoder(BETWEEN, 0, 0, Payload(writes)))
  {
    hide StrictFeed, Said, PrintAll;
    PrintedIsSaid(writes);
    ReadSaid(OwnPieces(writes), OWN_LAST, []);
  }

  // ----- any cuts, any reads

  /** A call on the stream: bytes handed to Write, or room offered to Read. */
  datatype Call = Put(bytes: seq<Byte>) | Take(room: nat)

  /** The stream with the number of payload bytes handed out so far. */
  datatype Run = Run(decoder: Decoder, taken: nat)

  function TakeCount(r: Run, room: nat): nat
    requires r.taken <= |r.decoder.received|
  {
    var left := |r.decoder.received| - r.taken;
    if room < left then room else left
  }

  /** The run after the calls, and everything the reads returned; none is an exception. */
  function RunCalls(r: Run, calls: seq<Call>): (result: Option<(Run, seq<Byte>)>)
    requires r.taken <= |r.decoder.received|
    decreases |calls|
  {
    if calls == [] then Some((r, []))
    else match calls[0]
      case Put(bytes) =>
        var d :- Write(r.decoder, bytes);
        if r.taken <= |d.received| then RunCalls(Run(d, r.taken), calls[1..]) else None
      case Take(room) =>
        var n := TakeCount(r, room);
        var rest :- RunCalls(Run(r.decoder, r.taken + n), calls[1..]);
        Some((rest.0, r.decoder.received[r.taken..r.taken + n] + rest.1))
  }

  function BytesPut(calls: seq<Call>): seq<Byte> {
    if calls == [] then []
    else (if calls[0].Put? then calls[0].bytes else []) + BytesPut(calls[1..])
  }

  lemma {:induction false} StrictIsFeed(d: Decoder, s: seq<Byte>)
    requires Strict(d) && StrictFeed(d, s).Some?
    ensures Feed(d, s) == StrictFeed(d, s) && Strict(StrictFeed(d, s).value)
    decreases |s|
  {
    hide Step, Strict;
    if s != [] {
      StrictIsFeed(Step(d, s[0]).value, s[1..]);
    }
  }

  /** The provisional size is overwritten by the next byte, or taken again. */
  lemma SettledFeed(d: Decoder, s: seq<Byte>)
    requires Strict(d) && StrictFeed(d, s).Some?
    ensures Settle(d).Some? && StrictFeed(Settle(d).value, s).Some?
    ensures Settle(StrictFeed(Settle(d).value, s).value) == Settle(StrictFeed(d, s).value)
  {
    if d.mode.Size? && d.mode.saved != [] {
      SizeOfStart(d.mode.saved);
      if s != [] {
        assert Step(Settle(d).value, s[0]) == Step(d, s[0]);
      }
    }
  }

  /** A call to Write never throws on strict input, and loses nothing of it. */
  lemma WriteStrict(d: Decoder, s: seq<Byte>)
    requires Strict(d) && Settle(d) == Some(d) && StrictFeed(d, s).Some?
    ensures Write(d, s).Some? && Write(d, s) == Settle(StrictFeed(d, s).value)
    ensures Strict(Write(d, s).value) && Settle(Write(d, s).value) == Write(d, s)
    ensures d.received <= Write(d, s).value.received
  {
    hide Feed, StrictFeed, Step;
    StrictIsFeed(d, s);
    FeedKeepsReceived(d, s);
    StrictNothing(d);
    var next := Feed(d, s).value;
    if next.mode.Size? && next.mode.saved != [] {
      SizeOfStart(next.mode.saved);
    }
  }

  lemma StrictNothing(d: Decoder)
    ensures StrictFeed(d, []) == Some(d)
  {}

  lemma {:induction false} FeedKeepsReceived(d: Decoder, s: seq<Byte>)
    requires Feed(d, s).Some?
    ensures d.received <= Feed(d, s).value.received
    decreases |s|
  {
    if s != [] {
      var next := Step(d, s[0]).value;
      assert d.received <= next.received;
      FeedKeepsReceived(next, s[1..]);
    }
  }

  /** However the bytes are cut and the reads are placed: no exception, the payload of the bytes put so far
      handed out in order, and the very state that one Write of all the bytes leads to. */
  lemma {:induction false} AnyCuts(r: Run, calls: seq<Call>)
    requires r.taken <= |r.decoder.received| && Strict(r.decoder) && Settle(r.decoder) == Some(r.decoder)
    requires StrictFeed(r.decoder, BytesPut(calls)).Some?
    ensures RunCalls(r, calls).Some?
    ensures var (last, read) := RunCalls(r, calls).value;
            && Some(last.decoder) == Write(r.decoder, BytesPut(calls))
            && r.decoder.received <= last.decoder.received
            && r.taken <= last.taken <= |last.decoder.received|
            && read == last.decoder.received[r.taken..last.taken]
    decreases |calls|
  {
    hide Step, Strict, StrictFeed, Write, Settle;
    WriteStrict(r.decoder, BytesPut(calls));
    if calls == [] {
      StrictNothing(r.decoder);
    } else {
      var rest := calls[1..];
      match calls[0]
      case Take(room) =>
        assert BytesPut(calls) == BytesPut(rest);
        AnyCuts(Run(r.decoder, r.taken + TakeCount(r, room)), rest);
      case Put(bytes) =>
        StrictTwice(r.decoder, bytes, BytesPut(rest));
        WriteStrict(r.decoder, bytes);
        var m, d := StrictFeed(r.decoder, bytes).value, Write(r.decoder, bytes).value;
        StrictIsFeed(r.decoder, bytes);
        SettledFeed(m, BytesPut(rest));
        WriteStrict(d, BytesPut(rest));
        AnyCuts(Run(d, r.taken), rest);
    }
  }

  /** Any cuts of what any sender says into writes, with reads of any size between them, hand out a prefix of
      the data; once all bytes are put, what is handed out and what still waits make up the data,
      and the stream wants no more. */
  lemma SaidIsRead(pieces: seq<Piece>, last: Line, trailer: seq<seq<Byte>>, calls: seq<Call>)
    requires AllProper(pieces, last, trailer) && BytesPut(calls) == Said(pieces, last, trailer)
    ensures RunCalls(Run(START, 0), calls).Some?
    ensures var (end, read) := RunCalls(Run(START, 0), calls).value;
            && end.decoder.received == DataOf(pieces)
            && end.taken <= |DataOf(pieces)|
            && read == DataOf(pieces)[..end.taken]
            && !end.decoder.WantMore()
  {
    hide StrictFeed, RunCalls, Said, DataOf, BytesPut, AllProper;
    ReadSaid(pieces, last, trailer);
    WriteStrict(START, BytesPut(calls));
    AnyCuts(Run(START, 0), calls);
  }

  /** Before that, too: no bytes cut off in the middle can make the stream throw or give anything else. */
  lemma PrefixIsRead(pieces: seq<Piece>, last: Line, trailer: seq<seq<Byte>>, calls: seq<Call>)
    requires AllProper(pieces, last, trailer) && BytesPut(calls) <= Said(pieces, last, trailer)
    ensures RunCalls(Run(START, 0), calls).Some?
    ensures RunCalls(Run(START, 0), calls).value.1 <= DataOf(pieces)
  {
    hide StrictFeed, RunCalls, Said, DataOf, BytesPut, AllProper;
    var whole, put := Said(pieces, last, trailer), BytesPut(calls);
    ReadSaid(pieces, last, trailer);
    assert whole == put + whole[|put|..];
    StrictTwice(START, put, whole[|put|..]);
    WriteStrict(START, put);
    AnyCuts(Run(START, 0), calls);
    var d := StrictFeed(START, put).value;
    StrictGrows(d, whole[|put|..]);
  }

  /** What this library prints is read so. */
  lemma PrintedIsRead(writes: seq<seq<Byte>>, calls: seq<Call>)
    requires Printable(writes) && BytesPut(calls) == PrintAll(writes)
    ensures RunCalls(Run(START, 0), calls).Some?
    ensures var (end, read) := RunCalls(Run(START, 0), calls).value;
            && end.decoder.received == Payload(writes)
            && end.taken <= |Payload(writes)|
            && read == Payload(writes)[..end.taken]
            && !end.decoder.WantMore()
  {
    hide RunCalls, Said, PrintAll, Payload, DataOf, BytesPut, AllProper;
    PrintedIsSaid(writes);
    SaidIsRead(OwnPieces(writes), OWN_LAST, [], calls);
  }

  lemma HexDigitsOf()
    ensures HexDigits(0x1a2b3c) == [49, 97, 50, 98, 51, 99]
  {
    assert HexDigits(0x1a2) == [49, 97, 50] by { assert HexDigits(0x1a) == [49, 97]; }
  }

  lemma {:induction false} BeforeSpaceIsShorter(s: seq<Byte>)
    ensures |BeforeSpace(s)| <= |s|
  {
    if s != [] { BeforeSpaceIsShorter(s[1..]); }
  }

  /** A leading zero, upper-case digits, and an extension behind a semicolon. */
  lemma OtherSender()
    ensures var digits := [48, 49, 65, 50, 66, 51, 67];
            SizeOf(digits) == Some(0x1a2b3c) && LineFor(Line(digits, [SEMICOLON, 120]), 0x1a2b3c)
  {
    hide HexDigits, SizeOf, BeforeSpace;
    var digits := [48, 49, 65, 50, 66, 51, 67];
    HexDigitsOf();
    assert digits[..1] == seq(1, _ => 48) && digits[1..] == [49, 65, 50, 66, 51, 67];
    SizeInEitherCase(digits, 0x1a2b3c);
    BeforeSpaceIsShorter(digits + [SEMICOLON, 120]);
  }

  lemma {:induction false} StrictGrows(d: Decoder, s: seq<Byte>)
    requires StrictFeed(d, s).Some?
    ensures d.received <= StrictFeed(d, s).value.received
    decreases |s|
  {
    if s != [] {
      var next := Step(d, s[0]).value;
      assert d.received <= next.received;
      StrictGrows(next, s[1..]);
    }
  }

  // ----- what is refused

  /** A size line of more than twenty bytes, none of them a space. */
  lemma {:induction false} LongLine(d: Decoder, s: seq<Byte>)
    requires d.mode.Size? && !d.mode.sawCR && !d.mode.gotit && |d.mode.saved| <= 20
    requires |d.mode.saved| + |s| == 21 && CR !in s && SPACE !in s
    ensures Feed(d, s) == None
    decreases |s|
  {
    if |s| > 1 {
      LongLine(Step(d, s[0]).value, s[1..]);
    }
  }

  /** Another carriage return, or a byte other than the line end where a chunk is over. */
  lemma BrokenLines(saved: seq<Byte>, gotit: bool, size: int, read: nat, received: seq<Byte>, c: Byte)
    ensures Step(Decoder(Size(saved, true, gotit), size, read, received), CR) == None
    ensures c != CR ==> Step(Decoder(BodyFinished(false), size, read, received), c) == None
    ensures c != LF ==> Step(Decoder(BodyFinished(true), size, read, received), c) == None
  {}

  // ----- how early WantMore gives up

  lemma {:induction false} LeadingDigit(n: nat)
    requires n > 0
    ensures DigitValue(HexDigits(n)[0]) > 0
  {
    if n >= 16 {
      LeadingDigit(n / 16);
    }
  }

  lemma {:induction false} LeadingDigitCounts(s: seq<Byte>)
    requires AllHex(s) && s != [] && DigitValue(s[0]) > 0
    ensures HexValue(s) > 0
    decreases |s|
  {
    if |s| > 1 {
      LeadingDigitCounts(s[..|s| - 1]);
    } else {
      assert s[..0] == [];
    }
  }

  lemma Settled(d: Decoder)
    requires d.mode.Size? ==> AllHex(d.mode.saved) && |d.mode.saved| <= 8
    ensures Settle(d).Some?
    ensures d.mode.Size? && d.mode.saved != [] ==> Settle(d).value.chunkSize != 0 || HexValue(d.mode.saved) == 0
    ensures d.mode.Size? && d.mode.saved != [] && HexValue(d.mode.saved) == 0 ==> Settle(d).value == d.(chunkSize := 0)
    ensures !(d.mode.Size? && d.mode.saved != []) ==> Settle(d).value == d
    ensures Settle(d).value.mode == d.mode
  {
    if d.mode.Size? && d.mode.saved != [] {
      SizeOfHex(d.mode.saved);
      HexBound(d.mode.saved, 8);
      SixteenToTheEighth();
    }
  }

  /** After some digits of a size that is not zero the stream wants more. */
  lemma InsideDigits(d: Decoder, n: nat, put: seq<Byte>)
    requires d.mode == BETWEEN && 0 < n < 0x8000_0000 && put != [] && put <= HexDigits(n)
    ensures StrictFeed(d, put).Some? && Settle(StrictFeed(d, put).value).Some?
    ensures Settle(StrictFeed(d, put).value).value.WantMore()
    ensures StrictFeed(d, put).value == Decoder(Size(put, false, false), 0, 0, d.received)
    ensures AllHex(put) && |put| <= 8
  {
    hide StrictFeed, Step, Settle, HexValue, HexDigits;
    SizeOfDigits(n);
    assert [] + put == put;
    EightDigits(put);
    ReadDigits(d, [], put);
    LeadingDigit(n);
    LeadingDigitCounts(put);
    Settled(StrictFeed(d, put).value);
  }

  lemma InsideLineEnd(d: Decoder, n: nat)
    requires d.mode == BETWEEN && 0 < n < 0x8000_0000
    ensures var put := HexDigits(n) + [CR];
            && StrictFeed(d, put).Some? && Settle(StrictFeed(d, put).value).Some?
            && Settle(StrictFeed(d, put).value).value.WantMore()
  {
    hide StrictFeed, Step, Settle, HexValue, HexDigits, SizeLineStart, RemoveChunkExtension;
    var digits := HexDigits(n);
    InsideDigits(d, n, digits);
    StrictTwice(d, digits, [CR]);
    var one := Decoder(Size(digits, false, false), 0, 0, d.received);
    EightDigits(digits);
    HexStart(digits);
    SawCR(one);
    LeadingDigit(n);
    LeadingDigitCounts(digits);
    Settled(StrictFeed(one, [CR]).value);
  }

  /** In the middle of a chunk with data the stream wants more. */
  lemma InsideChunk(d: Decoder, data: seq<Byte>, put: seq<Byte>)
    requires d.mode == BETWEEN && 0 < |data| < 0x8000_0000
    requires put <= PrintChunk(data) && 0 < |put| < |PrintChunk(data)|
    ensures StrictFeed(d, put).Some? && Settle(StrictFeed(d, put).value).Some?
    ensures Settle(StrictFeed(d, put).value).value.WantMore()
  {
    hide StrictFeed, Step, Settle, HexValue, HexDigits, AllHex;
    var digits, chunk := HexDigits(|data|), PrintChunk(data);
    var line, k := digits + CRLF, |put|;
    assert put == chunk[..k];
    if k <= |digits| {
      assert put == digits[..k];
      InsideDigits(d, |data|, put);
    } else if k == |digits| + 1 {
      assert put == digits + [CR];
      InsideLineEnd(d, |data|);
    } else {
      assert line == ChunkSizeBytes(|data|, false);
      var rest := put[|line|..];
      assert put == line + rest;
      assert rest == (data + [CR])[..|rest|];
      ReadSizeLine(d, |data|);
      StrictTwice(d, line, rest);
      InsideBody(Decoder(Body, |data|, 0, d.received), data, rest);
    }
  }

  lemma InsideBody(d: Decoder, data: seq<Byte>, rest: seq<Byte>)
    requires d.mode == Body && d.chunkRead == 0 && d.chunkSize == |data| > 0 && rest <= data + [CR]
    ensures StrictFeed(d, rest).Some? && Settle(StrictFeed(d, rest).value).Some?
    ensures Settle(StrictFeed(d, rest).value).value.WantMore()
  {
    hide StrictFeed, Step, Settle;
    if |rest| <= |data| {
      assert rest == data[..|rest|];
      ReadData(d, rest);
      Settled(StrictFeed(d, rest).value);
    } else {
      assert rest == data + [CR];
      ReadData(d, data);
      StrictTwice(d, data, [CR]);
      var done := StrictFeed(d, data).value;
      SawCR(done);
      Settled(StrictFeed(done, [CR]).value);
    }
  }

  lemma SawCR(d: Decoder)
    requires Strict(d) && match d.mode case Size(_, sawCR, _) => !sawCR case BodyFinished(seen) => !seen case _ => false
    ensures var r := StrictFeed(d, [CR]);
            && r.Some? && Strict(r.value)
            && match d.mode
               case Size(saved, _, gotit) => r.value == Decoder(Size(saved, true, gotit), 0, 0, d.received)
               case _ => r.value == d.(mode := BodyFinished(true))
  {
    assert [CR][1..] == [];
  }

  /** And in the middle of one without data, it depends: the last chunk, and the chunk of an empty write. */
  lemma InsideEmptyChunk(d: Decoder, put: seq<Byte>)
    requires d.mode == BETWEEN && put != [] && put <= ChunkSizeBytes(0, true)
    ensures StrictFeed(d, put).Some? && Settle(StrictFeed(d, put).value).Some?
    ensures !Settle(StrictFeed(d, put).value).value.WantMore() <==> |put| == 5 || |put| == 2 || |put| == 1
  {
    hide StrictFeed, Step, Settle;
    var whole := ChunkSizeBytes(0, true);
    assert HexDigits(0) == [48] && HexValue([48]) == 0 by { assert [48][..0] == []; }
    assert whole == [48, CR, LF, CR, LF];
    assert put == whole[..|put|];
    assert [] + [48] == [48];
    ReadDigits(d, [], [48]);
    var zero := Decoder(Size([48], false, false), 0, 0, d.received);
    if |put| == 1 {
      assert put == [48];
      Settled(zero);
    } else if |put| == 2 {
      assert put == [48] + [CR];
      StrictTwice(d, [48], [CR]);
      SawCR(zero);
      Settled(StrictFeed(zero, [CR]).value);
    } else {
      var line := ChunkSizeBytes(0, false);
      assert line == [48, CR, LF];
      ReadSizeLine(d, 0);
      var rest := put[3..];
      assert put == line + rest;
      StrictTwice(d, line, rest);
      var trailer := Decoder(Trailer(2, []), 0, 0, d.received);
      TrailerBytes(trailer);
      assert rest == [] || rest == [CR] || rest == CRLF;
      Settled(StrictFeed(trailer, rest).value);
    }
  }

  lemma TrailerBytes(d: Decoder)
    requires d.mode == Trailer(2, [])
    ensures StrictFeed(d, []) == Some(d) && StrictFeed(d, [CR]) == Some(d.(mode := Trailer(3, [])))
            && StrictFeed(d, CRLF) == Some(d.(mode := BETWEEN))
  {
    assert [CR][1..] == [];
    ReadTrailerEnd(d);
  }

  /** `put` bytes end one, two or five bytes into the chunk of the write at `i`, which is empty or the one
      after all, the last chunk. */
  predicate EndsInEmpty(writes: seq<seq<Byte>>, i: nat, put: int)
    requires i <= |writes|
  {
    && (i < |writes| ==> writes[i] == [])
    && put - |PrintChunks(writes[..i])| in {1, 2, 5}
  }

  ghost predicate LooksFinished(writes: seq<seq<Byte>>, put: int) {
    exists i :: 0 <= i <= |writes| && EndsInEmpty(writes, i, put)
  }

  lemma LaterWrite(writes: seq<seq<Byte>>, i: nat, put: int)
    requires 0 < i <= |writes|
    ensures EndsInEmpty(writes, i, put) <==> EndsInEmpty(writes[1..], i - 1, put - |PrintChunk(writes[0])|)
  {
    hide PrintChunk;
    assert writes[..i][1..] == writes[1..][..i - 1];
  }

  lemma FinishedLater(writes: seq<seq<Byte>>, put: int)
    requires writes != []
    ensures LooksFinished(writes, put) <==>
              EndsInEmpty(writes, 0, put) || LooksFinished(writes[1..], put - |PrintChunk(writes[0])|)
  {
    hide EndsInEmpty, PrintChunk;
    forall i | 0 < i <= |writes|
      ensures EndsInEmpty(writes, i, put) <==> EndsInEmpty(writes[1..], i - 1, put - |PrintChunk(writes[0])|)
    {
      LaterWrite(writes, i, put);
    }
    if LooksFinished(writes[1..], put - |PrintChunk(writes[0])|) {
      var i :| 0 <= i <= |writes[1..]| && EndsInEmpty(writes[1..], i, put - |PrintChunk(writes[0])|);
      assert EndsInEmpty(writes, i + 1, put);
    }
  }

  lemma NothingIsNotFinished(writes: seq<seq<Byte>>, put: int)
    requires put <= 0
    ensures !LooksFinished(writes, put)
  {}

  lemma FinishedAtTheEnd(put: int)
    ensures LooksFinished([], put) <==> put in {1, 2, 5}
  {
    var none: seq<seq<Byte>> := [];
    assert none[..0] == none;
    assert EndsInEmpty(none, 0, put) <==> put in {1, 2, 5};
  }

  lemma FirstWrite(writes: seq<seq<Byte>>, put: int)
    requires writes != []
    ensures EndsInEmpty(writes, 0, put) <==> writes[0] == [] && put in {1, 2, 5}
  {
    assert writes[..0] == [];
  }

  lemma EmptyChunk()
    ensures PrintChunk([]) == ChunkSizeBytes(0, true) && |ChunkSizeBytes(0, true)| == 5
  {}

  lemma {:induction false} WantMoreFrom(d: Decoder, writes: seq<seq<Byte>>, put: seq<Byte>)
    requires d.mode == BETWEEN && Printable(writes) && put != [] && put <= PrintAll(writes)
    ensures StrictFeed(d, put).Some? && Settle(StrictFeed(d, put).value).Some?
    ensures !Settle(StrictFeed(d, put).value).value.WantMore() <==> LooksFinished(writes, |put|)
    decreases |writes|
  {
    hide StrictFeed, Settle, PrintChunk, ChunkSizeBytes, LooksFinished, EndsInEmpty;
    var last := ChunkSizeBytes(0, true);
    EmptyChunk();
    if writes == [] {
      assert PrintAll(writes) == last;
      InsideEmptyChunk(d, put);
      FinishedAtTheEnd(|put|);
    } else {
      var chunk := PrintChunk(writes[0]);
      Cat3(chunk, PrintChunks(writes[1..]), last);
      assert PrintAll(writes) == chunk + PrintAll(writes[1..]);
      FinishedLater(writes, |put|);
      FirstWrite(writes, |put|);
      if |put| <= |chunk| {
        assert put == chunk[..|put|];
        NothingIsNotFinished(writes[1..], |put| - |chunk|);
        if writes[0] == [] {
          InsideEmptyChunk(d, put);
        } else if |put| < |chunk| {
          InsideChunk(d, writes[0], put);
        } else {
          assert put == chunk;
          WholeChunk(d, writes[0]);
        }
      } else {
        var rest := put[|chunk|..];
        assert put == chunk + rest;
        assert rest == PrintAll(writes)[..|put|][|chunk|..] == PrintAll(writes[1..])[..|rest|];
        ReadChunk(d, writes[0]);
        StrictTwice(d, chunk, rest);
        WantMoreFrom(StrictFeed(d, chunk).value, writes[1..], rest);
      }
    }
  }

  lemma WholeChunk(d: Decoder, data: seq<Byte>)
    requires d.mode == BETWEEN && 0 < |data| < 0x8000_0000
    ensures var r := StrictFeed(d, PrintChunk(data));
            r.Some? && Settle(r.value).Some? && Settle(r.value).value.WantMore()
  {
    hide StrictFeed, PrintChunk, Settle;
    ReadChunk(d, data);
    Settled(StrictFeed(d, PrintChunk(data)).value);
  }

  /** WantMore in the middle of a response: after some of its bytes the stream wants no more exactly when they end
      in the first, the second or the fifth byte of the last chunk or of the chunk of an empty write. Only the
      very last of these is right. */
  lemma WantMoreGivesUpEarly(writes: seq<seq<Byte>>, put: seq<Byte>)
    requires Printable(writes) && put <= PrintAll(writes)
    ensures Write(START, put).Some?
    ensures !Write(START, put).value.WantMore() <==> LooksFinished(writes, |put|)
  {
    hide StrictFeed, Settle, PrintAll, LooksFinished;
    if put == [] {
      NothingIsNotFinished(writes, 0);
    } else {
      WantMoreFrom(START, writes, put);
      StartIsSettled();
      WriteStrict(START, put);
    }
  }

  lemma StartIsSettled()
    ensures Strict(START) && Settle(START) == Some(START)
  {}
}
