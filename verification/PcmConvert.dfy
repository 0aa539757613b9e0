/**
 PCM sample conversion between the interleaved integer formats: little-endian
 byte codecs, sample scaling and the buffer loop.  The steps that go through
 `float` are modelled over the reals; see the README for where that is exact.
 */
module PcmConvert {

  type byte = x: int | 0 <= x < 256

  /** `Other` stands for every sample format that the converter does not support. */
  datatype Format = U8 | S16LE | S24LE | S32LE | Other {
    /** Bytes per sample, 0 when unsupported. */
    function Width(): nat {
      match this
      case U8 => 1
      case S16LE => 2
      case S24LE => 3
      case S32LE => 4
      case Other => 0
    }
  }

  // ------------------------------------------------------------------
  // Byte codecs
  // ------------------------------------------------------------------

  /** The number of values that `n` bytes hold. */
  function Range(n: nat): nat
    ensures Range(n) > 0
  {
    if n == 0 then 1 else 256 * Range(n - 1)
  }

  function FromBytes(bytes: seq<byte>): (u: nat)
    ensures u < Range(|bytes|)
  {
    if bytes == [] then 0 else bytes[0] + 256 * FromBytes(bytes[1..])
  }

  function ToBytes(u: nat, n: nat): (bytes: seq<byte>)
    ensures |bytes| == n
  {
    if n == 0 then [] else [u % 256] + ToBytes(u / 256, n - 1)
  }

  lemma LowByte(low: byte, high: int)
    ensures (low + 256 * high) % 256 == low && (low + 256 * high) / 256 == high
  {
  }

  lemma {:induction false} BytesRoundTrip(bytes: seq<byte>)
    ensures ToBytes(FromBytes(bytes), |bytes|) == bytes
  {
    if bytes != [] {
      BytesRoundTrip(bytes[1..]);
      LowByte(bytes[0], FromBytes(bytes[1..]));
    }
  }

  lemma {:induction false} ValueRoundTrip(u: nat, n: nat)
    requires u < Range(n)
    ensures FromBytes(ToBytes(u, n)) == u
  {
    if n > 0 {
      ValueRoundTrip(u / 256, n - 1);
      assert ToBytes(u, n)[1..] == ToBytes(u / 256, n - 1);
    }
  }

  /** `v` is a sample of the format. */
  predicate InRange(f: Format, v: int) {
    match f
    case U8 => 0 <= v < 256
    case S16LE => -0x8000 <= v < 0x8000
    case S24LE => -0x80_0000 <= v < 0x80_0000
    case S32LE => -0x8000_0000 <= v < 0x8000_0000
    case Other => false
  }

  lemma Ranges()
    ensures Range(1) == 0x100 && Range(2) == 0x1_0000 && Range(3) == 0x100_0000 && Range(4) == 0x1_0000_0000
  {
    assert Range(0) == 1 && Range(1) == 256 * Range(0) && Range(2) == 256 * Range(1);
    assert Range(3) == 256 * Range(2) && Range(4) == 256 * Range(3);
  }

  /** `ReadS16`, `ReadS24`, `ReadS32`, or the plain byte: little endian, sign-extended. */
  function Read(f: Format, bytes: seq<byte>): (v: int)
    requires f != Other && |bytes| == f.Width()
    ensures InRange(f, v)
  {
    var u := FromBytes(bytes);
    Ranges();
    if f == U8 || u < Range(f.Width()) / 2 then u else u - Range(f.Width())
  }

  /** `WriteS16`, `WriteS24`, `WriteS32`, or the plain byte: the low bytes of the value. */
  function Write(f: Format, v: int): (bytes: seq<byte>)
    ensures |bytes| == f.Width()
  {
    ToBytes(v % Range(f.Width()), f.Width())
  }

  /** Two's complement: a negative sample is stored a full range further up. */
  lemma StoredAs(f: Format, v: int)
    requires InRange(f, v)
    ensures v % Range(f.Width()) == if v < 0 then v + Range(f.Width()) else v
  {
    hide Range;
    Ranges();
    match f
    case U8 => assert v % 0x100 == v;
    case S16LE => assert v % 0x1_0000 == if v < 0 then v + 0x1_0000 else v;
    case S24LE => assert v % 0x100_0000 == if v < 0 then v + 0x100_0000 else v;
    case S32LE => assert v % 0x1_0000_0000 == if v < 0 then v + 0x1_0000_0000 else v;
  }

  /** 256 to the power of `i`. */
  function Place(i: nat): nat
    ensures Place(i) > 0
  {
    match i
    case 0 => 1
    case 1 => 0x100
    case 2 => 0x1_0000
    case _ => 0x100_0000
  }

  /** Little endian: byte `i` of a written sample is its two's complement divided by 256 to the power of `i`, modulo 256. */
  lemma WrittenBytes(f: Format, v: int, i: nat)
    requires InRange(f, v) && i < f.Width()
    ensures Write(f, v)[i] == v / Place(i) % 256
  {
    hide ToBytes, Range;
    Ranges();
    StoredAs(f, v);
    var u := v % Range(f.Width());
    FourBytes(u, f.Width());
    StoredByte(v, u, f.Width(), i);
  }

  /** A full range further up, the low bytes are the same. */
  lemma StoredByte(v: int, u: nat, n: nat, i: nat)
    requires i < n <= 4 && (u == v || u == v + Range(n))
    ensures u / Place(i) % 256 == v / Place(i) % 256
  {
    hide Range;
    Ranges();
    var q := match n - i case 1 => 1 case 2 => 0x100 case 3 => 0x1_0000 case _ => 0x100_0000;
    match i
    case 0 => SameLow(v, q);
    case 1 => assert (v + 0x1_0000 * q) / 0x100 == v / 0x100 + 0x100 * q; SameLow(v / 0x100, q);
    case 2 => assert (v + 0x100_0000 * q) / 0x1_0000 == v / 0x1_0000 + 0x100 * q; SameLow(v / 0x1_0000, q);
    case _ => assert (v + 0x1_0000_0000 * q) / 0x100_0000 == v / 0x100_0000 + 0x100 * q; SameLow(v / 0x100_0000, q);
  }

  lemma SameLow(x: int, q: int)
    ensures (x + 0x100 * q) % 256 == x % 256
  {
  }

  lemma FourBytes(u: nat, n: nat)
    requires n <= 4
    ensures n > 0 ==> ToBytes(u, n)[0] == u % 256
    ensures n > 1 ==> ToBytes(u, n)[1] == u / 0x100 % 256
    ensures n > 2 ==> ToBytes(u, n)[2] == u / 0x1_0000 % 256
    ensures n > 3 ==> ToBytes(u, n)[3] == u / 0x100_0000 % 256
  {
    assert u / 256 / 256 == u / 0x1_0000 && u / 0x1_0000 / 256 == u / 0x100_0000;
    if n > 1 {
      assert ToBytes(u, n)[1..] == ToBytes(u / 256, n - 1);
    }
    if n > 2 {
      assert ToBytes(u / 256, n - 1)[1..] == ToBytes(u / 256 / 256, n - 2);
    }
    if n > 3 {
      assert ToBytes(u / 0x1_0000, n - 2)[1..] == ToBytes(u / 0x1_0000 / 256, n - 3);
    }
  }

  lemma ReadWrite(f: Format, v: int)
    requires InRange(f, v)
    ensures Read(f, Write(f, v)) == v
  {
    hide ToBytes, FromBytes, Range;
    Ranges();
    StoredAs(f, v);
    ValueRoundTrip(v % Range(f.Width()), f.Width());
  }

  lemma WriteRead(f: Format, bytes: seq<byte>)
    requires f != Other && |bytes| == f.Width()
    ensures Write(f, Read(f, bytes)) == bytes
  {
    hide ToBytes, FromBytes, Range;
    Ranges();
    BytesRoundTrip(bytes);
    StoredAs(f, Read(f, bytes));
  }

  // ------------------------------------------------------------------
  // Sample scaling
  // ------------------------------------------------------------------

  /** C++ integer division, which truncates. */
  function TruncDiv(a: int, d: int): int
    requires d > 0
  {
    if a < 0 then -(-a / d) else a / d
  }

  /** The code's floor division by a positive constant. */
  function FloorDiv(v: int, divisor: int): (q: int)
    requires divisor == 256 || divisor == 65536
    ensures q == v / divisor  // Dafny's quotient by a positive number is the floor
  {
    if v < 0 then TruncDiv(v - (divisor - 1), divisor) else TruncDiv(v, divisor)
  }

  function Clamp(x: int, low: int, high: int): int {
    if x < low then low else if x > high then high else x
  }

  function ClampReal(x: real): real {
    if x < -1.0 then -1.0 else if x > 1.0 then 1.0 else x
  }

  /** `std::round`: to the nearest integer, halves away from zero. */
  function Round(x: real): int {
    if x >= 0.0 then (x + 0.5).Floor else -((-x + 0.5).Floor)
  }

  /** `U8ToFloat`, `S16ToFloat`, `S24ToFloat`, `S32ToFloat`. */
  function ToFloat(f: Format, v: int): real {
    match f
    case U8 => (v as real - 128.0) / 128.0
    case S16LE => v as real / 32768.0
    case S24LE => v as real / 8388608.0
    case S32LE => v as real / 2147483648.0
    case Other => 0.0
  }

  /** `FloatToU8`, `FloatToS16`, `FloatToS24`, `FloatToS32`. */
  function FromFloat(f: Format, x: real): int {
    var c := ClampReal(x);
    match f
    case U8 => Clamp(Round(c * 128.0 + 128.0), 0, 255)
    case S16LE => Clamp(Round(c * 32768.0), -0x8000, 0x7FFF)
    case S24LE => Clamp(Round(c * 8388608.0), -0x80_0000, 0x7F_FFFF)
    case S32LE => Clamp(Round(c * 2147483648.0), -0x8000_0000, 0x7FFF_FFFF)
    case Other => 0
  }

  /** The conversion of one sample value, pair by pair as the code's switches have it. */
  function ConvertSample(from: Format, to: Format, v: int): int {
    match (from, to)
    case (S16LE, S24LE) => v * 256
    case (S16LE, S32LE) => v * 65536
    case (S24LE, S32LE) => v * 256
    case (S24LE, S16LE) => FloorDiv(v, 256)
    case (S32LE, S16LE) => FloorDiv(v, 65536)
    case (S32LE, S24LE) => FloorDiv(v, 256)
    case (_, _) => if from == to then v else FromFloat(to, ToFloat(from, v))
  }

  /** A sample on the 32-bit scale: what each format's value stands for. */
  function Level(f: Format, v: int): int {
    match f
    case U8 => (v - 128) * 0x100_0000
    case S16LE => v * 0x1_0000
    case S24LE => v * 0x100
    case _ => v
  }

  lemma RoundInt(x: real, n: int)
    requires x == n as real
    ensures Round(x) == n
  {
  }

  /** The nearest integer, halves away from zero. */
  lemma RoundExact(x: real)
    ensures x >= 0.0 ==> Round(x) as real - 0.5 <= x < Round(x) as real + 0.5
    ensures x <= 0.0 ==> Round(x) as real - 0.5 < x <= Round(x) as real + 0.5
  {
  }

  /** Beyond full scale a float gives the highest or the lowest sample, never a wrapped one. */
  lemma FloatSaturates(f: Format, x: real)
    requires f != Other
    ensures x >= 1.0 ==>
      FromFloat(f, x) == match f case U8 => 255 case S16LE => 0x7FFF case S24LE => 0x7F_FFFF case _ => 0x7FFF_FFFF
    ensures x <= -1.0 ==>
      FromFloat(f, x) == match f case U8 => 0 case S16LE => -0x8000 case S24LE => -0x80_0000 case _ => -0x8000_0000
  {
  }

  /** Rounding a non-negative number is taking the floor a half further up. */
  lemma RoundUp(x: real, n: int)
    requires n >= 0 && n as real <= x + 0.5 < n as real + 1.0 && x >= 0.0
    ensures Round(x) == n
  {
  }

  /** Up to 24 bits a sample comes back from the float that it is turned into. */
  lemma FloatRoundTrip(f: Format, v: int)
    requires (f == U8 || f == S16LE || f == S24LE) && InRange(f, v)
    ensures FromFloat(f, ToFloat(f, v)) == v
  {
    var c := ClampReal(ToFloat(f, v));
    match f
    case U8 => RoundInt(c * 128.0 + 128.0, v);
    case S16LE => RoundInt(c * 32768.0, v);
    case S24LE => RoundInt(c * 8388608.0, v);
    case _ =>
  }

  /** From 8 bits up, the float path is exact. */
  lemma WidenU8(to: Format, v: int)
    requires InRange(U8, v) && to != Other
    ensures InRange(to, ConvertSample(U8, to, v))
    ensures Level(to, ConvertSample(U8, to, v)) == Level(U8, v)
  {
    var c := ClampReal(ToFloat(U8, v));
    match to
    case U8 =>
    case S16LE => RoundInt(c * 32768.0, (v - 128) * 256);
    case S24LE => RoundInt(c * 8388608.0, (v - 128) * 0x1_0000);
    case S32LE => RoundInt(c * 2147483648.0, (v - 128) * 0x100_0000);
    case Other =>
  }

  /** `float` keeps 24 bits: from 32 to 8 bits the reals model it on samples that have no more. */
  predicate Exact(from: Format, to: Format, v: int) {
    from == S32LE && to == U8 ==> v % 256 == 0
  }

  /** Down to 8 bits, the nearest of the 256 levels is taken, halves up, the highest one saturating. */
  lemma NarrowToU8(from: Format, v: int)
    requires from != U8 && InRange(from, v) && Exact(from, U8, v)
    ensures ConvertSample(from, U8, v) == Clamp((Level(from, v) + 0x80_0000) / 0x100_0000 + 128, 0, 255)
  {
    var level := Level(from, v);
    var n := (level + 0x80_0000) / 0x100_0000 + 128;
    var x := ClampReal(ToFloat(from, v)) * 128.0 + 128.0;
    assert x == level as real / 16777216.0 + 128.0;
    assert (n - 128) * 0x100_0000 <= level + 0x80_0000 < (n - 127) * 0x100_0000;
    RoundUp(x, n);
  }

  /** Reference conversion: the sample of format `f` for a level on the 32-bit scale. */
  function FromLevel(f: Format, level: int): int {
    match f
    case U8 => Clamp((level + 0x80_0000) / 0x100_0000 + 128, 0, 255)
    case S16LE => level / 0x1_0000
    case S24LE => level / 0x100
    case _ => level
  }

  /** Every conversion reads the level of the sample and takes the target's sample for it. */
  lemma ConvertIsFromLevel(from: Format, to: Format, v: int)
    requires InRange(from, v) && to != Other && Exact(from, to, v)
    ensures ConvertSample(from, to, v) == FromLevel(to, Level(from, v))
  {
    match (from, to)
    case (U8, _) => WidenU8(to, v);
    case (_, U8) => NarrowToU8(from, v);
    case (_, _) =>
  }

  lemma ConvertInRange(from: Format, to: Format, v: int)
    requires InRange(from, v) && to != Other
    ensures InRange(to, ConvertSample(from, to, v))
  {
    if from == U8 {
      WidenU8(to, v);
    }
  }

  /** Going through `g` is not narrower than both ends. */
  predicate Passable(f: Format, g: Format, h: Format) {
    f.Width() <= g.Width() || h.Width() <= g.Width()
  }

  /** From 32 to 8 bits with a format between them, where the direct way need not be exact. */
  predicate Inexact(f: Format, g: Format, h: Format) {
    f == S32LE && h == U8 && g != S32LE && g != U8
  }

  /** A floor to a finer step first does not change the floor to a coarser one. */
  lemma FinerFloor(level: int)
    ensures level / 0x100 * 0x100 / 0x1_0000 == level / 0x1_0000
  {
    var q, r := level / 0x1_0000, level % 0x1_0000;
    assert level / 0x100 == q * 0x100 + r / 0x100;
    assert level / 0x100 * 0x100 == q * 0x1_0000 + r / 0x100 * 0x100;
  }

  /** Nor does it change the rounding to 8 bits. */
  lemma FinerRound(level: int)
    ensures (level / 0x100 * 0x100 + 0x80_0000) / 0x100_0000 == (level + 0x80_0000) / 0x100_0000
    ensures (level / 0x1_0000 * 0x1_0000 + 0x80_0000) / 0x100_0000 == (level + 0x80_0000) / 0x100_0000
  {
    var q, r := (level + 0x80_0000) / 0x100_0000, (level + 0x80_0000) % 0x100_0000;
    assert level / 0x100 == q * 0x1_0000 + r / 0x100 - 0x8000;
    assert level / 0x1_0000 == q * 0x100 + r / 0x1_0000 - 0x80;
  }

  lemma LevelKept(g: Format, h: Format, level: int)
    requires g != Other && h != Other && h.Width() <= g.Width() && InRange(S32LE, level)
    ensures FromLevel(h, Level(g, FromLevel(g, level))) == FromLevel(h, level)
  {
    match (g, h)
    case (S24LE, U8) => FinerRound(level);
    case (S16LE, U8) => FinerRound(level);
    case (S24LE, S16LE) => FinerFloor(level);
    case (_, _) =>
  }

  /** Below 32 bits, the low byte of the level is zero. */
  lemma LevelIsExact(f: Format, v: int)
    ensures f != S32LE && f != Other ==> Level(f, v) % 256 == 0
  {
    var k := match f case U8 => (v - 128) * 0x1_0000 case S16LE => v * 0x100 case _ => v;
    LowByte(0, k);
  }

  lemma SampleVia(f: Format, g: Format, h: Format, v: int)
    requires InRange(f, v) && g != Other && h != Other && Passable(f, g, h)
    requires Inexact(f, g, h) ==> Exact(f, h, v)
    ensures ConvertSample(g, h, ConvertSample(f, g, v)) == ConvertSample(f, h, v)
  {
    if g == f || g == h {
      return;
    }
    ConvertInRange(f, g, v);
    ConvertIsFromLevel(f, g, v);
    ConvertIsFromLevel(f, h, v);
    LevelIsExact(f, v);
    ConvertIsFromLevel(g, h, ConvertSample(f, g, v));
    var level := Level(f, v);
    if f.Width() <= g.Width() {
      match (f, g)
      case (U8, _) => WidenU8(g, v);
      case (_, _) =>
      assert Level(g, FromLevel(g, level)) == level;
    } else {
      LevelKept(g, h, level);
    }
  }

  /** A format narrower than both ends loses something: one step of the coarser end. */
  lemma SampleLost(f: Format, g: Format, h: Format) returns (v: int)
    requires f != Other && g != Other && h != Other && !Passable(f, g, h)
    ensures InRange(f, v) && ConvertSample(g, h, ConvertSample(f, g, v)) != ConvertSample(f, h, v)
  {
    var step := if h == S16LE then 0x1_0000 else if h == S24LE || g == U8 then 0x100 else 1;
    v := match f case S32LE => step case S24LE => (if step == 0x1_0000 then 0x100 else 1) case _ => 1;
    ConvertInRange(f, g, v);
    ConvertIsFromLevel(f, g, v);
    ConvertIsFromLevel(f, h, v);
    ConvertIsFromLevel(g, h, ConvertSample(f, g, v));
  }

  // ------------------------------------------------------------------
  // Buffers
  // ------------------------------------------------------------------

  /** The bytes that `n` samples take. */
  function BufferSize(n: nat, f: Format): nat {
    n * f.Width()
  }

  lemma SomeWidth(f: Format)
    ensures f.Width() > 0 <==> f != Other
  {
  }

  lemma NoSize(f: Format)
    ensures BufferSize(0, f) == 0
  {
  }

  lemma NextSize(i: nat, n: nat, f: Format)
    requires i < n
    ensures BufferSize(i + 1, f) == BufferSize(i, f) + f.Width() <= BufferSize(n, f)
  {
    assert (i + 1) * f.Width() <= n * f.Width();
  }

  /** One sample, bytes to bytes. */
  function Recode(from: Format, to: Format, sample: seq<byte>): (out: seq<byte>)
    requires from != Other && |sample| == from.Width()
    ensures |out| == to.Width()
  {
    Write(to, ConvertSample(from, to, Read(from, sample)))
  }

  /** A buffer of whole samples, recoded sample by sample. */
  function Recoded(from: Format, to: Format, input: seq<byte>): seq<byte>
    requires from != Other
  {
    if |input| < from.Width() then []
    else Recode(from, to, input[..from.Width()]) + Recoded(from, to, input[from.Width()..])
  }

  lemma RecodeVia(f: Format, g: Format, h: Format, sample: seq<byte>)
    requires f != Other && g != Other && h != Other && |sample| == f.Width() && Passable(f, g, h) && !Inexact(f, g, h)
    ensures Recode(g, h, Recode(f, g, sample)) == Recode(f, h, sample)
  {
    var v := Read(f, sample);
    ConvertInRange(f, g, v);
    ReadWrite(g, ConvertSample(f, g, v));
    SampleVia(f, g, h, v);
  }

  /**
   Conversions compose: for buffers of any length, going from `f` to `h` through
   a format that is not narrower than both is going there directly.
   */
  lemma {:induction false} BufferVia(f: Format, g: Format, h: Format, input: seq<byte>)
    requires f != Other && g != Other && h != Other && Passable(f, g, h) && !Inexact(f, g, h)
    ensures Recoded(g, h, Recoded(f, g, input)) == Recoded(f, h, input)
  {
    if |input| >= f.Width() {
      var first, rest := input[..f.Width()], input[f.Width()..];
      RecodeVia(f, g, h, first);
      BufferVia(f, g, h, rest);
      var mid := Recode(f, g, first) + Recoded(f, g, rest);
      assert mid[..g.Width()] == Recode(f, g, first) && mid[g.Width()..] == Recoded(f, g, rest);
    }
  }

  lemma {:induction false} SameFormat(f: Format, input: seq<byte>, n: nat)
    requires f != Other && |input| == BufferSize(n, f)
    ensures Recoded(f, f, input) == input
  {
    if n > 0 {
      NextSize(n - 1, n, f);
      var first := input[..f.Width()];
      WriteRead(f, first);
      SameFormat(f, input[f.Width()..], n - 1);
    }
  }

  /** Round trips: through any format at least as wide, a buffer comes back unchanged. */
  lemma RoundTrip(f: Format, g: Format, input: seq<byte>, n: nat)
    requires f != Other && g != Other && f.Width() <= g.Width() && |input| == BufferSize(n, f)
    ensures Recoded(g, f, Recoded(f, g, input)) == input
  {
    BufferVia(f, g, f, input);
    SameFormat(f, input, n);
  }

  /** `n` samples in, `n` samples out. */
  lemma {:induction false} RecodedLength(from: Format, to: Format, input: seq<byte>, n: nat)
    requires from != Other && |input| == BufferSize(n, from)
    ensures |Recoded(from, to, input)| == BufferSize(n, to)
  {
    if n > 0 {
      NextSize(n - 1, n, from);
      NextSize(n - 1, n, to);
      RecodedLength(from, to, input[from.Width()..], n - 1);
    }
  }

  lemma {:induction false} RecodedAppend(from: Format, to: Format, input: seq<byte>, sample: seq<byte>, n: nat)
    requires from != Other && |input| == BufferSize(n, from) && |sample| == from.Width()
    ensures Recoded(from, to, input + sample) == Recoded(from, to, input) + Recode(from, to, sample)
  {
    hide Recode, BufferSize, Format.Width;
    SomeWidth(from);
    var w := from.Width();
    NoSize(from);
    if n == 0 {
      assert input + sample == sample && sample[..w] == sample;
      assert Recoded(from, to, sample[w..]) == [];
    } else {
      NextSize(n - 1, n, from);
      RecodedAppend(from, to, input[w..], sample, n - 1);
      assert (input + sample)[..w] == input[..w] && (input + sample)[w..] == input[w..] + sample;
    }
  }

  /** `s` with `bytes` written over it from position `at` on. */
  ghost function Patch(s: seq<byte>, at: nat, bytes: seq<byte>): seq<byte>
    requires at + |bytes| <= |s|
  {
    s[..at] + bytes + s[at + |bytes|..]
  }

  method WriteSample(output: array<byte>, at: nat, bytes: seq<byte>)
    requires at + |bytes| <= output.Length
    modifies output
    ensures output[..] == Patch(old(output[..]), at, bytes)
  {
    for j := 0 to |bytes|
      invariant forall k :: 0 <= k < output.Length ==>
        output[k] == if at <= k < at + j then bytes[k - at] else old(output[k])
    {
      output[at + j] := bytes[j];
    }
  }

  /** The first `outPtr` bytes of `out` are the samples up to `inPtr`; the rest is as it was. */
  ghost predicate Written(from: Format, to: Format, src: seq<byte>, inPtr: nat, out: seq<byte>, outPtr: nat, was: seq<byte>)
    requires from != Other && inPtr <= |src| && outPtr <= |was|
  {
    |Recoded(from, to, src[..inPtr])| == outPtr && out == Recoded(from, to, src[..inPtr]) + was[outPtr..]
  }

  /** The buffer loop: writes exactly the recoded samples and leaves the rest of the output alone. */
  method ConvertSamples(input: array<byte>, sampleCount: nat, from: Format, to: Format, output: array<byte>)
    requires from != Other && to != Other && input != output
    requires BufferSize(sampleCount, from) <= input.Length && BufferSize(sampleCount, to) <= output.Length
    modifies output
    ensures output[..] == Recoded(from, to, input[..BufferSize(sampleCount, from)])
      + old(output[BufferSize(sampleCount, to)..])
    ensures |Recoded(from, to, input[..BufferSize(sampleCount, from)])| == BufferSize(sampleCount, to)
  {
    hide Recode, Recoded, BufferSize, Format.Width, Patch, Written;
    var inBytes, outBytes := from.Width(), to.Width();
    var inPtr, outPtr := 0, 0;
    ghost var src, was := input[..], output[..];
    WrittenNone(from, to, src, was);
    for i := 0 to sampleCount
      invariant inPtr == BufferSize(i, from) <= |src| && outPtr == BufferSize(i, to) <= |was|
      invariant input[..] == src
      invariant Written(from, to, src, inPtr, output[..], outPtr, was)
    {
      NextSize(i, sampleCount, from);
      NextSize(i, sampleCount, to);
      var sample := input[..][inPtr..inPtr + inBytes];
      WrittenNext(from, to, src, i, inPtr, output[..], outPtr, was);
      WriteSample(output, outPtr, Recode(from, to, sample));
      inPtr, outPtr := inPtr + inBytes, outPtr + outBytes;
    }
    WrittenAll(from, to, src, inPtr, output[..], outPtr, was);
    assert input[..inPtr] == src[..inPtr];
  }

  lemma WrittenNone(from: Format, to: Format, src: seq<byte>, was: seq<byte>)
    requires from != Other
    ensures BufferSize(0, from) == BufferSize(0, to) == 0
    ensures Written(from, to, src, 0, was, 0, was)
  {
    SomeWidth(from);
  }

  lemma WrittenNext(from: Format, to: Format, src: seq<byte>, i: nat, inPtr: nat, out: seq<byte>, outPtr: nat, was: seq<byte>)
    requires from != Other && inPtr == BufferSize(i, from)
    requires inPtr + from.Width() <= |src| && outPtr + to.Width() <= |was|
    requires Written(from, to, src, inPtr, out, outPtr, was)
    ensures |out| == |was|
    ensures
      var bytes := Recode(from, to, src[inPtr..inPtr + from.Width()]);
      Written(from, to, src, inPtr + from.Width(), Patch(out, outPtr, bytes), outPtr + to.Width(), was)
  {
    hide Recode, Recoded, BufferSize;
    NextSample(from, to, src, i, inPtr);
    Splice(out, Recoded(from, to, src[..inPtr]), was, Recode(from, to, src[inPtr..inPtr + from.Width()]));
  }

  lemma WrittenAll(from: Format, to: Format, src: seq<byte>, inPtr: nat, out: seq<byte>, outPtr: nat, was: seq<byte>)
    requires from != Other && inPtr <= |src| && outPtr <= |was|
    requires Written(from, to, src, inPtr, out, outPtr, was)
    ensures |Recoded(from, to, src[..inPtr])| == outPtr && out == Recoded(from, to, src[..inPtr]) + was[outPtr..]
  {
  }

  lemma NextSample(from: Format, to: Format, src: seq<byte>, i: nat, at: nat)
    requires from != Other && at == BufferSize(i, from) && at + from.Width() <= |src|
    ensures Recoded(from, to, src[..at + from.Width()])
      == Recoded(from, to, src[..at]) + Recode(from, to, src[at..at + from.Width()])
  {
    hide Recode, Recoded, Format.Width;
    RecodedAppend(from, to, src[..at], src[at..at + from.Width()], i);
    assert src[..at + from.Width()] == src[..at] + src[at..at + from.Width()];
  }

  lemma Splice(out: seq<byte>, done: seq<byte>, was: seq<byte>, bytes: seq<byte>)
    requires |done| + |bytes| <= |was| && out == done + was[|done|..]
    ensures Patch(out, |done|, bytes) == (done + bytes) + was[|done| + |bytes|..]
  {
  }

  datatype Status = OK | ERROR_NULL_POINTER | ERROR_UNSUPPORTED_FORMAT

  /** The entry point with its error cases; equal formats are copied. */
  method ConvertPcmSampleFormat(input: array?<byte>, sampleCount: nat, inputFormat: Format, outputFormat: Format,
                                output: array?<byte>) returns (status: Status)
    requires input != null ==> BufferSize(sampleCount, inputFormat) <= input.Length
    requires output != null ==> BufferSize(sampleCount, outputFormat) <= output.Length
    requires input != output || input == null
    modifies output
    ensures status ==
      if input == null || output == null then ERROR_NULL_POINTER
      else if sampleCount > 0 && (inputFormat == Other || outputFormat == Other) then ERROR_UNSUPPORTED_FORMAT
      else OK
    ensures output != null && (status != OK || sampleCount == 0) ==> output[..] == old(output[..])
    ensures status == OK && sampleCount > 0 ==>
      && |Recoded(inputFormat, outputFormat, input[..BufferSize(sampleCount, inputFormat)])| == BufferSize(sampleCount, outputFormat)
      && output[..] == Recoded(inputFormat, outputFormat, input[..BufferSize(sampleCount, inputFormat)])
           + old(output[BufferSize(sampleCount, outputFormat)..])
  {
    hide Recoded, BufferSize;
    if input == null || output == null {
      return ERROR_NULL_POINTER;
    }
    if sampleCount == 0 {
      return OK;
    }
    if inputFormat == Other || outputFormat == Other {
      return ERROR_UNSUPPORTED_FORMAT;
    }
    if inputFormat == outputFormat {
      var size := BufferSize(sampleCount, inputFormat);
      SameFormat(inputFormat, input[..size], sampleCount);
      WriteSample(output, 0, input[..size]);
      return OK;
    }
    ConvertSamples(input, sampleCount, inputFormat, outputFormat, output);
    return OK;
  }

  // ------------------------------------------------------------------
  // 16 to 8 bits
  // ------------------------------------------------------------------

  /** The 8-bit step saturates for the highest samples only. */
  predicate Saturates(v: int) {
    v >= 0x7F80
  }

  /** S16 to U8 and back moves a sample by at most 128, or at most 255 when the U8 step saturates. */
  lemma NarrowError(v: int)
    requires InRange(S16LE, v)
    ensures
      var back := ConvertSample(U8, S16LE, ConvertSample(S16LE, U8, v));
      && (!Saturates(v) ==> -128 <= v - back <= 128)
      && (Saturates(v) ==> 128 <= v - back <= 255)
  {
    ConvertIsFromLevel(S16LE, U8, v);
    ConvertIsFromLevel(U8, S16LE, ConvertSample(S16LE, U8, v));
  }

  lemma NarrowMonotone(v: int, w: int)
    requires InRange(S16LE, v) && InRange(S16LE, w) && v <= w
    ensures ConvertSample(S16LE, U8, v) <= ConvertSample(S16LE, U8, w)
  {
    ConvertIsFromLevel(S16LE, U8, v);
    ConvertIsFromLevel(S16LE, U8, w);
  }
}
