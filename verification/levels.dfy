/**
 * `ZstdLevel` and `CompressionLevel`: the compression level a frame
 * compressor is configured with, the conversions between the two and from
 * and to the primitive integer types, and normalisation.
 *
 * A `ZstdLevel` wraps a byte. The only ways to make one are the checked
 * conversion from an integer (which keeps 0..=22 and turns 23..=255 into 0)
 * and the named presets, so every level holds a value of at most 22.
 */
module Levels {
  import opened Results
  import opened Bits

  newtype u8 = x: int | 0 <= x < 256

  datatype ZstdLevel = ZstdLevel(value: u8)

  /** The levels the conversions can produce: the zstd levels 0..=22. */
  predicate ValidLevel(z: ZstdLevel)
  {
    z.value <= 22
  }

  /** The primitive integer types the conversions are generated for. */
  datatype IntType = U8 | U16 | U32 | U64 | U128 | Usize | I8 | I16 | I32 | I64 | I128 | Isize

  /** Bit width of each type (`usize`/`isize` as on a 64-bit target). */
  function Width(t: IntType): (w: nat)
    ensures w >= 8
  {
    match t
    case U8 => 8 case I8 => 8
    case U16 => 16 case I16 => 16
    case U32 => 32 case I32 => 32
    case U64 => 64 case I64 => 64 case Usize => 64 case Isize => 64
    case U128 => 128 case I128 => 128
  }

  predicate Signed(t: IntType)
  {
    t.I8? || t.I16? || t.I32? || t.I64? || t.I128? || t.Isize?
  }

  /** The values of type `t`. */
  predicate InRange(t: IntType, x: int)
  {
    if Signed(t) then -(Pow2(Width(t) - 1) as int) <= x < Pow2(Width(t) - 1) else 0 <= x < Pow2(Width(t))
  }

  datatype TryFromIntError = TryFromIntError

  /**
   * `ZstdLevel::try_from(val)` for a value `val` of type `t`: the value must
   * fit in a byte or the conversion fails; a byte above 22 silently becomes
   * level 0.
   */
  function TryFromInt(t: IntType, x: int): (r: Result<ZstdLevel, TryFromIntError>)
    requires InRange(t, x)
    ensures r.Err? <==> x < 0 || x > 255
    ensures r.Ok? ==> ValidLevel(r.value)
    ensures r.Ok? && x <= 22 ==> r.value.value as int == x
    ensures r.Ok? && x > 22 ==> r.value == ZstdLevel(0)
  {
    if x < 0 || x > 255 then Err(TryFromIntError)
    else if x as u8 <= 22 then Ok(ZstdLevel(x as u8))
    else Ok(ZstdLevel(0))
  }

  /**
   * `<t>::from(level)`: the byte converted with `try_into().unwrap()`, which
   * fails (here `None`) only when the byte does not fit in `t`.
   */
  function IntoInt(t: IntType, z: ZstdLevel): (r: Option<int>)
    ensures r.Some? ==> r.value == z.value as int && InRange(t, r.value)
    ensures r.None? <==> !InRange(t, z.value as int)
  {
    if InRange(t, z.value as int) then Some(z.value as int) else None
  }

  /** Every byte fits in a type of at least 8 bits, except in `i8` above 127. */
  lemma {:induction false} ByteInRange(t: IntType, b: u8)
    ensures InRange(t, b as int) <==> !(t.I8? && b > 127)
  {
    assert Pow2(7) == 128 && Pow2(8) == 256;
    var w := Width(t);
    if Signed(t) {
      if w > 8 {
        Pow2Monotone(8, w - 1);
      }
    } else {
      Pow2Monotone(8, w);
    }
  }

  /** Converting a level back to any integer type never panics. */
  lemma IntoIntNeverFails(t: IntType, z: ZstdLevel)
    requires ValidLevel(z)
    ensures IntoInt(t, z) == Some(z.value as int)
  {
    ByteInRange(t, z.value);
  }

  /** Integer to level to integer is the identity on 0..=22. */
  lemma IntRoundTrip(t: IntType, x: int)
    requires InRange(t, x) && 0 <= x <= 22
    ensures TryFromInt(t, x).Ok? && IntoInt(t, TryFromInt(t, x).value) == Some(x)
  {
    IntoIntNeverFails(t, TryFromInt(t, x).value);
  }

  datatype CompressionLevel = Uncompressed | Fastest | Default | Better | Best | Other(level: ZstdLevel)

  predicate Named(c: CompressionLevel)
  {
    !c.Other?
  }

  /** `ZstdLevel::from(CompressionLevel)`: the presets are levels 0, 1, 3, 7 and 11. */
  function LevelOf(c: CompressionLevel): (z: ZstdLevel)
    ensures c.Other? ==> z == c.level
    ensures c == Uncompressed <==> (Named(c) && z.value == 0)
    ensures Named(c) ==> z.value in {0, 1, 3, 7, 11}
  {
    match c
    case Uncompressed => ZstdLevel(0)
    case Fastest => ZstdLevel(1)
    case Default => ZstdLevel(3)
    case Better => ZstdLevel(7)
    case Best => ZstdLevel(11)
    case Other(zl) => zl
  }

  /** `CompressionLevel::from(ZstdLevel)`: a preset's level becomes the preset, any other stays `Other`. */
  function FromLevel(z: ZstdLevel): (c: CompressionLevel)
    ensures c.Other? <==> z.value !in {0, 1, 3, 7, 11}
    ensures c.Other? ==> c.level == z
  {
    match z.value
    case 0 => Uncompressed
    case 1 => Fastest
    case 3 => Default
    case 7 => Better
    case 11 => Best
    case _ => Other(z)
  }

  /** `normalize` (and `normalize_mut` in place): an `Other` that names a preset becomes the preset. */
  function Normalize(c: CompressionLevel): (n: CompressionLevel)
    ensures Named(c) ==> n == c
  {
    if c.Other? then FromLevel(c.level) else c
  }

  /** Level to compression level and back is the identity. */
  lemma LevelRoundTrip(z: ZstdLevel)
    ensures LevelOf(FromLevel(z)) == z
  {
  }

  /** A named preset survives the trip through its level; an `Other` comes back normalised. */
  lemma PresetRoundTrip(c: CompressionLevel)
    ensures FromLevel(LevelOf(c)) == Normalize(c)
    ensures Named(c) ==> FromLevel(LevelOf(c)) == c
  {
  }

  /** Normalising keeps the level and is idempotent; a normalised `Other` names no preset. */
  lemma NormalizeProperties(c: CompressionLevel)
    ensures LevelOf(Normalize(c)) == LevelOf(c)
    ensures Normalize(Normalize(c)) == Normalize(c)
    ensures Normalize(c).Other? ==> LevelOf(c).value !in {0, 1, 3, 7, 11}
  {
  }

  /** A preset given by its number becomes the preset; any other number stays as it is. */
  lemma NormalizeExamples()
    ensures Normalize(Other(ZstdLevel(3))) == Default
    ensures Normalize(Other(ZstdLevel(5))) == Other(ZstdLevel(5))
    ensures Normalize(Other(ZstdLevel(0))) == Uncompressed
  {
  }
}
