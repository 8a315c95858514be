/** The cache index of a tile (src/Cache.h, getIndex): a formatted string, cut to the buffer it is
    printed into. */
module CacheKey {

  /** A request for a tile, as the cache tells them apart. */
  datatype TileId = TileId(filename: string, resolution: int, tile: int, hSequence: int, vSequence: int,
                           compression: int, quality: int)

  const BUFFER := 1024

  function Digit(n: nat): char
    requires n < 10
  {
    '0' + n as char
  }

  function Digits(n: nat): (s: string)
    ensures s != [] && forall i :: 0 <= i < |s| ==> '0' <= s[i] <= '9'
  {
    if n < 10 then [Digit(n)] else Digits(n / 10) + [Digit(n % 10)]
  }

  /** %d */
  function Decimal(n: int): string {
    if n < 0 then "-" + Digits(-n) else Digits(n)
  }

  /** A std::string handed over as c_str(): it ends at the first NUL. */
  function CStr(s: string): (c: string)
    ensures c <= s
  {
    if s == [] || s[0] == '\0' then [] else [s[0]] + CStr(s[1..])
  }

  /** The text the format string asks for. */
  function Formatted(t: TileId): string {
    CStr(t.filename) + ":" + Decimal(t.resolution) + ":" + Decimal(t.tile) + ":" + Decimal(t.hSequence)
    + ":" + Decimal(t.vSequence) + ":" + Decimal(t.compression) + ":" + Decimal(t.quality)
  }

  /** snprintf keeps what fits in front of the terminating NUL. */
  function GetIndex(t: TileId): string {
    var s := Formatted(t);
    if |s| < BUFFER then s else s[..BUFFER - 1]
  }

  /******* The index is injective *******/

  function Value(s: string): nat
    requires forall i :: 0 <= i < |s| ==> '0' <= s[i] <= '9'
  {
    if s == [] then 0 else 10 * Value(s[..|s| - 1]) + (s[|s| - 1] - '0') as nat
  }

  lemma {:induction false} ValueOfDigits(n: nat)
    ensures Value(Digits(n)) == n
  {
    if n < 10 {
      assert [Digit(n)][..0] == [];
    } else {
      ValueOfDigits(n / 10);
      assert Digits(n)[..|Digits(n)| - 1] == Digits(n / 10);
    }
  }

  function Parse(s: string): int
    requires s != [] && forall i :: 1 <= i < |s| ==> '0' <= s[i] <= '9'
  {
    if s[0] == '-' then -(Value(s[1..]) as int)
    else if '0' <= s[0] <= '9' then Value(s)
    else 0
  }

  lemma ParseOfDecimal(n: int)
    ensures forall i :: 1 <= i < |Decimal(n)| ==> '0' <= Decimal(n)[i] <= '9'
    ensures Parse(Decimal(n)) == n
  {
    hide Digits, Value;
    if n < 0 {
      ValueOfDigits(-n);
      assert Decimal(n)[1..] == Digits(-n);
    } else {
      ValueOfDigits(n);
    }
  }

  lemma DecimalHasNoColon(n: int)
    ensures ':' !in Decimal(n)
  {
  }

  lemma LastColon(a: string, x: string, b: string, y: string)
    requires a + ":" + x == b + ":" + y && ':' !in x
    ensures |b| <= |a|
  {
    var s := a + ":" + x;
    assert s[|b|] == ':';
    assert forall i :: |a| < i < |s| ==> s[i] in x;
  }

  /** The last colon separates what precedes it from a number. */
  lemma SplitLast(a: string, m: int, b: string, n: int)
    requires a + ":" + Decimal(m) == b + ":" + Decimal(n)
    ensures a == b && m == n
  {
    hide Decimal;
    var s := a + ":" + Decimal(m);
    DecimalHasNoColon(m);
    DecimalHasNoColon(n);
    LastColon(a, Decimal(m), b, Decimal(n));
    LastColon(b, Decimal(n), a, Decimal(m));
    assert s[..|a|] == a && s[..|b|] == b;
    assert s[|a| + 1..] == Decimal(m) && s[|b| + 1..] == Decimal(n);
    ParseOfDecimal(m);
    ParseOfDecimal(n);
  }

  lemma {:induction false} CStrOfPlain(s: string)
    requires '\0' !in s
    ensures CStr(s) == s
  {
    if s != [] { CStrOfPlain(s[1..]); }
  }

  /** Equal keys mean the same tile, for file names without NUL, as long as the key fits. */
  lemma KeyInjective(s: TileId, t: TileId)
    requires '\0' !in s.filename && '\0' !in t.filename
    requires |Formatted(s)| < BUFFER && |Formatted(t)| < BUFFER && GetIndex(s) == GetIndex(t)
    ensures s == t
  {
    hide Decimal;
    CStrOfPlain(s.filename);
    CStrOfPlain(t.filename);
    var (s1, t1) := (s.filename, t.filename);
    var (s2, t2) := (s1 + ":" + Decimal(s.resolution), t1 + ":" + Decimal(t.resolution));
    var (s3, t3) := (s2 + ":" + Decimal(s.tile), t2 + ":" + Decimal(t.tile));
    var (s4, t4) := (s3 + ":" + Decimal(s.hSequence), t3 + ":" + Decimal(t.hSequence));
    var (s5, t5) := (s4 + ":" + Decimal(s.vSequence), t4 + ":" + Decimal(t.vSequence));
    var (s6, t6) := (s5 + ":" + Decimal(s.compression), t5 + ":" + Decimal(t.compression));
    SplitLast(s6, s.quality, t6, t.quality);
    SplitLast(s5, s.compression, t5, t.compression);
    SplitLast(s4, s.vSequence, t4, t.vSequence);
    SplitLast(s3, s.hSequence, t3, t.hSequence);
    SplitLast(s2, s.tile, t2, t.tile);
    SplitLast(s1, s.resolution, t1, t.resolution);
  }

  /** A file name that fills the buffer alone makes all its tiles share one key. */
  lemma LongNamesCollide(s: TileId, t: TileId)
    requires s.filename == t.filename && |CStr(s.filename)| >= BUFFER - 1
    ensures GetIndex(s) == GetIndex(t)
  {
    hide CStr, Decimal;
    var f := CStr(s.filename);
    assert Formatted(s)[..BUFFER - 1] == f[..BUFFER - 1];
    assert Formatted(t)[..BUFFER - 1] == f[..BUFFER - 1];
  }

  /******* How long a file name may be *******/

  function Pow10(k: nat): (p: nat)
    ensures p > 0
  {
    if k == 0 then 1 else 10 * Pow10(k - 1)
  }

  lemma {:induction false} DigitsLength(n: nat, k: nat)
    requires k > 0
    ensures n < Pow10(k) ==> |Digits(n)| <= k
    ensures n >= Pow10(k) ==> |Digits(n)| > k
  {
    if k == 1 {
      assert Pow10(0) == 1;
    } else {
      assert Pow10(k) == 10 * Pow10(k - 1);
      if n >= 10 { DigitsLength(n / 10, k - 1); } else { assert Pow10(k - 1) == 10 * Pow10(k - 2); }
    }
  }

  /** A C int. */
  predicate Int32(n: int) {
    -0x8000_0000 <= n < 0x8000_0000
  }

  lemma TenDigits()
    ensures Pow10(10) == 100_0000_0000 && Pow10(9) == 10_0000_0000
  {
    assert Pow10(3) == 1000 && Pow10(6) == 100_0000 by { assert Pow10(2) == 100; assert Pow10(4) == 10 * Pow10(3); }
    assert Pow10(7) == 1000_0000 && Pow10(8) == 1_0000_0000;
  }

  lemma DecimalLength(n: int)
    requires Int32(n)
    ensures |Decimal(n)| <= if n < 0 then 11 else 10
    ensures n < -20_0000_0000 ==> |Decimal(n)| == 11
    ensures n > 20_0000_0000 ==> |Decimal(n)| == 10
  {
    hide Digits, Pow10;
    TenDigits();
    DigitsLength(if n < 0 then -n else n, 10);
    DigitsLength(if n < 0 then -n else n, 9);
  }

  /** What the commands look for: the uncompressed form of any tile, or a compressed form of a tile
      that passed their test for negative numbers, with a quality as the compressors clamp it. */
  predicate Askable(t: TileId) {
    && '\0' !in t.filename
    && Int32(t.resolution) && Int32(t.tile) && Int32(t.hSequence) && Int32(t.vSequence)
    && match t.compression
       case 0 => t.quality == 0
       case 1 => t.resolution >= 0 && t.tile >= 0 && 0 <= t.quality <= 100
       case 3 => t.resolution >= 0 && t.tile >= 0 && 0 <= t.quality <= 9
       case _ => false
  }

  const LONGEST_NAME := 971

  lemma FormattedLength(t: TileId)
    requires Askable(t)
    ensures |Formatted(t)| <= |t.filename| + 52
  {
    hide Digits;
    DecimalLength(t.resolution);
    DecimalLength(t.tile);
    DecimalLength(t.hSequence);
    DecimalLength(t.vSequence);
    assert Pow10(1) == 10 && Pow10(3) == 1000 by { assert Pow10(2) == 100; }
    DigitsLength(t.compression, 1);
    DigitsLength(t.quality, 1);
    DigitsLength(t.quality, 3);
    CStrOfPlain(t.filename);
  }

  /** A tile with the longest numbers, in JPEG. */
  function Extreme(filename: string, quality: int): TileId {
    TileId(filename, 0x7fff_ffff, 0x7fff_ffff, -0x8000_0000, -0x8000_0000, 1, quality)
  }

  function Front(t: TileId): string {
    CStr(t.filename) + ":" + Decimal(t.resolution) + ":" + Decimal(t.tile) + ":" + Decimal(t.hSequence)
    + ":" + Decimal(t.vSequence) + ":" + Decimal(t.compression) + ":"
  }

  /** One character more, and quality 100 is cut to quality 10. */
  lemma ExtremesCollide(filename: string)
    requires '\0' !in filename && |filename| == LONGEST_NAME + 1
    ensures GetIndex(Extreme(filename, 100)) == GetIndex(Extreme(filename, 10))
  {
    var s, t := Extreme(filename, 100), Extreme(filename, 10);
    assert Decimal(10) == "10" && Decimal(1) == "1" && Decimal(100) == Decimal(10) + "0";
    hide CStr, Decimal;
    CStrOfPlain(filename);
    DecimalLength(0x7fff_ffff);
    DecimalLength(-0x8000_0000);
    var f := Front(s);
    assert |f| == 1021;
    assert Formatted(s) == f + Decimal(100) && Formatted(t) == f + Decimal(10);
    assert (f + Decimal(100))[..1023] == f + Decimal(10);
  }

  ghost predicate Distinguished(s: TileId, t: TileId) {
    GetIndex(s) == GetIndex(t) ==> s == t
  }

  /** Keys tell all tiles of files with names up to a length apart if and only if that length is at
      most 971. */
  lemma KeysInjectiveIff(n: nat)
    ensures n <= LONGEST_NAME <==>
      forall s, t :: Askable(s) && Askable(t) && |s.filename| <= n && |t.filename| <= n ==> Distinguished(s, t)
  {
    hide GetIndex, Formatted;
    if n <= LONGEST_NAME {
      forall s, t | Askable(s) && Askable(t) && |s.filename| <= n && |t.filename| <= n ensures Distinguished(s, t) {
        FormattedLength(s);
        FormattedLength(t);
        if GetIndex(s) == GetIndex(t) { KeyInjective(s, t); }
      }
    } else {
      var f := seq(LONGEST_NAME + 1, i => 'x');
      ExtremesCollide(f);
      assert !Distinguished(Extreme(f, 100), Extreme(f, 10));
    }
  }
}
