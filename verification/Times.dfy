/**
 UtcTime and TimeOfDay contents (internal/pdu/data.go). An instant is seconds
 since 1970-01-01 and nanoseconds within the second, as Go's time.Time
 reports them; calendar days are 86400 seconds (UTC).
 */
module Times {
  import opened Bytes
  import opened Integers
  import opened Results

  const NANOS_PER_SEC := 1_000_000_000
  const FRACTIONS := 0x100_0000
  const MS_PER_DAY := 86_400_000

  type Nanos = n: int | 0 <= n < NANOS_PER_SEC
  type Fraction = f: int | 0 <= f < FRACTIONS

  datatype Instant = Instant(secs: int, nanos: Nanos)

  datatype Utc = Utc(time: Instant, quality: Byte)

  /** Go's zero time.Time, 0001-01-01T00:00:00Z. */
  const ZERO_TIME := Instant(-62_135_596_800, 0)

  /** The nearest multiple of 2^-24 s, kept below one second. */
  function FractionOf(n: Nanos): (f: Fraction)
  {
    var rounded := (n * FRACTIONS + 500_000_000) / NANOS_PER_SEC;
    if rounded < FRACTIONS - 1 then rounded else FRACTIONS - 1
  }

  /** The nearest nanosecond of a fraction. */
  function NanosOf(f: Fraction): (n: Nanos)
  {
    (f * NANOS_PER_SEC + 0x80_0000) / FRACTIONS
  }

  function EncodeUtc(u: Utc): (r: Result<seq<Byte>>)
  {
    var t := if u.time == ZERO_TIME then Instant(0, 0) else u.time;
    if t.secs < 0 || t.secs > MAX_UINT32 then Err
    else Ok(Fixed(t.secs, 4) + Fixed(FractionOf(t.nanos), 3) + [u.quality])
  }

  function DecodeUtc(data: seq<Byte>): (r: Result<Utc>)
  {
    if |data| != 8 then Err
    else
      var f := ToNat(data[4..7]);
      ToNatBound(data[4..7]);
      Pow256Values();
      Ok(Utc(Instant(ToNat(data[..4]), NanosOf(f)), data[7]))
  }

  /** Decoding then encoding is lossless for every fraction. */
  lemma FractionSurvives(f: Fraction)
    ensures FractionOf(NanosOf(f)) == f
  {
  }

  /** Encoding then decoding moves a time by at most 30 ns, or 59 ns in the last 29 ns of a second, where it is clamped. */
  lemma NanosMove(n: Nanos)
    ensures n < 999_999_971 ==> -30 <= NanosOf(FractionOf(n)) - n <= 30
    ensures n >= 999_999_971 ==> -59 <= NanosOf(FractionOf(n)) - n <= -30 && FractionOf(n) == FRACTIONS - 1
  {
  }

  /** Every 8-octet content comes back unchanged. */
  lemma UtcDecodeEncode(data: seq<Byte>)
    requires |data| == 8
    ensures DecodeUtc(data).Ok?
    ensures EncodeUtc(DecodeUtc(data).value) == Ok(data)
  {
    var f := ToNat(data[4..7]);
    ToNatBound(data[..4]);
    ToNatBound(data[4..7]);
    Pow256Values();
    FractionSurvives(f);
    FixedToNat(data[..4]);
    FixedToNat(data[4..7]);
    assert data == data[..4] + data[4..7] + [data[7]];
  }

  /** What an encoded time reads back as. */
  lemma UtcEncodeDecode(u: Utc)
    requires EncodeUtc(u).Ok?
    ensures |EncodeUtc(u).value| == 8
    ensures u.time == ZERO_TIME ==> DecodeUtc(EncodeUtc(u).value) == Ok(Utc(Instant(0, 0), u.quality))
    ensures u.time != ZERO_TIME ==>
              DecodeUtc(EncodeUtc(u).value) == Ok(Utc(Instant(u.time.secs, NanosOf(FractionOf(u.time.nanos))), u.quality))
  {
    var t := if u.time == ZERO_TIME then Instant(0, 0) else u.time;
    var data := EncodeUtc(u).value;
    Pow256Values();
    assert data[..4] == Fixed(t.secs, 4);
    assert data[4..7] == Fixed(FractionOf(t.nanos), 3);
    ToNatFixed(t.secs, 4);
    ToNatFixed(FractionOf(t.nanos), 3);
  }

  lemma {:induction false} ZeroOctets(k: nat)
    ensures Fixed(0, k) == seq(k, i => 0)
  {
    if k > 0 {
      ZeroOctets(k - 1);
    }
  }

  /** An unset time can be written, and otherwise exactly those from 1970 up to 32 bits of seconds. */
  lemma UtcEncodes(u: Utc)
    ensures EncodeUtc(u).Ok? <==> u.time == ZERO_TIME || 0 <= u.time.secs <= 0xffff_ffff
    ensures u.time == ZERO_TIME ==> EncodeUtc(u) == Ok([0, 0, 0, 0, 0, 0, 0, u.quality])
  {
    if u.time == ZERO_TIME {
      ZeroOctets(4);
      ZeroOctets(3);
      assert FractionOf(0) == 0;
      assert Fixed(0, 4) + Fixed(0, 3) + [u.quality] == [0, 0, 0, 0, 0, 0, 0, u.quality];
    }
  }

  /** A time comes back exactly when its second fits 32 bits and its nanoseconds lie on the 2^-24 grid. */
  lemma UtcExact(u: Utc)
    ensures (EncodeUtc(u).Ok? && DecodeUtc(EncodeUtc(u).value) == Ok(u))
       <==> (0 <= u.time.secs <= MAX_UINT32 && OnGrid(u.time.nanos))
  {
    if EncodeUtc(u).Ok? {
      UtcEncodeDecode(u);
      if OnGrid(u.time.nanos) {
        var f: Fraction :| NanosOf(f) == u.time.nanos;
        FractionSurvives(f);
      }
    }
  }

  ghost predicate OnGrid(n: Nanos) {
    exists f: Fraction :: NanosOf(f) == n
  }

  // ----- TimeOfDay

  /** 1984-01-01 in milliseconds since 1970: 5113 days. */
  const EPOCH_1984_MS: int := 441_763_200_000
  const BINARY_TIME_MAX_MS: int := 6_104_073_599_999

  function EncodeTimeOfDay(ms: int): (r: Result<seq<Byte>>)
  {
    if 0 <= ms < MS_PER_DAY then Ok(Fixed(ms, 4))
    else if ms < EPOCH_1984_MS || ms > BINARY_TIME_MAX_MS then Err
    else
      var days := ((ms - EPOCH_1984_MS) / MS_PER_DAY) % 0x1_0000;
      var msOfDay := (ms % MS_PER_DAY) % 0x1_0000_0000;
      Ok(Fixed(msOfDay, 4) + Fixed(days, 2))
  }

  function DecodeTimeOfDay(data: seq<Byte>): (r: Result<int>)
  {
    if |data| != 4 && |data| != 6 then Err
    else if ToNat(data[..4]) >= MS_PER_DAY then Err
    else if |data| == 4 then Ok(ToNat(data))
    else Ok(EPOCH_1984_MS + ToNat(data[4..6]) * MS_PER_DAY + ToNat(data[..4]))
  }

  predicate TimeOfDayRange(ms: int) {
    0 <= ms < MS_PER_DAY || EPOCH_1984_MS <= ms < EPOCH_1984_MS + 0x1_0000 * MS_PER_DAY
  }

  lemma DaySplit(ms: int)
    requires EPOCH_1984_MS <= ms <= BINARY_TIME_MAX_MS
    ensures 0 <= (ms - EPOCH_1984_MS) / MS_PER_DAY < 0x1_0000
    ensures EPOCH_1984_MS + (ms - EPOCH_1984_MS) / MS_PER_DAY * MS_PER_DAY + ms % MS_PER_DAY == ms
    ensures EncodeTimeOfDay(ms) == Ok(Fixed(ms % MS_PER_DAY, 4) + Fixed((ms - EPOCH_1984_MS) / MS_PER_DAY, 2))
  {
    hide Fixed;
    var days := (ms - EPOCH_1984_MS) / MS_PER_DAY;
    DayBounds(ms, days);
    InRangeMod(days, 0x1_0000);
    InRangeMod(ms % MS_PER_DAY, 0x1_0000_0000);
  }

  lemma InRangeMod(n: nat, m: nat)
    requires n < m
    ensures n % m == n
  {
  }

  lemma DayBounds(ms: int, days: int)
    requires EPOCH_1984_MS <= ms <= BINARY_TIME_MAX_MS && days == (ms - EPOCH_1984_MS) / MS_PER_DAY
    ensures 0 <= days < 0x1_0000
    ensures EPOCH_1984_MS + days * MS_PER_DAY + ms % MS_PER_DAY == ms
  {
  }

  lemma DatedContent(msOfDay: nat, days: nat)
    requires msOfDay < MS_PER_DAY && days < 0x1_0000
    ensures DecodeTimeOfDay(Fixed(msOfDay, 4) + Fixed(days, 2)) == Ok(EPOCH_1984_MS + days * MS_PER_DAY + msOfDay)
  {
    Pow256Values();
    ToNatFixed(msOfDay, 4);
    ToNatFixed(days, 2);
    var data := Fixed(msOfDay, 4) + Fixed(days, 2);
    assert data[..4] == Fixed(msOfDay, 4);
    assert data[4..6] == Fixed(days, 2);
  }

  lemma UndatedContent(ms: nat)
    requires ms < MS_PER_DAY
    ensures DecodeTimeOfDay(Fixed(ms, 4)) == Ok(ms)
  {
    Pow256Values();
    ToNatFixed(ms, 4);
    assert Fixed(ms, 4)[..4] == Fixed(ms, 4);
  }

  /** The accepted times are one day without a date and 65536 dated days; each comes back. */
  lemma TimeOfDayRoundTrip(ms: int)
    ensures EncodeTimeOfDay(ms).Ok? <==> TimeOfDayRange(ms)
    ensures EncodeTimeOfDay(ms).Ok? ==> DecodeTimeOfDay(EncodeTimeOfDay(ms).value) == Ok(ms)
  {
    if 0 <= ms < MS_PER_DAY {
      UndatedContent(ms);
    } else if EPOCH_1984_MS <= ms <= BINARY_TIME_MAX_MS {
      DaySplit(ms);
      DatedContent(ms % MS_PER_DAY, (ms - EPOCH_1984_MS) / MS_PER_DAY);
    }
  }

  /** Every accepted content comes back, in the form it was written in. */
  lemma TimeOfDayNormalises(data: seq<Byte>)
    requires DecodeTimeOfDay(data).Ok?
    ensures EncodeTimeOfDay(DecodeTimeOfDay(data).value) == Ok(data)
  {
    hide Fixed, ToNat, EncodeTimeOfDay;
    Pow256Values();
    ToNatBound(data[..4]);
    FixedToNat(data[..4]);
    if |data| == 4 {
      assert data[..4] == data;
      UndatedEncodes(ToNat(data));
    } else {
      ToNatBound(data[4..6]);
      FixedToNat(data[4..6]);
      DatedEncodes(ToNat(data[4..6]), ToNat(data[..4]));
      assert data == data[..4] + data[4..6];
    }
  }

  lemma UndatedEncodes(ms: nat)
    requires ms < MS_PER_DAY
    ensures EncodeTimeOfDay(ms) == Ok(Fixed(ms, 4))
  {
    hide Fixed;
  }

  lemma DatedEncodes(days: nat, ms: nat)
    requires ms < MS_PER_DAY && days < 0x1_0000
    ensures EncodeTimeOfDay(EPOCH_1984_MS + days * MS_PER_DAY + ms) == Ok(Fixed(ms, 4) + Fixed(days, 2))
  {
    hide Fixed, EncodeTimeOfDay;
    var time := EPOCH_1984_MS + days * MS_PER_DAY + ms;
    DayAndRemainder(days, ms, time);
    DaySplit(time);
  }

  lemma DayAndRemainder(days: nat, ms: nat, time: int)
    requires ms < MS_PER_DAY && days < 0x1_0000 && time == EPOCH_1984_MS + days * MS_PER_DAY + ms
    ensures (time - EPOCH_1984_MS) / MS_PER_DAY == days && time % MS_PER_DAY == ms
    ensures MS_PER_DAY <= EPOCH_1984_MS <= time <= BINARY_TIME_MAX_MS
  {
    assert EPOCH_1984_MS == 5113 * MS_PER_DAY;
    assert time == (5113 + days) * MS_PER_DAY + ms;
  }
}
