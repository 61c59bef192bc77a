/** The timestamp codec: FAT's packed 16-bit date (years since 1980 in bits
    9-15, month in bits 5-8, day in bits 0-4) and time (hour in bits 11-15,
    minute in bits 5-10, two-second units in bits 0-4). The fields never
    overlap, so the engine's shifts and ORs are written here as sums of
    multiples of powers of two. */
module TimestampCodec {
  import opened Common

  datatype Date = Date(day: nat, month: nat, year: nat)
  datatype Time = Time(hour: nat, minute: nat, second: nat)

  /** decode_date: every packed value has a day below 32, a month below 16
      and a year in [1980, 2108). */
  function DecodeDate(d: u16): (r: Date)
    ensures r.day < 32 && r.month < 16 && 1980 <= r.year < 2108
  {
    Date(d % 32, d / 32 % 16, d / 512 + 1980)
  }

  /** decode_time: every packed value has an hour below 32, a minute below
      64 and an even second below 64. */
  function DecodeTime(t: u16): (r: Time)
    ensures r.hour < 32 && r.minute < 64 && r.second < 64 && r.second % 2 == 0
  {
    Time(t / 2048, t / 32 % 64, t % 32 * 2)
  }

  /** encode_date; the uint16_t cast drops year bits beyond the seventh.
      The caller passes a year from 1980 on (a negative shift is undefined in
      C) and calendar day and month values that fit their bit fields. */
  function EncodeDate(day: nat, month: nat, year: nat): u16
    requires day < 32 && month < 16 && year >= 1980
  {
    ((year - 1980) * 512 + month * 32 + day) % 0x1_0000
  }

  /** encode_time: the second is stored in two-second units. */
  function EncodeTime(hour: nat, minute: nat, second: nat): u16
    requires hour < 32 && minute < 64 && second < 64
  {
    hour * 2048 + minute * 32 + second / 2
  }

  /** Every packed date survives a decode and re-encode. */
  lemma PackedDateRoundTrip(d: u16)
    ensures var x := DecodeDate(d); EncodeDate(x.day, x.month, x.year) == d
  {
    var x := DecodeDate(d);
    assert d == d / 512 * 512 + d / 32 % 16 * 32 + d % 32;
  }

  /** Every packed time survives a decode and re-encode. */
  lemma PackedTimeRoundTrip(t: u16)
    ensures var x := DecodeTime(t); EncodeTime(x.hour, x.minute, x.second) == t
  {
    assert t == t / 2048 * 2048 + t / 32 % 64 * 32 + t % 32;
  }

  /** Calendar fields that fit the format survive an encode and decode; a
      year from 2108 on comes back modulo the 128 representable years. */
  lemma DateFieldsRoundTrip(day: nat, month: nat, year: nat)
    requires day < 32 && month < 16 && year >= 1980
    ensures DecodeDate(EncodeDate(day, month, year)) == Date(day, month, 1980 + (year - 1980) % 128)
  {
    var q, y := (year - 1980) / 128, (year - 1980) % 128;
    var packed := y * 512 + month * 32 + day;
    assert EncodeDate(day, month, year) == packed by {
      assert (year - 1980) * 512 + month * 32 + day == q * 0x1_0000 + packed;
      WrapsAt16Bits(q, packed);
    }
    var a := y * 16 + month;
    assert packed == a * 32 + day;
    assert packed % 32 == day && packed / 32 == a;
    assert a % 16 == month;
    assert packed / 512 == y;
  }

  /** Adding whole multiples of 0x1_0000 is invisible in 16 bits. */
  lemma WrapsAt16Bits(q: nat, p: nat)
    requires p < 0x1_0000
    ensures (q * 0x1_0000 + p) % 0x1_0000 == p
  {
  }

  lemma TimeFieldsRoundTrip(hour: nat, minute: nat, second: nat)
    requires hour < 32 && minute < 64 && second < 64 && second % 2 == 0
    ensures DecodeTime(EncodeTime(hour, minute, second)) == Time(hour, minute, second)
  {
    var t := EncodeTime(hour, minute, second);
    assert t % 32 == second / 2 && t / 32 % 64 == minute && t / 2048 == hour;
  }
}
