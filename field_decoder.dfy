/**
 * The field decoder (`process_bytes`): six physical quantities read from
 * fixed offsets of a 24-byte frame. The wall-clock time that the source
 * reads while decoding is a parameter here.
 */
module FieldDecoder {
  import opened Wire

  /** Local wall-clock time, supplied by the caller (not sent by the sensor). */
  type Timestamp = int

  /** One decoded measurement. */
  datatype Record = Record(
    localTime: Timestamp,
    pm25: U16,          // ug/m3
    tvoc: U16,          // ppb
    hcho: U16,          // ug/m3
    co2: U16,           // ppm
    temperature: real,  // degrees Celsius
    humidity: real)     // percent

  /** Largest value a count field can take: 0xff * 0xff + 0xff. */
  const MaxCount: nat := 65280

  /** Largest numerator of a tenths field: 0xff * 0x100 + 0xff. */
  const MaxTenths: nat := 65535

  /**
   * A count field: the high byte weighted by 0xff (not 0x100) plus the low
   * byte, computed in `u16`. The bound shows that the `u16` arithmetic
   * never overflows.
   */
  function Count(hi: Byte, lo: Byte): (v: U16)
    ensures v <= MaxCount
  {
    hi * 0xff + lo
  }

  /** The numerator of a tenths field: a big-endian 16-bit value. */
  function Tenths(hi: Byte, lo: Byte): (n: nat)
    ensures n <= MaxTenths
  {
    hi * 0x100 + lo
  }

  /** Decodes one frame; bytes 0-3, 8, 11 and 18-23 are not read. */
  function Decode(frame: seq<Byte>, now: Timestamp): (r: Record)
    requires |frame| == FrameLen
    ensures r.localTime == now
    ensures r.pm25 <= MaxCount && r.tvoc <= MaxCount && r.hcho <= MaxCount && r.co2 <= MaxCount
    ensures 0.0 <= r.temperature <= MaxTenths as real / 10.0
    ensures 0.0 <= r.humidity <= MaxTenths as real / 10.0
  {
    Record(
      now,
      Count(frame[4], frame[5]),
      Count(frame[6], frame[7]),
      Count(frame[9], frame[10]),
      Count(frame[12], frame[13]),
      Tenths(frame[14], frame[15]) as real / 10.0,
      Tenths(frame[16], frame[17]) as real / 10.0)
  }

  /** The frames agree on every byte the decoder reads. */
  predicate SameFields(f: seq<Byte>, g: seq<Byte>)
    requires |f| == FrameLen && |g| == FrameLen
  {
    f[4..8] == g[4..8] && f[9..11] == g[9..11] && f[12..18] == g[12..18]
  }

  /**
   * Only the field bytes matter, and the clock only sets the time stamp:
   * decoding the same frame twice gives the same readings.
   */
  lemma DecodeDependsOnlyOnFields(f: seq<Byte>, g: seq<Byte>, t: Timestamp, u: Timestamp)
    requires |f| == FrameLen && |g| == FrameLen && SameFields(f, g)
    ensures Decode(f, t) == Decode(g, u).(localTime := t)
  {
    assert f[4] == f[4..8][0] == g[4..8][0] == g[4];
    assert f[5] == f[4..8][1] == g[4..8][1] == g[5];
    assert f[6] == f[4..8][2] == g[4..8][2] == g[6];
    assert f[7] == f[4..8][3] == g[4..8][3] == g[7];
    assert f[9] == f[9..11][0] == g[9..11][0] == g[9];
    assert f[10] == f[9..11][1] == g[9..11][1] == g[10];
    forall i | 12 <= i < 18
      ensures f[i] == g[i]
    {
      assert f[i] == f[12..18][i - 12] == g[12..18][i - 12] == g[i];
    }
  }

  /** The last byte of a frame, which the synchroniser never stores, is not read. */
  lemma DecodeIgnoresLastByte(f: seq<Byte>, last: Byte, now: Timestamp)
    requires |f| == FrameLen
    ensures Decode(f[..FrameLen - 1] + [last], now) == Decode(f, now)
  {
    var g := f[..FrameLen - 1] + [last];
    assert g[4..8] == f[4..8] && g[9..11] == f[9..11] && g[12..18] == f[12..18];
    DecodeDependsOnlyOnFields(g, f, now, now);
  }

  /** A byte pair that a count field decodes to `v`. */
  function SplitCount(v: nat): (p: (Byte, Byte))
    requires v <= MaxCount
    ensures Count(p.0, p.1) == v
  {
    if v == MaxCount then (0xff, 0xff) else (v / 0xff, v % 0xff)
  }

  /** The values a count field can take are exactly 0..=65280. */
  lemma CountRange(v: nat)
    ensures (exists hi: Byte, lo: Byte :: Count(hi, lo) == v) <==> v <= MaxCount
  {
    if v <= MaxCount {
      var p := SplitCount(v);
      assert Count(p.0, p.1) == v;
    }
  }

  /**
   * The 0xff weight makes the count encoding ambiguous: two different byte
   * pairs decode to the same value.
   */
  lemma CountAmbiguous()
    ensures exists a: Byte, b: Byte, c: Byte, d: Byte :: (a, b) != (c, d) && Count(a, b) == Count(c, d)
  {
    assert Count(0, 0xff) == Count(1, 0);
  }

  /** A byte pair that a tenths field decodes to `n`. */
  function SplitTenths(n: nat): (p: (Byte, Byte))
    requires n <= MaxTenths
    ensures Tenths(p.0, p.1) == n
  {
    (n / 0x100, n % 0x100)
  }

  /** A tenths field, unlike a count field, determines its byte pair. */
  lemma TenthsInjective(a: Byte, b: Byte, c: Byte, d: Byte)
    ensures Tenths(a, b) == Tenths(c, d) <==> a == c && b == d
  {
  }

  /** The raw quantities a sensor reports, before scaling. */
  datatype Reading = Reading(
    pm25: nat, tvoc: nat, hcho: nat, co2: nat,
    temperatureTenths: nat, humidityTenths: nat)

  /** The reading fits the frame's field widths. */
  predicate Encodable(m: Reading)
  {
    m.pm25 <= MaxCount && m.tvoc <= MaxCount && m.hcho <= MaxCount && m.co2 <= MaxCount &&
    m.temperatureTenths <= MaxTenths && m.humidityTenths <= MaxTenths
  }

  /**
   * A frame that carries reading `m`, laid out as the decoder reads it;
   * the bytes the decoder ignores are zero.
   */
  function Encode(m: Reading): (frame: seq<Byte>)
    requires Encodable(m)
    ensures IsFrame(frame)
  {
    var pm, tv, hc, co := SplitCount(m.pm25), SplitCount(m.tvoc), SplitCount(m.hcho), SplitCount(m.co2);
    var te, hu := SplitTenths(m.temperatureTenths), SplitTenths(m.humidityTenths);
    [Head1, Head2, 0, 0, pm.0, pm.1, tv.0, tv.1, 0, hc.0, hc.1, 0,
     co.0, co.1, te.0, te.1, hu.0, hu.1, 0, 0, 0, 0, 0, 0]
  }

  /** Decoding an encoded reading gives that reading back, scaled. */
  lemma DecodeEncode(m: Reading, now: Timestamp)
    requires Encodable(m)
    ensures Decode(Encode(m), now) ==
      Record(now, m.pm25, m.tvoc, m.hcho, m.co2,
             m.temperatureTenths as real / 10.0, m.humidityTenths as real / 10.0)
  {
  }
}
