/**
 * One serial read as the main loop handles it: every byte read goes
 * through the synchroniser, and every frame it emits is decoded. The
 * database row insert that follows in the source is replaced by returning
 * the decoded records.
 */
module Pipeline {
  import opened Wire
  import opened FieldDecoder
  import opened SyncSpec
  import opened FrameSync

  /** The records for a sequence of frames, all stamped with `now`. */
  function DecodeAll(frames: seq<seq<Byte>>, now: Timestamp): (records: seq<Record>)
    requires forall i :: 0 <= i < |frames| ==> |frames[i]| == FrameLen
    ensures |records| == |frames|
    ensures forall i :: 0 <= i < |frames| ==> records[i] == Decode(frames[i], now)
  {
    if frames == [] then [] else [Decode(frames[0], now)] + DecodeAll(frames[1..], now)
  }

  /** Feeds the bytes of one read and decodes the frames they complete. */
  method ProcessRead(sync: Synchronizer, bytes: seq<Byte>, now: Timestamp) returns (records: seq<Record>)
    requires sync.Valid()
    modifies sync, sync.buf
    ensures sync.Valid()
    ensures var r := Run(old(sync.State()), bytes);
      sync.State() == r.state && records == DecodeAll(r.frames, now)
  {
    var frames := sync.FeedChunk(bytes);
    records := DecodeAll(frames, now);
  }

  /**
   * End to end: the frame that carries reading `m`, split over two reads
   * at any point, yields exactly one record, holding `m`, and leaves the
   * synchroniser waiting for the next header.
   */
  lemma SplitFrameDecodes(s: SyncState, m: Reading, k: nat, now: Timestamp)
    requires Inv(s) && s.cur == 0 && Encodable(m) && k <= FrameLen
    ensures var f := Encode(m);
      var first := Run(s, f[..k]);
      var second := Run(first.state, f[k..]);
      second.state.cur == 0 &&
      DecodeAll(first.frames + second.frames, now) ==
        [Record(now, m.pm25, m.tvoc, m.hcho, m.co2,
                m.temperatureTenths as real / 10.0, m.humidityTenths as real / 10.0)]
  {
    var f := Encode(m);
    SplitFrameExtraction(s, f, k);
    var g := f[..FrameLen - 1] + [0];
    DecodeIgnoresLastByte(f, 0, now);
    DecodeEncode(m, now);
    assert DecodeAll([g], now) == [Decode(g, now)];
  }
}
