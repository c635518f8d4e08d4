/** A track's download fed to the demuxer: decipher, strip the leading header, push, chunk by chunk. */
module VorbisTap {
  import opened Bits
  import opened BigEndian
  import opened Chunks
  import opened Ctr
  import opened OggPages
  import opened OggLacing
  import OggRefusal
  import opened OggDemuxer

  /** How many leading bytes of a file are not part of the Ogg stream. */
  const HEADER_END: nat := 0xa7

  const AUDIO_IV: Block := [0x72, 0xe0, 0x67, 0xfb, 0xdd, 0xcb, 0xcf, 0x77,
    0xeb, 0xe8, 0xbc, 0x64, 0x3f, 0x63, 0x0d, 0x93]

  /** Everything that one download attempt has come to. */
  datatype Progress = Progress(total: nat, headerLeft: nat, header: seq<u8>, stream: Stream, kept: seq<u8>)

  function Min(a: nat, b: nat): nat {
    if a < b then a else b
  }

  /** Where an attempt stands when data has been downloaded, with no regard to how it was cut. */
  function After(aes: BlockCipher, s: Stream, kept: seq<u8>, data: seq<u8>): (p: Progress) {
    var plain := EncryptAt(aes, AUDIO_IV, 0, data);
    var cut := Min(HEADER_END, |data|);
    var (t, rest) := Drain(s, kept + plain[cut..]);
    Progress(|data|, HEADER_END - cut, plain[..cut], t, rest)
  }

  /** What one more chunk adds. */
  function Advance(p: Progress, plain: seq<u8>): (q: Progress) {
    var drop := Min(p.headerLeft, |plain|);
    var (t, rest) := if drop < |plain| then Drain(p.stream, p.kept + plain[drop..]) else (p.stream, p.kept);
    Progress(p.total + |plain|, p.headerLeft - drop, p.header + plain[..drop], t, rest)
  }

  lemma Nothing(aes: BlockCipher, s: Stream, kept: seq<u8>)
    requires Next(kept).Wait?
    ensures After(aes, s, kept, []) == Progress(0, HEADER_END, [], s, kept)
  {
    hide Next, EncryptAt;
    assert kept + EncryptAt(aes, AUDIO_IV, 0, [])[0..] == kept;
  }

  /** A chunk deciphered at its own offset takes the attempt to where the longer download stands. */
  lemma ChunkAdvances(aes: BlockCipher, s: Stream, kept: seq<u8>, data: seq<u8>, chunk: seq<u8>)
    ensures Advance(After(aes, s, kept, data), EncryptAt(aes, AUDIO_IV, |data|, chunk)) ==
      After(aes, s, kept, data + chunk)
  {
    hide Drain, EncryptAt, Next;
    var before, more := EncryptAt(aes, AUDIO_IV, 0, data), EncryptAt(aes, AUDIO_IV, |data|, chunk);
    EncryptSplit(aes, AUDIO_IV, 0, data, chunk);
    var plain := before + more;
    assert plain == EncryptAt(aes, AUDIO_IV, 0, data + chunk);
    var cut, cut' := Min(HEADER_END, |data|), Min(HEADER_END, |data| + |chunk|);
    var drop := Min(HEADER_END - cut, |chunk|);
    assert plain[..cut'] == before[..cut] + more[..drop];
    DrainSplit(s, kept + before[cut..], more[drop..]);
    assert kept + plain[cut'..] == (kept + before[cut..]) + more[drop..];
    DrainStops(s, kept + before[cut..]);
    var (t, rest) := Drain(s, kept + before[cut..]);
    if drop == |chunk| {
      assert rest + more[drop..] == rest;
    }
  }

  class Tap {
    const aes: BlockCipher
    const demuxer: Demuxer
    var totalDownloaded: nat
    var headerLeft: nat
    /** The stripped bytes, kept for their volume data. */
    var spotifyHeader: seq<u8>

    ghost function Now(): (p: Progress)
      reads this, demuxer
    {
      Progress(totalDownloaded, headerLeft, spotifyHeader, demuxer.Now(), demuxer.buf)
    }

    constructor (aes: BlockCipher, demuxer: Demuxer)
      ensures this.aes == aes && this.demuxer == demuxer
      ensures totalDownloaded == 0 && headerLeft == HEADER_END && spotifyHeader == []
    {
      this.aes, this.demuxer := aes, demuxer;
      totalDownloaded, headerLeft, spotifyHeader := 0, HEADER_END, [];
    }

    /** The sink takes every packet, and none is held back. */
    ghost predicate Flowing()
      reads demuxer
    {
      demuxer.Valid() && OggRefusal.Accepting(demuxer.sink) && !demuxer.hasPending
    }

    /** The callback for one chunk; data is what came before it. */
    method OnChunk(chunk: seq<u8>, ghost s: Stream, ghost kept: seq<u8>, ghost data: seq<u8>) returns (goOn: bool)
      requires Flowing() && totalDownloaded + |chunk| < 0x1_0000_0000_0000_0000
      requires Now() == After(aes, s, kept, data)
      requires |spotifyHeader| + headerLeft == HEADER_END
      modifies this, demuxer
      ensures goOn && Flowing()
      ensures Now() == After(aes, s, kept, data + chunk)
      ensures |spotifyHeader| + headerLeft == HEADER_END
    {
      hide Drain, EncryptAt, After;
      ghost var before := Now();
      assert totalDownloaded == |data| by {
        AfterTotal(aes, s, kept, data);
      }
      var n := |chunk|;
      var tmp := new u8[n](i requires 0 <= i < n => chunk[i]);
      assert tmp[..] == chunk;
      Aes128CtrAt(aes, AUDIO_IV, totalDownloaded, tmp);
      ghost var plain := tmp[..];
      totalDownloaded := totalDownloaded + n;
      CaptureHeader(tmp[..]);
      var off := 0;
      if headerLeft > 0 {
        var drop := if headerLeft < n then headerLeft else n;
        off := drop;
        headerLeft := headerLeft - drop;
      }
      goOn := true;
      if off < n {
        goOn := demuxer.Push(tmp[off..]);
      }
      assert Now() == Advance(before, plain);
      ChunkAdvances(aes, s, kept, data, chunk);
    }

    /** Keeps the first bytes of the file, however many chunks they come in. */
    method CaptureHeader(bytes: seq<u8>)
      requires |spotifyHeader| <= HEADER_END
      modifies this`spotifyHeader
      ensures spotifyHeader == old(spotifyHeader) + bytes[..Min(HEADER_END - |old(spotifyHeader)|, |bytes|)]
    {
      if |spotifyHeader| >= HEADER_END || |bytes| == 0 {
        assert bytes[..0] == [];
        return;
      }
      var take := Min(|bytes|, HEADER_END - |spotifyHeader|);
      spotifyHeader := spotifyHeader + bytes[..take];
    }

    /** One attempt at one URL: any chunks leave what their concatenation does. */
    method Download(chunks: seq<seq<u8>>)
      requires Flowing() && Next(demuxer.buf).Wait?
      requires |Concat(chunks)| < 0x1_0000_0000_0000_0000
      modifies this, demuxer
      ensures Flowing()
      ensures Now() == After(aes, old(demuxer.Now()), old(demuxer.buf), Concat(chunks))
    {
      hide Drain, EncryptAt, After, Next;
      totalDownloaded := 0;
      headerLeft := HEADER_END;
      spotifyHeader := [];
      ghost var s, kept := demuxer.Now(), demuxer.buf;
      Nothing(aes, s, kept);
      for i := 0 to |chunks|
        invariant Flowing() && |spotifyHeader| + headerLeft == HEADER_END
        invariant Now() == After(aes, s, kept, Concat(chunks[..i]))
      {
        ghost var data := Concat(chunks[..i]);
        UpTo(chunks, i);
        AfterTotal(aes, s, kept, data);
        var _ := OnChunk(chunks[i], s, kept, data);
      }
      assert chunks[..|chunks|] == chunks;
    }
  }

  lemma AfterTotal(aes: BlockCipher, s: Stream, kept: seq<u8>, data: seq<u8>)
    ensures After(aes, s, kept, data).total == |data|
  {
    hide Drain, EncryptAt;
  }

  lemma UpTo<T>(parts: seq<seq<T>>, i: nat)
    requires i < |parts|
    ensures Concat(parts[..i + 1]) == Concat(parts[..i]) + parts[i]
    ensures |Concat(parts[..i])| + |parts[i]| <= |Concat(parts)|
  {
    ConcatSnoc(parts[..i], parts[i]);
    assert parts[..i] + [parts[i]] == parts[..i + 1];
    ConcatAppend(parts[..i + 1], parts[i + 1..]);
    assert parts[..i + 1] + parts[i + 1..] == parts;
  }

  lemma AudioIvNumber()
    ensures BeVal(AUDIO_IV) == 0x72e067fbddcbcf77ebe8bc643f630d93
  {
    hide BeVal;
    BeEmpty(AUDIO_IV);
    for i := 0 to 4
      invariant BeVal(AUDIO_IV[..4 * i]) == match i
        case 0 => 0
        case 1 => 0x72e067fb
        case 2 => 0x72e067fbddcbcf77
        case 3 => 0x72e067fbddcbcf77ebe8bc64
        case _ => 0x72e067fbddcbcf77ebe8bc643f630d93
    {
      BeTake(AUDIO_IV, 4 * i);
      BeTake(AUDIO_IV, 4 * i + 1);
      BeTake(AUDIO_IV, 4 * i + 2);
      BeTake(AUDIO_IV, 4 * i + 3);
    }
    assert AUDIO_IV[..16] == AUDIO_IV;
  }

  lemma BeEmpty(b: seq<u8>)
    ensures BeVal(b[..0]) == 0
  {
  }

  /** A file that is a header and paged packets, enciphered, is delivered from its download packet by packet. */
  lemma FileDelivered(aes: BlockCipher, iv: Block, header: seq<u8>, pages: seq<Page>, packets: seq<seq<u8>>,
                      file: seq<u8>)
    requires BeVal(iv) == 0x72e067fbddcbcf77ebe8bc643f630d93
    requires |header| == 167 && Carries(pages, packets) && |packets| >= 3
    requires file == Encrypt(aes, iv, header + StreamBytes(pages))
    ensures var p := After(aes, Fresh(), [], file);
      var announced := Announce(Fresh(), packets[0]);
      && p.headerLeft == 0 && p.header == header && p.kept == []
      && Announces(packets[0], announced.rate, announced.channels, announced.bitrate)
      && p.stream.out ==
         [Headers(packets[0] + packets[1] + packets[2], announced.rate, announced.channels, announced.bitrate)]
         + Audio(packets[3..], PacketTimes(packets, Stamps(Fresh(), pages))[3..])
  {
    hide Drain, EncryptAt, Encrypt, Announce, Announces, Stamps, PacketTimes, Audio, AllSegments, Gathered, StreamBytes,
      BeVal;
    AudioIvNumber();
    BeUnique(iv, AUDIO_IV);
    var plain := header + StreamBytes(pages);
    DecryptUndoes(aes, AUDIO_IV, plain, 0, |plain|);
    assert file[0..|plain|] == file && plain[0..|plain|] == plain;
    assert plain[..HEADER_END] == header && plain[HEADER_END..] == StreamBytes(pages);
    assert [] + StreamBytes(pages) == StreamBytes(pages);
    PacketsDelivered(pages, packets);
  }
}
