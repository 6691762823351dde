/** The evil-bit editor (RFC 3514): a post-routing packet-filter callback
    that sets the reserved flag bit of every outgoing IPv4 header (the
    first bit of the flags field of section 3.1 of RFC 791) and rewrites
    the header checksum so the header stays valid.

    The packet is an array of bytes starting at the IPv4 header. Byte 0
    holds the version (high nibble) and the header length in 32-bit words
    (IHL, low nibble); bytes 6-7 hold the flags and fragment offset,
    big-endian, with the reserved bit as bit 15; bytes 10-11 hold the
    header checksum, big-endian. */
module EvilBit {
  import opened Bytes
  import opened Checksum

  /** The reserved flag as a bit of the host-order flags/fragment-offset word. */
  const EVIL_BIT: u16 := 0x8000

  /** The shortest IPv4 header. */
  const MIN_HEADER_LEN: nat := 20

  /** What the packet-filter framework is told to do with the packet. */
  datatype Disposition = Accept | Drop

  /** The editor's result: success or a kernel error number. */
  datatype EditResult = Ok | Err(errno: int)

  /** `byte0 >> 4`. */
  function Version(b0: u8): (v: u8)
    ensures v < 0x10
    ensures b0 as int == v as int * 0x10 + (b0 % 0x10) as int
  {
    b0 / 0x10
  }

  /** `(byte0 & 0x0F) * 4`: the header length the IHL announces. It is a
      multiple of four, so never odd, and at most 60. */
  function HeaderLen(b0: u8): (n: nat)
    ensures n % 4 == 0 && n <= 60
  {
    (b0 % 0x10) as nat * 4
  }

  /** A packet the editor acts on: long enough for an IPv4 header and of
      version 4. */
  predicate IsCandidate(p: seq<u8>)
  {
    |p| >= MIN_HEADER_LEN && Version(p[0]) == 4
  }

  /** The bytes the IHL of a candidate announces are all in the buffer
      whenever the editor goes on to recompute the checksum (the reserved bit
      is clear). The editor reads them without checking; when the bit is
      already set it reads only bytes 0 and 6-7. */
  predicate HeaderFits(p: seq<u8>)
  {
    IsCandidate(p) && ReadBE16(p, 6) < 0x8000 ==> HeaderLen(p[0]) <= |p|
  }

  /** OR-ing in the evil bit sets bit 15 and keeps the other fifteen bits;
      it changes the word exactly when bit 15 was clear. */
  lemma EvilBitOr(w: u16)
    ensures Or16(w, EVIL_BIT) as int == if w < 0x8000 then w as int + 0x8000 else w as int
    ensures Or16(w, EVIL_BIT) >= 0x8000 && Or16(w, EVIL_BIT) % 0x8000 == w % 0x8000
    ensures Or16(w, EVIL_BIT) == w <==> w >= 0x8000
  {
    var r := Or16(w, EVIL_BIT);
    assert r as int == if w < 0x8000 then w as int + 0x8000 else w as int by {
      assert r as int == BitOr(w as nat, 0x8000);
      BitOrBit15(w as nat);
    }
    assert r % 0x8000 == w % 0x8000 by {
      if w < 0x8000 {
        assert r as int == 1 * 0x8000 + w as int;
      }
    }
  }

  /** The packet after the checksum is recomputed: bytes 10-11 are zeroed,
      the first HeaderLen bytes are summed, and the complement of the folded
      sum is stored in bytes 10-11. No other byte changes. */
  function Recalculated(p: seq<u8>): (q: seq<u8>)
    requires |p| >= 12 && HeaderLen(p[0]) <= |p|
    ensures |q| == |p|
    ensures forall i :: 0 <= i < |p| && i != 10 && i != 11 ==> q[i] == p[i]
  {
    var z := WriteBE16(p, 10, 0);
    WriteBE16(z, 10, InternetChecksum(z[..HeaderLen(p[0])]))
  }

  /** When the header covers the checksum field, recomputing the checksum
      makes the header valid. */
  lemma RecalculatedValid(p: seq<u8>)
    requires |p| >= 12 && 12 <= HeaderLen(p[0]) <= |p|
    ensures ChecksumValid(Recalculated(p)[..HeaderLen(p[0])])
  {
    var n := HeaderLen(p[0]);
    var z := WriteBE16(p, 10, 0);
    assert Recalculated(p)[..n] == WriteBE16(z[..n], 10, InternetChecksum(z[..n]));
    InsertChecksum(z[..n]);
  }

  /** When the IHL is below 3 the header is shorter than 12 bytes: the
      checksum is still written at bytes 10-11, outside the header, as the
      complement of the folded sum of header bytes that it does not touch. */
  lemma RecalculatedShortHeader(p: seq<u8>)
    requires |p| >= 12 && HeaderLen(p[0]) < 12
    ensures Recalculated(p)[..HeaderLen(p[0])] == p[..HeaderLen(p[0])]
    ensures ReadBE16(Recalculated(p), 10) == InternetChecksum(p[..HeaderLen(p[0])])
  {
    var n := HeaderLen(p[0]);
    assert WriteBE16(p, 10, 0)[..n] == p[..n];
  }

  /** The whole edit as a function of the packet bytes. A packet that is too
      short or not version 4 is left alone; otherwise the evil bit is OR-ed
      into the flags word, and only when that changes the word is it written
      back and the checksum recomputed. At most bytes 6-7 and 10-11 change. */
  function Edited(p: seq<u8>): (q: seq<u8>)
    requires HeaderFits(p)
    ensures |q| == |p|
    ensures !IsCandidate(p) ==> q == p
    ensures IsCandidate(p) ==> ReadBE16(q, 6) == Or16(ReadBE16(p, 6), EVIL_BIT)
    ensures IsCandidate(p) && ReadBE16(p, 6) >= 0x8000 ==> q == p
    ensures forall i :: 0 <= i < |p| && i != 6 && i != 7 && i != 10 && i != 11 ==> q[i] == p[i]
  {
    if !IsCandidate(p) then p
    else
      var oldFlags := ReadBE16(p, 6);
      var newFlags := Or16(oldFlags, EVIL_BIT);
      EvilBitOr(oldFlags);
      if oldFlags == newFlags then p
      else
        var r := WriteBE16(p, 6, newFlags);
        var q := Recalculated(r);
        assert q[6] == r[6] && q[7] == r[7];
        q
  }

  /** On a candidate packet, bit 15 of the flags word is set afterwards and
      the other fifteen bits (the don't-fragment and more-fragments flags and
      the fragment offset) keep their old values. */
  lemma EvilBitSet(p: seq<u8>)
    requires HeaderFits(p) && IsCandidate(p)
    ensures ReadBE16(Edited(p), 6) >= 0x8000
    ensures ReadBE16(Edited(p), 6) % 0x8000 == ReadBE16(p, 6) % 0x8000
  {
    EvilBitOr(ReadBE16(p, 6));
  }

  /** Editing an edited packet changes nothing, checksum included. */
  lemma EditIdempotent(p: seq<u8>)
    requires HeaderFits(p)
    ensures HeaderFits(Edited(p)) && Edited(Edited(p)) == Edited(p)
  {
    var q := Edited(p);
    if IsCandidate(p) {
      assert q[0] == p[0];
      EvilBitSet(p);
    }
  }

  /** When the edit changed the flags word of a candidate whose header covers
      the checksum field, the edited header carries a valid checksum. */
  lemma EditedChecksumValid(p: seq<u8>)
    requires HeaderFits(p) && IsCandidate(p) && ReadBE16(p, 6) < 0x8000
    requires 12 <= HeaderLen(p[0])
    ensures ChecksumValid(Edited(p)[..HeaderLen(p[0])])
  {
    var w := ReadBE16(p, 6);
    EvilBitOr(w);
    var r := WriteBE16(p, 6, Or16(w, EVIL_BIT));
    assert r[0] == p[0];
    assert Edited(p) == Recalculated(r);
    RecalculatedValid(r);
  }

  /** A header that was valid stays valid, whether or not the bit was
      already set. */
  lemma EditKeepsValid(p: seq<u8>)
    requires HeaderFits(p) && IsCandidate(p) && 12 <= HeaderLen(p[0]) <= |p|
    requires ChecksumValid(p[..HeaderLen(p[0])])
    ensures ChecksumValid(Edited(p)[..HeaderLen(p[0])])
  {
    if ReadBE16(p, 6) < 0x8000 {
      EditedChecksumValid(p);
    }
  }

  /** A 20-byte buffer whose IHL announces 60 bytes but whose reserved bit is
      already set is admitted and left unchanged: nothing past byte 7 is
      needed. */
  lemma ShortBufferBitAlreadySet()
    ensures HeaderFits([0x4F, 0x00, 0x00, 0x14, 0x00, 0x00, 0x80, 0x00, 0x40, 0x06,
                        0x00, 0x00, 0x01, 0x02, 0x03, 0x04, 0x05, 0x06, 0x07, 0x08])
    ensures Edited([0x4F, 0x00, 0x00, 0x14, 0x00, 0x00, 0x80, 0x00, 0x40, 0x06,
                    0x00, 0x00, 0x01, 0x02, 0x03, 0x04, 0x05, 0x06, 0x07, 0x08])
         == [0x4F, 0x00, 0x00, 0x14, 0x00, 0x00, 0x80, 0x00, 0x40, 0x06,
             0x00, 0x00, 0x01, 0x02, 0x03, 0x04, 0x05, 0x06, 0x07, 0x08]
  {
    var p: seq<u8> := [0x4F, 0x00, 0x00, 0x14, 0x00, 0x00, 0x80, 0x00, 0x40, 0x06,
                       0x00, 0x00, 0x01, 0x02, 0x03, 0x04, 0x05, 0x06, 0x07, 0x08];
    assert IsCandidate(p) && ReadBE16(p, 6) == 0x8000;
    assert HeaderLen(p[0]) == 60 > |p|;
  }

  /** The example header below with the evil bit set and the checksum field
      zeroed: its first five words sum to 0x12188. */
  lemma ExampleFirstWords()
    ensures WordsSum([0x45, 0x00, 0x00, 0x3C, 0x1C, 0x46, 0x80, 0x00, 0x40, 0x06,
                      0x00, 0x00, 0xAC, 0x10, 0x0A, 0x63, 0xAC, 0x10, 0x0A, 0x0C], 5) == 0x12188
  {
    var z: seq<u8> := [0x45, 0x00, 0x00, 0x3C, 0x1C, 0x46, 0x80, 0x00, 0x40, 0x06,
                       0x00, 0x00, 0xAC, 0x10, 0x0A, 0x63, 0xAC, 0x10, 0x0A, 0x0C];
    assert Word(z, 0) == 0x4500 && Word(z, 1) == 0x003C && Word(z, 2) == 0x1C46;
    assert Word(z, 3) == 0x8000 && Word(z, 4) == 0x4006;
    assert WordsSum(z, 2) == 0x453C;
    assert WordsSum(z, 4) == 0xE182;
  }

  /** All ten words sum to 0x28E17, which folds to 0x8E19. */
  lemma ExampleSum()
    ensures Fold(HeaderWordSum([0x45, 0x00, 0x00, 0x3C, 0x1C, 0x46, 0x80, 0x00, 0x40, 0x06,
                                0x00, 0x00, 0xAC, 0x10, 0x0A, 0x63, 0xAC, 0x10, 0x0A, 0x0C])) == 0x8E19
  {
    var z: seq<u8> := [0x45, 0x00, 0x00, 0x3C, 0x1C, 0x46, 0x80, 0x00, 0x40, 0x06,
                       0x00, 0x00, 0xAC, 0x10, 0x0A, 0x63, 0xAC, 0x10, 0x0A, 0x0C];
    ExampleFirstWords();
    assert Word(z, 5) == 0x0000 && Word(z, 6) == 0xAC10 && Word(z, 7) == 0x0A63;
    assert Word(z, 8) == 0xAC10 && Word(z, 9) == 0x0A0C;
    assert WordsSum(z, 7) == 0x1CD98;
    assert WordsSum(z, 10) == 0x28E17;
    assert |z| == 20 && HeaderWordSum(z) == 0x28E17;
    assert 0x28E17 % 0x1_0000 + 0x28E17 / 0x1_0000 == 0x8E19;
    assert Fold(0x28E17) == Fold(0x8E19) == 0x8E19;
  }

  /** The first step on the example header: its flags word is 0, so the
      edit writes 0x8000 there and recomputes the checksum. */
  lemma ExampleFlags()
    ensures Edited([0x45, 0x00, 0x00, 0x3C, 0x1C, 0x46, 0x00, 0x00, 0x40, 0x06,
                    0xB1, 0xE6, 0xAC, 0x10, 0x0A, 0x63, 0xAC, 0x10, 0x0A, 0x0C])
         == Recalculated([0x45, 0x00, 0x00, 0x3C, 0x1C, 0x46, 0x80, 0x00, 0x40, 0x06,
                          0xB1, 0xE6, 0xAC, 0x10, 0x0A, 0x63, 0xAC, 0x10, 0x0A, 0x0C])
  {
    var p: seq<u8> := [0x45, 0x00, 0x00, 0x3C, 0x1C, 0x46, 0x00, 0x00, 0x40, 0x06,
                       0xB1, 0xE6, 0xAC, 0x10, 0x0A, 0x63, 0xAC, 0x10, 0x0A, 0x0C];
    var r: seq<u8> := [0x45, 0x00, 0x00, 0x3C, 0x1C, 0x46, 0x80, 0x00, 0x40, 0x06,
                       0xB1, 0xE6, 0xAC, 0x10, 0x0A, 0x63, 0xAC, 0x10, 0x0A, 0x0C];
    assert ReadBE16(p, 6) == 0 && IsCandidate(p);
    EvilBitOr(0);
    assert WriteBE16(p, 6, 0x8000) == r;
  }

  /** The second step: the checksum of the example header with the evil bit
      set is 0x71E6. */
  lemma ExampleChecksum()
    ensures ReadBE16(Recalculated([0x45, 0x00, 0x00, 0x3C, 0x1C, 0x46, 0x80, 0x00, 0x40, 0x06,
                                   0xB1, 0xE6, 0xAC, 0x10, 0x0A, 0x63, 0xAC, 0x10, 0x0A, 0x0C]), 10)
         == 0x71E6
  {
    var r: seq<u8> := [0x45, 0x00, 0x00, 0x3C, 0x1C, 0x46, 0x80, 0x00, 0x40, 0x06,
                       0xB1, 0xE6, 0xAC, 0x10, 0x0A, 0x63, 0xAC, 0x10, 0x0A, 0x0C];
    var z: seq<u8> := [0x45, 0x00, 0x00, 0x3C, 0x1C, 0x46, 0x80, 0x00, 0x40, 0x06,
                       0x00, 0x00, 0xAC, 0x10, 0x0A, 0x63, 0xAC, 0x10, 0x0A, 0x0C];
    assert WriteBE16(r, 10, 0) == z;
    assert HeaderLen(r[0]) == 20 && z[..20] == z;
    ExampleSum();
    assert InternetChecksum(z) == 0x71E6;
  }

  /** A 20-byte header with all flags clear: the edit stores 0x8000 in the
      flags word and the checksum 0x71E6; by the frame of Edited every other
      byte is kept. */
  lemma EditExample()
    ensures ReadBE16(Edited([0x45, 0x00, 0x00, 0x3C, 0x1C, 0x46, 0x00, 0x00, 0x40, 0x06,
                             0xB1, 0xE6, 0xAC, 0x10, 0x0A, 0x63, 0xAC, 0x10, 0x0A, 0x0C]), 6)
         == 0x8000
    ensures ReadBE16(Edited([0x45, 0x00, 0x00, 0x3C, 0x1C, 0x46, 0x00, 0x00, 0x40, 0x06,
                             0xB1, 0xE6, 0xAC, 0x10, 0x0A, 0x63, 0xAC, 0x10, 0x0A, 0x0C]), 10)
         == 0x71E6
  {
    var p: seq<u8> := [0x45, 0x00, 0x00, 0x3C, 0x1C, 0x46, 0x00, 0x00, 0x40, 0x06,
                       0xB1, 0xE6, 0xAC, 0x10, 0x0A, 0x63, 0xAC, 0x10, 0x0A, 0x0C];
    var r: seq<u8> := [0x45, 0x00, 0x00, 0x3C, 0x1C, 0x46, 0x80, 0x00, 0x40, 0x06,
                       0xB1, 0xE6, 0xAC, 0x10, 0x0A, 0x63, 0xAC, 0x10, 0x0A, 0x0C];
    assert ReadBE16(Edited(p), 6) == 0x8000 by {
      assert ReadBE16(p, 6) == 0 && IsCandidate(p);
      EvilBitOr(0);
    }
    assert ReadBE16(Edited(p), 10) == 0x71E6 by {
      ExampleFlags();
      ExampleChecksum();
    }
  }

  /** Writes `w.to_be()` at `off` in place. */
  method StoreBE16(a: array<u8>, off: nat, w: u16)
    requires off + 2 <= a.Length
    modifies a
    ensures a[..] == WriteBE16(old(a[..]), off, w)
  {
    a[off] := (w / 0x100) as int as u8;
    a[off + 1] := (w % 0x100) as int as u8;
  }

  /** The summing and folding of the checksum routine over the first `len`
      bytes: whole words are added into a 32-bit accumulator, an odd last
      byte is added as the high byte of a padded word, and carries are
      folded until the sum fits in 16 bits. No addition overflows 32 bits. */
  method HeaderSum(a: array<u8>, len: nat) returns (sum: u32)
    requires len <= a.Length && len <= 60
    ensures sum as int == Fold(HeaderWordSum(a[..len]))
  {
    ghost var h := a[..len];
    sum := 0;
    for i := 0 to len / 2
      invariant sum as int == WordsSum(h, i)
    {
      var word := (a[2 * i] as int * 0x100 + a[2 * i + 1] as int) as u16;
      assert word == Word(h, i) by {
        assert h[2 * i] == a[2 * i] && h[2 * i + 1] == a[2 * i + 1];
      }
      assert sum as int + word as int == WordsSum(h, i + 1) <= 30 * 0xFFFF;
      sum := sum + word as int as u32;
    }
    assert sum as int == WordsSum(h, len / 2);
    if len % 2 != 0 {
      var lastByte := a[len - 1] as int as u32;
      sum := sum + lastByte * 0x100;
    }
    assert sum as int == HeaderWordSum(h);
    ghost var total := sum as nat;
    while sum / 0x1_0000 != 0
      invariant Fold(sum as nat) == Fold(total)
      decreases sum
    {
      FoldStep(sum as nat);
      sum := sum % 0x1_0000 + sum / 0x1_0000;
    }
  }

  /** Recomputes the header checksum in place: zero bytes 10-11, sum and fold
      the first HeaderLen bytes, complement the 32-bit sum, keep its low 16
      bits, and store them big-endian at bytes 10-11. */
  method RecalculateIpChecksum(a: array<u8>)
    requires a.Length >= 12 && HeaderLen(a[0]) <= a.Length
    modifies a
    ensures a[..] == Recalculated(old(a[..]))
  {
    ghost var p := a[..];
    var ihl := a[0] % 0x10;
    var headerLen := ihl as nat * 4;
    StoreBE16(a, 10, 0);
    ghost var z := a[..];
    assert a[0] == p[0] && headerLen == HeaderLen(p[0]);
    // The header length is a multiple of four, so the odd-byte branch of
    // HeaderSum is never taken from here.
    assert headerLen % 2 == 0;
    var sum := HeaderSum(a, headerLen);
    var checksum := ((0xFFFF_FFFF - sum as int) % 0x1_0000) as u16;
    assert checksum == InternetChecksum(z[..headerLen]);
    StoreBE16(a, 10, checksum);
  }

  /** Sets the evil bit of the packet in place. Never fails: a short or
      non-IPv4 packet is a successful no-op. */
  method SetEvilBit(a: array<u8>) returns (r: EditResult)
    requires HeaderFits(a[..])
    modifies a
    ensures r == Ok
    ensures a[..] == Edited(old(a[..]))
  {
    if a.Length < MIN_HEADER_LEN {
      return Ok;
    }
    var version := a[0] / 0x10;
    if version != 4 {
      return Ok;
    }
    ghost var p := a[..];
    var oldFlags := ReadBE16(a[..], 6);
    var newFlags := Or16(oldFlags, EVIL_BIT);
    EvilBitOr(oldFlags);
    if oldFlags != newFlags {
      assert oldFlags < 0x8000 && HeaderLen(p[0]) <= a.Length;
      StoreBE16(a, 6, newFlags);
      assert a[0] == p[0];
      RecalculateIpChecksum(a);
    }
    return Ok;
  }

  /** The packet-filter callback: edit the packet and accept it, whatever
      the editor returned (fail-open). */
  method Filter(data: array<u8>) returns (d: Disposition)
    requires HeaderFits(data[..])
    modifies data
    ensures d == Accept
    ensures data[..] == Edited(old(data[..]))
  {
    var r := SetEvilBit(data);
    d := match r
      case Err(_) => Accept
      case Ok => Accept;
  }
}
