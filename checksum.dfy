/** The Internet checksum of RFC 1071, as the IPv4 header checksum of
    section 3.1 of RFC 791 uses it: the header is read as a sequence of
    big-endian 16-bit words, the words are added in ones'-complement
    arithmetic, and the checksum is the complement of that sum. */
module Checksum {
  import opened Bytes

  /** The i-th big-endian 16-bit word of a header. */
  function Word(h: seq<u8>, i: nat): (w: u16)
    requires 2 * i + 2 <= |h|
    ensures w / 0x100 == h[2 * i] as u16 && w % 0x100 == h[2 * i + 1] as u16
  {
    ReadBE16(h, 2 * i)
  }

  /** The plain sum of the first n words; each word is at most 0xFFFF. */
  function WordsSum(h: seq<u8>, n: nat): (s: nat)
    requires 2 * n <= |h|
    ensures s <= n * 0xFFFF
  {
    if n == 0 then 0 else WordsSum(h, n - 1) + Word(h, n - 1) as nat
  }

  /** The accumulated sum of a header: every whole word and, when the length
      is odd, the last byte as the high byte of a word padded with zero.
      For a header of at most 60 bytes it fits in 32 bits. */
  function HeaderWordSum(h: seq<u8>): (s: nat)
    ensures |h| <= 60 ==> s < 0x1_0000_0000
  {
    WordsSum(h, |h| / 2) + (if |h| % 2 == 1 then h[|h| - 1] as nat * 0x100 else 0)
  }

  /** Folding the carries: the bits above the low 16 are added back into
      the low 16 until none remain (the end-around carry). The result is a
      16-bit value congruent to the input modulo 0xFFFF, and zero only for
      a zero input. */
  function Fold(s: nat): (r: nat)
    ensures r <= 0xFFFF
    ensures r % 0xFFFF == s % 0xFFFF
    ensures r == 0 <==> s == 0
    decreases s
  {
    if s / 0x1_0000 == 0 then s
    else
      FoldStep(s);
      Fold(s % 0x1_0000 + s / 0x1_0000)
  }

  /** One folding step shrinks a sum of more than 16 bits and keeps its
      residue modulo 0xFFFF, because 0x1_0000 is 1 modulo 0xFFFF. */
  lemma FoldStep(s: nat)
    requires s >= 0x1_0000
    ensures s % 0x1_0000 + s / 0x1_0000 < s
    ensures (s % 0x1_0000 + s / 0x1_0000) % 0xFFFF == s % 0xFFFF
  {
    var q, m := s / 0x1_0000, s % 0x1_0000;
    var t := m + q;
    assert s == q * 0x1_0000 + m;
    assert s == (t / 0xFFFF + q) * 0xFFFF + t % 0xFFFF;
  }

  /** The ones'-complement sum is therefore the residue modulo 0xFFFF,
      written 0xFFFF ("negative zero") when a nonzero sum is a multiple. */
  lemma FoldIsResidue(s: nat)
    ensures Fold(s) == if s == 0 then 0 else if s % 0xFFFF == 0 then 0xFFFF else s % 0xFFFF
  {
  }

  /** The checksum a header carries: the complement of its folded sum. */
  function InternetChecksum(h: seq<u8>): (c: u16)
    ensures c as int == (0xFFFF_FFFF - Fold(HeaderWordSum(h))) % 0x1_0000
    ensures c == 0 <==> Fold(HeaderWordSum(h)) == 0xFFFF
  {
    (0xFFFF - Fold(HeaderWordSum(h))) as u16
  }

  /** A receiver accepts a header whose folded sum, checksum field included,
      is all ones. */
  predicate ChecksumValid(h: seq<u8>)
  {
    Fold(HeaderWordSum(h)) == 0xFFFF
  }

  /** Validity stated without folding: the sum is nonzero and a multiple of
      0xFFFF. */
  lemma ChecksumValidIff(h: seq<u8>)
    ensures ChecksumValid(h) <==> HeaderWordSum(h) > 0 && HeaderWordSum(h) % 0xFFFF == 0
  {
    FoldIsResidue(HeaderWordSum(h));
  }

  /** Adding the complement of the folded sum gives a sum whose fold is
      0xFFFF. */
  lemma FoldWithComplement(s: nat)
    ensures Fold(s + (0xFFFF - Fold(s))) == 0xFFFF
  {
    var f := Fold(s);
    var t := s + (0xFFFF - f);
    var k := s / 0xFFFF - f / 0xFFFF + 1;
    assert t == k * 0xFFFF by {
      assert s == s / 0xFFFF * 0xFFFF + s % 0xFFFF;
      assert f == f / 0xFFFF * 0xFFFF + f % 0xFFFF;
    }
    assert t > 0;
    assert t % 0xFFFF == 0;
    FoldIsResidue(t);
  }

  /** Changing only the two bytes of word k changes the sum of the first n
      words by the change in that word, when k is among them. */
  lemma {:induction false} WordsSumChange(h: seq<u8>, g: seq<u8>, k: nat, n: nat)
    requires |g| == |h| && 2 * n <= |h| && 2 * k + 2 <= |h|
    requires forall i :: 0 <= i < |h| && i != 2 * k && i != 2 * k + 1 ==> g[i] == h[i]
    ensures WordsSum(g, n) == WordsSum(h, n) + (if k < n then Word(g, k) as int - Word(h, k) as int else 0)
  {
    if n > 0 {
      WordsSumChange(h, g, k, n - 1);
      if n - 1 != k {
        assert g[2 * (n - 1)] == h[2 * (n - 1)] && g[2 * (n - 1) + 1] == h[2 * (n - 1) + 1];
      }
    }
  }

  /** Storing the checksum of a header whose checksum field (bytes 10-11)
      is zero makes the header valid. */
  lemma InsertChecksum(h: seq<u8>)
    requires 12 <= |h| && ReadBE16(h, 10) == 0
    ensures ChecksumValid(WriteBE16(h, 10, InternetChecksum(h)))
  {
    var c := InternetChecksum(h);
    var g := WriteBE16(h, 10, c);
    WordsSumChange(h, g, 5, |h| / 2);
    assert Word(g, 5) == c && Word(h, 5) == 0;
    assert HeaderWordSum(g) == HeaderWordSum(h) + c as int;
    FoldWithComplement(HeaderWordSum(h));
  }
}
