# evilbit in Dafny

A model of the evil-bit kernel module (RFC 3514). The module installs a
packet-filter callback at the IPv4 post-routing hook. For every outgoing
IPv4 packet, the callback sets the reserved flag bit (the first bit of the
flags field in section 3.1 of RFC 791). If that changed the header, it
recomputes the header checksum with the Internet checksum of RFC 1071. The
packet is always accepted.

The packet is an `array<u8>` that starts at the IPv4 header. Rust's `u8`,
`u16` and `u32` are integer newtypes, so any addition that would overflow
the 32-bit checksum accumulator is a verification error. Bitwise operations
are written as their arithmetic meaning on naturals: `>> 4` is `/ 0x10`,
`& 0x0F` is `% 0x10`, `& 0xFFFF` is `% 0x1_0000`, `<< 8` is `* 0x100`, and
`(!sum) as u16` is `(0xFFFF_FFFF - sum) % 0x1_0000`. The `|` operator is
`Bytes.BitOr`, a bit-by-bit definition. A lemma proves what OR-ing in
`EVIL_BIT` does.

- `bytes.dfy` (module `Bytes`): the integer widths, bitwise OR, and
  big-endian 16-bit reads and writes (`from_be`/`to_be` with unaligned
  pointer access).
- `checksum.dfy` (module `Checksum`): the RFC 1071 sum as functions over
  byte sequences, the carry fold, and the lemmas that make a header valid.
- `evilbit.dfy` (module `EvilBit`): the in-place methods `SetEvilBit`,
  `RecalculateIpChecksum` and `Filter`. Each is proved against a function of
  the old bytes (`Edited`, `Recalculated`), and lemmas prove the properties
  of those functions.

The checksum routine has a branch for a header of odd length
(evilbit.rs:105-108). The header length is `ihl * 4` (evilbit.rs:90), so
`recalculate_ip_checksum` never takes that branch. The model keeps the
branch in `EvilBit.HeaderSum`, which accepts any length. `EvilBit.HeaderLen`
proves that the length passed to it is a multiple of four.

## Model

| member | source | states |
|---|---|---|
| Bytes.BitOrPow2 | evilbit.rs:74 | OR-ing the single bit 2^k into a value below 2^(k+1) adds 2^k when that bit was clear and changes nothing when it was set |
| Bytes.BitOrBound | evilbit.rs:74 | OR of two values below 2^n is below 2^n, so `u16 \| u16` is a `u16` |
| Bytes.BitOrBit15 | evilbit.rs:22-74 | OR-ing 0x8000 into a 16-bit value adds 0x8000 when bit 15 was clear and leaves the value alone when it was set |
| Bytes.BitOr | evilbit.rs:74 | bitwise OR, defined bit by bit from the least significant end; the result is at least each operand |
| Bytes.Or16 | evilbit.rs:74 | `u16 \| u16`: the result is a `u16` that is at least each operand |
| Bytes.ReadBE16 | evilbit.rs:70-71 | `u16::from_be(read_unaligned(..))` at `off`: the word's high byte is the byte at `off` and its low byte is the byte at `off + 1` (network byte order) |
| Bytes.WriteBE16 | evilbit.rs:77 | writing `w.to_be()` at `off` puts exactly `w` there when read back big-endian, keeps the length, and changes no byte other than `off` and `off + 1` |
| Bytes.WriteReadBE16 | evilbit.rs:70-77 | writing back the word just read leaves the bytes unchanged |
| Checksum.Word | evilbit.rs:100 | the i-th word the loop reads: high byte at 2i, low byte at 2i + 1 |
| Checksum.WordsSum | evilbit.rs:99-102 | the sum of the first n big-endian words is at most n * 0xFFFF |
| Checksum.HeaderWordSum | evilbit.rs:96-108 | the accumulated sum (whole words plus an odd last byte as a high byte) of a header of at most 60 bytes fits in 32 bits, so `sum +=` never overflows `u32` |
| Checksum.Fold | evilbit.rs:110-112 | folding carries yields a value of at most 0xFFFF that is congruent to the input modulo 0xFFFF and is zero exactly when the input is zero |
| Checksum.FoldStep | evilbit.rs:110-111 | one step `(sum & 0xFFFF) + (sum >> 16)` on a sum above 16 bits makes it smaller and keeps its residue modulo 0xFFFF, so the fold loop terminates |
| Checksum.FoldIsResidue | evilbit.rs:110-112 | the folded sum is the ones'-complement sum: 0 for 0, otherwise the residue modulo 0xFFFF, with 0xFFFF in place of a zero residue |
| Checksum.InternetChecksum | evilbit.rs:114 | the checksum equals `(!sum) as u16` of the folded sum, the low 16 bits of its 32-bit complement, and is zero exactly when the folded sum is 0xFFFF |
| Checksum.ChecksumValidIff | evilbit.rs:114-117 | a header is valid (folded sum 0xFFFF) if and only if its plain sum is nonzero and a multiple of 0xFFFF |
| Checksum.FoldWithComplement | evilbit.rs:110-114 | adding the complement of the folded sum to the sum gives a sum that folds to 0xFFFF |
| Checksum.WordsSumChange | evilbit.rs:99-102 | changing only the two bytes of one word changes the sum by exactly the change in that word |
| Checksum.InsertChecksum | evilbit.rs:93-117 | storing the complement of the folded sum in a zeroed checksum field at bytes 10-11 makes the header's folded sum 0xFFFF |
| EvilBit.Version | evilbit.rs:61 | `byte0 >> 4` is below 16 and, with the low nibble, recomposes byte 0 |
| EvilBit.HeaderLen | evilbit.rs:89-90 | `(byte0 & 0x0F) * 4` is a multiple of four and at most 60, so the `header_len % 2 != 0` branch (evilbit.rs:105) is never taken |
| EvilBit.EvilBitOr | evilbit.rs:22-76 | `flags \| EVIL_BIT` has bit 15 set and the other fifteen bits unchanged, and it differs from `flags` exactly when bit 15 was clear |
| EvilBit.Recalculated | evilbit.rs:87-118 | recomputing the checksum keeps the length and changes no byte except 10-11 |
| EvilBit.RecalculatedValid | evilbit.rs:89-117 | when the IHL covers bytes 10-11 (header length at least 12), the recomputed header has a valid checksum |
| EvilBit.RecalculatedShortHeader | evilbit.rs:89-117 | when the IHL is below 3, the checksum field lies outside the summed header: those header bytes are unchanged, and bytes 10-11 receive the complement of their folded sum |
| EvilBit.Edited | evilbit.rs:45-84 | a buffer under 20 bytes or of version other than 4 is unchanged; otherwise the flags word becomes `old \| EVIL_BIT`; if the bit was already set nothing changes; no byte other than 6-7 and 10-11 ever changes |
| EvilBit.ShortBufferBitAlreadySet | evilbit.rs:49-80 | a 20-byte version-4 buffer whose IHL announces 60 bytes but whose reserved bit is set is admitted and left unchanged |
| EvilBit.EvilBitSet | evilbit.rs:70-77 | after editing a candidate packet, bit 15 of the big-endian word at offset 6 is 1 and its other bits equal their old values |
| EvilBit.EditIdempotent | evilbit.rs:74-80 | editing twice gives the same bytes as editing once, checksum included |
| EvilBit.EditedChecksumValid | evilbit.rs:76-80 | when the edit changed the flags word and the header covers bytes 10-11, the edited header's checksum is valid |
| EvilBit.EditKeepsValid | evilbit.rs:74-80 | a header with a valid checksum still has one after the edit, whether or not the bit was already set |
| EvilBit.EditExample | evilbit.rs:45-118 | the 20-byte header `45 00 00 3C 1C 46 00 00 40 06 B1 E6 AC 10 0A 63 AC 10 0A 0C` gets the flags word 0x8000 and the checksum 0x71E6, and by the frame of `Edited` every other byte is kept |
| EvilBit.StoreBE16 | evilbit.rs:77 | the in-place big-endian store leaves the array equal to `WriteBE16` of its old contents |
| EvilBit.HeaderSum | evilbit.rs:96-112 | the word loop, the odd-byte branch and the fold loop return the folded sum of the first `len` bytes, with no 32-bit overflow on the way |
| EvilBit.RecalculateIpChecksum | evilbit.rs:87-118 | the array afterwards is `Recalculated` of its old contents: bytes 10-11 zeroed, summed, complemented with `!` on 32 bits, truncated to 16 bits and stored big-endian |
| EvilBit.SetEvilBit | evilbit.rs:45-84 | always returns `Ok`, and the array afterwards is `Edited` of its old contents |
| EvilBit.Filter | evilbit.rs:33-41 | returns `Accept` on every path, whatever the editor returned, after editing the packet in place |

## Left out

- Module lifecycle is not modelled: `EvilBitModule::init`, netfilter registration at post-routing, and the `Drop` impl (evilbit.rs:120-147). They are kernel glue over APIs outside this model.
- `pr_info!` logging (evilbit.rs:122-145) is a side effect only.
- `SkBuff::head_data`, raw pointers and `read_unaligned`/`write_unaligned` (evilbit.rs:46, 57-58, 67-70) are not modelled. The packet is an `array<u8>` with explicit big-endian read and write helpers.
- Concurrent invocation on several cores is not modelled. Each call owns its buffer, so there is no shared state.
- EvilBit.SetEvilBit: requires `HeaderFits`: when a version-4 buffer of at least 20 bytes has the reserved bit clear, it must hold all `(byte0 & 0x0F) * 4` header bytes. The source checks only for 20 bytes (evilbit.rs:49). When the bit is clear, `recalculate_ip_checksum` then reads up to 60 bytes (evilbit.rs:99-102), relying on the kernel having built a complete header. A buffer whose reserved bit is already set is accepted whatever its IHL, because the source reads only bytes 0 and 6-7 of it (evilbit.rs:61-76). What the source does when the bit is clear and the header is cut short (an out-of-bounds read) is not modelled.
- EvilBit.Filter and EvilBit.RecalculateIpChecksum: carry the same precondition for the same reason. `RecalculateIpChecksum` also requires at least 12 bytes, which its only caller guarantees.
- `Disposition` lists only `Accept` and `Drop`. The framework's other dispositions are never produced.
