# Verified models of the hc and router core

This project models the parts of the repository where a wrong bit, a lost carry or an unlucky read boundary would do
damage, and proves what those parts promise: fixed-width big-number arithmetic, byte-stream protocols that must not depend
on how the stream is cut, and data structures that are updated in place.

| module | models | file |
|---|---|---|
| `Words` | machine words, byte order, bit operations | all |
| `Field25519`, `Curve25519` | arithmetic modulo 2^255 - 19 in five 51-bit limbs | `hc/core/hc/crypto/curve25519.c` |
| `X25519` | the Montgomery ladder of section 5 of RFC 7748 | `hc/core/hc/crypto/x25519.c` |
| `Ed25519Scalar`, `Ed25519Window` | arithmetic modulo the group order, and the recodings of a scalar | `hc/core/hc/crypto/ed25519.c` |
| `Poly1305` | the authenticator of section 2.5 of RFC 8439 | `hc/core/hc/crypto/poly1305.c` |
| `Sha256` | the hash of FIPS 180-4 | `hc/core/hc/crypto/sha256.c` |
| `Memory` | `memmove` and `memset` in one memory | `hc/core/hc/compilerRt/mem.c` |
| `SshPacket` | the SSH binary packet layer over a double-mapped ring | `hc/examples/ssh/client.c` |
| `Telnet` | the resumable telnet decoder and the encoder | `router/router/telnetServer.c` |
| `Tar` | the tar writer and the untar reader | `hc/tools/tar/common.c`, `hc/tools/untar/common.c` |
| `ModemQueue` | the packed queue of modem commands | `router/router/modemClient.c` |
| `DhcpTable` | the lease table | `router/router/dhcpServer.c` |
| `Base64` | the encoder that may share its buffer with its input | `hc/core/hc/base64.c` |

`dafny verify dfyconfig.toml` checks everything.

## Conventions

- A machine word is a subset type of `int` (`u8`, `u16`, `u32`, `u64`, `u128`). Every value stored in one has to be in range,
  so a bit that the C code would lose is a failed proof. Where the C code wraps on purpose, the reduction is written out.
  `TWO_64` and the like are the powers of two.
- `x & (2^k - 1)`, `x >> k`, `x << k` and an `|` of disjoint bits are mostly written with `%`, `/`, `*` and `+`.
  `Words.AndMask`, `Words.OrShifted` and `Words.SelectByMask` prove that this is what the bitwise operators do.
- Buffers and limb arrays that the C code writes in place are arrays; a struct whose fields change is a class. Contracts
  speak of `old` inputs wherever the C code allows output and input to be the same object.
- The streaming classes keep a ghost record of the whole blocks absorbed, so that `Message()` is everything passed to
  `Update` so far. The SSH client keeps the bytes as they arrived (`raw`) beside the ring in which packets are decrypted.
- A read returns any nonempty part of what is there: the functions named `cut` choose the sizes, and every result holds for
  every choice. A write to a terminal, a socket, a file or a device is an entry in a log. How much is taken before an error
  is a parameter (`numSent`, `accept`, `limit`, `room`, `capacity`, `budget`), and the results hold for every value. The
  clock is a parameter.
- `chacha20_block` is a function of a sequence number and a block counter for each key (`SshPacket.Cipher`).
- Functions that writer and reader, sender and receiver, or code and specification share are pinned by laws in plain numbers
  that do not mention them (`Tar.StoredLayout`, `SshPacket.WireBytes`, `Telnet.DecodeItems`, `Sha256.BigSigmaBits` and
  others).
- Constant-time comparison and selection have the meaning of the plain comparison and selection.

## Two places where the code is not what it is meant to be

**The final subtraction of Poly1305.** `hc/core/hc/crypto/poly1305.c:134` subtracts 2^43 from the third limb, while 2^130 is
2^42 there. The selection after it therefore always keeps the carried accumulator (`Poly1305.Mac.SelectReduced`). The
accumulator is congruent to the right number and below 2^130, so the tag is the RFC's exactly when it is below p = 2^130 - 5
(`Poly1305.Mac.Finish`, an if-and-only-if), and 5 less than it for the five values from p to 2^130 - 1, where the RFC's
accumulator is 0 to 4 (`Poly1305.FiveValues`). `Poly1305.WrongTag` reaches
one of them: r = 2, pad 0 and the message FE FF ... FF of 16 bytes leave p + 1. The SSH model uses the tag that the code
computes; sender and receiver agree on it.

**Names of 100 bytes in tar.** `hc/tools/tar/common.c:42` accepts a name that fills its field. Such a name has no terminator,
and the reader, which takes it for a C string, sees the mode field as part of it (`Tar.StringsSeen`). An archive comes back
as it was packed exactly when all names have at most 99 bytes (`Tar.RoundTrip`, an if-and-only-if).

## Model

| member | source | states |
|---|---|---|
| `Words.AndMask` | hc/core/hc/crypto/curve25519.c:11 | a mask of k ones keeps exactly the value modulo 2^k, for every k |
| `Words.OrDisjoint` | hc/core/hc/crypto/curve25519.c:20 | an or of a shifted value and a value below the shift is their sum |
| `Words.OrShifted` | hc/core/hc/crypto/curve25519.c:19-24 | the same in 64 bits, where the shift drops the high part; the limb stores use it |
| `Words.Select64` | hc/core/hc/crypto/curve25519.c:89-96 | the masked xor swap exchanges two words or leaves both, and nothing in between |
| `Words.AndBit` | hc/core/hc/crypto/sha256.c:19-20 | bit i of an and, for every i |
| `Words.OrBit` | hc/core/hc/crypto/poly1305.c:144-146 | bit i of an or |
| `Words.XorBit` | hc/core/hc/crypto/curve25519.c:89-96 | bit i of an exclusive or |
| `Field25519.FPowAdd` | hc/core/hc/crypto/curve25519.c:259-281 | exponents add under multiplication, which is what every link of the addition chain uses |
| `Field25519.FSquareNIsPower` | hc/core/hc/crypto/curve25519.c:216-256 | n squarings are the power 2^n, for every n |
| `Curve25519.ProductColumns` | hc/core/hc/crypto/curve25519.c:177-193 | the product of two numbers is its five columns with those above 2^255 folded back by 19, up to a multiple of p |
| `Curve25519.CarryChain` | hc/core/hc/crypto/curve25519.c:195-207 | no cast in the carry chain drops a bit, and the carried limbs denote the same residue |
| `Curve25519.Mul` | hc/core/hc/crypto/curve25519.c:164-214 | for all limbs below 2^54, with any aliasing: the result denotes a * b modulo p and has limbs below 2^51 (the second below 2^51 + 2^13) |
| `Curve25519.SquareN` | hc/core/hc/crypto/curve25519.c:216-256 | for every n from 1 on the result denotes a^(2^n) modulo p, in the same bounds |
| `Curve25519.MulScalar` | hc/core/hc/crypto/curve25519.c:150-162 | multiplication by a scalar below 2^56 modulo p, with four limbs below 2^51 and the first at most 152 times the scalar above that |
| `Curve25519.AddNoReduce` | hc/core/hc/crypto/curve25519.c:112-118 | limb sums that denote a + b, without overflow |
| `Curve25519.SubNoReduce` | hc/core/hc/crypto/curve25519.c:134-140 | adding 2p first, no limb goes below zero and the result denotes a - b |
| `Curve25519.SubNoReduceFourP` | hc/core/hc/crypto/curve25519.c:142-148 | the same with 4p, for a second operand one bit larger |
| `Curve25519.Add` | hc/core/hc/crypto/curve25519.c:98-110 | carried limbs that denote a + b modulo p |
| `Curve25519.Sub` | hc/core/hc/crypto/curve25519.c:120-132 | carried limbs that denote a - b modulo p, without underflow |
| `Curve25519.CSwap` | hc/core/hc/crypto/curve25519.c:89-96 | flag 1 exchanges the two elements, flag 0 leaves both |
| `Curve25519.Reduce` | hc/core/hc/crypto/curve25519.c:27-86 | any limbs below 2^63 become the one canonical number below p with the same residue |
| `Curve25519.LimbsUnique` | hc/core/hc/crypto/curve25519.c:27-86 | limbs below 2^51 that denote the same number are the same limbs |
| `Curve25519.Load` | hc/core/hc/crypto/curve25519.c:10-16 | the little-endian number modulo 2^255, in 51-bit limbs |
| `Curve25519.Store` | hc/core/hc/crypto/curve25519.c:19-24 | the little-endian bytes of the number that the limbs denote |
| `Curve25519.StoreThenLoad` | hc/core/hc/crypto/curve25519.c:10-24 | loading what was stored gives the same limbs |
| `Curve25519.LoadThenStore` | hc/core/hc/crypto/curve25519.c:10-24 | storing what was loaded clears bit 255 and changes nothing else |
| `Curve25519.Pow11PowTwo250` | hc/core/hc/crypto/curve25519.c:259-281 | the addition chain leaves z^11 and z^(2^250 - 1), also when the second output is the input |
| `Curve25519.Invert` | hc/core/hc/crypto/curve25519.c:284-289 | z^(p - 2), also in place |
| `Curve25519.PowTwo252m3` | hc/core/hc/crypto/curve25519.c:292-297 | z^((p - 5) / 8), also in place |
| `X25519.DiffAddSymmetric` | hc/core/hc/crypto/x25519.c:19-51 | differential addition does not depend on the order of its points, so one step after a swap serves both bit values |
| `X25519.DoubleFactors` | hc/core/hc/crypto/x25519.c:29-48 | the double of x : z is aa * bb : e * (aa + 121665 e) for the squares aa and bb of x + z and x - z and e = aa - bb |
| `X25519.Squares` | hc/core/hc/crypto/x25519.c:29-34 | aa and bb are (x + z)^2 and (x - z)^2 modulo p |
| `X25519.SquareDifference` | hc/core/hc/crypto/x25519.c:44 | their product is (x^2 - z^2)^2, the numerator of the doubling formula of v^2 = u^3 + 486662 u^2 + u |
| `X25519.FirstFactor` | hc/core/hc/crypto/x25519.c:43 | e is 4xz modulo p |
| `X25519.SecondFactor` | hc/core/hc/crypto/x25519.c:46-47 | aa + 121665 e is x^2 + 486662xz + z^2 modulo p, so that the two make the denominator |
| `X25519.MontgomeryAddX` | hc/core/hc/crypto/x25519.c:26-37 | the addition step gives x = 4(xx' - zz')^2 |
| `X25519.MontgomeryAddZ` | hc/core/hc/crypto/x25519.c:26-41 | and z = 4u(x'z - xz')^2 |
| `X25519.Step` | hc/core/hc/crypto/x25519.c:25-48 | one limb-level step doubles the first point and adds the second as in section 5 of RFC 7748, and leaves all four coordinates in multiplication bounds |
| `X25519.ScalarBit` | hc/core/hc/crypto/x25519.c:19 | the bit taken from the byte array is the bit of the little-endian scalar |
| `X25519.ScalarMultiply` | hc/core/hc/crypto/x25519.c:9-55 | for every 256-bit scalar and every u, the 256 swapping steps equal the ladder without swaps |
| `X25519.ClampRange` | hc/core/hc/crypto/x25519.c:64-67 | a clamped scalar is a multiple of 8 from 2^254 to below 2^255 |
| `X25519.ClampValue` | hc/core/hc/crypto/x25519.c:64-67 | the clamped scalar is 2^254 plus the secret modulo 2^254 less the secret modulo 8: every other bit survives |
| `X25519.Compute` | hc/core/hc/crypto/x25519.c:60-75 | for the scalar 2^254 + s mod 2^254 - s mod 8 of a secret s and the masked u, the output bytes are the canonical x * z^(p - 2) of the ladder, and the RFC's 255-round result for u = 0 and wherever Fermat's little theorem holds for 4u |
| `X25519.DoubleHomogeneous` | hc/core/hc/crypto/x25519.c:25-48 | doubling scaled projective coordinates scales the result by the fourth power |
| `X25519.DiffAddHomogeneousX` | hc/core/hc/crypto/x25519.c:25-48 | adding scaled projective coordinates scales x of the result by the square of both scales |
| `X25519.DiffAddHomogeneousZ` | hc/core/hc/crypto/x25519.c:25-48 | the same for z |
| `X25519.LeadingZeroRescales` | hc/core/hc/crypto/x25519.c:14-51 | a leading zero bit in the ladder only multiplies both points by powers of 4u |
| `X25519.OutputFactor` | hc/core/hc/crypto/x25519.c:14-51 | the code's 256 rounds and the RFC's 255 differ by a power of (4u)^(p - 1), for every u and every scalar below 2^255 |
| `X25519.OutputMatchesRfc` | hc/core/hc/crypto/x25519.c:60-75 | the two agree for u = 0, and for every other u whose 4u satisfies Fermat's little theorem |
| `Ed25519Scalar.Constants` | hc/core/hc/crypto/ed25519.c:10-24 | the limb constants are the group order m and floor(2^512 / m) |
| `Ed25519Scalar.Reduce` | hc/core/hc/crypto/ed25519.c:26-58 | subtracts m once if the number is at least m, through wrapping 64-bit borrows |
| `Ed25519Scalar.DroppedColumns` | hc/core/hc/crypto/ed25519.c:63-68 | the three columns of mu * q1 that are never computed stay below the bound the estimate tolerates |
| `Ed25519Scalar.EstimateQuotient` | hc/core/hc/crypto/ed25519.c:63-84 | the quotient estimate lies within the Barrett bounds although three columns are missing, and nothing overflows |
| `Ed25519Scalar.BarrettBound` | hc/core/hc/crypto/ed25519.c:60-123 | with such an estimate q3, the remainder x - q3 * m lies in [0, 3m), for every x below 2^512 |
| `Ed25519Scalar.LowProduct` | hc/core/hc/crypto/ed25519.c:86-99 | the limbs of m * q3 modulo 2^264 |
| `Ed25519Scalar.WrappedDifference` | hc/core/hc/crypto/ed25519.c:101-119 | the difference of the two numbers modulo 2^264 is the true remainder |
| `Ed25519Scalar.BarrettReduce` | hc/core/hc/crypto/ed25519.c:60-123 | the unique number below m congruent to x, for every x below 2^512 |
| `Ed25519Scalar.Add` | hc/core/hc/crypto/ed25519.c:125-141 | the sum modulo m of two reduced scalars; for larger operands the sum less m once |
| `Ed25519Scalar.WideProduct` | hc/core/hc/crypto/ed25519.c:144-176 | the product of two 256-bit numbers split into its part from 2^248 on and its part below 2^264 |
| `Ed25519Scalar.Mul` | hc/core/hc/crypto/ed25519.c:143-179 | x * y modulo m for all x and y below 2^256, with any aliasing |
| `Ed25519Scalar.Load` | hc/core/hc/crypto/ed25519.c:181-205 | 64 bytes are reduced modulo m, 32 bytes are taken as they are |
| `Ed25519Scalar.Store` | hc/core/hc/crypto/ed25519.c:207-212 | the little-endian bytes of the scalar |
| `Ed25519Window.DigitsConcat` | hc/core/hc/crypto/ed25519.c:214-278 | the value of a digit string is that of its low part plus the shifted value of its high part |
| `Ed25519Window.Expand` | hc/core/hc/crypto/ed25519.c:217-224 | plain digits of width 4 (or bits) whose sum is the scalar |
| `Ed25519Window.SignDigit` | hc/core/hc/crypto/ed25519.c:229-233 | a digit becomes signed and the carry takes the difference, keeping the value |
| `Ed25519Window.Window4` | hc/core/hc/crypto/ed25519.c:214-236 | the signed digits sum to the scalar, for every 256-bit scalar; digits lie in [-8, 8), and the last in [0, 8] below 2^255 |
| `Ed25519Window.Increment` | hc/core/hc/crypto/ed25519.c:267-273 | adds one to the bits from an index on; only a carry off the end would be lost |
| `Ed25519Window.BorrowRoom` | hc/core/hc/crypto/ed25519.c:264-274 | for a scalar up to 2^255, whenever a window borrows there is a zero bit left for the carry, so it never runs off the end |
| `Ed25519Window.Extend` | hc/core/hc/crypto/ed25519.c:258-275 | taking the next bit into the window, by adding or by borrowing, keeps the value, less 2^256 for a lost carry |
| `Ed25519Window.Slide` | hc/core/hc/crypto/ed25519.c:252-277 | one window becomes an odd digit of size at most m, the rest are still bits, and the value is kept, less 2^256 for a lost carry |
| `Ed25519Window.SlidingWindow` | hc/core/hc/crypto/ed25519.c:238-278 | for every 256-bit scalar each digit is zero, or odd and of size at most m, and the digits sum to the scalar less a multiple of 2^256 for carries off the end; for scalars up to 2^255 there are none |
| `Poly1305.PolyAccConcat` | hc/core/hc/crypto/poly1305.c:83-103 | absorbing whole blocks first and the rest later gives the same polynomial |
| `Poly1305.BlockStepCorrect` | hc/core/hc/crypto/poly1305.c:30-51 | one block on the limbs is (acc + block) * r modulo p, and the limbs stay in bounds |
| `Poly1305.StepsCorrect` | hc/core/hc/crypto/poly1305.c:17-59 | n blocks on the limbs are the polynomial of section 2.5 of RFC 8439 |
| `Poly1305.ClampKey` | hc/core/hc/crypto/poly1305.c:65-80 | the masked limbs of the key are the RFC's clamped r, and the pad words its second half |
| `Poly1305.Mac.Blocks` | hc/core/hc/crypto/poly1305.c:17-59 | the block loop, with every 64-bit and 128-bit intermediate in range |
| `Poly1305.Mac.Update` | hc/core/hc/crypto/poly1305.c:83-103 | the message grows by exactly the input, whatever was buffered |
| `Poly1305.FullCarryCorrect` | hc/core/hc/crypto/poly1305.c:114-129 | the final carries leave a number below 2^130 with the same residue |
| `Poly1305.Mac.SelectReduced` | hc/core/hc/crypto/poly1305.c:131-146 | the final selection always keeps the carried number |
| `Poly1305.Mac.AddPad` | hc/core/hc/crypto/poly1305.c:148-164 | the packed bytes are number plus pad modulo 2^128 |
| `Poly1305.TagCorrectness` | hc/core/hc/crypto/poly1305.c:131-164 | for a carried number below 2^130 the tag is right if and only if the number is below p |
| `Poly1305.FinalCorrect` | hc/core/hc/crypto/poly1305.c:105-129 | the carried number is below 2^130 and congruent to the RFC's polynomial, for every key and message |
| `Poly1305.FiveValues` | hc/core/hc/crypto/poly1305.c:131-164 | for the five values from p on, the RFC's accumulator is below 5 and the code's tag is the RFC's minus 5 modulo 2^128 |
| `Poly1305.Mac.Finish` | hc/core/hc/crypto/poly1305.c:105-165 | the tag is carried number plus pad modulo 2^128; it is the RFC's if and only if the carried number is below p, and otherwise 5 less |
| `Poly1305.Authenticate` | hc/core/hc/crypto/poly1305.c:62-165 | the same for every way of splitting the message into updates |
| `Poly1305.WrongTag` | hc/core/hc/crypto/poly1305.c:134 | a key and a message for which the code's tag is not the RFC's |
| `Sha256.CodeForms` | hc/core/hc/crypto/sha256.c:19-22 | the code's choice and majority are those of the standard |
| `Sha256.ChBit` | hc/core/hc/crypto/sha256.c:19-20 | choice takes bit i of y or z by bit i of x, majority the bit that two of three have, for every i |
| `Sha256.BigSigmaBits` | hc/core/hc/crypto/sha256.c:21-22 | bit i of the big sigmas is the parity of the bits i + 2, i + 13, i + 22 and i + 6, i + 11, i + 25, around the word |
| `Sha256.SmallSigmaBits` | hc/core/hc/crypto/sha256.c:16-17 | the same for the small sigmas, with zeros for the bits shifted in |
| `Sha256.WordAtIsBigEndian` | hc/core/hc/crypto/sha256.c:49 | a schedule word is the big-endian number of its four bytes |
| `Sha256.RoundConstantRoots` | hc/core/hc/crypto/sha256.c:24-41 | each round constant is the first 32 bits of the fractional part of the cube root of its prime |
| `Sha256.InitialRoots` | hc/core/hc/crypto/sha256.c:66-76 | each initial word is the first 32 bits of the fractional part of the square root of its prime |
| `Sha256.RoundForm` | hc/core/hc/crypto/sha256.c:52-54 | the code's order of additions gives the standard's eight working variables |
| `Sha256.OneRound` | hc/core/hc/crypto/sha256.c:51-58 | sliding down the 72-word array is one rotation of the working variables, and extends the schedule by one word |
| `Sha256.Block` | hc/core/hc/crypto/sha256.c:48-60 | one block is the compression function of section 6.2.2 of FIPS 180-4 |
| `Sha256.Blocks` | hc/core/hc/crypto/sha256.c:43-64 | the block loop compresses the blocks in order |
| `Sha256.CompressAllConcat` | hc/core/hc/crypto/sha256.c:79-102 | compressing a prefix of whole blocks first and the rest later gives the same state |
| `Sha256.Hasher.Update` | hc/core/hc/crypto/sha256.c:79-102 | the message grows by exactly the input, whatever was buffered |
| `Sha256.PaddedBlocks` | hc/core/hc/crypto/sha256.c:107-114 | the one or two last blocks are the padding of section 5.1.1 of FIPS 180-4 |
| `Sha256.PaddingBytes` | hc/core/hc/crypto/sha256.c:105-114 | a byte 0x80, zeros, and the length in bits in the last eight bytes, big-endian, with the fewest bytes that make whole blocks |
| `Sha256.WordsToBytesAt` | hc/core/hc/crypto/sha256.c:116 | word k of the state is the big-endian number of bytes 4k to 4k + 3 of the hash |
| `Sha256.NumBits` | hc/core/hc/crypto/sha256.c:105 | the wrapping block counter yields the length in bits modulo 2^64 |
| `Sha256.Hasher.Finish` | hc/core/hc/crypto/sha256.c:104-117 | the digest of everything that was passed to the updates |
| `Sha256.Hash` | hc/core/hc/crypto/sha256.c:66-117 | the digest for every way of splitting the message into updates |
| `Memory.SpliceWindows` | hc/core/hc/compilerRt/mem.c:48-67 | two overlapping windows that cover a string together write the string |
| `Memory.MoveUp` | hc/core/hc/compilerRt/mem.c:29-37 | chunks copied upwards are read before they are overwritten when the source is above |
| `Memory.MoveDown` | hc/core/hc/compilerRt/mem.c:40-45 | the same downwards when the source is below |
| `Memory.Memmove` | hc/core/hc/compilerRt/mem.c:24-69 | for every length and every overlap, the destination holds the old source and all other bytes are unchanged |
| `Memory.Memset` | hc/core/hc/compilerRt/mem.c:3-22 | every byte of the range is the given one, and all other bytes are unchanged |
| `SshPacket.PaddingSize` | hc/examples/ssh/client.c:11 | at least 4 and less than 68 bytes, which make the packet a multiple of 64 |
| `SshPacket.PacketBytes` | hc/examples/ssh/client.c:191-195 | the packet before sealing: a big-endian length of what follows it, the padding length, payload and padding |
| `SshPacket.WireBytes` | hc/examples/ssh/client.c:197-233 | every byte on the wire: length bytes under block 0 of their key, the others under the blocks from 1 on, and the tag under the first 32 bytes of block 0 |
| `SshPacket.FrontOfWire` | hc/examples/ssh/client.c:74-158 | a sealed packet at the front of any stream opens to its payload |
| `SshPacket.FrontOfPart` | hc/examples/ssh/client.c:83-108 | a proper part of a sealed packet is never taken for anything but incomplete |
| `SshPacket.FrontStable` | hc/examples/ssh/client.c:74-158 | bytes that arrive behind a complete packet do not change it |
| `SshPacket.FrontInNumbers` | hc/examples/ssh/client.c:87-108 | what the first four bytes decide: incomplete, -1 above 34996 or 34980 bytes, -2 off the alignment |
| `SshPacket.FrontCases` | hc/examples/ssh/client.c:110-157 | what a complete packet decides: -3 for a wrong tag, -4 without a message, else the message between padding length and padding |
| `SshPacket.Client.constructor` | hc/examples/ssh/client.c:639-640 | an empty ring in a valid state |
| `SshPacket.Client.Receive` | hc/examples/ssh/client.c:62-71 | bytes go behind those already there, around the end of the ring, and disturb neither a known size nor a decrypted packet; an error is added to the size as the code does |
| `SshPacket.Client.Peek` | hc/examples/ssh/client.c:74-158 | reports exactly what is at the front of the bytes that arrived: incomplete, one of four errors, or the message, decrypted once however often it is peeked; incomplete leaves room for more; the position stays in range and aligned to 4; after an error the next peek is specified too |
| `SshPacket.Client.Open` | hc/examples/ssh/client.c:110-157 | a complete packet is checked, decrypted and counted: the receive sequence number goes up by one modulo 2^32 exactly for a message |
| `SshPacket.Client.Authenticated` | hc/examples/ssh/client.c:110-148 | decrypts in place if and only if the tag is right |
| `SshPacket.Client.DecryptBody` | hc/examples/ssh/client.c:128-144 | the block loop applies the key stream to each byte of the body once |
| `SshPacket.Client.Ack` | hc/examples/ssh/client.c:161-167 | exactly the packet at the front is dropped, in range and aligned, and the rest is as it arrived |
| `SshPacket.Client.NextMessage` | hc/examples/ssh/client.c:170-174 | one message is taken off the stream and the sequence number goes up by one modulo 2^32, or neither |
| `SshPacket.Client.SwitchKeys` | hc/examples/ssh/client.c:536-555 | new keys between two messages keep the state consistent, also with bytes of the next packet already in the ring |
| `SshPacket.Sender.SendMessage` | hc/examples/ssh/client.c:189-242 | the buffer holds the sealed packet of its message and padding, the rest of it is unchanged, and the sequence number goes up by one modulo 2^32 if and only if all of it was sent |
| `SshPacket.Sender.SealInPlace` | hc/examples/ssh/client.c:197-233 | size and body encrypted where they lie, and the tag appended |
| `SshPacket.QueueFront` | hc/examples/ssh/client.c:74-174 | if what is held and what is to come are the packets of a queue, the front is the first message, or is incomplete with more to come |
| `SshPacket.SendAll` | hc/examples/ssh/client.c:189-242 | sending a list of messages, with keys that may change between any two, yields their sealed packets one after the other |
| `SshPacket.PacketAt` | hc/examples/ssh/client.c:238-241 | packet k of that stream is sealed with the first number plus k modulo 2^32 |
| `SshPacket.NumbersDiffer` | hc/examples/ssh/client.c:238-241 | no two of 2^32 packets in a row share a number, and so a nonce |
| `SshPacket.Wait` | hc/examples/ssh/client.c:176-187 | one round of waiting takes the awaited message or more of the stream |
| `SshPacket.Session` | hc/examples/ssh/client.c:176-187 | for every list of payloads, every change of keys between them and every fragmentation, the receiver gets the payloads in order and unchanged |
| `Telnet.ItemStable` | router/router/telnetServer.c:180-252 | a complete command means the same whatever follows it |
| `Telnet.DecodeSplit` | router/router/telnetServer.c:167-257 | decoding a stream cut anywhere, with the unfinished part carried over, is decoding the whole stream |
| `Telnet.RestIsUnfinished` | router/router/telnetServer.c:134-143 | what is carried over is always a proper prefix of a command |
| `Telnet.DecodeItems` | router/router/telnetServer.c:180-252 | a client that sends data, CR NUL, CR LF, commands, negotiations and window sizes (columns before rows, high byte first, 255 doubled) is understood item by item, with nothing left over |
| `Telnet.FirstItemMeans` | router/router/telnetServer.c:180-252 | exactly these byte strings are accepted, exactly their proper prefixes are kept, and anything else is kicked at once, but for a window size whose first end byte is wrong |
| `Telnet.DoomedBytes` | router/router/telnetServer.c:229-235 | that exception: both end bytes are read before either is looked at |
| `Telnet.Server.TakeSaved` | router/router/telnetServer.c:168-176 | the saved bytes are exactly the unfinished command, recovered from zero-padded storage |
| `Telnet.Server.GetByteOrSave` | router/router/telnetServer.c:134-143 | the next byte, or the command so far saved within 12 bytes |
| `Telnet.Server.GetNawsU16OrSave` | router/router/telnetServer.c:146-165 | the next number with doubled 255 bytes, a saved prefix, or malformed |
| `Telnet.Server.HandleWindow` | router/router/telnetServer.c:216-238 | the window size command of section 2 of RFC 1073: complete, unfinished, malformed, or refused by the terminal, which drops the client |
| `Telnet.Server.HandleCommand` | router/router/telnetServer.c:190-250 | one command has the effect of the first item of the stream; a write the terminal does not take drops the client |
| `Telnet.Server.Process` | router/router/telnetServer.c:180-252 | the scanning loop has the effect of decoding the buffer and saves its rest, up to the point where the terminal stops taking bytes |
| `Telnet.Server.OnClientFd` | router/router/telnetServer.c:167-257 | after each read the log and the saved bytes are those of the whole stream so far |
| `Telnet.Serve` | router/router/telnetServer.c:167-257 | the event log is the same for every way of cutting the client stream into reads, wherever the terminal stops taking bytes or window sizes |
| `Telnet.ServeItems` | router/router/telnetServer.c:167-257 | whole items cut anywhere have their effects in order |
| `Telnet.EncodeConcat` | router/router/telnetServer.c:87-131 | the encoder has no state between reads |
| `Telnet.EncodeByteIs` | router/router/telnetServer.c:106-124 | the encoding of each byte in numbers: 13 0, 13 10, 255 255, or the byte |
| `Telnet.OnPtMasterFd` | router/router/telnetServer.c:87-131 | what is sent is the encoding of the buffer as far as the client takes it, and the client is dropped if and only if it does not take all |
| `Telnet.DecodeEncoded` | router/router/telnetServer.c:87-131 | decoding encoded bytes gives the bytes with LF turned into CR, no window size and no kick |
| `Telnet.RoundTrip` | router/router/telnetServer.c:87-257 | the same for every split of the terminal's output, every split of the stream, and wherever the terminal stops taking bytes |
| `Tar.OctalRoundTrip` | hc/tools/untar/common.c:12-21 | an octal field that has room for a number reads back as that number |
| `Tar.OctalDigit` | hc/tools/tar/common.c:61-63 | the shift and mask select the right digit |
| `Tar.RecordFields` | hc/tools/tar/common.c:47-77 | no later write to the header touches the name, the size, the type or the prefix |
| `Tar.HeaderByte` | hc/tools/tar/common.c:47-77 | each of the 512 bytes of a header in numbers |
| `Tar.StoredLayout` | hc/tools/tar/common.c:47-98 | a stored entry in numbers: type 0x35 or 0x30 at 156, magic, version and mode, name at 0, octal size at 124, prefix at 345, then the content padded to 512 bytes |
| `Tar.ArchiveEnd` | hc/tools/tar/common.c:124-129 | 1024 zeros end an archive |
| `Tar.ChecksumValid` | hc/tools/tar/common.c:70-77 | the checksum field holds the sum of the header's bytes taken with that field blank |
| `Tar.LeaveUndoesEnter` | hc/tools/tar/common.c:22-38 | leaving undoes entering for names without a slash, and only for those inside a nonempty prefix |
| `Tar.Writer.EnterDirectory` | hc/tools/tar/common.c:22-30 | the name is appended behind a slash, or refused when the prefix is too long already |
| `Tar.Writer.LeaveDirectory` | hc/tools/tar/common.c:32-38 | the prefix is cut at its last slash, or emptied |
| `Tar.Writer.SetPrefix` | hc/tools/tar/common.c:184-193 | the prefix is replaced, or refused when it does not fit |
| `Tar.Writer.Header` | hc/tools/tar/common.c:47-77 | the first 512 bytes of the buffer are the header, whatever was there before |
| `Tar.Writer.WriteContent` | hc/tools/tar/common.c:83-98 | the content passes through the buffer in any pieces and is padded to a whole record; which of -3, -4, -5 and -6 is returned, and how much was written |
| `Tar.Writer.WriteRecord` | hc/tools/tar/common.c:40-99 | the result in every case, from the limits to each write or read that fails, and exactly what the output then holds |
| `Tar.ResultMeans` | hc/tools/tar/common.c:40-99 | which of the results 0 and -2 to -6 is returned, by which step fails first |
| `Tar.PrefixAndLimits` | hc/tools/tar/common.c:22-45 | the slash is byte 47, and the limits are 100, 155 and 8589934591 |
| `Tar.Writer.FinaliseOutput` | hc/tools/tar/common.c:124-129 | two zero records, as far as there is room, and the write status |
| `Tar.StringsSeen` | hc/tools/untar/common.c:55-66 | the strings the reader sees in a header: the prefix, and the name, which runs on into the mode if it fills its field |
| `Tar.ExtractStored` | hc/tools/untar/common.c:37-81 | one stored entry in front of anything is created and the rest read as if it came first; with part of it missing or an operation failing the status is 1 |
| `Tar.TypeByteRead` | hc/tools/untar/common.c:40-69 | 0x35 at 156 creates a directory, 0x30 a file, and any other type ends the extraction |
| `Tar.ExtractArchive` | hc/tools/untar/common.c:37-81 | for every part of an archive, and operations failing anywhere: the status is 0 if and only if the archive is complete and none fails, and then the entries are there in order |
| `Tar.RoundTrip` | hc/tools/untar/common.c:37-81 | the entries come back as they were if and only if every name has at most 99 bytes |
| `Tar.Reader.ReadInput` | hc/core/hc/ix/util.c:33-46 | a record is read whole from reads of any size, or the input has ended; to the reader a failed read is the same |
| `Tar.Reader.ParseSize` | hc/tools/untar/common.c:12-21 | the number in the size field, or -1 if some byte is not an octal digit |
| `Tar.Reader.ReadContent` | hc/tools/untar/common.c:71-77 | the content without its padding, or its whole records up to the end of the input or a failed write |
| `Tar.Reader.Run` | hc/tools/untar/common.c:37-81 | for every input, well formed or not, and operations failing anywhere, the status and everything created |
| `Tar.PackAndUnpack` | hc/tools/tar/common.c:40-129 | packing and unpacking with every read chunking on both sides, a full disk anywhere and operations failing anywhere: the status tells whether all went well, and then the entries are there |
| `ModemQueue.QueueDecodes` | router/router/modemClient.c:5-26 | a packed queue has one reading, the commands that were packed |
| `ModemQueue.HeadOfEncoded` | router/router/modemClient.c:142-161 | size and fields of the first command are read back from the packed bytes, whatever follows |
| `ModemQueue.PackedBytes` | router/router/modemClient.c:6-26 | the packed structures byte by byte |
| `ModemQueue.OutputBytes` | router/router/modemClient.c:74-98 | the bytes the device gets for a number and for a message |
| `ModemQueue.PairedConcat` | router/router/modemClient.c:120-140 | a message's two commands stay next to each other in the queue |
| `ModemQueue.Modem.constructor` | router/router/modemClient.c:186-187 | an empty queue with nothing pending |
| `ModemQueue.Modem.ProcessQueue` | router/router/modemClient.c:64-105 | the first command is written unless one is pending; a failed write leaves the queue as it was |
| `ModemQueue.Modem.QueueConstant` | router/router/modemClient.c:107-118 | refused without a trace when there is no room, else appended |
| `ModemQueue.Modem.QueueSms` | router/router/modemClient.c:120-140 | both commands of a message are appended, or neither |
| `ModemQueue.Modem.AckPending` | router/router/modemClient.c:142-167 | the first command is removed, the bytes behind it move down whole, and the next is written |
| `ModemQueue.Modem.Drain` | router/router/modemClient.c:64-167 | while writes succeed, every command is written exactly once and in order |
| `DhcpTable.Server.constructor` | router/router/dhcpServer.c:48-51 | every entry unused, hardware addresses left as they were in memory |
| `DhcpTable.Server.GetEntry` | router/router/dhcpServer.c:22-46 | refreshes the first entry that holds the address, or replaces the first of the oldest, or refuses |
| `DhcpTable.LookupKeepsSound` | router/router/dhcpServer.c:22-46 | no lookup puts an address behind an earlier copy of it |
| `DhcpTable.RunsAreSound` | router/router/dhcpServer.c:22-51 | in every table of every run after init, entries in use have different hardware addresses |
| `DhcpTable.UnusedFirst` | router/router/dhcpServer.c:30-44 | no entry in use is replaced while an unused one remains |
| `DhcpTable.CreationOnlyIfAllowed` | router/router/dhcpServer.c:40 | a request that does not allow creation changes no address: it refreshes its client's entry, or is refused with -1 and changes nothing |
| `DhcpTable.AllLater` | router/router/dhcpServer.c:30-44 | when an entry in use is the one to give way, the others hold 214 different clients |
| `DhcpTable.Kept` | router/router/dhcpServer.c:30-44 | another client's lookup, whatever the clock says, replaces an entry in use only if the 214 others all come later in the order of time and then index; otherwise it adds at most itself to those |
| `DhcpTable.LeaseKept` | router/router/dhcpServer.c:22-46 | a client keeps its entry through every run of lookups by others, with any clock, as long as they and the clients who came later already are fewer than 215 |
| `DhcpTable.LeaseExact` | router/router/dhcpServer.c:22-46 | 215 is exact: a run of lookups at later times that allow creation replaces the entry if and only if those who came later already and those of the run are at least 215 |
| `DhcpTable.SameAddress` | router/router/dhcpServer.c:22-46 | such a client gets the same address again |
| `DhcpTable.BusyRun` | router/router/dhcpServer.c:22-51 | the table of `OneSecond` is reached by a run from init |
| `DhcpTable.OneSecond` | router/router/dhcpServer.c:29-45 | clients of the same second have to be counted: after 215 lookups in one second, of which the first client's is repeated last, one newcomer takes that client's entry |
| `Base64.RoundTrip` | hc/core/hc/base64.c:6-36 | a decoder for section 4 of RFC 4648 recovers every input |
| `Base64.GroupValue` | hc/core/hc/base64.c:12-18 | the four letters of a group are the sextets of its 24 bits |
| `Base64.PadBytes` | hc/core/hc/base64.c:24-35 | one byte left over ends in two bytes 61, two in one, and whole groups in none |
| `Base64.DecodedIsEncoding` | hc/core/hc/base64.c:6-36 | everything that decoder accepts is the encoding of what it returns |
| `Base64.EncodeTail` | hc/core/hc/base64.c:24-35 | one or two last bytes, although output is written before all input is read |
| `Base64.EncodeWithin` | hc/core/hc/base64.c:6-36 | the encoding of the old input, and nothing else changed, as long as the writer cannot overtake the reader |
| `Base64.EncodeInPlace` | hc/core/hc/base64.c:5-36 | input at the end of the buffer encodes as into separate memory, for every length |

## Left out

- Ed25519 point arithmetic, its tables, signing and verification: they need the group law of the curve.
- Primality of 2^255 - 19: inversion is stated as the power p - 2.
- X25519.OutputMatchesRfc: takes Fermat's little theorem for 4u as a hypothesis where u is not 0, for the same reason.
- Curve25519.MulScalar: stated for scalars below 2^56, because from about 2^57 on the 64-bit casts drop bits; the one caller passes 121665.
- Poly1305.Mac.Finish: equality with RFC 8439 holds only under the stated condition, because of the constant in line 134.
- The rounds of ChaCha20, AES and SHA-512: straight-line code over constants.
- The SSH hello and the messages of the key exchange; its effect on the packet layer, new keys, is modelled.
- Timing: that constant-time code takes constant time is not expressed.
- The directory walk of tar and the sorting of names; an interrupted system call, which is repeated; what a failed write to an extracted file leaves of its record.
- Reading a string past the end of a tar record that has no terminator up to there: the model ends it with the record.
- The telnet server's listening, handshake and forking.
- The modem's line handling and timers, and reconnecting, which starts with an empty queue.
- DHCP messages, netlink, iptables, and everything graphical.
