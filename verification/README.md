# Blindplane in Dafny

Blindplane carries its own cryptographic arithmetic, a signed binary record
format, and a relay that stores records it cannot read. This project states what
those parts compute and proves it of models that follow the Rust code branch by
branch.

Code that loops over limbs, buffers or maps is modelled by methods with loops,
arrays and classes; code made of expressions is modelled by functions. Each method
is proved against a specification function or states its result outright, and the
lemmas then prove the properties of those specifications.

- `Words`, `ScalarReduce`, `Scalar`, `Naf`: integers modulo the group order. Words
  are bounded types, so the verifier checks every intermediate result.
- `Poly1305`: the one-time authenticator in base 2^64.
- `FieldLimbs`, `FieldLoops`, `FieldPow`, `FieldEncoding`, `FieldResidues`,
  `FieldSqrt`: arithmetic modulo p = 2^255 - 19 in five 51-bit limbs.
- `EdwardsFormulas`, `EdwardsGroup`, `EdwardsPoint`, `EdwardsDenotes`,
  `EdwardsTables`, `EdwardsMul`, `EdwardsEncoding`, `Ed25519`, `Groups`: point
  formulas, tables, scalar multiplication, encodings and signatures.
- `X25519`: the Montgomery ladder.
- `Gf2`, `GhashField`, `Ghash`, `Gcm`: GHASH and the fused AES-GCM pass.
- `ChaCha20`, `ChaCha20Poly1305`: the stream cipher and its fused AEAD.
- `Argon2id`: block addressing, the fill loop and the variable-length hash.
- `WireTypes`, `WireEncode`, `WireParse`, `WireDecode`, `WireRecord`, `WireHead`:
  the record codec, validation and the client's freshness head; `Utf8` says what its
  string check accepts.
- `RelayStore`, `Relay`: the store with its secondary index, and runs of writes.
- `Sorting`, `Sealing`, `RecordChain`: seal, grant and rekey as chain steps.
- `Arith`, `Bytes`: shared integer and byte-string facts.

`dafny verify dfyconfig.toml` checks everything.

## Conventions

- `x >> k` and `x & (2^k - 1)` are `/` and `%`; `a | b` of words without a common
  bit is their sum; XOR is `Gf2.Xor` on the integers the words stand for. `Choice`
  masks are booleans.
- Compressed comparisons and table scans are modelled by what they select.
- `FieldLimbs.Mod`, `FieldResidues.Res` and `EdwardsFormulas.OnCurve` are closed
  behind two unfoldings; `ModIs`, `ResIs` and `OnCurveIs` say what they are: the
  remainder modulo p, that of a limb vector's value, and the curve equation.
- Bytes are integers below 256; strings are their UTF-8 bytes, `usize` is 64 bits.

## Hypotheses

They appear as `requires` of the members that need them, and nowhere else.

- `EdwardsGroup.Interprets`: the curve is an abelian group in which the generic
  addition formula denotes the operation (and stays on the curve), and two valid
  points denote the same element exactly when they are the same affine point.
  Doubling, negation, the identity, cached additions and changes of Z are proved.
- `FieldSqrt.PrimeModulus`: Fermat's little theorem and the absence of zero divisors
  modulo p.
- `Ed25519.BaseOrder`: the base point has order L. Only `SignThenVerify` and
  `SignatureUnique` use it.
- `Sealing.Signs`: what the author signs verifies.
- `Sealing.Lengths`: encryption and wrapping return strings of the lengths their
  algorithms fix. Only the conditions for success of `seal`, grant and rekey use it.
- `WireHead.NoCollision`: SHA-256 does not collide on the two records in question.
- `Argon2id.IsHash`: BLAKE2b returns as many bytes as asked.

SHA-512, SHA-256, BLAKE2b, the Argon2 compression function, the AES block cipher
under a key, HPKE wrapping and payload encryption are function parameters, and
randomness is an argument.

## Where the code and its documentation differ

- field/mod.rs:30-33 says limbs stay below 2^52, which leaves room for what the other
  operations need, and field/mod.rs:65 that `sub` never borrows. Every operation does
  keep that bound, but it does not keep `sub` from borrowing
  (`FieldLimbs.DocumentedBoundBorrows`; `FieldLimbs.SubFitsExactly` gives the exact
  condition). The operations are closed, without a borrow, under limbs below
  2^51 + 2^8.
- aes/mod.rs:53-54 says a buffer is zeroed when its tag is wrong. The code returns
  before touching it; `Gcm.Open` follows the code.
- head.rs:76 says `advance` moves by exactly one link. At revision 2^64 - 1 the
  saturating addition accepts a record of that same revision
  (`WireHead.AdvanceStalls`); `WireHead.AdvanceRaises` gives the exact condition.
- encode.rs:22 promises the decoder enforces the structural limits a relay would.
  Its length limit can be tighter than validation's: `WireRecord.DecodeEncode` gives
  the exact condition under which a valid record survives, and
  `WireRecord.RoundTripFails` one that does not.

## Model

| member | source | states |
|---|---|---|
| ScalarReduce.OrderIs | crates/blindplane-crypto/src/scalar/mod.rs:17-22 | The modulus is 2^252 + 27742317777372353535851937790883648493. |
| ScalarReduce.MulWide | crates/blindplane-crypto/src/scalar/reduce.rs:8-20 | The eight limbs are the exact product of the two operands; every `u128` accumulation in the row loop fits, and the carry out of each row lands in a limb nothing wrote before. |
| ScalarReduce.QuotientEstimate | crates/blindplane-crypto/src/scalar/reduce.rs:24-38 | The estimate `q3` never exceeds the true quotient and is at most two below it, for every 512-bit input. |
| ScalarReduce.LowProduct | crates/blindplane-crypto/src/scalar/reduce.rs:40-50 | The truncated product keeps exactly the value of `q3 * L` modulo 2^320. |
| ScalarReduce.BarrettReduce | crates/blindplane-crypto/src/scalar/reduce.rs:23-74 | For every eight-limb x the result is x mod L: the subtraction modulo 2^320 recovers the true remainder, which lies below 3L. |
| ScalarReduce.SubtractTwice | crates/blindplane-crypto/src/scalar/reduce.rs:63-73 | Two masked conditional subtractions take anything below 3L to its residue. |
| ScalarReduce.SubL5 | crates/blindplane-crypto/src/scalar/reduce.rs:77-88 | The difference with the order modulo 2^320 and a borrow that is set exactly when the value was below L. |
| ScalarReduce.AddModL | crates/blindplane-crypto/src/scalar/reduce.rs:91-110 | The sum of two reduced values, reduced; the five-limb carry chain loses nothing. |
| ScalarReduce.IsLessThan | crates/blindplane-crypto/src/scalar/reduce.rs:113-121 | The borrow chain decides the order of the integers the limbs stand for, in both directions. |
| Scalar.FromWideBytes | crates/blindplane-crypto/src/scalar/mod.rs:42-50 | 64 little-endian bytes to their residue modulo L. |
| Scalar.FromBytesModOrder | crates/blindplane-crypto/src/scalar/mod.rs:53-61 | 32 little-endian bytes to their residue modulo L. |
| Scalar.FromCanonicalBytes | crates/blindplane-crypto/src/scalar/mod.rs:67-79 | Accepts exactly the strings whose value is below L, and keeps that value. |
| Scalar.ToBytes | crates/blindplane-crypto/src/scalar/mod.rs:82-88 | The 32 bytes have the value of the scalar. |
| Scalar.MulAdd | crates/blindplane-crypto/src/scalar/mod.rs:91-95 | (x*y + z) mod L for every x, y and reduced z. |
| Scalar.ClampMeaning | crates/blindplane-crypto/src/montgomery.rs:12-15 | Clamping sets bit 254, clears bits 0, 1, 2 and 255, and keeps every other bit. |
| Scalar.Radix16 | crates/blindplane-crypto/src/scalar/mod.rs:116-133 | 64 digits whose base-16 sum is the scalar, all but the last in [-8, 8), the last at most 2 for a reduced scalar. |
| Scalar.RecodeNibbles | crates/blindplane-crypto/src/scalar/mod.rs:123-131 | The in-place carry keeps the base-16 sum while it moves each nibble into the signed range. |
| Naf.WindowValue | crates/blindplane-crypto/src/scalar/mod.rs:151-161 | A window read from one limb or across two is the same bits of the whole integer. |
| Naf.NonAdjacentForm | crates/blindplane-crypto/src/scalar/mod.rs:139-181 | For widths 2 to 8 the loop ends, every limb read is in bounds, nonzero digits are odd, below 2^(w-1) and at least w apart, and the digits sum to the scalar (exactly, below 2^254). |
| Naf.ReducedIsExact | crates/blindplane-crypto/src/scalar/mod.rs:139-181 | Every reduced scalar is below that bound, so its final carry is zero. |
| Poly1305Limbs.AbsorbLimbs | crates/blindplane-crypto/src/poly1305/mod.rs:150-188 | One block: with the accumulator top at most 4 and clamped key limbs, no product or sum wraps, the top is again at most 4, and the value is (h + block) * r modulo 2^130 - 5. |
| Poly1305Limbs.Reduce | crates/blindplane-crypto/src/poly1305/mod.rs:108-121 | One masked subtraction reduces any accumulator value fully, then keeps 128 bits. |
| Poly1305Limbs.ClampAgrees | crates/blindplane-crypto/src/poly1305/mod.rs:38-48 | The two word masks clamp the key bytes as section 2.5 of RFC 8439 does. |
| Poly1305Spec.HornerMeaning | crates/blindplane-crypto/src/poly1305/mod.rs:61-96 | Every block is read with a one bit above it, added, and multiplied by r modulo 2^130 - 5; only the last may be short. |
| Poly1305Spec.ClampMeaning | crates/blindplane-crypto/src/poly1305/mod.rs:38-48 | The clamp clears the top four bits of bytes 3, 7, 11 and 15 and the low two of bytes 4, 8 and 12, and nothing else. |
| Poly1305Spec.TagValue | crates/blindplane-crypto/src/poly1305/mod.rs:99-135 | The tag is the total plus the second half of the key modulo 2^128, little-endian. |
| Poly1305.Poly1305.constructor | crates/blindplane-crypto/src/poly1305/mod.rs:38-58 | A fresh authenticator holds the empty message under the key. |
| Poly1305.Poly1305.AbsorbWhole | crates/blindplane-crypto/src/poly1305/mod.rs:150-188 | Absorbing sixteen bytes extends the accumulated blocks by one. |
| Poly1305.Poly1305.Update | crates/blindplane-crypto/src/poly1305/mod.rs:61-85 | Appends to the message, however it is split: whole blocks are in the accumulator, the rest is in the buffer. |
| Poly1305.Poly1305.PadToBlock | crates/blindplane-crypto/src/poly1305/mod.rs:91-96 | Appends the fewest zero bytes that make the message a multiple of sixteen. |
| Poly1305.Poly1305.Finalize | crates/blindplane-crypto/src/poly1305/mod.rs:99-135 | Returns the tag of section 2.5 of RFC 8439 for the whole message, hence the same tag for every split into updates. |
| Poly1305.Poly1305.Verify | crates/blindplane-crypto/src/poly1305/mod.rs:138-141 | True exactly for the correct tag. |
| FieldLimbs.DocumentedBoundBorrows | crates/blindplane-crypto/src/field/mod.rs:30-33 | A limb vector below the documented 2^52 whose negation borrows: that bound is kept by every operation, but is not enough for an operand of `sub`. |
| FieldLimbs.SubFitsAlways | crates/blindplane-crypto/src/field/mod.rs:63-83 | A subtrahend within the bound is safe for every minuend within it if and only if it is safe to negate, that is, limb by limb at most 2p. |
| FieldLimbs.SubFitsExactly | crates/blindplane-crypto/src/field/mod.rs:66-83 | For operands below the documented 2^52, a limb plus 2p minus a limb stays within 64 bits everywhere if and only if no subtrahend limb exceeds the minuend limb plus the limb of 2p. |
| FieldLimbs.Add | crates/blindplane-crypto/src/field/mod.rs:52-62 | Within the invariant (limbs below 2^51 + 2^8) no word overflows, the result is in the invariant, and it is congruent to the sum. |
| FieldLimbs.Sub | crates/blindplane-crypto/src/field/mod.rs:66-83 | The same for the difference: no limb borrows. |
| FieldLimbs.Neg | crates/blindplane-crypto/src/field/mod.rs:86-88 | The same for the negation. |
| FieldLimbs.Mul | crates/blindplane-crypto/src/field/mod.rs:92-117 | The same for the product: every `u128` column fits, and one carry pass restores the invariant. |
| FieldLimbs.Square | crates/blindplane-crypto/src/field/mod.rs:120-139 | The squaring columns are those of `mul(a, a)`, so the two results are the same limbs. |
| FieldLimbs.Mul121666 | crates/blindplane-crypto/src/field/mod.rs:154-163 | The same for multiplication by 121666. |
| FieldLimbs.Carry | crates/blindplane-crypto/src/field/mod.rs:166-189 | From any columns below the stated bounds to the invariant, keeping the residue. |
| FieldLoops.WeakReduceLoop | crates/blindplane-crypto/src/field/mod.rs:192-204 | The in-place ripple computes the straight-line weak reduction. |
| FieldLoops.AddLoop | crates/blindplane-crypto/src/field/mod.rs:52-62 | The limb loop of `add` computes the specified sum. |
| FieldLoops.SubLoop | crates/blindplane-crypto/src/field/mod.rs:66-83 | The limb loop of `sub` computes the specified difference. |
| FieldLoops.Mul121666Loop | crates/blindplane-crypto/src/field/mod.rs:154-163 | The small multiplication limb by limb, with its wide carry, computes the specified product. |
| FieldLoops.SquareNLoop | crates/blindplane-crypto/src/field/mod.rs:142-151 | n squarings in a loop are n-fold squaring. |
| FieldPow.InvertIsPow | crates/blindplane-crypto/src/field/pow.rs:11-35 | The inversion chain is exactly the power p - 2. |
| FieldPow.PowP58IsPow | crates/blindplane-crypto/src/field/pow.rs:38-62 | The square-root chain is exactly the power (p - 5)/8. |
| FieldEncoding.FromBytes | crates/blindplane-crypto/src/field/encoding.rs:9-21 | 32 bytes to their value modulo 2^255, as in-range limbs. |
| FieldEncoding.Quotient | crates/blindplane-crypto/src/field/encoding.rs:28-36 | The carry of value + 19 out of bit 255 is floor((value + 19)/2^255), and is 0 or 1. |
| FieldEncoding.ToBytes | crates/blindplane-crypto/src/field/encoding.rs:24-60 | The 32-byte little-endian encoding of the value modulo p, for every vector in the invariant. |
| FieldEncoding.EncodeEqual | crates/blindplane-crypto/src/field/encoding.rs:96-103 | Equal bytes if and only if equal residues. |
| FieldEncoding.EncodeFrom | crates/blindplane-crypto/src/field/encoding.rs:9-60 | Re-encoding a loaded string gives it back if and only if its value is below p. |
| FieldEncoding.FromEncode | crates/blindplane-crypto/src/field/encoding.rs:9-60 | Loading an encoding recovers the residue. |
| FieldSqrt.SqrtRatioSound | crates/blindplane-crypto/src/field/encoding.rs:110-123 | When the flag is set, v * root^2 = u and the root is even. |
| FieldSqrt.SqrtRatioComplete | crates/blindplane-crypto/src/field/encoding.rs:110-123 | With p prime, the flag is set whenever u/v has a square root. |
| EdwardsFormulas.NielsIsAdd | crates/blindplane-crypto/src/edwards/point.rs:106-131 | Adding a cached projective point is the generic addition, coordinate for coordinate modulo p. |
| EdwardsFormulas.AffineIsAdd | crates/blindplane-crypto/src/edwards/point.rs:134-146 | Adding an affine cached point is the generic addition of a point with Z = 1. |
| EdwardsFormulas.NegNielsIsNeg | crates/blindplane-crypto/src/edwards/niels.rs:87-114 | Negating a cached form caches the negated point. |
| EdwardsFormulas.CurveConstants | crates/blindplane-crypto/src/edwards/point.rs:9-24 | d is -121665/121666 and the second constant is 2d. |
| EdwardsFormulas.AffineLaw | crates/blindplane-crypto/src/edwards/point.rs:76-92 | The generic addition is the affine law of the curve: with m = d x1 x2 y1 y2 the sum has x(1 + m) = x1 y2 + y1 x2 and y(1 - m) = y1 y2 + x1 x2. |
| EdwardsGroup.SelfSumScaled | crates/blindplane-crypto/src/edwards/point.rs:159-175 | On the curve, adding a point to itself gives the doubling formula with every coordinate multiplied by -4. |
| EdwardsGroup.DenDouble | crates/blindplane-crypto/src/edwards/point.rs:159-175 | Hence doubling doubles, and its result is a valid point, given only that addition adds. |
| EdwardsGroup.DenNeg | crates/blindplane-crypto/src/edwards/point.rs:149-156 | Negation denotes the group inverse. |
| EdwardsGroup.DenScale | crates/blindplane-crypto/src/edwards/tables.rs:70-78 | Multiplying all coordinates by an invertible factor changes neither validity nor the point. |
| EdwardsPoint.AddRes | crates/blindplane-crypto/src/edwards/point.rs:76-92 | The limb addition computes the residues of its formula. |
| EdwardsPoint.DoubleRes | crates/blindplane-crypto/src/edwards/point.rs:159-175 | The extended doubling is the T-free doubling multiplied back. |
| EdwardsPoint.ProjectiveDoubleRes | crates/blindplane-crypto/src/edwards/niels.rs:25-36 | The T-free doubling computes the residues of its formula. |
| EdwardsPoint.ExtendedRes | crates/blindplane-crypto/src/edwards/niels.rs:50-68 | Both ways of multiplying a completed point back give the same projective coordinates. |
| EdwardsPoint.AddNielsRes | crates/blindplane-crypto/src/edwards/point.rs:117-131 | The limb addition of a cached point computes the residues of its formula. |
| EdwardsPoint.AddAffineRes | crates/blindplane-crypto/src/edwards/point.rs:134-146 | The same for an affine cached point. |
| EdwardsPoint.BasepointValid | crates/blindplane-crypto/src/edwards/point.rs:26-50 | The base point constant is on the curve, with T = XY and Z = 1. |
| EdwardsPoint.BasepointIs | crates/blindplane-crypto/src/edwards/point.rs:26-50 | Its y is 4/5 modulo p and its x is the even root, so the constant is B and not -B. |
| EdwardsEncoding.BasepointEncoding | crates/blindplane-crypto/src/edwards/point.rs:26-50 | It compresses to the byte 58 and thirty-one bytes 66. |
| EdwardsEncoding.DecompressSound | crates/blindplane-crypto/src/edwards/point.rs:208-239 | An accepted string is decoded to a point on the curve, in range, with Z = 1 and T = XY, whose encoding it is. |
| EdwardsEncoding.CompressDecompress | crates/blindplane-crypto/src/edwards/point.rs:195-239 | Compressing what was decompressed gives back exactly the input. |
| EdwardsEncoding.DecompressInjective | crates/blindplane-crypto/src/edwards/point.rs:208-239 | Two accepted strings for one affine point are the same string. |
| EdwardsEncoding.DecompressComplete | crates/blindplane-crypto/src/edwards/point.rs:208-239 | With p prime, the encoding of every affine point of the curve is accepted. |
| EdwardsEncoding.CompressRespects | crates/blindplane-crypto/src/edwards/point.rs:195-202 | With p prime, compression does not depend on the representative. |
| EdwardsEncoding.CompressInjective | crates/blindplane-crypto/src/edwards/point.rs:195-202 | With p prime, points that compress alike are the same affine point. |
| EdwardsEncoding.CompressIsAccepted | crates/blindplane-crypto/src/edwards/point.rs:195-239 | With p prime, what is compressed from a valid point is accepted back. |
| EdwardsTables.OddMultiplesNiels | crates/blindplane-crypto/src/edwards/vartime.rs:113-121 | Entry k of the key table caches (2k + 1)A. |
| EdwardsTables.SharedInversion | crates/blindplane-crypto/src/edwards/tables.rs:55-68 | One inversion yields the inverse of each of the 64 Z coordinates (Montgomery's trick), given that p is prime. |
| EdwardsTables.AffineOddMultiples | crates/blindplane-crypto/src/edwards/tables.rs:47-79 | Entry k of the normalised table caches (2k + 1)P with Z = 1. |
| EdwardsTables.Multiples | crates/blindplane-crypto/src/edwards/scalar_mul.rs:17-21 | Entry k of the constant-time table is (k + 1)P. |
| EdwardsMul.AddSignedDenotes | crates/blindplane-crypto/src/edwards/vartime.rs:30-54 | A signed digit lookup adds that multiple, for both table kinds and both signs. |
| EdwardsMul.DoubleScalarMul | crates/blindplane-crypto/src/edwards/vartime.rs:67-105 | Returns [a]A + [b]B for reduced scalars and either kind of table of odd multiples of A. |
| EdwardsMul.VartimeDoubleScalarMulBasepoint | crates/blindplane-crypto/src/edwards/vartime.rs:113-123 | The same from a key decompressed for this call. |
| EdwardsMul.VartimeDoubleScalarMulPrepared | crates/blindplane-crypto/src/edwards/vartime.rs:130-136 | The same from a table prepared earlier. |
| EdwardsMul.SelectSigned | crates/blindplane-crypto/src/edwards/scalar_mul.rs:53-76 | The masked table scan yields [digit]P for every digit from -8 to 8. |
| EdwardsMul.Mul | crates/blindplane-crypto/src/edwards/scalar_mul.rs:15-30 | [s]P for every reduced scalar. |
| EdwardsMul.BasepointTable | crates/blindplane-crypto/src/edwards/tables.rs:13-29 | Row i, entry j of the table is (j + 1) * 16^i * B. |
| EdwardsMul.MulBase | crates/blindplane-crypto/src/edwards/scalar_mul.rs:33-48 | [s]B for every reduced scalar, without a doubling, B being the base point constant. |
| Ed25519.SmallOrderTest | crates/blindplane-crypto/src/edwards/point.rs:178-192 | The projective test accepts exactly the points A with [8]A = 0. |
| Ed25519.VerdictMeaning | crates/blindplane-crypto/src/edwards/keys.rs:112-218 | The verdict is acceptance if and only if the key decompresses to an A with [8]A nonzero, S is below L, and R decompresses to [k](-A) + [S]B; each error has its exact condition in the same terms. |
| Ed25519.CompressedMatch | crates/blindplane-crypto/src/edwards/keys.rs:151-163 | Comparing compressed bytes with R decides whether R decodes to the recomputed point: no string that does not decode can match. |
| Ed25519.VerifyTail | crates/blindplane-crypto/src/edwards/keys.rs:130-164 | The verdict of section 5.1.7 of RFC 8032 with canonical S, with the error each failure is classified as. |
| Ed25519.VerifyStrict | crates/blindplane-crypto/src/edwards/keys.rs:112-125 | The verdict on key, R, S and equation, first failure first. |
| Ed25519.NewPrepared | crates/blindplane-crypto/src/edwards/keys.rs:193-202 | Refuses a key that does not decompress and one of small order, each with its error and no other, and otherwise holds the odd multiples of -A. |
| Ed25519.VerifyPrepared | crates/blindplane-crypto/src/edwards/keys.rs:210-218 | The same verdict as the free function, error for error. |
| Ed25519.FromSeed | crates/blindplane-crypto/src/edwards/keys.rs:21-42 | The scalar is the clamped first half of the hashed seed modulo L, the prefix the second half, and the public key decompresses to [a]B. |
| Ed25519.Sign | crates/blindplane-crypto/src/edwards/keys.rs:63-82 | R decompresses to [r]B for r the hash of prefix and message, and S = (r + k a) mod L for k the hash of R, key and message (section 5.1.6 of RFC 8032). |
| Ed25519.SignThenVerify | crates/blindplane-crypto/src/edwards/keys.rs:63-164 | Every signature made by a key passes strict verification under that key; no clamped key is of small order. |
| Ed25519.SignatureUnique | crates/blindplane-crypto/src/edwards/keys.rs:91-143 | Two accepted signatures of one message with the same R are the same 64 bytes. |
| X25519.LadderMultiplies | crates/blindplane-crypto/src/montgomery.rs:24-45 | Wherever doubling and differential addition mean what they say, the bit-by-bit ladder yields the k-fold multiple. |
| X25519.SameDenominator | crates/blindplane-crypto/src/montgomery.rs:43-44 | BB + 121666 E equals AA + 121665 E modulo p. |
| X25519.DoublingFormula | crates/blindplane-crypto/src/montgomery.rs:24-45 | Doubling is the curve's: u-coordinate (X^2 - Z^2)^2 over 4XZ(X^2 + 486662 XZ + Z^2), modulo p. |
| X25519.DifferentialFormula | crates/blindplane-crypto/src/montgomery.rs:24-45 | Differential addition is 4(X2X3 - Z2Z3)^2 over 4u(X2Z3 - Z2X3)^2, modulo p. |
| X25519.FunctionMeaning | crates/blindplane-crypto/src/montgomery.rs:11-51 | Wherever those two mean what they say, the result is the affine u-coordinate of the point times 2^254 plus the scalar's bits 3 to 253. |
| X25519.StepState | crates/blindplane-crypto/src/montgomery.rs:24-45 | A deferred swap and a limb step together are one step of the swap-free ladder. |
| X25519.X25519 | crates/blindplane-crypto/src/montgomery.rs:11-51 | The bytes of section 5 of RFC 7748 for every scalar and u. |
| GhashField.MulWideValue | crates/blindplane-crypto/src/aes/arm/ghash.rs:34-60 | Karatsuba on three lanes is the whole carry-less product, for all 128-bit operands. |
| GhashField.ReduceIsRem | crates/blindplane-crypto/src/aes/arm/ghash.rs:64-82 | Two folds through 0x87 are the full remainder modulo x^128 + x^7 + x^2 + x + 1, for every 256-bit input. |
| GhashField.GfMulIsDot | crates/blindplane-crypto/src/aes/arm/ghash.rs:86-90 | Together they are the block multiplication of section 6.3 of NIST SP 800-38D. |
| GhashField.AddValue | crates/blindplane-crypto/src/aes/arm/ghash.rs:24-29 | Reduction is linear, so unreduced products may be summed first. |
| Gf2.XorBitAt | crates/blindplane-crypto/src/aes/arm/ghash.rs:34-82 | Bit by bit, the sum of polynomials is the exclusive or of their coefficients. |
| Ghash.ReflectCoefficient | crates/blindplane-crypto/src/aes/arm/ghash.rs:94-96 | Coefficient i of the held polynomial is bit i of the block, most significant bit of the first byte first. |
| Ghash.ReflectUnreflect | crates/blindplane-crypto/src/aes/arm/ghash.rs:94-96 | The two conversions undo each other. |
| Ghash.BlocksMeaning | crates/blindplane-crypto/src/aes/arm/ghash.rs:150-253 | The blocks of a string hold its bytes in order, with zeros after its end. |
| Ghash.PowersAre | crates/blindplane-crypto/src/aes/arm/ghash.rs:111-131 | The multiplication tree yields H^8 down to H^1. |
| Ghash.Accumulator.AbsorbBlock | crates/blindplane-crypto/src/aes/arm/ghash.rs:135-142 | One Horner step. |
| Ghash.Accumulator.AbsorbFourVectors | crates/blindplane-crypto/src/aes/arm/ghash.rs:181-197 | Four products and one reduction are four Horner steps. |
| Ghash.Accumulator.AbsorbEightVectors | crates/blindplane-crypto/src/aes/arm/ghash.rs:150-177 | Eight products and one reduction are eight Horner steps. |
| Ghash.Accumulator.Absorb | crates/blindplane-crypto/src/aes/arm/ghash.rs:219-253 | Any byte string is absorbed as its zero-padded blocks, one Horner step each. |
| Gcm.CounterFits | crates/blindplane-crypto/src/aes/arm/seal_open.rs:54-87 | Within an aligned group of four or eight blocks of a text below 2^36 bytes no plain addition to the 32-bit counter overflows, and each sum is the counter of its block. |
| Gcm.CounterFitsExactly | crates/blindplane-crypto/src/aes/arm/seal_open.rs:54-87 | The groups of eight of a text all stay in 32 bits if and only if the text is shorter than 2^36 bytes. |
| Gcm.CtrBlock | crates/blindplane-crypto/src/aes/arm/seal_open.rs:112-123 | One block of the buffer is replaced by its counter-mode image, the rest untouched. |
| Gcm.Seal | crates/blindplane-crypto/src/aes/arm/seal_open.rs:30-151 | The fused pass leaves the counter-mode ciphertext in the buffer and returns the GCM tag over both padded strings and both lengths. |
| Gcm.ApplyCtr | crates/blindplane-crypto/src/aes/arm/seal_open.rs:197-265 | The grouped decryption is plain counter mode from counter 2. |
| Gcm.Open | crates/blindplane-crypto/src/aes/arm/seal_open.rs:155-189 | Accepts exactly the correct tag and then decrypts; otherwise the buffer is unchanged. |
| Gcm.OpenInvertsSeal | crates/blindplane-crypto/src/aes/arm/seal_open.rs:30-189 | `open` returns a plaintext if and only if `seal` of it gives that ciphertext and tag. |
| Gcm.CipherMeaning | crates/blindplane-crypto/src/aes/arm/seal_open.rs:46-123 | Byte j of the ciphertext is byte j of the text and of the encrypted counters 2, 3, and so on. |
| Gcm.TagMeaning | crates/blindplane-crypto/src/aes/arm/seal_open.rs:40-151 | The tag is GHASH of the padded associated data, the padded ciphertext and both bit lengths, masked with the encrypted counter 1. |
| Gcm.LengthMeaning | crates/blindplane-crypto/src/aes/arm/seal_open.rs:267-272 | The length block holds the bit length of the associated data first, then that of the text, both big-endian. |
| ChaCha20.QuarterRoundLanes | crates/blindplane-crypto/src/chacha/mod.rs:174-183 | Each of the four lanes goes through the scalar quarter round of section 2.1 of RFC 8439. |
| ChaCha20.QuarterRoundMeaning | crates/blindplane-crypto/src/chacha/mod.rs:174-183 | The quarter round is the four lines of section 2.1 of RFC 8439, with its rotations. |
| ChaCha20.RoundsMeaning | crates/blindplane-crypto/src/chacha/mod.rs:107-169 | Four columns and four diagonals, ten times. |
| ChaCha20.InitMeaning | crates/blindplane-crypto/src/chacha/mod.rs:78-95 | The state is the four constants, then key, counter and nonce as little-endian words. |
| ChaCha20.BlockMeaning | crates/blindplane-crypto/src/chacha/mod.rs:132-169 | A block is twenty rounds added to the state they started from, each word as four little-endian bytes. |
| ChaCha20.LanesAreBlocks | crates/blindplane-crypto/src/chacha/mod.rs:132-166 | Four lanes are four scalar blocks with consecutive counters, serialised one after the other. |
| ChaCha20.ChaCha20.FourBlocks | crates/blindplane-crypto/src/chacha/mod.rs:132-169 | 256 bytes of key stream, and a counter advanced by four modulo 2^32. |
| ChaCha20.ChaCha20.ApplyKeystream | crates/blindplane-crypto/src/chacha/mod.rs:98-128 | Exactly the given stretch is combined with the key stream, and the counter advances by ceil(n/64) modulo 2^32. |
| ChaCha20.XorStreamSplit | crates/blindplane-crypto/src/chacha/mod.rs:98-128 | Calls split at multiples of 64 bytes concatenate. |
| ChaCha20.XorStreamTwice | crates/blindplane-crypto/src/chacha/mod.rs:98-128 | Applying the key stream twice restores the data. |
| ChaCha20Poly1305.PolyKey | crates/blindplane-crypto/src/aead/chacha20poly1305.rs:73-80 | The one-time key is the first half of block zero. |
| ChaCha20Poly1305.Seal | crates/blindplane-crypto/src/aead/chacha20poly1305.rs:28-48 | The 512-byte fused loop gives the ciphertext and tag of section 2.8 of RFC 8439, for every length. |
| ChaCha20Poly1305.Open | crates/blindplane-crypto/src/aead/chacha20poly1305.rs:50-70 | Accepts exactly the correct tag and then decrypts; otherwise the buffer is unchanged. |
| ChaCha20Poly1305.OpenInvertsSeal | crates/blindplane-crypto/src/aead/chacha20poly1305.rs:28-70 | `open` returns a plaintext if and only if `seal` of it gives that ciphertext and tag. |
| ChaCha20Poly1305.CipherMeaning | crates/blindplane-crypto/src/aead/chacha20poly1305.rs:28-49 | Byte j of the ciphertext is byte j of the text and byte j mod 64 of block 1 + j/64. |
| ChaCha20Poly1305.TagMeaning | crates/blindplane-crypto/src/aead/chacha20poly1305.rs:28-49 | The tag is the authenticator of both padded strings and both lengths, under the first half of block zero. |
| ChaCha20Poly1305.MacDataInjective | crates/blindplane-crypto/src/aead/chacha20poly1305.rs:34-47 | The authenticated string determines both the associated data and the ciphertext. |
| Argon2id.WindowSound | crates/blindplane-crypto/src/argon2/argon2id.rs:230-248 | Every block of the window is one section 3.4.2 of RFC 9106 allows, and neither current nor previous. |
| Argon2id.WindowIsLogged | crates/blindplane-crypto/src/argon2/argon2id.rs:104-168 | The window is exactly the most recent writes of the run, in their order and without the last, which is the previous block: all of them in the first pass, later those of three segments and the current one. |
| Argon2id.WindowComplete | crates/blindplane-crypto/src/argon2/argon2id.rs:230-248 | And every block that section allows is in the window. |
| Argon2id.WindowDistinct | crates/blindplane-crypto/src/argon2/argon2id.rs:230-248 | Each once. |
| Argon2id.ReferenceIndex | crates/blindplane-crypto/src/argon2/argon2id.rs:230-256 | No subtraction underflows, no product overflows 64 bits, and the index is entry W - 1 - (W * (J1^2 / 2^32)) / 2^32 of the window of W blocks, as the standard has it. |
| Argon2id.NextWord | crates/blindplane-crypto/src/argon2/argon2id.rs:121-148 | The address block in hand is the one numbered index/128 + 1, also for the segment that starts at index 2. |
| Argon2id.FillBlock | crates/blindplane-crypto/src/argon2/argon2id.rs:131-167 | One block is written in the first pass and added to in later ones; no other block changes, and both blocks read were written earlier in the run. |
| Argon2id.Fill | crates/blindplane-crypto/src/argon2/argon2id.rs:104-169 | The three-deep loop over the memory is the fill of RFC 9106, step by step, and the log it keeps is the order of all its writes. |
| Argon2id.HashPrime | crates/blindplane-crypto/src/argon2/argon2id.rs:184-220 | The variable-length hash of section 3.3 of RFC 9106, with its count of half blocks, for every output length. |
| Argon2id.Argon2id | crates/blindplane-crypto/src/argon2/argon2id.rs:53-181 | Refuses exactly the listed parameters and otherwise returns the tag of the specification, of the requested length. |
| Argon2id.H0Meaning | crates/blindplane-crypto/src/argon2/argon2id.rs:53-100 | The first hash input, field by field: one lane, output length, memory, passes, version 0x13, type 2, and the strings behind their lengths. |
| Argon2id.AddressMeaning | crates/blindplane-crypto/src/argon2/argon2id.rs:104-148 | The address input, word by word: pass, lane, slice, blocks, passes, type 2 and counter, then zeros. |
| Argon2id.HPrimeMeaning | crates/blindplane-crypto/src/argon2/argon2id.rs:184-220 | A short output is one hash of length and input, a long one the first halves of a hash chain and one last whole hash. |
| Argon2id.KeyMeaning | crates/blindplane-crypto/src/argon2/argon2id.rs:53-181 | The key is the long hash of the last block of the filled memory, whose first two blocks hash H0 with their index. |
| WireEncode.PushSigned | crates/blindplane-wire/src/record.rs:47-79 | The loops append exactly the canonical signed bytes. |
| WireEncode.CanonicalBytes | crates/blindplane-wire/src/context.rs:32-43 | The appended context encoding is the canonical one. |
| WireEncode.EncodeRecord | crates/blindplane-wire/src/encode.rs:13-17 | The encoding is the signed bytes and a length-prefixed signature. |
| WireEncode.RecordLayout | crates/blindplane-wire/src/record.rs:47-97 | The signed bytes, the encoding and the hashed string, field by field in their order. |
| WireEncode.DomainText | crates/blindplane-wire/src/record.rs:51-93 | The three domain strings, letter by letter. |
| WireEncode.SignedInjective | crates/blindplane-wire/src/record.rs:47-79 | Signed bytes followed by anything determine every signed field and what follows. |
| WireEncode.SigningBytesPrefixFree | crates/blindplane-wire/src/record.rs:47-79 | No record's signed bytes are a prefix of another's, and equal bytes mean equal signed fields. |
| WireEncode.ManifestInputInjective | crates/blindplane-wire/src/record.rs:91-97 | The hashed string determines the record, signature included, though the signature is not length-prefixed. |
| WireParse.RecordPrinted | crates/blindplane-wire/src/encode.rs:13-98 | Every record whose lengths are within the parser's limits parses back from its encoding. |
| WireParse.RecordParsed | crates/blindplane-wire/src/encode.rs:24-98 | Whatever parses to the end is the encoding of what it parses to. |
| WireParse.BytesMeaning | crates/blindplane-wire/src/encode.rs:208-216 | A length-prefixed string is refused above the limit before it is looked at, and as truncated when it is not all there. |
| Utf8.Utf8Meaning | crates/blindplane-wire/src/encode.rs:218-226 | The UTF-8 check accepts exactly the concatenated encodings of Unicode scalar values. |
| WireDecode.Cursor.TakeExact | crates/blindplane-wire/src/encode.rs:173-181 | Takes the next bytes or reports truncation, with a checked addition, and moves only on success. |
| WireDecode.Cursor.TakeBytes | crates/blindplane-wire/src/encode.rs:208-216 | Reads a length-prefixed string, refusing a length above the policy before touching it. |
| WireDecode.Cursor.TakeString | crates/blindplane-wire/src/encode.rs:218-226 | The same with the identifier limit and UTF-8 check, in that order. |
| WireDecode.Cursor.TakeEnvelopes | crates/blindplane-wire/src/encode.rs:47-57 | The counted loop parses exactly that many envelopes or stops with the first error. |
| WireDecode.Cursor.TakeIndexes | crates/blindplane-wire/src/encode.rs:59-77 | The same for blind indexes. |
| WireDecode.DecodeContext | crates/blindplane-wire/src/encode.rs:120-138 | The context parser, with domain check and no trailing bytes. |
| WireDecode.DecodeRecord | crates/blindplane-wire/src/encode.rs:24-108 | The decoder, first error first; what it returns is well formed, verifies under its own key, and encodes to the input. |
| WireRecord.DecodeIff | crates/blindplane-wire/src/encode.rs:24-108 | Decoding returns a record if and only if the input is its encoding, the record is well formed, its signature verifies, and its length prefixes are within the parser's limit. |
| WireRecord.DecodeEncode | crates/blindplane-wire/src/encode.rs:13-108 | A valid record survives encoding and decoding if and only if its context encoding and identifiers fit max(max_ciphertext_bytes, 4096). |
| WireRecord.PolicySuffices | crates/blindplane-wire/src/encode.rs:208-216 | It always survives under a policy with 73 + 3 * max_identifier_bytes within that limit, the default one included. |
| WireRecord.RoundTripFails | crates/blindplane-wire/src/encode.rs:208-216 | A record under a policy with wide identifiers that is valid whoever signed it, and whose own encoding is refused. |
| WireRecord.NonCanonicalUnreachable | crates/blindplane-wire/src/encode.rs:100-105 | The re-encoding check can never fail: decoding is decoding without it. |
| WireRecord.ValidateLimitsLoop | crates/blindplane-wire/src/record.rs:177-246 | The two loops report the first violated rule. |
| WireRecord.LimitsMeaning | crates/blindplane-wire/src/record.rs:177-278 | Validation passes exactly for records with every part in range and both lists strictly increasing. |
| WireRecord.WellFormedMeaning | crates/blindplane-wire/src/record.rs:177-279 | What well formed means, part by part: every length, count and number, and both lists strictly increasing. |
| WireRecord.ValidMeaning | crates/blindplane-wire/src/record.rs:103-174 | A record is valid if and only if it is well formed, its signature verifies over its signed bytes, and its signer is pinned. |
| WireRecord.ValidErrors | crates/blindplane-wire/src/record.rs:103-174 | A refused record gets the first limit it breaks, then a bad signature, then a missing or foreign pin. |
| WireRecord.LimitErrors | crates/blindplane-wire/src/record.rs:177-279 | Each limit in the order of its check, with its error. |
| WireRecord.LessMeaning | crates/blindplane-wire/src/record.rs:177-246 | The order of strings is decided by the first byte that differs, a proper prefix first. |
| WireRecord.PinnedIsValidate | crates/blindplane-wire/src/record.rs:103-147 | Pinned validation is validation with only that signer allowed, error for error. |
| WireHead.FreshnessHead.Start | crates/blindplane-wire/src/head.rs:37-40 | A head at exactly the validated record. |
| WireHead.FreshnessHead.VerifyCurrent | crates/blindplane-wire/src/head.rs:43-74 | Accepts a valid record exactly when every checkpoint field matches. |
| WireHead.FreshnessHead.Advance | crates/blindplane-wire/src/head.rs:77-94 | Moves to the record if it is the expected successor; otherwise the head is unchanged. |
| WireHead.AdvanceRaises | crates/blindplane-wire/src/head.rs:77-94 | A step never lowers version or epoch, and raises the revision if and only if it was below 2^64 - 1. |
| WireHead.AdvanceMeaning | crates/blindplane-wire/src/head.rs:77-94 | A head advances if and only if the record is valid, of its own object and signer, bound to its hash, of the next revision (or still the last one) and of no lower version or epoch. |
| WireHead.AdvanceStalls | crates/blindplane-wire/src/head.rs:83-87 | At revision 2^64 - 1 the saturating sum lets a record of the same revision through. |
| WireHead.CurrentIsUnique | crates/blindplane-wire/src/head.rs:63-74 | Unless SHA-256 collides on the two, only the very record the head was taken from is current. |
| WireHead.PredecessorIsUnique | crates/blindplane-wire/src/head.rs:77-94 | Unless SHA-256 collides on the two, a record is a successor of one record only. |
| RelayStore.MemoryStore.Put | crates/blindplane-relay/src/store.rs:48-118 | A write is accepted if and only if the record is well formed, verifies and is pinned, and, over a stored record, is of a later version or of the same version and a later manifest revision. The index agrees with the records again; a refused write changes neither. |
| RelayStore.PutMeaning | crates/blindplane-relay/src/store.rs:48-118 | The answer and the records after a write in the same terms, with the receipt and each refusal. |
| RelayStore.IndexDetermined | crates/blindplane-relay/src/store.rs:33-38 | At most one index agrees with a set of records, so keeping the agreement fixes the index. |
| RelayStore.Reindexed | crates/blindplane-relay/src/store.rs:85-115 | Removing the replaced record's entries and inserting the new one's restores the agreement. |
| RelayStore.MemoryStore.RemoveEntries | crates/blindplane-relay/src/store.rs:85-100 | Removes the key under exactly the old record's entries and leaves no empty set. |
| RelayStore.MemoryStore.InsertEntries | crates/blindplane-relay/src/store.rs:102-114 | Inserts the key under exactly the new record's entries. |
| RelayStore.MemoryStore.Get | crates/blindplane-relay/src/store.rs:121-129 | The stored record, or not found. |
| RelayStore.MemoryStore.Search | crates/blindplane-relay/src/store.rs:136-151 | Exactly the records of that tenant that hold an index with that label, key epoch and token, once each, in the order of object and field. |
| Relay.StepForward | crates/blindplane-relay/src/store.rs:61-76 | An accepted write replaces one key's record by one of a later version, or of the same version and a later manifest revision, and touches nothing else; a refused one touches nothing. |
| Relay.Monotone | crates/blindplane-relay/src/store.rs:61-115 | In every run keys never disappear, versions never go down, and a record is only replaced by one later in (version, manifest revision). |
| Relay.StrictlyForward | crates/blindplane-relay/src/store.rs:61-115 | Every accepted write moves its key strictly forward past all it held before. |
| Relay.ReadsBackBytes | crates/blindplane-relay/src/relay.rs:33-47 | After an accepted encoded write the key reads back the same bytes until the next accepted write to it. |
| Relay.Server.PutEncoded | crates/blindplane-relay/src/relay.rs:33-42 | Decodes, checks the route against the record's own context, and writes: accepted if and only if the bytes decode to a pinned record of that route later than the stored one; a refusal changes nothing. |
| Relay.Server.GetEncoded | crates/blindplane-relay/src/relay.rs:45-47 | The encoding of the stored record, or not found. |
| Relay.Server.SearchEncoded | crates/blindplane-relay/src/relay.rs:50-62 | The encodings of exactly the records of that tenant that hold such an index, in the order of object and field. |
| Sorting.SortSorts | crates/blindplane-core/src/sealing.rs:29-41 | The sort permutes into (identifier, epoch) order. |
| Sorting.AdjacentIsDuplicate | crates/blindplane-core/src/sealing.rs:33-47 | After sorting, equal neighbours exist exactly when there is a duplicate, and otherwise the order is strict. |
| Sealing.Seal | crates/blindplane-core/src/sealing.rs:19-82 | Refuses duplicates wherever they stand in the input. It succeeds if and only if the inputs are in range, no key is there twice and no primitive refuses; then the record holds the same recipients and indexes, strictly ordered, each with its wrapped secret, signed, at revision 1. |
| Sealing.PreflightMeaning | crates/blindplane-core/src/derive.rs:105-153 | The preflight passes exactly when every label, count, epoch and version is in range and every recipient key matches its fingerprint. |
| Sealing.SealedIsGenesis | crates/blindplane-core/src/sealing.rs:60-82 | A sealed record is the first of a chain. |
| Sealing.SealedMeaning | crates/blindplane-core/src/sealing.rs:49-82 | A sealed record field by field: the encrypted payload, one envelope for each recipient with the secret wrapped for it, both lists strictly increasing, and the author's signature over all of it. |
| Sealing.PreflightErrors | crates/blindplane-core/src/derive.rs:105-153 | Each refusal of the preflight and its condition, in the order of the checks. |
| Sealing.FindMeaning | crates/blindplane-wire/src/record.rs:249-260 | The envelope opened is the first of exactly the granting recipient, its key epoch and fingerprint. |
| Sealing.OwnIsValid | crates/blindplane-core/src/derive.rs:196-213 | For a record the author just signed, checking shape and pin is as good as full validation, if signatures verify. |
| Sealing.GrantRecipient | crates/blindplane-core/src/sealing.rs:172-212 | The child is the parent with one more envelope, bound to the parent's hash, one revision on; an existing recipient is refused. It succeeds if and only if the parent is valid, below the last revision and of a hash other than zero, there is room for a recipient in range, and no primitive refuses. |
| Sealing.Rekey | crates/blindplane-core/src/sealing.rs:220-257 | The child keeps the identity, raises version and epoch, and holds exactly the remaining recipients and new indexes. Its schema version is the larger of the two. It succeeds if and only if the next context follows, the parent is valid, opens, is below the last revision and of a hash other than zero, and sealing succeeds. |
| Sealing.GrantLinks | crates/blindplane-core/src/sealing.rs:172-212 | A successful grant is a chain link. |
| Sealing.RekeyLinks | crates/blindplane-core/src/sealing.rs:220-257 | A successful rekey is a chain link. |
| RecordChain.ChainRevisions | crates/blindplane-core/src/sealing.rs:172-257 | Along a chain every record is valid under the author's pin and record i has revision i + 1. |
| RecordChain.ChainMonotone | crates/blindplane-core/src/sealing.rs:172-257 | Versions and epochs never go down along a chain. |
| RecordChain.HeadAcceptsChild | crates/blindplane-wire/src/head.rs:77-94 | A head at the parent accepts the child. |
| RecordChain.RelayAcceptsChild | crates/blindplane-relay/src/store.rs:61-76 | A relay that stores the parent accepts the child over it. |
| RecordChain.HeadAcceptsOnlyNext | crates/blindplane-wire/src/head.rs:77-94 | While there is a next revision, a head at record i accepts record j of its chain if and only if j = i + 1. |
| RecordChain.HeadIsCurrentOnlyAtItself | crates/blindplane-wire/src/head.rs:43-74 | And takes record j as current if and only if j = i. |
| RecordChain.RelayFollowsChain | crates/blindplane-relay/src/store.rs:48-118 | A relay given a chain in order accepts every record and ends holding the last. |
| RecordChain.RelayRefusesReplay | crates/blindplane-relay/src/store.rs:61-76 | It refuses any record of the chain up to the one it holds as stale. |

## Left out

- Constant-time behaviour, `secure_erase`, `Drop`, `black_box` and CPU feature detection.
- `chacha/neon.rs`, the ARM SHA files and the AES key schedule: CPU intrinsics. In GHASH and GCM each intrinsic is its lane function.
- SHA-512, SHA-256, BLAKE2b and the Argon2 block mix: parameters here.
- `hchacha20` and the XChaCha nonce split: straight-line code around the modelled quarter round.
- `public_key` and `diffie_hellman` of montgomery.rs: one ladder each, and a check for an all-zero result.
- HPKE, HKDF, the vault, password strings, base64 and hex codecs, and `simple::Key`.
- `Fe::conditional_swap` and `Fe::select`: their masked limb loops are modelled as the choice they make.
- Cryptographic hardness, and the completeness of the Edwards addition law.
- The `std` caches of the two base point tables: a table is rebuilt where the code would reuse it.
- The sort in sealing.rs is the library's; the model is an insertion sort with the same contract.
- Locks: each `put` and `search` is one atomic step. `seal_batch` is not modelled.
- HTTP adapters, examples, CLI, benches and docs/research/lab.
- Gcm.Seal: requires fewer than 2^36 bytes; from there on a plain counter addition overflows, which depends on the build (`Gcm.CounterFitsExactly`).
- Gcm.ApplyCtr: requires fewer than 2^36 bytes, for the same reason.
- Gcm.Open: requires fewer than 2^36 bytes, for the same reason.
- Scalar.MulAdd: requires a reduced addend, as every `Scalar` of the crate is.
- EdwardsMul.DoubleScalarMul: requires reduced scalars, as every `Scalar` of the crate is.
- Ed25519.VerifyStrict: stated for the group the curve is interpreted in, under the hypotheses above.
- WireEncode.SignedInjective: requires list lengths and the context encoding's length to be 64-bit numbers.
