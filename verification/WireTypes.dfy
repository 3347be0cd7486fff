/** The record, its parts, and the errors of keyless validation (blindplane-wire). */
module WireTypes {
  import opened Bytes

  type U16 = n: int | 0 <= n < 0x1_0000
  type U32 = n: int | 0 <= n < 0x1_0000_0000
  type U64 = n: int | 0 <= n < 0x1_0000_0000_0000_0000
  const U64_MAX: U64 := 0xffff_ffff_ffff_ffff

  /** `usize` on the 64-bit targets the crate supports. */
  type Usize = U64

  type Vec = s: seq<u8> | |s| < 0x1_0000_0000_0000_0000
  type Bytes16 = s: seq<u8> | |s| == 16 witness seq(16, _ => 0)
  type Bytes32 = s: seq<u8> | |s| == 32 witness seq(32, _ => 0)
  const ZERO32: Bytes32 :=
    [0, 0, 0, 0, 0, 0, 0, 0, 0, 0, 0, 0, 0, 0, 0, 0, 0, 0, 0, 0, 0, 0, 0, 0, 0, 0, 0, 0, 0, 0, 0, 0]

  predicate Continuation(b: u8) {
    0x80 <= b < 0xc0
  }

  /** Well-formed UTF-8 (section 3.9 of the Unicode Standard, table 3-7). */
  predicate ValidUtf8(s: seq<u8>)
    decreases |s|
  {
    if s == [] then true
    else if s[0] < 0x80 then ValidUtf8(s[1..])
    else if |s| >= 2 && 0xc2 <= s[0] < 0xe0 && Continuation(s[1]) then ValidUtf8(s[2..])
    else if |s| >= 3 && 0xe0 <= s[0] < 0xf0 && SecondOfThree(s[0], s[1]) && Continuation(s[2]) then ValidUtf8(s[3..])
    else if |s| >= 4 && 0xf0 <= s[0] < 0xf5 && SecondOfFour(s[0], s[1]) && Continuation(s[2]) && Continuation(s[3])
    then ValidUtf8(s[4..])
    else false
  }

  /** No overlong form and no surrogate. */
  predicate SecondOfThree(first: u8, second: u8) {
    Continuation(second) && (first == 0xe0 ==> second >= 0xa0) && (first == 0xed ==> second < 0xa0)
  }

  /** No overlong form and nothing above U+10FFFF. */
  predicate SecondOfFour(first: u8, second: u8) {
    Continuation(second) && (first == 0xf0 ==> second >= 0x90) && (first == 0xf4 ==> second < 0x90)
  }

  /** A string, held as the UTF-8 bytes it is. */
  type Text = s: Vec | ValidUtf8(s) witness []

  const FORMAT_VERSION: U16 := 1
  const TAG_LEN: nat := 16
  const X25519_KEY_LEN: nat := 32
  const WRAPPED_DEK_LEN: nat := 48

  datatype Suite = Aes256Gcm | XChaCha20Poly1305 | ChaCha20Poly1305 {
    function Code(): u8 {
      match this
      case Aes256Gcm => 1
      case XChaCha20Poly1305 => 2
      case ChaCha20Poly1305 => 3
    }

    function NonceLen(): nat {
      if XChaCha20Poly1305? then 24 else 12
    }
  }

  datatype RecordContext = RecordContext(tenant: Text, objectId: Text, field: Text, epoch: U64, version: U64,
                                         schemaVersion: U32)

  datatype RecipientEnvelope = RecipientEnvelope(recipientId: Text, keyEpoch: U64, recipientKeyId: Bytes32,
                                                 encapsulatedKey: Vec, wrappedDek: Vec)

  datatype BlindIndex = BlindIndex(indexLabel: Text, schemaVersion: U32, canonicalizerId: Text,
                                   canonicalizerVersion: U16,
                                   keyEpoch: U64, token: Bytes16)

  datatype SealedRecord = SealedRecord(
    formatVersion: U16,
    suite: Suite,
    context: RecordContext,
    manifestRevision: U64,
    previousManifestHash: Bytes32,
    keyCommitment: Bytes32,
    nonce: Vec,
    ciphertext: Vec,
    recipients: seq<RecipientEnvelope>,
    indexes: seq<BlindIndex>,
    signerPublicKey: Bytes32,
    signature: Vec)

  datatype ValidationPolicy = ValidationPolicy(maxCiphertextBytes: Usize, maxRecipients: Usize, maxIndexes: Usize,
                                               maxIdentifierBytes: Usize, allowedSigners: set<Bytes32>) {
    /** The most bytes any length prefix may announce. */
    function Limit(): nat {
      if maxCiphertextBytes < 4096 then 4096 else maxCiphertextBytes
    }
  }

  /** The primitives the wire layer calls: strict Ed25519 verification and SHA-256. */
  datatype Crypto = Crypto(verify: (Bytes32, seq<u8>, seq<u8>) -> bool, sha256: seq<u8> -> Bytes32)

  datatype WireError =
    | UnsupportedFormat(version: nat)
    | IdentifierLength(length: nat)
    | InvalidVersion
    | InvalidManifestChain
    | InvalidKeyEpoch
    | InvalidIndexDefinition
    | InvalidNonceLength(expected: nat, actual: nat)
    | CiphertextSize(size: nat)
    | RecipientCount(count: nat)
    | NonCanonicalRecipients
    | InvalidEncapsulatedKeyLength(length: nat)
    | InvalidWrappedDekLength(length: nat)
    | IndexCount(count: nat)
    | NonCanonicalIndexes
    | InvalidSignature
    | InvalidSignatureLength(length: nat)
    | UntrustedSigner
    | NoTrustedSigners
    | RollbackDetected
    | Truncated
    | TrailingBytes
    | LengthLimit(length: nat)
    | NonCanonicalEncoding
    | InvalidUtf8

  datatype Result<+T> = Ok(value: T) | Err(error: WireError) {
    predicate IsFailure() {
      Err?
    }

    function PropagateFailure<U>(): Result<U>
      requires Err?
    {
      Err(error)
    }

    function Extract(): T
      requires Ok?
    {
      value
    }
  }
}
