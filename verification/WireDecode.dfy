/** The cursor and the decoder (encode.rs), proved against the parser on remaining bytes. */
module WireDecode {
  import opened Bytes
  import opened WireTypes
  import opened WireEncode
  import opened WireParse
  import opened WireRecord

  const USIZE_MAX: nat := 0xffff_ffff_ffff_ffff

  /** A step of the cursor does what the parser does on the bytes that remained. */
  ghost predicate Follows<T>(spec: Result<Parsed<T>>, r: Result<T>, rest: seq<u8>) {
    match spec
    case Ok(Parsed(value, t)) => r == Ok(value) && rest == t
    case Err(e) => r == Err(e)
  }

  /** A bounds-checked reader over an untrusted encoding. */
  class Cursor {
    const bytes: Vec
    var offset: nat

    ghost predicate Valid()
      reads this
    {
      offset <= |bytes|
    }

    ghost function Remaining(): seq<u8>
      requires Valid()
      reads this
    {
      bytes[offset..]
    }

    constructor (bytes: Vec)
      ensures Valid() && this.bytes == bytes && Remaining() == bytes
    {
      this.bytes := bytes;
      offset := 0;
    }

    function IsEmpty(): (r: bool)
      requires Valid()
      reads this
      ensures r <==> Remaining() == []
    {
      offset == |bytes|
    }

    /** The end is computed with a checked addition. */
    method TakeExact(len: nat) returns (r: Result<seq<u8>>)
      requires Valid()
      modifies this`offset
      ensures Valid() && Follows(ParseExact(old(Remaining()), len), r, Remaining())
      ensures r == if len <= |old(Remaining())| then Ok(old(Remaining())[..len]) else Err(Truncated)
      ensures Remaining() == if r.Ok? then old(Remaining())[len..] else old(Remaining())
      ensures r.Err? ==> offset == old(offset)
    {
      if offset + len > USIZE_MAX {
        return Err(Truncated);
      }
      var end := offset + len;
      if end > |bytes| {
        return Err(Truncated);
      }
      var slice := bytes[offset..end];
      ghost var before := bytes[offset..];
      assert before[..len] == slice && before[len..] == bytes[end..];
      offset := end;
      return Ok(slice);
    }

    method TakeU8() returns (r: Result<u8>)
      requires Valid()
      modifies this`offset
      ensures Valid() && Follows(ParseNum(old(Remaining()), 1), r, Remaining())
    {
      hide BytePow;
      var b :- TakeExact(1);
      Widths();
      BeBound(b);
      return Ok(BeVal(b));
    }

    method TakeU16() returns (r: Result<U16>)
      requires Valid()
      modifies this`offset
      ensures Valid() && Follows(ParseU16(old(Remaining())), r, Remaining())
    {
      hide BytePow;
      var b :- TakeExact(2);
      Widths();
      BeBound(b);
      return Ok(BeVal(b));
    }

    method TakeU32() returns (r: Result<U32>)
      requires Valid()
      modifies this`offset
      ensures Valid() && Follows(ParseU32(old(Remaining())), r, Remaining())
    {
      hide BytePow;
      var b :- TakeExact(4);
      Widths();
      BeBound(b);
      return Ok(BeVal(b));
    }

    method TakeU64() returns (r: Result<U64>)
      requires Valid()
      modifies this`offset
      ensures Valid() && Follows(ParseU64(old(Remaining())), r, Remaining())
    {
      hide BytePow;
      var b :- TakeExact(8);
      Widths();
      BeBound(b);
      return Ok(BeVal(b));
    }

    method TakeArray32() returns (r: Result<Bytes32>)
      requires Valid()
      modifies this`offset
      ensures Valid() && Follows(Parse32(old(Remaining())), r, Remaining())
    {
      var b :- TakeExact(32);
      return Ok(b);
    }

    /** A length above the policy's limit is refused before that many bytes are touched. */
    method TakeBytes(p: ValidationPolicy) returns (r: Result<Vec>)
      requires Valid()
      modifies this`offset
      ensures Valid() && Follows(ParseBytes(old(Remaining()), p), r, Remaining())
    {
      hide ParseU64;
      var len :- TakeU64();
      if len > p.Limit() {
        return Err(LengthLimit(len));
      }
      var b :- TakeExact(len);
      return Ok(b);
    }

    method TakeString(p: ValidationPolicy) returns (r: Result<Text>)
      requires Valid()
      modifies this`offset
      ensures Valid() && Follows(ParseText(old(Remaining()), p), r, Remaining())
    {
      hide ParseBytes, ValidUtf8;
      var b :- TakeBytes(p);
      if |b| > p.maxIdentifierBytes {
        return Err(IdentifierLength(|b|));
      }
      if !ValidUtf8(b) {
        return Err(InvalidUtf8);
      }
      return Ok(b);
    }

    method TakeLen(max: nat) returns (r: Result<nat>)
      requires Valid()
      modifies this`offset
      ensures Valid() && Follows(ParseCount(old(Remaining()), max), r, Remaining())
    {
      hide ParseU64;
      var n :- TakeU64();
      if n > max {
        return Err(LengthLimit(n));
      }
      return Ok(n);
    }

    method TakeSuite() returns (r: Result<Suite>)
      requires Valid()
      modifies this`offset
      ensures Valid() && Follows(ParseSuite(old(Remaining())), r, Remaining())
    {
      hide ParseNum;
      var code :- TakeU8();
      match code
      case 1 => return Ok(Aes256Gcm);
      case 2 => return Ok(XChaCha20Poly1305);
      case 3 => return Ok(ChaCha20Poly1305);
      case _ => return Err(UnsupportedFormat(code));
    }

    method TakeEnvelope(p: ValidationPolicy) returns (r: Result<RecipientEnvelope>)
      requires Valid()
      modifies this`offset
      ensures Valid() && Follows(ParseEnvelope(old(Remaining()), p), r, Remaining())
    {
      hide ParseText, ParseU64, Parse32, ParseBytes, ValidUtf8;
      var recipientId :- TakeString(p);
      var keyEpoch :- TakeU64();
      var recipientKeyId :- TakeArray32();
      var encapsulatedKey :- TakeBytes(p);
      var wrappedDek :- TakeBytes(p);
      return Ok(RecipientEnvelope(recipientId, keyEpoch, recipientKeyId, encapsulatedKey, wrappedDek));
    }

    method TakeIndex(p: ValidationPolicy) returns (r: Result<BlindIndex>)
      requires Valid()
      modifies this`offset
      ensures Valid() && Follows(ParseIndex(old(Remaining()), p), r, Remaining())
    {
      hide ParseText, ParseU64, ParseU32, ParseU16, ValidUtf8;
      var indexLabel :- TakeString(p);
      var schemaVersion :- TakeU32();
      var canonicalizerId :- TakeString(p);
      var canonicalizerVersion :- TakeU16();
      var keyEpoch :- TakeU64();
      var token :- TakeExact(16);
      return Ok(BlindIndex(indexLabel, schemaVersion, canonicalizerId, canonicalizerVersion, keyEpoch, token));
    }

    method TakeContextFields(p: ValidationPolicy) returns (r: Result<RecordContext>)
      requires Valid()
      modifies this`offset
      ensures Valid() && Follows(ParseContextFields(old(Remaining()), p), r, Remaining())
    {
      hide ParseText, ParseU64, ParseU32, ValidUtf8;
      var tenant :- TakeString(p);
      var objectId :- TakeString(p);
      var field :- TakeString(p);
      var epoch :- TakeU64();
      var version :- TakeU64();
      var schemaVersion :- TakeU32();
      return Ok(RecordContext(tenant, objectId, field, epoch, version, schemaVersion));
    }

    /** The whole of a context encoding. */
    method TakeContext(p: ValidationPolicy) returns (r: Result<RecordContext>)
      requires Valid()
      modifies this`offset
      ensures r == ParseContext(old(Remaining()), p)
    {
      hide ParseContextFields, ParseBytes, CONTEXT_DOMAIN;
      var domain :- TakeBytes(p);
      if domain != CONTEXT_DOMAIN {
        return Err(UnsupportedFormat(0));
      }
      var context :- TakeContextFields(p);
      if !IsEmpty() {
        return Err(TrailingBytes);
      }
      return Ok(context);
    }

    method TakeFront(p: ValidationPolicy) returns (r: Result<Front>)
      requires Valid()
      modifies this`offset
      ensures Valid() && Follows(ParseFront(old(Remaining()), p), r, Remaining())
    {
      hide ParseU16, ParseBytes, ParseSuite, ParseContext, SIGNATURE_DOMAIN;
      var domain :- TakeBytes(p);
      if domain != SIGNATURE_DOMAIN {
        return Err(UnsupportedFormat(0));
      }
      var formatVersion :- TakeU16();
      if formatVersion != FORMAT_VERSION {
        return Err(UnsupportedFormat(formatVersion));
      }
      var suite :- TakeSuite();
      var contextBytes :- TakeBytes(p);
      var context :- DecodeContext(contextBytes, p);
      return Ok(Front(formatVersion, suite, context));
    }

    method TakeBody(p: ValidationPolicy) returns (r: Result<Body>)
      requires Valid()
      modifies this`offset
      ensures Valid() && Follows(ParseBody(old(Remaining()), p), r, Remaining())
    {
      hide ParseU64, Parse32, ParseBytes;
      var manifestRevision :- TakeU64();
      var previousManifestHash :- TakeArray32();
      var keyCommitment :- TakeArray32();
      var nonce :- TakeBytes(p);
      var ciphertext :- TakeBytes(p);
      return Ok(Body(manifestRevision, previousManifestHash, keyCommitment, nonce, ciphertext));
    }

    method TakeLists(p: ValidationPolicy) returns (r: Result<Lists>)
      requires Valid()
      modifies this`offset
      ensures Valid() && Follows(ParseLists(old(Remaining()), p), r, Remaining())
    {
      hide ParseCount, ParseEnvelopes, ParseIndexes, Parse32;
      var recipientCount :- TakeLen(p.maxRecipients);
      var recipients :- TakeEnvelopes(recipientCount, p);
      var indexCount :- TakeLen(p.maxIndexes);
      var indexes :- TakeIndexes(indexCount, p);
      var signerPublicKey :- TakeArray32();
      return Ok(Lists(recipients, indexes, signerPublicKey));
    }

    /** The lists and the signature, and nothing after them. */
    method TakeRest(front: Front, body: Body, p: ValidationPolicy) returns (r: Result<SealedRecord>)
      requires Valid()
      modifies this`offset
      ensures r == ParseRest(front, body, old(Remaining()), p)
    {
      hide ParseLists, ParseBytes, Assemble;
      var lists :- TakeLists(p);
      var signature :- TakeBytes(p);
      if !IsEmpty() {
        return Err(TrailingBytes);
      }
      return Ok(Assemble(front, body, lists, signature));
    }

    /** The whole of a record's encoding. */
    method TakeRecord(p: ValidationPolicy) returns (r: Result<SealedRecord>)
      requires Valid()
      modifies this`offset
      ensures r == ParseRecord(old(Remaining()), p)
    {
      hide ParseFront, ParseBody, ParseRest;
      var front :- TakeFront(p);
      var body :- TakeBody(p);
      r := TakeRest(front, body, p);
    }

    /** The recipient loop. */
    method TakeEnvelopes(n: nat, p: ValidationPolicy) returns (r: Result<seq<RecipientEnvelope>>)
      requires Valid()
      modifies this`offset
      ensures Valid() && Follows(ParseEnvelopes(old(Remaining()), n, p), r, Remaining())
    {
      hide ParseEnvelope;
      var recipients: seq<RecipientEnvelope> := [];
      ghost var spec := ParseEnvelopes(Remaining(), n, p);
      NothingBefore(spec);
      for i := 0 to n
        invariant Valid()
        invariant spec == Prepend(recipients, ParseEnvelopes(Remaining(), n - i, p))
      {
        ghost var before := Remaining();
        var envelope :- TakeEnvelope(p);
        OneMore(recipients, envelope, ParseEnvelopes(Remaining(), n - i - 1, p));
        recipients := recipients + [envelope];
      }
      assert recipients + [] == recipients;
      return Ok(recipients);
    }

    /** The index loop. */
    method TakeIndexes(n: nat, p: ValidationPolicy) returns (r: Result<seq<BlindIndex>>)
      requires Valid()
      modifies this`offset
      ensures Valid() && Follows(ParseIndexes(old(Remaining()), n, p), r, Remaining())
    {
      hide ParseIndex;
      var indexes: seq<BlindIndex> := [];
      ghost var spec := ParseIndexes(Remaining(), n, p);
      NothingBefore(spec);
      for i := 0 to n
        invariant Valid()
        invariant spec == Prepend(indexes, ParseIndexes(Remaining(), n - i, p))
      {
        var index :- TakeIndex(p);
        OneMore(indexes, index, ParseIndexes(Remaining(), n - i - 1, p));
        indexes := indexes + [index];
      }
      assert indexes + [] == indexes;
      return Ok(indexes);
    }
  }

  /** What the elements read so far make of the rest of the list. */
  ghost function Prepend<T>(front: seq<T>, rest: Result<Parsed<seq<T>>>): Result<Parsed<seq<T>>> {
    match rest
    case Ok(Parsed(xs, t)) => Ok(Parsed(front + xs, t))
    case Err(e) => Err(e)
  }

  lemma NothingBefore<T>(spec: Result<Parsed<seq<T>>>)
    ensures Prepend([], spec) == spec
  {
    if spec.Ok? {
      assert [] + spec.value.value == spec.value.value;
    }
  }

  lemma OneMore<T>(front: seq<T>, x: T, rest: Result<Parsed<seq<T>>>)
    ensures Prepend(front + [x], rest) == Prepend(front, Prepend([x], rest))
  {
    if rest.Ok? {
      assert (front + [x]) + rest.value.value == front + ([x] + rest.value.value);
    }
  }

  method DecodeContext(bytes: Vec, p: ValidationPolicy) returns (r: Result<RecordContext>)
    ensures r == ParseContext(bytes, p)
  {
    hide ParseContext;
    var cursor := new Cursor(bytes);
    r := cursor.TakeContext(p);
  }

  /** Parse, re-encode, and validate the record. */
  method DecodeRecord(c: Crypto, bytes: Vec, p: ValidationPolicy) returns (r: Result<SealedRecord>)
    ensures r == Decode(c, bytes, p)
    ensures r.Ok? ==> bytes == Encode(r.value) && WellFormed(r.value, p)
                      && c.verify(r.value.signerPublicKey, SigningBytes(r.value), r.value.signature)
  {
    hide ParseRecord, Encode, ValidateStructure, WellFormed, SigningBytes, PrefixesWithin;
    var cursor := new Cursor(bytes);
    var record :- cursor.TakeRecord(p);
    if Encode(record) != bytes {
      return Err(NonCanonicalEncoding);
    }
    var _ :- ValidateStructure(c, record, p);
    DecodeIff(c, bytes, p, record);
    return Ok(record);
  }
}
