/** The imperative decoders of the storage formats: a cursor whose offset advances, and the
    methods that read records, manifests and commits through it. Each is proved against the
    pure decoder of StorageFormat, of which the round-trip laws are proved. */
module StorageCursor {
  import opened Wire
  import opened StorageFormat

  /** `r` and the remaining input are what the prefix parser's outcome `p` says. */
  ghost predicate Agrees<T(!new)>(p: Parsed<T>, r: Result<T, StorageError>, rest: Bytes) {
    match p
    case NoParse => r == Err(IntegrityFailure)
    case Parsed(value, after) => r == Ok(value) && rest == after
  }

  class Cursor {
    const data: Bytes
    var offset: nat

    ghost predicate Valid()
      reads this
    {
      offset <= |data|
    }

    ghost function Rest(): Bytes
      requires Valid()
      reads this
    {
      data[offset..]
    }

    constructor (data: Bytes)
      ensures Valid() && this.data == data && offset == 0 && Rest() == data
    {
      this.data := data;
      offset := 0;
    }

    function Remaining(): (n: nat)
      requires Valid()
      reads this
      ensures n == |Rest()|
    {
      |data| - offset
    }

    /** Advances over `count` bytes, or fails without moving. */
    method TakeBytes(count: nat) returns (r: Result<Bytes, StorageError>)
      requires Valid()
      modifies this
      ensures Valid()
      ensures match Take(old(Rest()), count)
        case NoParse => r == Err(IntegrityFailure) && offset == old(offset)
        case Parsed(value, rest) => r == Ok(value) && Rest() == rest
    {
      var end := offset + count;
      if end > |data| {
        return Err(IntegrityFailure);
      }
      var value := data[offset..end];
      assert value == Rest()[..count] && data[end..] == Rest()[count..];
      offset := end;
      return Ok(value);
    }

    /** A little-endian integer of `width` bytes (the source's u16, u32 and u64). */
    method Integer(width: nat) returns (r: Result<nat, StorageError>)
      requires Valid()
      modifies this
      ensures Valid()
      ensures Agrees(TakeLe(old(Rest()), width), r, Rest())
    {
      var raw :- TakeBytes(width);
      return Ok(LeValue(raw));
    }

    /** A length-prefixed identifier, rejected unless every byte is an identifier byte. */
    method Text() returns (r: Result<Bytes, StorageError>)
      requires Valid()
      modifies this
      ensures Valid()
      ensures match TakeText16(old(Rest()))
        case NoParse => r == Err(IntegrityFailure)
        case Parsed(value, rest) =>
          if ValidId(value) then r == Ok(value) && Rest() == rest else r == Err(IntegrityFailure)
    {
      var length :- Integer(2);
      var raw :- TakeBytes(length);
      if !ValidId(raw) {
        return Err(IntegrityFailure);
      }
      return Ok(raw);
    }
  }

  method ReadNames(cursor: Cursor) returns (r: Result<(nat, Bytes, Bytes), StorageError>)
    requires cursor.Valid()
    modifies cursor
    ensures cursor.Valid()
    ensures var p := TakeNames(old(cursor.Rest()));
      if p.Parsed? && !(ValidId(p.value.1) && ValidId(p.value.2)) then r == Err(IntegrityFailure)
      else Agrees(p, r, cursor.Rest())
  {
    var formatVersion :- cursor.Integer(2);
    var storeId :- cursor.Text();
    var fileId :- cursor.Text();
    return Ok((formatVersion, storeId, fileId));
  }

  method ReadSlot(cursor: Cursor) returns (r: Result<(nat, RecordKind, nat, nat), StorageError>)
    requires cursor.Valid()
    modifies cursor
    ensures cursor.Valid()
    ensures Agrees(TakeSlot(old(cursor.Rest())), r, cursor.Rest())
  {
    var generation :- cursor.Integer(8);
    var rawKind :- cursor.TakeBytes(1);
    var kind := KindOf(rawKind[0]);
    if kind.None? {
      return Err(IntegrityFailure);
    }
    var chunkIndex :- cursor.Integer(8);
    var plaintextLength :- cursor.Integer(8);
    return Ok((generation, kind.value, chunkIndex, plaintextLength));
  }

  method ReadHeader(cursor: Cursor) returns (r: Result<Header, StorageError>)
    requires cursor.Valid()
    modifies cursor
    ensures cursor.Valid()
    ensures var p := TakeHeader(old(cursor.Rest()));
      if p.Parsed? && !(ValidId(p.value.storeId) && ValidId(p.value.fileId)) then r == Err(IntegrityFailure)
      else Agrees(p, r, cursor.Rest())
  {
    var names :- ReadNames(cursor);
    var slot :- ReadSlot(cursor);
    return Ok(Header(names.0, names.1, names.2, slot.0, slot.1, slot.2, slot.3));
  }

  method ReadSealed(cursor: Cursor) returns (r: Result<(Bytes, Bytes), StorageError>)
    requires cursor.Valid()
    modifies cursor
    ensures cursor.Valid()
    ensures Agrees(TakeSealed(old(cursor.Rest())), r, cursor.Rest())
  {
    var nonce :- cursor.TakeBytes(NONCE_LENGTH);
    var length :- cursor.Integer(8);
    if length > MAX_CIPHERTEXT || cursor.Remaining() != length {
      return Err(IntegrityFailure);
    }
    ghost var tail := cursor.Rest();
    var ciphertext := cursor.TakeBytes(length);
    assert tail[..length] == tail && tail[length..] == [];
    return Ok((nonce, ciphertext.value));
  }

  method ReadRecord(bytes: Bytes) returns (r: Result<Record, StorageError>)
    ensures r == DecodeRecord(bytes)
  {
    var cursor := new Cursor(bytes);
    var magic :- cursor.TakeBytes(4);
    if magic != MAGIC {
      return Err(IntegrityFailure);
    }
    var header :- ReadHeader(cursor);
    var body :- ReadSealed(cursor);
    return Ok(Record(header, body.0, body.1));
  }

  method ReadLengths(cursor: Cursor, count: nat) returns (lengths: seq<nat>)
    requires cursor.Valid() && |cursor.Rest()| == 8 * count
    modifies cursor
    ensures cursor.Valid()
    ensures TakeLengths(old(cursor.Rest()), count) == Parsed(lengths, cursor.Rest())
  {
    hide TakeLe;
    ghost var start := cursor.Rest();
    lengths := [];
    assert TakeLengths(start, count).Parsed?
        ==> [] + TakeLengths(start, count).value == TakeLengths(start, count).value;
    for i := 0 to count
      invariant cursor.Valid() && |cursor.Rest()| == 8 * (count - i)
      invariant match TakeLengths(cursor.Rest(), count - i)
        case NoParse => TakeLengths(start, count) == NoParse
        case Parsed(value, rest) => TakeLengths(start, count) == Parsed(lengths + value, rest)
    {
      ghost var before := cursor.Rest();
      TakeLeSound(before, 8);
      var next := cursor.Integer(8);
      assert next.Ok?;
      assert TakeLengths(cursor.Rest(), count - i - 1).Parsed? ==>
          lengths + TakeLengths(before, count - i).value ==
          (lengths + [next.value]) + TakeLengths(cursor.Rest(), count - i - 1).value;
      lengths := lengths + [next.value];
    }
    assert lengths + [] == lengths;
  }

  method ReadSizes(cursor: Cursor) returns (r: Result<(nat, seq<nat>), StorageError>)
    requires cursor.Valid()
    modifies cursor
    ensures cursor.Valid()
    ensures Agrees(TakeSizes(old(cursor.Rest())), r, cursor.Rest())
  {
    var logicalLength :- cursor.Integer(8);
    var count :- cursor.Integer(4);
    if count > MAX_CHUNKS || cursor.Remaining() != 8 * count {
      return Err(IntegrityFailure);
    }
    var lengths := ReadLengths(cursor, count);
    return Ok((logicalLength, lengths));
  }

  method ReadManifest(bytes: Bytes) returns (r: Result<ManifestData, StorageError>)
    ensures r == DecodeManifest(bytes)
  {
    if !(MANIFEST_PREFIX <= bytes) {
      assert Take(bytes, |MANIFEST_PREFIX|).Parsed? ==> Take(bytes, |MANIFEST_PREFIX|).value != MANIFEST_PREFIX;
      return Err(IntegrityFailure);
    }
    assert Take(bytes, |MANIFEST_PREFIX|).value == MANIFEST_PREFIX;
    var cursor := new Cursor(bytes[|MANIFEST_PREFIX|..]);
    var generation :- cursor.Integer(8);
    var fileId :- cursor.Text();
    var sizes :- ReadSizes(cursor);
    return Ok(ManifestData(generation, fileId, sizes.0, sizes.1));
  }

  method ReadCommit(bytes: Bytes) returns (r: Result<CommitData, StorageError>)
    ensures r == DecodeCommit(bytes)
  {
    var cursor := new Cursor(bytes);
    var generation :- cursor.Integer(8);
    var fileId :- cursor.Text();
    if cursor.Remaining() != 0 {
      return Err(IntegrityFailure);
    }
    return Ok(CommitData(generation, fileId));
  }

  /** The manifest encoder's loop: one eight-byte length at a time. */
  method WriteLengths(lengths: seq<nat>) returns (out: Bytes)
    ensures out == LengthsBytes(lengths)
  {
    out := [];
    assert lengths[0..] == lengths;
    for i := 0 to |lengths|
      invariant LengthsBytes(lengths) == out + LengthsBytes(lengths[i..])
    {
      assert lengths[i..][1..] == lengths[i + 1..];
      out := out + Le(lengths[i], 8);
    }
    assert out + [] == out;
  }

  method WriteManifest(m: ManifestData) returns (r: Result<Bytes, StorageError>)
    ensures r == EncodeManifest(m)
  {
    if |m.fileId| >= U16 || |m.chunkLengths| >= U32 {
      return Err(IntegrityFailure);
    }
    var lengths := WriteLengths(m.chunkLengths);
    var sizes := Le(m.logicalLength, 8) + (Le(|m.chunkLengths|, 4) + lengths);
    return Ok(MANIFEST_PREFIX + (Le(m.generation, 8) + Text16Then(m.fileId, sizes)));
  }
}
