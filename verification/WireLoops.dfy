/**
 The codec as it runs: encoders collect parts record by record, decoders advance an offset through the buffer. Each
 yields what the function of the wire modules specifies.
 */
module WireLoops {
  import opened Wrappers
  import opened Bytes
  import opened Messages
  import opened WireResponses

  /** A count and then every record, as all list encoders write them. */
  method EncodeRecords<T>(encode: T -> Bytes, xs: seq<T>) returns (out: Bytes)
    ensures out == Counted(encode, xs)
  {
    hide U32Bytes;
    out := U32Bytes(|xs|);
    var i := 0;
    assert EncodeAll(encode, xs[..0]) == [];
    while i < |xs|
      invariant 0 <= i <= |xs|
      invariant out == U32Bytes(|xs|) + EncodeAll(encode, xs[..i])
    {
      EncodeSnoc(encode, xs, i);
      out := out + encode(xs[i]);
      i := i + 1;
    }
    assert xs[..i] == xs;
  }

  lemma EncodeSnoc<T>(encode: T -> Bytes, xs: seq<T>, i: nat)
    requires i < |xs|
    ensures EncodeAll(encode, xs[..i + 1]) == EncodeAll(encode, xs[..i]) + encode(xs[i])
  {
    assert xs[..i + 1] == xs[..i] + [xs[i]];
    EncodeAllAppend(encode, xs[..i], [xs[i]]);
    assert [xs[i]][1..] == [];
  }

  /** Reads a count and then that many records, stopping at the first that cannot be read. */
  method DecodeRecords<T>(decode: (Bytes, nat, nat) -> Parsed<T>, buf: Bytes, start: nat) returns (r: Parsed<seq<T>>)
    ensures r == DecodeCounted(decode, buf, start)
  {
    hide ReadU32;
    var count := ReadU32(buf, start);
    if count.Err? { return Err(count.error); }
    var values, offset: nat, i := [], count.next, 0;
    while i < count.value
      invariant 0 <= i <= count.value
      invariant DecodeAll(decode, buf, count.next, 0, i) == Ok(values, offset)
      decreases count.value - i
    {
      DecodeAllSnoc(decode, buf, count.next, 0, i);
      var record := decode(buf, offset, i);
      if record.Err? {
        FailureEndsList(decode, buf, count.next, i + 1, count.value, record.error);
        return Err(record.error);
      }
      values := values + [record.value];
      offset := record.next;
      i := i + 1;
    }
    r := Ok(values, offset);
  }

  /** A list with an unreadable record is unreadable, for the same reason. */
  lemma {:induction false} FailureEndsList<T>(
    decode: (Bytes, nat, nat) -> Parsed<T>, buf: Bytes, offset: nat, i: nat, n: nat, e: CodecError)
    requires i <= n && DecodeAll(decode, buf, offset, 0, i) == Err(e)
    ensures DecodeAll(decode, buf, offset, 0, n) == Err(e)
    decreases n - i
  {
    if i < n {
      DecodeAllSnoc(decode, buf, offset, 0, i);
      FailureEndsList(decode, buf, offset, i + 1, n, e);
    }
  }

  method EncodeFlags(v: Variable) returns (flags: int)
    ensures flags == VariableFlags(v)
  {
    hide WireType, HasValue;
    flags := 0;
    if v.isChildKey == Some(true) { flags := flags + 1; }
    if v.isConst == Some(true) { flags := flags + 2; }
    if v.isContainer == Some(true) { flags := flags + 4; }
    if v.name.Some? { flags := flags + 8; }
    if v.refCount.Some? { flags := flags + 16; }
    if HasValue(WireType(v.typ)) { flags := flags + 32; }
    if v.isVirtual == Some(true) { flags := flags + 128; }
  }

  /** The flags byte first, then every part that the flags announce. */
  method EncodeVariable(v: Variable) returns (out: Bytes)
    ensures out == VariableBytes(v)
  {
    hide U8Bytes, U32Bytes, ValueBytes, WireType, TableCode, CStr, HasValue, VariableFlags;
    var typ := WireType(v.typ);
    var flags := EncodeFlags(v);
    out := U8Bytes(flags) + U8Bytes(TableCode(typ));
    if v.name.Some? { out := out + CStr(v.name.value); }
    assert out == VariableHeader(v) + NameBytes(v);
    if v.refCount.Some? { out := out + U32Bytes(v.refCount.value); }
    assert out == VariableHeader(v) + NameBytes(v) + RefCountBytes(v);
    if v.isContainer == Some(true) {
      out := out + (U8Bytes(if v.keyType.Some? then TableCode(v.keyType.value) else 0)
                    + U32Bytes(if v.childCount.Some? then v.childCount.value else 0));
    }
    assert out == VariableHeader(v) + NameBytes(v) + RefCountBytes(v) + ContainerBytes(v);
    if HasValue(typ) { out := out + ValueBytes(typ, v.value); }
  }

  /** Reads the flags and then, at an advancing offset, every part that they announce. */
  method DecodeVariableAt(buf: Bytes, start: nat) returns (r: Parsed<Variable>)
    ensures r == DecodeVariable(buf, start, 0)
  {
    hide ReadU8, ReadU32, ReadCStr, DecodeValue, Bit;
    var header := ReadU8(buf, start);
    if header.Err? { return Err(header.error); }
    var flags := header.value;
    var typeCode := ReadU8(buf, header.next);
    if typeCode.Err? { return Err(typeCode.error); }
    var offset: nat := typeCode.next;
    var variable := Variable(None, TypeOf(typeCode.value), Null, None, None, None, None, None, None, None);
    if Bit(flags, 1) { variable := variable.(isChildKey := Some(true)); }
    if Bit(flags, 2) { variable := variable.(isConst := Some(true)); }
    if Bit(flags, 4) { variable := variable.(isContainer := Some(true)); }
    if Bit(flags, 128) { variable := variable.(isVirtual := Some(true)); }
    if Bit(flags, 8) {
      var name := ReadCStr(buf, offset);
      if name.Err? { return Err(name.error); }
      variable, offset := variable.(name := Some(name.value)), name.next;
    }
    if Bit(flags, 16) {
      var refCount := ReadU32(buf, offset);
      if refCount.Err? { return Err(refCount.error); }
      variable, offset := variable.(refCount := Some(refCount.value)), refCount.next;
    }
    if Bit(flags, 4) {
      var keyType := ReadU8(buf, offset);
      if keyType.Err? { return Err(keyType.error); }
      var childCount := ReadU32(buf, keyType.next);
      if childCount.Err? { return Err(childCount.error); }
      variable := variable.(keyType := Some(TypeOf(keyType.value)), childCount := Some(childCount.value));
      offset := childCount.next;
    }
    if Bit(flags, 32) {
      var value := DecodeValue(TypeOf(typeCode.value), buf, offset);
      if value.Err? { return Err(value.error); }
      variable, offset := variable.(value := value.value), value.next;
    }
    r := Ok(variable, offset);
  }
}
