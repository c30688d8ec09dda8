/**
  The service-data parser of the JellyBean MR2 scanner.

  An advertising record is a run of AD structures (Bluetooth Core Specification,
  Vol 3, Part C, section 11): a length octet L that counts the type octet and the
  payload, the AD type octet, then L - 1 payload octets. A length of 0 ends the
  significant part. The three Service Data AD types (Core Specification Supplement,
  Part A, section 1.11) carry a 16-, 32- or 128-bit service UUID followed by the
  service data; the parser collects them into a map from UUID to data.

  The conversion of the UUID octets into a UUID value is not part of this model: it
  is the parameter `uuidOf`, applied to exactly the 2, 4 or 16 UUID octets.
*/
module ServiceData {
  import opened Wrappers

  /** One octet of the record, read as unsigned (the source masks each with 0xFF). */
  newtype byte = x: int | 0 <= x < 256

  /** AD types of the three Service Data fields. */
  const SERVICE_DATA_16_BIT: byte := 0x16
  const SERVICE_DATA_32_BIT: byte := 0x20
  const SERVICE_DATA_128_BIT: byte := 0x21

  /** Widths, in octets, of the three UUID forms. */
  const UUID_BYTES_16_BIT: nat := 2
  const UUID_BYTES_32_BIT: nat := 4
  const UUID_BYTES_128_BIT: nat := 16

  predicate IsServiceDataType(adType: byte) {
    adType == SERVICE_DATA_16_BIT || adType == SERVICE_DATA_32_BIT || adType == SERVICE_DATA_128_BIT
  }

  /** Number of UUID octets at the start of a service-data payload. */
  function UuidWidth(adType: byte): nat
    requires IsServiceDataType(adType)
  {
    if adType == SERVICE_DATA_32_BIT then UUID_BYTES_32_BIT
    else if adType == SERVICE_DATA_128_BIT then UUID_BYTES_128_BIT
    else UUID_BYTES_16_BIT
  }

  /**
    A fresh copy of `length` octets of `record` from `start`. The copy fails, as
    allocating a negative-size array or copying past the end of the source does,
    when the length is negative or the slice leaves the record.
  */
  function ExtractBytes(record: seq<byte>, start: int, length: int): (r: Option<seq<byte>>)
    ensures r.Some? <==> 0 <= start && 0 <= length && start + length <= |record|
    ensures r.Some? ==> |r.value| == length
    ensures r.Some? ==> forall i :: 0 <= i < length ==> r.value[i] == record[start + i]
  {
    if 0 <= start && 0 <= length && start + length <= |record| then
      Some(record[start..start + length])
    else
      None
  }

  /**
    The meaning of the parser: walk the AD structures of `rest`, adding to `acc`.
    None stands for a failed read, which the parser turns into an empty map.
    - no octets left, or a length octet of 0: done, keeping `acc`;
    - a length octet with no type octet after it: failure;
    - a service-data field whose payload is shorter than its UUID, or which runs
      past the end: failure;
    - any other field: skipped, and if it runs past the end the walk is done.
  */
  ghost function Walk<K>(uuidOf: seq<byte> -> K, rest: seq<byte>, acc: map<K, seq<byte>>): Option<map<K, seq<byte>>>
    decreases |rest|
  {
    if |rest| == 0 || rest[0] == 0 then Some(acc)
    else if |rest| < 2 then None
    else
      var len := rest[0] as int;
      var adType := rest[1];
      if IsServiceDataType(adType) then
        var n := UuidWidth(adType);
        if len - 1 < n || len + 1 > |rest| then None
        else Walk(uuidOf, rest[len + 1..], acc[uuidOf(rest[2..2 + n]) := rest[2 + n..len + 1]])
      else if len + 1 > |rest| then Some(acc)
      else Walk(uuidOf, rest[len + 1..], acc)
  }

  /** The service data of a record: what the walk collects, or the empty map if a read fails. */
  ghost function ServiceDataOf<K>(uuidOf: seq<byte> -> K, record: seq<byte>): map<K, seq<byte>>
  {
    match Walk(uuidOf, record, map[])
    case Some(m) => m
    case None => map[]
  }

  /**
    The cursor loop of the source. Reads past the end of the record abort the whole
    parse with an empty map; a skipped field that overruns the end only ends the loop.
  */
  method ParseServiceData<K>(uuidOf: seq<byte> -> K, scanRecord: seq<byte>) returns (serviceData: map<K, seq<byte>>)
    ensures serviceData == ServiceDataOf(uuidOf, scanRecord)
  {
    ghost var result := Walk(uuidOf, scanRecord, map[]);
    assert scanRecord[0..] == scanRecord;
    var currentPos := 0;
    serviceData := map[];
    while currentPos < |scanRecord|
      invariant 0 <= currentPos
      invariant currentPos <= |scanRecord| ==> result == Walk(uuidOf, scanRecord[currentPos..], serviceData)
      invariant currentPos > |scanRecord| ==> result == Some(serviceData)
      decreases |scanRecord| - currentPos
    {
      ghost var fieldStart := currentPos;
      var length := scanRecord[currentPos] as int;
      currentPos := currentPos + 1;
      if length == 0 {
        StopStep(uuidOf, scanRecord, fieldStart, serviceData);
        break;
      }
      var dataLength := length - 1;
      if currentPos >= |scanRecord| {
        // the type octet is missing
        MissingTypeStep(uuidOf, scanRecord, fieldStart, serviceData);
        return map[];
      }
      var fieldType := scanRecord[currentPos];
      currentPos := currentPos + 1;
      if IsServiceDataType(fieldType) {
        ServiceFieldStep(uuidOf, scanRecord, fieldStart, serviceData);
        var serviceUuidLength := UuidWidth(fieldType);
        var uuidBytes := ExtractBytes(scanRecord, currentPos, serviceUuidLength);
        if uuidBytes.None? {
          return map[];
        }
        assert uuidBytes.value == scanRecord[currentPos..currentPos + serviceUuidLength];
        var serviceDataUuid := uuidOf(uuidBytes.value);
        var dataBytes := ExtractBytes(scanRecord, currentPos + serviceUuidLength, dataLength - serviceUuidLength);
        if dataBytes.None? {
          return map[];
        }
        assert dataBytes.value == scanRecord[currentPos + serviceUuidLength..currentPos + dataLength];
        serviceData := serviceData[serviceDataUuid := dataBytes.value];
      } else if currentPos + dataLength <= |scanRecord| {
        SkippedFieldStep(uuidOf, scanRecord, fieldStart, serviceData);
      } else {
        OverrunStep(uuidOf, scanRecord, fieldStart, serviceData);
      }
      currentPos := currentPos + dataLength;
    }
  }

  /**
    Where an entry can come from: the service-data field at offset `p` of `record`,
    whose key is built from the first UUID octets of its payload and whose value is
    the rest of its payload, all within the record.
  */
  ghost predicate IsEntryAt<K>(uuidOf: seq<byte> -> K, record: seq<byte>, p: int, key: K, value: seq<byte>)
  {
    && 0 <= p && p + 1 < |record|
    && IsServiceDataType(record[p + 1])
    && var len := record[p] as int;
    && var n := UuidWidth(record[p + 1]);
    && 1 + n <= len && p + 1 + len <= |record|
    && key == uuidOf(record[p + 2..p + 2 + n])
    && value == record[p + 2 + n..p + 1 + len]
  }

  /**
    `p` is the start of a field the parser reaches from offset `off`: either `p` is
    `off` itself, or the field at `off` has a non-zero length, lies within the record,
    and `p` is reached from the field after it.
  */
  ghost predicate FieldStart(record: seq<byte>, off: nat, p: int)
    decreases |record| - off
  {
    || p == off
    || (&& off < |record| && record[off] != 0
        && off + 1 + record[off] as int <= |record|
        && FieldStart(record, off + 1 + record[off] as int, p))
  }

  /**
    Every entry of `m` is either carried over from `acc` or explained by a field the
    parser reaches from offset `off` of `record`.
  */
  ghost predicate EntriesExplained<K>(uuidOf: seq<byte> -> K, record: seq<byte>, off: nat, acc: map<K, seq<byte>>, m: map<K, seq<byte>>)
  {
    forall k :: k in m ==>
      (k in acc && m[k] == acc[k]) || exists p :: FieldStart(record, off, p) && IsEntryAt(uuidOf, record, p, k, m[k])
  }

  /** Adding an entry explained by the field at `off` keeps every entry explained. */
  lemma ExplainedAfterAdd<K>(uuidOf: seq<byte> -> K, record: seq<byte>, off: nat, acc: map<K, seq<byte>>, key: K, value: seq<byte>, m: map<K, seq<byte>>)
    requires IsEntryAt(uuidOf, record, off, key, value)
    requires EntriesExplained(uuidOf, record, off, acc[key := value], m)
    ensures EntriesExplained(uuidOf, record, off, acc, m)
  {
  }

  /** Entries explained by fields reached after the field at `off` are explained from `off` too. */
  lemma ExplainedFromNextField<K>(uuidOf: seq<byte> -> K, record: seq<byte>, off: nat, acc: map<K, seq<byte>>, m: map<K, seq<byte>>)
    requires off < |record| && record[off] != 0
    requires off + 1 + record[off] as int <= |record|
    requires EntriesExplained(uuidOf, record, off + 1 + record[off] as int, acc, m)
    ensures EntriesExplained(uuidOf, record, off, acc, m)
  {
  }

  /**
    One service-data field at offset `off`: the walk fails if the field is shorter
    than its UUID or runs past the end; otherwise the field is an entry of the record
    and the walk continues after it with that entry added.
  */
  lemma ServiceFieldStep<K>(uuidOf: seq<byte> -> K, record: seq<byte>, off: nat, acc: map<K, seq<byte>>)
    requires off + 1 < |record| && record[off] != 0
    requires IsServiceDataType(record[off + 1])
    ensures var len := record[off] as int;
      var n := UuidWidth(record[off + 1]);
      if len - 1 < n || off + 1 + len > |record| then
        Walk(uuidOf, record[off..], acc) == None
      else
        && IsEntryAt(uuidOf, record, off, uuidOf(record[off + 2..off + 2 + n]), record[off + 2 + n..off + 1 + len])
        && Walk(uuidOf, record[off..], acc)
           == Walk(uuidOf, record[off + 1 + len..], acc[uuidOf(record[off + 2..off + 2 + n]) := record[off + 2 + n..off + 1 + len]])
  {
    var rest := record[off..];
    var len := rest[0] as int;
    var n := UuidWidth(rest[1]);
    if 1 + n <= len && off + 1 + len <= |record| {
      assert rest[len + 1..] == record[off + len + 1..];
      assert rest[2..2 + n] == record[off + 2..off + 2 + n];
      assert rest[2 + n..len + 1] == record[off + 2 + n..off + 1 + len];
    }
  }

  /** A non-zero length octet at the last position has no type octet after it: the walk fails. */
  lemma MissingTypeStep<K>(uuidOf: seq<byte> -> K, record: seq<byte>, off: nat, acc: map<K, seq<byte>>)
    requires off + 1 == |record| && record[off] != 0
    ensures Walk(uuidOf, record[off..], acc) == None
  {
  }

  /** At the end of the record or at a zero length octet the walk stops with what it has. */
  lemma StopStep<K>(uuidOf: seq<byte> -> K, record: seq<byte>, off: nat, acc: map<K, seq<byte>>)
    requires off <= |record|
    requires off == |record| || record[off] == 0
    ensures Walk(uuidOf, record[off..], acc) == Some(acc)
  {
  }

  /** Any other field running past the end of the record ends the walk with what it has. */
  lemma OverrunStep<K>(uuidOf: seq<byte> -> K, record: seq<byte>, off: nat, acc: map<K, seq<byte>>)
    requires off + 1 < |record| && record[off] != 0
    requires !IsServiceDataType(record[off + 1])
    requires off + 1 + record[off] as int > |record|
    ensures Walk(uuidOf, record[off..], acc) == Some(acc)
  {
  }

  /** Any other field at offset `off` that fits in the record: the walk continues after it unchanged. */
  lemma SkippedFieldStep<K>(uuidOf: seq<byte> -> K, record: seq<byte>, off: nat, acc: map<K, seq<byte>>)
    requires off + 1 < |record| && record[off] != 0
    requires !IsServiceDataType(record[off + 1])
    requires off + 1 + record[off] as int <= |record|
    ensures Walk(uuidOf, record[off..], acc) == Walk(uuidOf, record[off + 1 + record[off] as int..], acc)
  {
  }

  lemma {:induction false} WalkEntriesAreSlices<K>(uuidOf: seq<byte> -> K, record: seq<byte>, off: nat, acc: map<K, seq<byte>>)
    requires off <= |record|
    requires Walk(uuidOf, record[off..], acc).Some?
    ensures EntriesExplained(uuidOf, record, off, acc, Walk(uuidOf, record[off..], acc).value)
    decreases |record| - off, 1
  {
    if off == |record| || record[off] == 0 {
      StopStep(uuidOf, record, off, acc);
    } else {
      if off + 1 == |record| {
        MissingTypeStep(uuidOf, record, off, acc);
      }
      var len := record[off] as int;
      if IsServiceDataType(record[off + 1]) {
        ServiceEntriesAreSlices(uuidOf, record, off, acc);
      } else if off + 1 + len <= |record| {
        SkippedFieldStep(uuidOf, record, off, acc);
        WalkEntriesAreSlices(uuidOf, record, off + len + 1, acc);
        ExplainedFromNextField(uuidOf, record, off, acc, Walk(uuidOf, record[off..], acc).value);
      } else {
        OverrunStep(uuidOf, record, off, acc);
      }
    }
  }

  /** The service-data case of WalkEntriesAreSlices. */
  lemma {:induction false} ServiceEntriesAreSlices<K>(uuidOf: seq<byte> -> K, record: seq<byte>, off: nat, acc: map<K, seq<byte>>)
    requires off + 1 < |record| && record[off] != 0
    requires IsServiceDataType(record[off + 1])
    requires Walk(uuidOf, record[off..], acc).Some?
    ensures EntriesExplained(uuidOf, record, off, acc, Walk(uuidOf, record[off..], acc).value)
    decreases |record| - off, 0
  {
    var len := record[off] as int;
    var n := UuidWidth(record[off + 1]);
    ServiceFieldStep(uuidOf, record, off, acc);
    assert 1 + n <= len && off + 1 + len <= |record|;
    var key := uuidOf(record[off + 2..off + 2 + n]);
    var value := record[off + 2 + n..off + 1 + len];
    var m := Walk(uuidOf, record[off..], acc);
    assert IsEntryAt(uuidOf, record, off, key, value);
    assert m == Walk(uuidOf, record[off + 1 + len..], acc[key := value]);
    WalkEntriesAreSlices(uuidOf, record, off + len + 1, acc[key := value]);
    ExplainedFromNextField(uuidOf, record, off, acc[key := value], m.value);
    ExplainedAfterAdd(uuidOf, record, off, acc, key, value, m.value);
  }

  /**
    Octets inside the payload of a skipped field are not a field the parser reaches,
    even when they look like a service-data field.
  */
  lemma PayloadIsNotAFieldStart()
    ensures !FieldStart([0x06, 0x01, 0x04, 0x16, 0x0D, 0x18, 0xAA], 0, 2)
  {
    var record: seq<byte> := [0x06, 0x01, 0x04, 0x16, 0x0D, 0x18, 0xAA];
    assert !FieldStart(record, 7, 2);
  }

  /**
    Every entry of the parsed map comes from a service-data field the parser reaches
    from the start of the record, key and value both slices of it.
  */
  lemma EntriesAreSlices<K>(uuidOf: seq<byte> -> K, record: seq<byte>)
    ensures var m := ServiceDataOf(uuidOf, record);
      forall k :: k in m ==> exists p :: FieldStart(record, 0, p) && IsEntryAt(uuidOf, record, p, k, m[k])
  {
    assert record[0..] == record;
    if Walk(uuidOf, record, map[]).Some? {
      WalkEntriesAreSlices(uuidOf, record, 0, map[]);
    }
  }
}
