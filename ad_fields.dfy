/**
  Advertising records built from a list of AD structures, and what the parser
  recovers from them: the service-data entries of the list, a later entry for the
  same UUID replacing an earlier one. Truncated and short fields show the two error
  policies of the parser: a failed read discards everything, a skipped field that
  overruns the end keeps what was parsed before it.
*/
module AdFields {
  import opened Wrappers
  import opened ServiceData

  /** One AD structure: its type and its payload (the length octet is derived). */
  datatype AdField = AdField(adType: byte, payload: seq<byte>)

  /** A field the parser reads in full: its length fits one octet and a service-data payload holds its UUID. */
  predicate WellFormedField(f: AdField) {
    && |f.payload| + 1 < 256
    && (IsServiceDataType(f.adType) ==> UuidWidth(f.adType) <= |f.payload|)
  }

  predicate WellFormed(fields: seq<AdField>) {
    forall i :: 0 <= i < |fields| ==> WellFormedField(fields[i])
  }

  /** Length octet, type octet, payload. */
  function Encode(f: AdField): (bytes: seq<byte>)
    requires WellFormedField(f)
    ensures |bytes| == |f.payload| + 2
    ensures bytes[0] as int == |f.payload| + 1 && bytes[1] == f.adType && bytes[2..] == f.payload
  {
    [(|f.payload| + 1) as byte, f.adType] + f.payload
  }

  function EncodeAll(fields: seq<AdField>): seq<byte>
    requires WellFormed(fields)
  {
    if fields == [] then [] else Encode(fields[0]) + EncodeAll(fields[1..])
  }

  predicate IsServiceField(f: AdField) {
    WellFormedField(f) && IsServiceDataType(f.adType)
  }

  /** The service UUID of a service-data field: built from the first 2, 4 or 16 payload octets. */
  function KeyOf<K>(uuidOf: seq<byte> -> K, f: AdField): K
    requires IsServiceField(f)
  {
    uuidOf(f.payload[..UuidWidth(f.adType)])
  }

  /** The service data of a service-data field: the payload after the UUID. */
  function DataOf(f: AdField): seq<byte>
    requires IsServiceField(f)
  {
    f.payload[UuidWidth(f.adType)..]
  }

  /** The entry a field adds: a service-data field puts its UUID and data, overwriting; any other field adds none. */
  function AddField<K>(uuidOf: seq<byte> -> K, acc: map<K, seq<byte>>, f: AdField): map<K, seq<byte>>
    requires WellFormedField(f)
  {
    if IsServiceDataType(f.adType) then acc[KeyOf(uuidOf, f) := DataOf(f)] else acc
  }

  /** The entries of `fields` added to `acc` in order, each overwriting an entry with the same UUID. */
  function CollectFrom<K>(uuidOf: seq<byte> -> K, acc: map<K, seq<byte>>, fields: seq<AdField>): map<K, seq<byte>>
    requires WellFormed(fields)
    decreases |fields|
  {
    if fields == [] then acc else CollectFrom(uuidOf, AddField(uuidOf, acc, fields[0]), fields[1..])
  }

  function Collect<K>(uuidOf: seq<byte> -> K, fields: seq<AdField>): map<K, seq<byte>>
    requires WellFormed(fields)
  {
    CollectFrom(uuidOf, map[], fields)
  }

  /** Walking one encoded field adds its entry and goes on with what follows. */
  lemma WalkField<K>(uuidOf: seq<byte> -> K, f: AdField, tail: seq<byte>, acc: map<K, seq<byte>>)
    requires WellFormedField(f)
    ensures Walk(uuidOf, Encode(f) + tail, acc) == Walk(uuidOf, tail, AddField(uuidOf, acc, f))
  {
    var rest := Encode(f) + tail;
    var len := |f.payload| + 1;
    assert rest[len + 1..] == tail;
    if IsServiceDataType(f.adType) {
      var n := UuidWidth(f.adType);
      assert rest[2..2 + n] == f.payload[..n];
      assert rest[2 + n..len + 1] == f.payload[n..];
    }
  }

  /** Walking the encoding of a list of fields adds their entries and goes on with what follows. */
  lemma {:induction false} WalkEncoded<K>(uuidOf: seq<byte> -> K, fields: seq<AdField>, tail: seq<byte>, acc: map<K, seq<byte>>)
    requires WellFormed(fields)
    ensures Walk(uuidOf, EncodeAll(fields) + tail, acc) == Walk(uuidOf, tail, CollectFrom(uuidOf, acc, fields))
    decreases |fields|
  {
    if fields == [] {
      assert EncodeAll(fields) + tail == tail;
    } else {
      assert EncodeAll(fields) + tail == Encode(fields[0]) + (EncodeAll(fields[1..]) + tail);
      WalkField(uuidOf, fields[0], EncodeAll(fields[1..]) + tail, acc);
      WalkEncoded(uuidOf, fields[1..], tail, AddField(uuidOf, acc, fields[0]));
    }
  }

  /** Round trip: the parser recovers exactly the service-data entries that were encoded. */
  lemma ParseEncoded<K>(uuidOf: seq<byte> -> K, fields: seq<AdField>)
    requires WellFormed(fields)
    ensures ServiceDataOf(uuidOf, EncodeAll(fields)) == Collect(uuidOf, fields)
  {
    WalkEncoded(uuidOf, fields, [], map[]);
    assert EncodeAll(fields) + [] == EncodeAll(fields);
  }

  /** A length octet of 0 ends the parse: whatever follows it is ignored. */
  lemma ZeroLengthStops<K>(uuidOf: seq<byte> -> K, fields: seq<AdField>, tail: seq<byte>)
    requires WellFormed(fields)
    ensures ServiceDataOf(uuidOf, EncodeAll(fields) + [0] + tail) == Collect(uuidOf, fields)
  {
    assert EncodeAll(fields) + [0] + tail == EncodeAll(fields) + ([0] + tail);
    WalkEncoded(uuidOf, fields, [0] + tail, map[]);
  }

  /** A non-zero length octet at the very end has no type octet to read: everything is discarded. */
  lemma LoneLengthDiscardsAll<K>(uuidOf: seq<byte> -> K, fields: seq<AdField>, len: byte)
    requires WellFormed(fields) && len != 0
    ensures ServiceDataOf(uuidOf, EncodeAll(fields) + [len]) == map[]
  {
    WalkEncoded(uuidOf, fields, [len], map[]);
  }

  /**
    A service-data field whose declared length leaves no room for its UUID fails,
    whatever follows it (the UUID copy or the negative-length data copy fails), and
    the entries parsed before it are discarded.
  */
  lemma ShortServiceFieldDiscardsAll<K>(uuidOf: seq<byte> -> K, fields: seq<AdField>, len: byte, adType: byte, tail: seq<byte>)
    requires WellFormed(fields)
    requires IsServiceDataType(adType) && 1 <= len as int < 1 + UuidWidth(adType)
    ensures ServiceDataOf(uuidOf, EncodeAll(fields) + [len, adType] + tail) == map[]
  {
    assert EncodeAll(fields) + [len, adType] + tail == EncodeAll(fields) + ([len, adType] + tail);
    WalkEncoded(uuidOf, fields, [len, adType] + tail, map[]);
  }

  /**
    A service-data field cut short by the end of the record fails (its UUID or data
    copy leaves the record), and the entries parsed before it are discarded.
  */
  lemma TruncatedServiceFieldDiscardsAll<K>(uuidOf: seq<byte> -> K, fields: seq<AdField>, f: AdField, k: nat)
    requires WellFormed(fields) && IsServiceField(f)
    requires 1 <= k < |Encode(f)|
    ensures ServiceDataOf(uuidOf, EncodeAll(fields) + Encode(f)[..k]) == map[]
  {
    WalkEncoded(uuidOf, fields, Encode(f)[..k], map[]);
  }

  /**
    Any other field cut short after its type octet only ends the loop: the entries
    parsed before it are kept.
  */
  lemma TruncatedSkippedFieldKeepsEntries<K>(uuidOf: seq<byte> -> K, fields: seq<AdField>, f: AdField, k: nat)
    requires WellFormed(fields) && WellFormedField(f) && !IsServiceDataType(f.adType)
    requires 2 <= k < |Encode(f)|
    ensures ServiceDataOf(uuidOf, EncodeAll(fields) + Encode(f)[..k]) == Collect(uuidOf, fields)
  {
    WalkEncoded(uuidOf, fields, Encode(f)[..k], map[]);
  }

  /** Fields that carry no entry for `key` leave the entry for `key` as it was. */
  lemma {:induction false} CollectFromUntouched<K>(uuidOf: seq<byte> -> K, acc: map<K, seq<byte>>, fields: seq<AdField>, key: K)
    requires WellFormed(fields)
    requires forall j :: 0 <= j < |fields| && IsServiceField(fields[j]) ==> KeyOf(uuidOf, fields[j]) != key
    ensures key in CollectFrom(uuidOf, acc, fields) <==> key in acc
    ensures key in acc ==> CollectFrom(uuidOf, acc, fields)[key] == acc[key]
    decreases |fields|
  {
    if fields != [] {
      var f := fields[0];
      assert IsServiceField(f) ==> KeyOf(uuidOf, fields[0]) != key;
      var acc' := AddField(uuidOf, acc, f);
      forall j | 0 <= j < |fields[1..]| && IsServiceField(fields[1..][j])
        ensures KeyOf(uuidOf, fields[1..][j]) != key
      {
        assert fields[1..][j] == fields[j + 1];
      }
      CollectFromUntouched(uuidOf, acc', fields[1..], key);
    }
  }

  /** Last write wins: the entry for a UUID is the data of the last field carrying that UUID. */
  lemma {:induction false} CollectFromLastWins<K>(uuidOf: seq<byte> -> K, acc: map<K, seq<byte>>, fields: seq<AdField>, i: nat)
    requires WellFormed(fields) && i < |fields| && IsServiceField(fields[i])
    requires forall j :: i < j < |fields| && IsServiceField(fields[j]) ==> KeyOf(uuidOf, fields[j]) != KeyOf(uuidOf, fields[i])
    ensures KeyOf(uuidOf, fields[i]) in CollectFrom(uuidOf, acc, fields)
    ensures CollectFrom(uuidOf, acc, fields)[KeyOf(uuidOf, fields[i])] == DataOf(fields[i])
    decreases |fields|
  {
    var f := fields[0];
    var acc' := AddField(uuidOf, acc, f);
    var key := KeyOf(uuidOf, fields[i]);
    if i == 0 {
      forall j | 0 <= j < |fields[1..]| && IsServiceField(fields[1..][j])
        ensures KeyOf(uuidOf, fields[1..][j]) != key
      {
        assert fields[1..][j] == fields[j + 1];
      }
      CollectFromUntouched(uuidOf, acc', fields[1..], key);
    } else {
      assert fields[1..][i - 1] == fields[i];
      forall j | i - 1 < j < |fields[1..]| && IsServiceField(fields[1..][j])
        ensures KeyOf(uuidOf, fields[1..][j]) != key
      {
        assert fields[1..][j] == fields[j + 1];
      }
      CollectFromLastWins(uuidOf, acc', fields[1..], i - 1);
    }
  }

  /** A UUID has an entry exactly when some service-data field carries it. */
  lemma {:induction false} CollectFromKeys<K>(uuidOf: seq<byte> -> K, acc: map<K, seq<byte>>, fields: seq<AdField>, key: K)
    requires WellFormed(fields)
    ensures key in CollectFrom(uuidOf, acc, fields) <==>
      key in acc || exists j :: 0 <= j < |fields| && IsServiceField(fields[j]) && KeyOf(uuidOf, fields[j]) == key
    decreases |fields|
  {
    if fields != [] {
      var f := fields[0];
      var acc' := AddField(uuidOf, acc, f);
      CollectFromKeys(uuidOf, acc', fields[1..], key);
      if exists j :: 0 <= j < |fields[1..]| && IsServiceField(fields[1..][j]) && KeyOf(uuidOf, fields[1..][j]) == key {
        var j :| 0 <= j < |fields[1..]| && IsServiceField(fields[1..][j]) && KeyOf(uuidOf, fields[1..][j]) == key;
        assert fields[1..][j] == fields[j + 1];
      }
      if exists j :: 0 <= j < |fields| && IsServiceField(fields[j]) && KeyOf(uuidOf, fields[j]) == key {
        var j :| 0 <= j < |fields| && IsServiceField(fields[j]) && KeyOf(uuidOf, fields[j]) == key;
        if j > 0 {
          assert fields[1..][j - 1] == fields[j];
        }
      }
    }
  }

  /** Parsing a well-formed record: its entries are those of its last field for each UUID. */
  lemma ParseLastWriteWins<K>(uuidOf: seq<byte> -> K, fields: seq<AdField>, i: nat)
    requires WellFormed(fields) && i < |fields| && IsServiceField(fields[i])
    requires forall j :: i < j < |fields| && IsServiceField(fields[j]) ==> KeyOf(uuidOf, fields[j]) != KeyOf(uuidOf, fields[i])
    ensures var m := ServiceDataOf(uuidOf, EncodeAll(fields));
      KeyOf(uuidOf, fields[i]) in m && m[KeyOf(uuidOf, fields[i])] == DataOf(fields[i])
  {
    ParseEncoded(uuidOf, fields);
    CollectFromLastWins(uuidOf, map[], fields, i);
  }

  /** Parsing a well-formed record: a UUID has an entry exactly when one of its service-data fields carries it. */
  lemma ParseKeys<K>(uuidOf: seq<byte> -> K, fields: seq<AdField>, key: K)
    requires WellFormed(fields)
    ensures key in ServiceDataOf(uuidOf, EncodeAll(fields)) <==>
      exists j :: 0 <= j < |fields| && IsServiceField(fields[j]) && KeyOf(uuidOf, fields[j]) == key
  {
    ParseEncoded(uuidOf, fields);
    CollectFromKeys(uuidOf, map[], fields, key);
  }

  /** A record holding only a Flags field ([0x02, 0x01, 0x06]) has no service data. */
  lemma FlagsOnlyRecord<K>(uuidOf: seq<byte> -> K)
    ensures ServiceDataOf(uuidOf, [0x02, 0x01, 0x06]) == map[]
  {
  }

  /** One 16-bit service-data field for UUID 0x180D with data [0xAA, 0xBB], then a terminating 0. */
  lemma HeartRateServiceRecord<K>(uuidOf: seq<byte> -> K)
    ensures ServiceDataOf(uuidOf, [0x05, 0x16, 0x0D, 0x18, 0xAA, 0xBB, 0x00])
         == map[uuidOf([0x0D, 0x18]) := [0xAA, 0xBB]]
  {
    var f := AdField(0x16, [0x0D, 0x18, 0xAA, 0xBB]);
    assert EncodeAll([f]) + [0] + [] == [0x05, 0x16, 0x0D, 0x18, 0xAA, 0xBB, 0x00];
    ZeroLengthStops(uuidOf, [f], []);
    assert KeyOf(uuidOf, f) == uuidOf([0x0D, 0x18]) by { assert f.payload[..2] == [0x0D, 0x18]; }
    assert DataOf(f) == [0xAA, 0xBB] by { assert f.payload[2..] == [0xAA, 0xBB]; }
    assert [f][1..] == [];
    assert IsServiceField(f);
    assert CollectFrom(uuidOf, map[], [f]) == CollectFrom(uuidOf, map[KeyOf(uuidOf, f) := DataOf(f)], []);
    assert Collect(uuidOf, [f]) == map[uuidOf([0x0D, 0x18]) := [0xAA, 0xBB]];
    var record: seq<byte> := [0x05, 0x16, 0x0D, 0x18, 0xAA, 0xBB, 0x00];
    assert EncodeAll([f]) + [0] + [] == record;
    assert ServiceDataOf(uuidOf, record) == Collect(uuidOf, [f]);
  }
}
