/**
 The GATT side of `ble_app_services.c`: byte-order reversal, the reversed
 copy of a 128-bit UUID, the attribute-handle to characteristic mapping of
 the attribute-modified event, and the guarded, reversing characteristic
 update.

 The handles are whatever the BLE stack assigned when the service was added;
 they are parameters here. A call into the stack (aci_gatt_update_char_value)
 is recorded as a `GattUpdate` value, with the stack's status as an input.
 */
module BleServices {
  import opened Bytes
  import opened Wrappers

  const UUID_LENGTH: nat := 16
  /** The value attribute sits one handle after the characteristic declaration. */
  const CHAR_VALUE_OFFSET: uint16 := 1
  /** set_characteristic_value's answer for a characteristic outside the table. */
  const INVALID_CHARACTERISTIC_STATUS: uint8 := 0xFF

  /** BLECharacteristic, in the order of its enum values. */
  datatype Characteristic = Time | Date | Temperature | Pressure | Humidity | Control | NumberOfRecords | Invalid
  {
    function Id(): nat {
      match this
      case Time => 0
      case Date => 1
      case Temperature => 2
      case Pressure => 3
      case Humidity => 4
      case Control => 5
      case NumberOfRecords => 6
      case Invalid => 7
    }
  }

  /** The service handle and the seven characteristic handles the stack assigned. */
  datatype Handles = Handles(
    service: uint16,
    time: uint16, date: uint16, temperature: uint16, pressure: uint16,
    humidity: uint16, control: uint16, numberOfRecords: uint16)
  {
    /** charIDBindTable: the handle of each characteristic, at its enum value. */
    function BindTable(): (table: seq<uint16>)
      ensures |table| == Invalid.Id()
    {
      [time, date, temperature, pressure, humidity, control, numberOfRecords]
    }
  }

  // ---------------------------------------------------------------------------
  // Byte-order reversal

  /** The reverse of a byte sequence. */
  function Rev(s: seq<uint8>): (r: seq<uint8>)
    ensures |r| == |s|
    decreases |s|
  {
    if s == [] then [] else Rev(s[1..]) + [s[0]]
  }

  lemma {:induction false} RevIndex(s: seq<uint8>)
    ensures |Rev(s)| == |s|
    ensures forall i :: 0 <= i < |s| ==> Rev(s)[i] == s[|s| - 1 - i]
    decreases |s|
  {
    if s != [] {
      RevIndex(s[1..]);
    }
  }

  lemma RevInvolution(s: seq<uint8>)
    ensures Rev(Rev(s)) == s
  {
    RevIndex(s);
    RevIndex(Rev(s));
  }

  lemma {:induction false} RevMultiset(s: seq<uint8>)
    ensures multiset(Rev(s)) == multiset(s)
    decreases |s|
  {
    if s != [] {
      RevMultiset(s[1..]);
      assert s == [s[0]] + s[1..];
    }
  }

  /** The first `n` bytes of `data` in reverse order, the rest as they were. */
  function Reversed(data: seq<uint8>, n: nat): (r: seq<uint8>)
    requires n <= |data|
    ensures |r| == |data|
  {
    Rev(data[..n]) + data[n..]
  }

  lemma ReversedIndex(data: seq<uint8>, n: nat)
    requires n <= |data|
    ensures |Reversed(data, n)| == |data|
    ensures forall i :: 0 <= i < n ==> Reversed(data, n)[i] == data[n - 1 - i]
    ensures forall i :: n <= i < |data| ==> Reversed(data, n)[i] == data[i]
  {
    RevIndex(data[..n]);
  }

  /** Reversing twice restores the bytes; reversing keeps the length and the multiset of bytes. */
  lemma ReversedIsInvolution(data: seq<uint8>, n: nat)
    requires n <= |data|
    ensures Reversed(Reversed(data, n), n) == data
    ensures |Reversed(data, n)| == |data|
    ensures multiset(Reversed(data, n)) == multiset(data)
  {
    ReversedIndex(data, n);
    ReversedIndex(Reversed(data, n), n);
    RevMultiset(data[..n]);
    assert data == data[..n] + data[n..];
  }

  /** A single byte, or none, has no order to reverse. */
  lemma ReversedShortIsIdentity(data: seq<uint8>, n: nat)
    requires n <= 1 && n <= |data|
    ensures Reversed(data, n) == data
  {
  }

  /**
   invert_byte_order: swaps bytes from both ends towards the middle. With
   length 0 the C code forms `data - 1`; the loop body never runs, so the
   model treats it as a no-op.
   */
  method InvertByteOrder(data: seq<uint8>, length: nat) returns (r: seq<uint8>)
    requires length <= |data|
    ensures |r| == |data|
    ensures forall i :: 0 <= i < length ==> r[i] == data[length - 1 - i]
    ensures forall i :: length <= i < |data| ==> r[i] == data[i]
    ensures r == Reversed(data, length)
  {
    r := data;
    if length == 0 {
      ReversedIndex(data, length);
      return;
    }
    var start := 0;
    var end := length - 1;
    while start < end
      invariant 0 <= start && start <= end + 1 && end < length
      invariant start + end == length - 1
      invariant |r| == |data|
      invariant forall i :: 0 <= i < start ==> r[i] == data[length - 1 - i]
      invariant forall i :: end < i < length ==> r[i] == data[length - 1 - i]
      invariant forall i :: start <= i <= end ==> r[i] == data[i]
      invariant forall i :: length <= i < |data| ==> r[i] == data[i]
      decreases end - start
    {
      var temp := r[start];
      r := r[start := r[end]][end := temp];
      start := start + 1;
      end := end - 1;
    }
    ReversedIndex(data, length);
  }

  /** copy_reversed_uuid: the 16 UUID bytes, last byte first, into a fresh destination. */
  method CopyReversedUuid(source: seq<uint8>) returns (destination: seq<uint8>)
    requires |source| == UUID_LENGTH
    ensures |destination| == UUID_LENGTH
    ensures forall i :: 0 <= i < UUID_LENGTH ==> destination[i] == source[UUID_LENGTH - 1 - i]
    ensures destination == Rev(source)
  {
    destination := [];
    var i := 0;
    while i < UUID_LENGTH
      invariant 0 <= i <= UUID_LENGTH
      invariant |destination| == i
      invariant forall k :: 0 <= k < i ==> destination[k] == source[UUID_LENGTH - 1 - k]
    {
      destination := destination + [source[UUID_LENGTH - 1 - i]];
      i := i + 1;
    }
    RevIndex(source);
  }

  // ---------------------------------------------------------------------------
  // Handle dispatch

  /** The characteristic handle of a value attribute: one less, wrapping in 16 bits. */
  function CharHandleOf(attrHandle: uint16): (charHandle: uint16)
    ensures (charHandle + CHAR_VALUE_OFFSET) % UINT16_MODULUS == attrHandle
  {
    (attrHandle - CHAR_VALUE_OFFSET) % UINT16_MODULUS
  }

  /**
   The characteristic aci_gatt_attribute_modified_event reports for an
   attribute: the first table entry, in enum order, whose handle matches, or
   `Invalid` when none does.
   */
  function CharacteristicForHandle(h: Handles, attrHandle: uint16): (c: Characteristic)
    ensures c != Invalid ==> h.BindTable()[c.Id()] == CharHandleOf(attrHandle)
    ensures forall k :: 0 <= k < c.Id() ==> h.BindTable()[k] != CharHandleOf(attrHandle)
  {
    var charHandle := CharHandleOf(attrHandle);
    if charHandle == h.time then Time
    else if charHandle == h.date then Date
    else if charHandle == h.temperature then Temperature
    else if charHandle == h.pressure then Pressure
    else if charHandle == h.humidity then Humidity
    else if charHandle == h.control then Control
    else if charHandle == h.numberOfRecords then NumberOfRecords
    else Invalid
  }

  /** When the stack gave distinct handles, a write to a characteristic's value attribute is reported as that characteristic. */
  lemma DispatchFindsOwnCharacteristic(h: Handles, c: Characteristic)
    requires c != Invalid
    requires forall i, j :: 0 <= i < j < |h.BindTable()| ==> h.BindTable()[i] != h.BindTable()[j]
    ensures CharacteristicForHandle(h, (h.BindTable()[c.Id()] + CHAR_VALUE_OFFSET) % UINT16_MODULUS) == c
  {
  }

  // ---------------------------------------------------------------------------
  // Characteristic updates

  /** One aci_gatt_update_char_value call: service, characteristic, offset, length and the bytes sent. */
  datatype GattUpdate = GattUpdate(serviceHandle: uint16, charHandle: uint16, offset: uint16, length: uint16, value: seq<uint8>)

  /** The status returned, the caller's array afterwards (reversed in place), and the update handed to the stack, if any. */
  datatype SetOutcome = SetOutcome(status: uint8, data: seq<uint8>, update: Option<GattUpdate>)

  /**
   set_characteristic_value: an id outside the table is answered with 0xFF and
   nothing else happens; otherwise the caller's bytes are reversed in place (BLE
   sends the least significant byte first) and sent to the bound handle.
   */
  function SetCharacteristicValue(h: Handles, characteristic: nat, data: seq<uint8>, length: uint16, stackStatus: uint8): (r: SetOutcome)
    requires length <= |data|
    ensures characteristic >= Invalid.Id() ==> r == SetOutcome(INVALID_CHARACTERISTIC_STATUS, data, None)
    ensures characteristic < Invalid.Id() ==>
      && r.status == stackStatus
      && |r.data| == |data|
      && (forall i :: 0 <= i < length ==> r.data[i] == data[length - 1 - i])
      && (forall i :: length <= i < |data| ==> r.data[i] == data[i])
      && r.update.Some?
      && r.update.value.serviceHandle == h.service
      && r.update.value.charHandle == h.BindTable()[characteristic]
      && r.update.value.offset == 0
      && r.update.value.length == length
      && r.update.value.value == r.data[..length]
  {
    if characteristic >= Invalid.Id() then
      SetOutcome(INVALID_CHARACTERISTIC_STATUS, data, None)
    else
      var charHandle := h.BindTable()[characteristic];
      var reversed := Reversed(data, length);
      ReversedIndex(data, length);
      SetOutcome(stackStatus, reversed, Some(GattUpdate(h.service, charHandle, 0, length, reversed[..length])))
  }

  /** A peer that reads the sent bytes most significant first gets back exactly what the caller passed. */
  lemma SentValueReadBackwardsIsCallerBytes(h: Handles, characteristic: nat, data: seq<uint8>, length: uint16, stackStatus: uint8)
    requires length <= |data| && characteristic < Invalid.Id()
    ensures Rev(SetCharacteristicValue(h, characteristic, data, length, stackStatus).update.value.value) == data[..length]
  {
    var sent := SetCharacteristicValue(h, characteristic, data, length, stackStatus).update.value.value;
    ReversedIndex(data, length);
    assert sent == Rev(data[..length]);
    RevInvolution(data[..length]);
  }
}
