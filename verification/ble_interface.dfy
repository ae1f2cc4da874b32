/**
 The application side of the BLE characteristics, `ble_app_interface.c`: the
 three values a client can write (time, date, control byte), how an incoming
 write is routed into them, and the byte layouts handed to
 set_characteristic_value when the firmware publishes a value.

 Incoming bytes are stored verbatim: no range check, no byte reversal, and the
 written length is never consulted, so a write must carry at least the bytes
 the decoder reads (the C code reads past a shorter buffer).
 */
module BleInterface {
  import opened Bytes
  import opened Wrappers
  import opened Rtc
  import opened BleServices

  /** BLEControlCharValue */
  datatype ControlValue =
    | Default | GetData | NextRecordAvailable | FetchNextRecord
    | AbortFetching | SetMeasurementInterval | SetDateAndTime
  {
    function Code(): uint8 {
      match this
      case Default => 0x00
      case GetData => 0x01
      case NextRecordAvailable => 0x02
      case FetchNextRecord => 0x03
      case AbortFetching => 0x04
      case SetMeasurementInterval => 0x05
      case SetDateAndTime => 0x06
    }
  }

  /** The named control value a byte stands for, if any. */
  function DecodeControl(b: uint8): (v: Option<ControlValue>)
    ensures v.Some? <==> b <= 0x06
    ensures v.Some? ==> v.value.Code() == b
  {
    if b == 0x00 then Some(Default)
    else if b == 0x01 then Some(GetData)
    else if b == 0x02 then Some(NextRecordAvailable)
    else if b == 0x03 then Some(FetchNextRecord)
    else if b == 0x04 then Some(AbortFetching)
    else if b == 0x05 then Some(SetMeasurementInterval)
    else if b == 0x06 then Some(SetDateAndTime)
    else None
  }

  lemma DecodeControlInvertsCode(v: ControlValue)
    ensures DecodeControl(v.Code()) == Some(v)
  {
  }

  /** bleTime, bleDate and bleControlValue: the last values the client wrote. */
  datatype BleValues = BleValues(time: RtcTime, date: RtcDate, control: uint8)

  /** The static initialisers: zeroed time and date, control byte DEFAULT. */
  function Initial(): (v: BleValues)
    ensures v.time == ZERO_TIME
    ensures v.date == RtcDate(0, 0, 0, 0)
    ensures DecodeControl(v.control) == Some(Default)
  {
    BleValues(ZERO_TIME, ZERO_DATE, Default.Code())
  }

  /** ble_time_changed: hour, minute, second, in that order. */
  function TimeChanged(v: BleValues, data: seq<uint8>): (r: BleValues)
    requires |data| >= 3
    ensures r.date == v.date && r.control == v.control
    ensures r.time.hours == data[0] && r.time.minutes == data[1] && r.time.seconds == data[2]
    ensures r.time.subSeconds == v.time.subSeconds && r.time.dayLightSaving == v.time.dayLightSaving
    ensures r.time.storeOperation == v.time.storeOperation
  {
    v.(time := v.time.(hours := data[0], minutes := data[1], seconds := data[2]))
  }

  /** ble_date_changed: year, month, day, weekday, in that order. */
  function DateChanged(v: BleValues, data: seq<uint8>): (r: BleValues)
    requires |data| >= 4
    ensures r.time == v.time && r.control == v.control
    ensures r.date == RtcDate(data[3], data[1], data[2], data[0])
  {
    v.(date := v.date.(year := data[0], month := data[1], date := data[2], weekDay := data[3]))
  }

  /** What the write of one characteristic does: the stored values afterwards, and the byte the control handler is called with, if it is called. */
  datatype Routed = Routed(values: BleValues, handlerCall: Option<uint8>)

  /** Whether a write carries the bytes its characteristic's decoder reads. */
  predicate WriteFits(c: Characteristic, data: seq<uint8>) {
    && (c == Time ==> |data| >= 3)
    && (c == Date ==> |data| >= 4)
    && (c == Control ==> |data| >= 1)
  }

  /**
   characteristic_value_changed (the strong definition that replaces the weak
   no-op of the services file), with ble_control_byte_changed inlined: the
   control byte is stored first, then handed to the application handler.
   */
  function CharacteristicValueChanged(v: BleValues, c: Characteristic, data: seq<uint8>): (r: Routed)
    requires WriteFits(c, data)
    ensures c == Time ==>
      && r.values.time.hours == data[0] && r.values.time.minutes == data[1] && r.values.time.seconds == data[2]
      && r.values == v.(time := r.values.time)
      && r.values.time == v.time.(hours := data[0], minutes := data[1], seconds := data[2])
    ensures c == Date ==>
      && r.values.date == RtcDate(data[3], data[1], data[2], data[0])
      && r.values == v.(date := r.values.date)
    ensures c == Control ==> r.values == v.(control := data[0])
    ensures r.handlerCall.Some? <==> c == Control
    ensures r.handlerCall.Some? ==> r.handlerCall.value == r.values.control
    ensures c !in {Time, Date, Control} ==> r.values == v
  {
    match c
    case Time => Routed(TimeChanged(v, data), None)
    case Date => Routed(DateChanged(v, data), None)
    case Control => Routed(v.(control := data[0]), Some(data[0]))
    case _ => Routed(v, None)
  }

  // ---------------------------------------------------------------------------
  // Outbound values

  /** The update set_ble_time makes: it passes [hour, minute, second] (3 bytes), which go out reversed. */
  function PublishTime(h: Handles, hour: uint8, minute: uint8, second: uint8): (u: GattUpdate)
    ensures u.charHandle == h.time && u.serviceHandle == h.service && u.length == 3 && u.offset == 0
    ensures u.value == [second, minute, hour]
    ensures Rev(u.value) == [hour, minute, second]
  {
    var outcome := SetCharacteristicValue(h, Time.Id(), [hour, minute, second], 3, 0);
    SentValueReadBackwardsIsCallerBytes(h, Time.Id(), [hour, minute, second], 3, 0);
    outcome.update.value
  }

  /** The update set_ble_date makes: it passes [year, month, day, weekday] (4 bytes), which go out reversed. */
  function PublishDate(h: Handles, year: uint8, month: uint8, day: uint8, weekDay: uint8): (u: GattUpdate)
    ensures u.charHandle == h.date && u.serviceHandle == h.service && u.length == 4 && u.offset == 0
    ensures u.value == [weekDay, day, month, year]
    ensures Rev(u.value) == [year, month, day, weekDay]
  {
    var outcome := SetCharacteristicValue(h, Date.Id(), [year, month, day, weekDay], 4, 0);
    SentValueReadBackwardsIsCallerBytes(h, Date.Id(), [year, month, day, weekDay], 4, 0);
    outcome.update.value
  }

  /**
   The update set_ble_control_value makes: one byte, the control code (the C
   code passes the address of the enum and a length of 1; on the
   little-endian target the first byte is the code).
   */
  function PublishControl(h: Handles, value: ControlValue): (u: GattUpdate)
    ensures u == GattUpdate(h.service, h.control, 0, 1, [value.Code()])
    ensures DecodeControl(u.value[0]) == Some(value)
  {
    var outcome := SetCharacteristicValue(h, Control.Id(), [value.Code()], 1, 0);
    outcome.update.value
  }

  /**
   A client that reads the published time most significant byte first and
   writes those bytes back stores the time that was published.
   */
  lemma PublishedTimeRoundTrip(h: Handles, v: BleValues, hour: uint8, minute: uint8, second: uint8)
    ensures var stored := TimeChanged(v, Rev(PublishTime(h, hour, minute, second).value)).time;
            stored.hours == hour && stored.minutes == minute && stored.seconds == second
  {
  }

  /** The same for the date: read most significant byte first, written back, it decodes to the published date. */
  lemma PublishedDateRoundTrip(h: Handles, v: BleValues, year: uint8, month: uint8, day: uint8, weekDay: uint8)
    ensures DateChanged(v, Rev(PublishDate(h, year, month, day, weekDay).value)).date
         == RtcDate(weekDay, month, day, year)
  {
  }

  /**
   Written back verbatim, the published time bytes come in with hours and
   seconds swapped: the outbound path reverses the bytes, the inbound one does
   not.
   */
  lemma PublishedTimeEchoSwapsHoursAndSeconds(h: Handles, v: BleValues, hour: uint8, minute: uint8, second: uint8)
    ensures var stored := TimeChanged(v, PublishTime(h, hour, minute, second).value).time;
            stored.hours == second && stored.minutes == minute && stored.seconds == hour
  {
  }
}
