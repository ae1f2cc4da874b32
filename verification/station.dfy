/**
 The pieces composed: one step of the weather station for a client write to a
 GATT attribute. The attribute-modified event maps the handle to a
 characteristic, the interface stores the bytes, and a control write runs the
 application's control handler.

 The measurement store is part of the state, but no client write reaches it:
 the fetch commands are empty cases, and the code that appends measurements
 (the alarm handler) is not part of this model.
 */
module Station {
  import opened Bytes
  import opened Wrappers
  import opened Rtc
  import MeasurementStore
  import opened BleServices
  import opened BleInterface
  import opened AppStates

  datatype Station = Station(store: MeasurementStore.Store, ble: BleValues, app: AppCtx)

  /** Power-on: empty store, zeroed BLE values with control DEFAULT, application IDLE. */
  function Initial(clock: Clock): (s: Station)
    ensures MeasurementStore.Valid(s.store) && s.store.count == 0
    ensures s.ble == BleInterface.Initial() && s.app.state == Idle && s.app.published == []
  {
    Station(MeasurementStore.Initial(), BleInterface.Initial(), AppStates.Initial(clock))
  }

  /** The stack gave every characteristic its own handle. */
  predicate DistinctHandles(h: Handles) {
    forall i, j :: 0 <= i < j < |h.BindTable()| ==> h.BindTable()[i] != h.BindTable()[j]
  }

  /** The handle a client writes to for a characteristic's value; with distinct handles it dispatches back to that characteristic. */
  function ValueAttribute(h: Handles, c: Characteristic): (attrHandle: uint16)
    requires c != Invalid
    ensures CharHandleOf(attrHandle) == h.BindTable()[c.Id()]
    ensures DistinctHandles(h) ==> CharacteristicForHandle(h, attrHandle) == c
  {
    var attrHandle := (h.BindTable()[c.Id()] + CHAR_VALUE_OFFSET) % UINT16_MODULUS;
    assert DistinctHandles(h) ==> CharacteristicForHandle(h, attrHandle) == c by {
      if DistinctHandles(h) {
        DispatchFindsOwnCharacteristic(h, c);
      }
    }
    attrHandle
  }

  /** A write carries at least the bytes the characteristic it lands on is decoded from. */
  predicate ClientWriteFits(h: Handles, attrHandle: uint16, data: seq<uint8>) {
    WriteFits(CharacteristicForHandle(h, attrHandle), data)
  }

  /** aci_gatt_attribute_modified_event followed by everything it triggers. */
  function ClientWrite(h: Handles, s: Station, attrHandle: uint16, data: seq<uint8>): (r: Station)
    requires ClientWriteFits(h, attrHandle, data)
    ensures r.store == s.store
    ensures var c := CharacteristicForHandle(h, attrHandle);
      && (c == Time ==>
            && r.ble.time == s.ble.time.(hours := data[0], minutes := data[1], seconds := data[2])
            && r.ble.date == s.ble.date && r.ble.control == s.ble.control && r.app == s.app)
      && (c == Date ==>
            && r.ble.date == RtcDate(data[3], data[1], data[2], data[0])
            && r.ble.time == s.ble.time && r.ble.control == s.ble.control && r.app == s.app)
      && (c == Control ==> r.ble == s.ble.(control := data[0]))
      && (c == Control && data[0] == SetDateAndTime.Code() ==>
            && r.app.state == Idle
            && r.app.published == s.app.published + [PublishControl(h, Default)]
            && r.app.clock.date == (if ValidateDate(s.ble.date) then s.ble.date else s.app.clock.date)
            && r.app.clock.time == (if ValidateTime(s.ble.time) then s.ble.time else s.app.clock.time))
      && (c == Control && data[0] != SetDateAndTime.Code() ==> r.app == s.app)
      && (c !in {Time, Date, Control} ==> r == s)
  {
    var c := CharacteristicForHandle(h, attrHandle);
    var routed := CharacteristicValueChanged(s.ble, c, data);
    var app := match routed.handlerCall
      case Some(value) => ControlValueChanged(s.app, h, routed.values, value)
      case None => s.app;
    s.(ble := routed.values, app := app)
  }

  /** No client write makes the firmware publish a client-only control value: the log holds only DEFAULT and NEXT_RECORD_AVAILABLE. */
  lemma ClientWriteKeepsDeviceLog(h: Handles, s: Station, attrHandle: uint16, data: seq<uint8>)
    requires ClientWriteFits(h, attrHandle, data)
    requires DeviceLog(h, s.app.published)
    ensures DeviceLog(h, ClientWrite(h, s, attrHandle, data).app.published)
  {
  }

  /**
   The fetch commands and the interval command are accepted and stored as the
   control byte, but change neither the store, the application state, the
   clock nor the published log: no fetch session exists.
   */
  lemma FetchAndIntervalCommandsAreInert(h: Handles, s: Station, command: ControlValue)
    requires DistinctHandles(h)
    requires command in {GetData, FetchNextRecord, AbortFetching, SetMeasurementInterval}
    ensures var r := ClientWrite(h, s, ValueAttribute(h, Control), [command.Code()]);
            && r.store == s.store && r.app == s.app
            && r.ble == s.ble.(control := command.Code())
  {
  }

  /** A date write stores the four bytes as year, month, day, weekday and changes nothing else. */
  lemma DateWriteStep(h: Handles, s: Station, year: uint8, month: uint8, day: uint8, weekDay: uint8)
    requires DistinctHandles(h)
    ensures var r := ClientWrite(h, s, ValueAttribute(h, Date), [year, month, day, weekDay]);
            && r.ble.date == RtcDate(weekDay, month, day, year)
            && r.ble.time == s.ble.time && r.app == s.app && r.store == s.store
  {
  }

  /** A time write stores the three bytes as hour, minute, second and changes nothing else. */
  lemma TimeWriteStep(h: Handles, s: Station, hour: uint8, minute: uint8, second: uint8)
    requires DistinctHandles(h)
    ensures var r := ClientWrite(h, s, ValueAttribute(h, Time), [hour, minute, second]);
            && r.ble.time == s.ble.time.(hours := hour, minutes := minute, seconds := second)
            && r.ble.date == s.ble.date && r.app == s.app && r.store == s.store
  {
  }

  /** SET_DATE_AND_TIME moves the stored date and time onto the clock, each through its validator. */
  lemma SetDateAndTimeStep(h: Handles, s: Station)
    requires DistinctHandles(h)
    ensures var r := ClientWrite(h, s, ValueAttribute(h, Control), [SetDateAndTime.Code()]);
            && r.app.state == Idle
            && r.app.published == s.app.published + [PublishControl(h, Default)]
            && r.app.clock.date == (if ValidateDate(s.ble.date) then s.ble.date else s.app.clock.date)
            && r.app.clock.time == (if ValidateTime(s.ble.time) then s.ble.time else s.app.clock.time)
            && r.store == s.store
  {
  }

  /**
   The clock-setting exchange: the client writes the date, then the time, then
   SET_DATE_AND_TIME. Each value reaches the clock exactly when it passes its
   validator, the application ends IDLE, and one DEFAULT is published.
   */
  lemma SetDateAndTimeExchange(h: Handles, s: Station, year: uint8, month: uint8, day: uint8, weekDay: uint8,
                               hour: uint8, minute: uint8, second: uint8)
    requires DistinctHandles(h)
    ensures var s1 := ClientWrite(h, s, ValueAttribute(h, Date), [year, month, day, weekDay]);
            var s2 := ClientWrite(h, s1, ValueAttribute(h, Time), [hour, minute, second]);
            var s3 := ClientWrite(h, s2, ValueAttribute(h, Control), [SetDateAndTime.Code()]);
            var date := RtcDate(weekDay, month, day, year);
            var time := s.ble.time.(hours := hour, minutes := minute, seconds := second);
            && s3.app.state == Idle
            && s3.app.published == s.app.published + [PublishControl(h, Default)]
            && s3.app.clock.date == (if ValidateDate(date) then date else s.app.clock.date)
            && s3.app.clock.time == (if hour < 24 && minute < 60 && second < 60 then time else s.app.clock.time)
            && s3.store == s.store
  {
    var s1 := ClientWrite(h, s, ValueAttribute(h, Date), [year, month, day, weekDay]);
    DateWriteStep(h, s, year, month, day, weekDay);
    var s2 := ClientWrite(h, s1, ValueAttribute(h, Time), [hour, minute, second]);
    TimeWriteStep(h, s1, hour, minute, second);
    SetDateAndTimeStep(h, s2);
  }
}
