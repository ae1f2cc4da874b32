# BLE weather station firmware core, in Dafny

This project models the application core of the SteelPh0enix BLEWeatherStation
firmware, an STM32 board with a BlueNRG-2 radio. The board samples temperature,
pressure and humidity, timestamps each sample from its RTC, and offers the
values to a BLE client through one custom GATT service. The model covers five
pieces of that firmware:

- **The measurement ring buffer** (`MeasurementStore`, from `mems_data_buffer.c`).
  It holds 2048 records. It keeps a cursor at the oldest record, a cursor at
  the most recently written slot, and an explicit count. The C pointers become
  indices.
- **RTC validation and time arithmetic** (`Rtc`, from `rtc_utils.c`). This covers:
  - the three validators;
  - the validate-then-write setters;
  - `timestampAfter` and `timestampAfterSeconds`, including the 32-bit
    `unsigned` wrap of the latter;
  - the two alarm-moving functions, with their weekday rollover rule.

  The RTC peripheral is modelled as a `Clock` value (time, date, alarm, and
  whether the alarm interrupt is enabled). A HAL write is assumed to succeed.
- **BLE byte order and handle dispatch** (`BleServices`, from `ble_app_services.c`).
  This covers:
  - in-place byte reversal, and the reversed UUID copy;
  - the mapping from an attribute handle to a characteristic;
  - the guarded characteristic update.

  The handles the BLE stack assigns are parameters (`Handles`). A call into
  the stack is recorded as a `GattUpdate` value, with the stack's status
  passed in as an input.
- **Routing of inbound characteristic writes** (`BleInterface`, from
  `ble_app_interface.c`). This covers:
  - the stored time, date and control byte;
  - how a client write is decoded into them;
  - the byte layouts the firmware publishes.
- **The control-byte state machine** (`AppStates`, from `app_states.c`). Only
  SET_DATE_AND_TIME has an effect. Entering IDLE publishes DEFAULT, and
  entering RECORD_READY publishes NEXT_RECORD_AVAILABLE.

`Station` composes the pieces into one step for a client write to a GATT
attribute. That step goes from `aci_gatt_attribute_modified_event`, through
`characteristic_value_changed` and `ble_control_byte_changed`, to
`ble_control_value_changed`.

`Bytes` holds the fixed-width integer types, and `Wrappers` holds `Option`.

Where the source's own documentation and its code disagree, the model follows
the code:

- The control characteristic's comment (`ble_app_services.c:55-91`) describes
  a fetch procedure driven by GET_DATA, FETCH_NEXT_RECORD and ABORT_FETCHING.
  It says ABORT_FETCHING returns the characteristic to DEFAULT. In
  `app_states.c:20-27` these commands, and SET_MEASUREMENT_INTERVAL, are empty
  cases. The model proves that they change nothing beyond the stored control
  byte, and no DEFAULT is published for them.
- The ring buffer's cursors stop matching once the store has been drained;
  see Findings.
- `rtc_utils.h` declares `setRTCAlarm` with three parameters. The definition
  in `rtc_utils.c` takes four, and the model follows the definition.

## Model

| member | source | states |
|---|---|---|
| MeasurementStore.Initial | Core/Src/mems_data_buffer.c:12-16 | The power-on store is valid and empty, with both cursors at slot 0. |
| MeasurementStore.NextElement | Core/Src/mems_data_buffer.c:18-25 | A cursor stays put on an empty store. Otherwise it advances one slot, wrapping from the last slot to slot 0, and never leaves the array. |
| MeasurementStore.StoredCount | Core/Src/mems_data_buffer.c:35-37 | The stored count is at most 2048 and is exactly the length of the queue read from `first`. |
| MeasurementStore.SlotsLeft | Core/Src/mems_data_buffer.c:39-41 | Free slots and stored records always add up to the capacity of 2048. No slot is left exactly when the store is full. |
| MeasurementStore.Clear | Core/Src/mems_data_buffer.c:43-47 | Clearing empties the store and resets both cursors to 0. The stored payloads are left in place. |
| MeasurementStore.ClearIsCoherent | Core/Src/mems_data_buffer.c:43-47 | A cleared store satisfies the head == tail cursor relation and holds no records. |
| MeasurementStore.Append | Core/Src/mems_data_buffer.c:49-60 | A full store refuses the record and is unchanged. Otherwise: the count grows by one; the record lands at the slot after `last`, or at `last` itself on an empty store; `first` is untouched; no other slot changes. |
| MeasurementStore.Fetch | Core/Src/mems_data_buffer.c:62-72 | An empty store yields nothing and is unchanged. Otherwise it yields the record at `first`, advances `first` by one with wrap, decrements the count, and leaves the data untouched. |
| MeasurementStore.AppendKeepsFifo | Core/Src/mems_data_buffer.c:49-60 | On a coherent store that is not full, an append keeps the store coherent and enqueues the record at the back of the queue. |
| MeasurementStore.FetchKeepsFifo | Core/Src/mems_data_buffer.c:62-72 | On a coherent store, a fetch returns the oldest record and removes exactly that one. The store stays coherent while records remain. The fetch that drains it breaks coherence. |
| MeasurementStore.AppendAllKeepsFifo | Core/Src/mems_data_buffer.c:49-60 | From a coherent store, a run of records that fits is enqueued in order, by induction on the run. |
| MeasurementStore.DrainThenAppendFetchesStale | Core/Src/mems_data_buffer.c:18-72 | Clear, append `a`, fetch, append `b`, fetch: the first fetch returns `a`, but the second returns whatever slot 1 held, not `b`. |
| MeasurementStore.RepeatedDrainsWidenTheGap | Core/Src/mems_data_buffer.c:18-72 | A third drain-then-append round writes `c` at slot 0 while the read cursor sits at slot 2, so the fetch returns the old slot 2. |
| MeasurementStore.DrainRoundsDrift | Core/Src/mems_data_buffer.c:18-72 | After `k` drain-then-append rounds from a cleared store, the store is empty, the write cursor is still at slot 0, and the read cursor is at slot `k` modulo 2048. Each round moves the read cursor one more slot away, wrapping around every 2048 rounds. |
| MeasurementStore.AppendCorrected | Core/Src/mems_data_buffer.c:49-60 | The intended append. It behaves like the written one, except that an empty store restarts writing at `first`. |
| MeasurementStore.AppendCorrectedKeepsFifo | Core/Src/mems_data_buffer.c:49-60 | With the corrected append, the cursor relation holds in every state that has records, and appends enqueue at the back. |
| MeasurementStore.FetchKeepsOrdered | Core/Src/mems_data_buffer.c:62-72 | Fetch preserves that relation, drains included, and dequeues the front record. |
| MeasurementStore.DrainThenAppendCorrectedFetchesLatest | Core/Src/mems_data_buffer.c:18-72 | With the corrected append, the drain trace returns `b` on the second fetch. |
| Rtc.ValidatorRanges | Core/Src/rtc_utils.c:12-33 | Each validator accepts exactly these ranges: hours 0-23, minutes and seconds 0-59; day 1-31, month 1-12, weekday 1-7. The year and the alarm's match settings never matter. |
| Rtc.TimestampAfter | Core/Src/rtc_utils.c:167-177 | The result is always a valid time. Its seconds since midnight equal the old total plus the offset, modulo one day. Sub-seconds and the other fields are kept. |
| Rtc.TimestampAfterSeconds | Core/Src/rtc_utils.c:179-189 | The result is always a valid time. When the 32-bit first sum does not wrap, the result is the old time plus the offset, modulo one day. |
| Rtc.AfterSecondsAgreesWithAfter | Core/Src/rtc_utils.c:167-189 | Advancing by h:m:s and advancing by the same amount in seconds give the same time. |
| Rtc.ValidTimeIsFixedByZeroAdvance | Core/Src/rtc_utils.c:12-18 | A time passes `validateTime` exactly when advancing it by zero leaves it unchanged. |
| Rtc.SetTimeS | Core/Src/rtc_utils.c:92-104 | The clock's time becomes the new time if it validates, and stays as it was otherwise. Nothing else on the clock changes. |
| Rtc.SetDateS | Core/Src/rtc_utils.c:106-118 | The same rule for the date. |
| Rtc.SetAlarmS | Core/Src/rtc_utils.c:77-90 | The same rule for the alarm. |
| Rtc.SetTime | Core/Src/rtc_utils.c:55-65 | With in-range fields the clock's time becomes that time, with zero sub-seconds, no daylight saving and a reset store operation. Otherwise the clock is unchanged. Only the time is ever written. |
| Rtc.SetDate | Core/Src/rtc_utils.c:67-75 | With day 1-31, month 1-12 and weekday 1-7 the clock's date becomes the given year, month, day and weekday, whatever the year. Otherwise the clock is unchanged. Only the date is ever written. |
| Rtc.SetAlarm | Core/Src/rtc_utils.c:35-53 | The alarm interrupt is always enabled. A valid weekday and time become a weekday-match alarm on alarm A with zero sub-seconds. Otherwise the old alarm stays. |
| Rtc.SettersKeepClockValid | Core/Src/rtc_utils.c:35-118 | Starting from a valid clock, no single setter call makes it invalid, whatever its input. `setRTCTime` changes the time only with in-range fields. `setRTCAlarm` always leaves the alarm interrupt enabled. |
| Rtc.RolledWeekDay | Core/Src/rtc_utils.c:125-130 | The weekday changes only when the new hour is below the old one. A valid weekday then moves to the next one, with Sunday wrapping to Monday. Byte 0 and byte values from 7 to 254 become Monday, and 255 wraps to 0. |
| Rtc.RolledWeekDayCycles | Core/Src/rtc_utils.c:125-130 | `k` rollovers from a valid weekday land on weekday `(w - 1 + k) mod 7 + 1`, so seven rollovers are the identity. |
| Rtc.MoveAlarm | Core/Src/rtc_utils.c:120-141 | The returned time is the alarm time advanced by h:m:s. The stored alarm gets that time and the rolled weekday. No other part of the clock changes, and the write is not validated. A valid alarm stays valid. |
| Rtc.MoveAlarmBySeconds | Core/Src/rtc_utils.c:143-165 | The same, for an offset given in seconds. A valid alarm stays valid. |
| Rtc.MoveAlarmBySecondsMissesMidnights | Core/Src/rtc_utils.c:147-154 | From Monday 10:30:00, 85500 s later gives 10:15:00 still on Monday. Two whole days later gives 10:30:00 still on Monday. Neither lands at its true place in the week. |
| Rtc.MoveAlarmMissesSameHourMidnight | Core/Src/rtc_utils.c:120-141 | Moving a Monday 10:30:00 alarm by 23:45:00 gives Monday 10:15:00. Its place in the week then differs from the old place plus the interval. |
| Rtc.MoveAlarmCorrected | Core/Src/rtc_utils.c:120-141 | The intended move. The time is as in `moveRTCAlarm`, and the weekday is advanced by the number of midnights crossed. Nothing else changes. |
| Rtc.MoveAlarmBySecondsCorrected | Core/Src/rtc_utils.c:143-165 | The intended by-seconds move. The time is as in `moveRTCAlarmBySeconds`, and the weekday is advanced by the number of midnights crossed. Nothing else changes. |
| Rtc.MoveAlarmBySecondsCorrectedAdvancesWeekSeconds | Core/Src/rtc_utils.c:143-165 | The corrected by-seconds move keeps a valid alarm valid. It advances the alarm's place in the week by the interval, modulo one week, for any interval that does not wrap the 32-bit sum. |
| Rtc.MoveAlarmCorrectedAdvancesWeekSeconds | Core/Src/rtc_utils.c:120-141 | The corrected move keeps a valid alarm valid. It advances the alarm's position in the week by exactly the interval, modulo one week. |
| Rtc.RolledAgreesWithDaysCrossed | Core/Src/rtc_utils.c:125-130 | For a move shorter than a day, the hour-comparison weekday differs from the days-crossed weekday only if the move crosses midnight and keeps the hour. |
| Rtc.MoveAlarmAgreesUnlessSameHour | Core/Src/rtc_utils.c:120-141 | For a valid alarm and an interval under a day, the written and the corrected move differ exactly when the move crosses midnight and the new hour equals the old one. |
| Rtc.MoveAlarmBySecondsAgreesUnlessSameHour | Core/Src/rtc_utils.c:143-165 | The same for the by-seconds move and an interval under a day. |
| BleServices.InvertByteOrder | BlueNRG-2/App/ble_app_services.c:307-317 | After the two-ended swap loop, the first `length` bytes are in reverse order and the rest are untouched. |
| BleServices.ReversedIsInvolution | BlueNRG-2/App/ble_app_services.c:307-317 | Reversing twice restores the bytes. Reversal keeps the length and the multiset of bytes. |
| BleServices.ReversedShortIsIdentity | BlueNRG-2/App/ble_app_services.c:307-317 | Reversing zero bytes or one byte changes nothing. |
| BleServices.CopyReversedUuid | BlueNRG-2/App/ble_app_services.c:367-374 | The destination holds the 16 UUID bytes, last byte first. |
| BleServices.CharHandleOf | BlueNRG-2/App/ble_app_services.c:338 | Subtracting the value offset with 16-bit wrap is undone by adding it back, so no attribute handle is lost. |
| BleServices.CharacteristicForHandle | BlueNRG-2/App/ble_app_services.c:346-361 | The reported characteristic is the first one, in enum order, whose bound handle matches. If none matches, the result is INVALID. |
| BleServices.DispatchFindsOwnCharacteristic | BlueNRG-2/App/ble_app_services.c:333-365 | With distinct stack handles, a write to a characteristic's value attribute is reported as that characteristic. |
| BleServices.SetCharacteristicValue | BlueNRG-2/App/ble_app_services.c:382-391 | An id outside the table gets 0xFF, and nothing is sent or changed. Otherwise the caller's bytes are reversed in place and sent with offset 0 to the service and the bound handle. The stack's status is returned. |
| BleServices.SentValueReadBackwardsIsCallerBytes | BlueNRG-2/App/ble_app_services.c:387-390 | A peer that reads the sent value most significant byte first recovers exactly the bytes the caller passed. |
| BleInterface.DecodeControl | BlueNRG-2/App/ble_app_interface.h:14-22 | Exactly the bytes 0x00 to 0x06 name a control value, and decoding inverts the enum's encoding. |
| BleInterface.Initial | BlueNRG-2/App/ble_app_interface.c:13-15 | At start-up the stored time is zero in every field, including sub-seconds, daylight saving and store operation. The stored date is zero, and the control byte decodes to DEFAULT. |
| BleInterface.TimeChanged | BlueNRG-2/App/ble_app_interface.c:17-28 | Bytes 0, 1 and 2 become the stored hour, minute and second. The other time fields, the stored date and the control byte are kept. |
| BleInterface.DateChanged | BlueNRG-2/App/ble_app_interface.c:30-43 | Bytes 0-3 become the stored year, month, day and weekday. The stored time and the control byte are kept. |
| BleInterface.CharacteristicValueChanged | BlueNRG-2/App/ble_app_interface.c:112-129 | A time write stores hour, minute and second from bytes 0-2. A date write stores year, month, day and weekday from bytes 0-3. A control write stores byte 0 and passes it to the handler. Only a control write calls the handler, and any other characteristic leaves everything unchanged. |
| BleInterface.PublishTime | BlueNRG-2/App/ble_app_interface.c:79-83 | The published time is 3 bytes at offset 0 on the time handle, in the order second, minute, hour. |
| BleInterface.PublishDate | BlueNRG-2/App/ble_app_interface.c:85-89 | The published date is 4 bytes at offset 0 on the date handle, in the order weekday, day, month, year. |
| BleInterface.PublishControl | BlueNRG-2/App/ble_app_interface.c:67-70 | Publishing a control value sends one byte, its code, to the control handle, and that byte decodes back to the value. |
| BleInterface.PublishedTimeRoundTrip | BlueNRG-2/App/ble_app_interface.c:17-28 | A published time, read most significant byte first and written back, stores the published hour, minute and second. |
| BleInterface.PublishedDateRoundTrip | BlueNRG-2/App/ble_app_interface.c:30-43 | A published date, read and written back the same way, stores the published date. |
| BleInterface.PublishedTimeEchoSwapsHoursAndSeconds | BlueNRG-2/App/ble_app_interface.c:17-28 | A published time written back verbatim comes in with hours and seconds swapped, because only the outbound path reverses. |
| AppStates.Initial | Core/Src/app_states.c:16 | The application starts IDLE with nothing published. |
| AppStates.SetAppState | Core/Src/app_states.c:51-69 | The new state is recorded. Entering IDLE publishes DEFAULT, entering RECORD_READY publishes NEXT_RECORD_AVAILABLE, and other states publish nothing. The clock is untouched. |
| AppStates.SetAppStatePublishesOnlyDeviceValues | Core/Src/app_states.c:51-69 | Whatever the state, the firmware only ever publishes DEFAULT or NEXT_RECORD_AVAILABLE, at most one update per change. |
| AppStates.AppSetDateAndTime | Core/Src/app_states.c:37-49 | The application ends IDLE and publishes one DEFAULT. Each of the stored date and time reaches the clock only if it validates. The alarm is untouched. |
| AppStates.ControlValueChanged | Core/Src/app_states.c:18-35 | Every byte except SET_DATE_AND_TIME leaves the application unchanged. SET_DATE_AND_TIME runs the gated date-then-time update. |
| AppStates.DateAndTimeGatedIndependently | Core/Src/app_states.c:37-49 | When only one of the date and the time validates, exactly that one reaches the clock. |
| AppStates.ControlValueChangedKeepsClockValid | Core/Src/app_states.c:18-49 | Starting from a valid clock, no control byte and no stored values can leave the clock invalid. |
| Station.Initial | BlueNRG-2/App/ble_app_interface.c:13-15 | At power-on the store is empty, the BLE values are at their initialisers, and the application is IDLE with nothing published. |
| Station.ValueAttribute | BlueNRG-2/App/ble_app_services.c:119-122 | The value attribute of a characteristic sits one handle (16-bit wrap) after its bound handle. When the stack's handles are distinct, a write there is dispatched back to that characteristic. |
| Station.ClientWrite | BlueNRG-2/App/ble_app_services.c:333-365 | A client write never touches the measurement store. Time and date writes change only the stored value. A control write stores the byte, and only SET_DATE_AND_TIME changes the application. Writes to other characteristics change nothing. |
| Station.ClientWriteKeepsDeviceLog | Core/Src/app_states.c:55-67 | No client write makes the firmware publish a control value other than DEFAULT or NEXT_RECORD_AVAILABLE. |
| Station.FetchAndIntervalCommandsAreInert | Core/Src/app_states.c:19-27 | GET_DATA, FETCH_NEXT_RECORD, ABORT_FETCHING and SET_MEASUREMENT_INTERVAL are stored as the control byte but change nothing else. |
| Station.DateWriteStep | BlueNRG-2/App/ble_app_interface.c:30-43 | A client write of four bytes to the date attribute stores them as year, month, day and weekday. It leaves the stored time, the application and the store unchanged. |
| Station.TimeWriteStep | BlueNRG-2/App/ble_app_interface.c:17-28 | A client write of three bytes to the time attribute stores them as hour, minute and second. It leaves the stored date, the application and the store unchanged. |
| Station.SetDateAndTimeStep | Core/Src/app_states.c:28-49 | Writing SET_DATE_AND_TIME to the control attribute copies the stored date and time to the clock, each only if it validates. The application ends IDLE with one DEFAULT published. |
| Station.SetDateAndTimeExchange | Core/Src/app_states.c:37-49 | A client writes date, then time, then SET_DATE_AND_TIME. The date reaches the clock exactly when it validates. The time reaches it exactly when hour, minute and second are in range. The application ends IDLE, one DEFAULT is published, and the store is untouched. |

## Left out

- Connection events, service registration, the UUID constants and
  `add_app_services` are left out. They only log or call into the BLE stack.
- `debugPrint` is left out, because it has no effect on state.
- HAL and stack status failures are not modelled:
  - a validated RTC write is assumed to succeed;
  - the status of `HAL_RTC_SetAlarm_IT` in the alarm moves is ignored;
  - `aci_gatt_update_char_value`'s status is an input.
- The NVIC priority set by `setRTCAlarm` is reduced to an "alarm interrupt
  enabled" flag.
- The HAL alarm fields the validator never reads are reduced to one
  `AlarmSettings` value. These are the alarm mask, the sub-second mask and the
  weekday/date selection.
- `set_ble_temperature`, `set_ble_pressure`, `set_ble_humidity` and
  `set_ble_number_of_records` are left out. They depend on the
  `VALUE_TO_*_BYTEARRAY_BE` macros, which are defined outside the files
  modelled here.
- `get_ble_number_of_records` is declared in `ble_app_interface.h` but defined
  nowhere, so it is not modelled.
- The getters `get_ble_time`, `get_ble_date`, `get_ble_control_value` and
  `get_app_state` are plain field reads of the modelled state. Only
  `AppStates.GetAppState` exists, as a helper without a row.
- The weak no-op defaults of `characteristic_value_changed` and
  `ble_control_value_changed` are left out. The linked strong definitions are
  modelled instead.
- The alarm interrupt handler, the measurement task, the sensor driver
  (`mems_sensors.c`), the RTOS tasks (`app_freertos.c`) and the BLE stack
  initialisation (`ble_app.c`) are not part of this model. No caller
  therefore appends to the store or moves the alarm. The store and the alarm
  moves are modelled and proved on their own.
- Concurrency between the BLE event context and the RTOS tasks is not modelled.
  Every step is atomic.
- `BleInterface.CharacteristicValueChanged` requires the write to carry the
  bytes its decoder reads. The C code never checks the length and reads past a
  shorter buffer, which is undefined behaviour and is not modelled.
- `BleServices.InvertByteOrder` treats length 0 as a no-op. The C code forms
  `data - 1` and never enters the loop.
- `BleInterface.PublishControl` sends the enum's first byte. The C code passes
  the address of a `BLEControlCharValue` with length 1, which is the code on
  the little-endian target.
- `Rtc.MoveAlarmBySecondsCorrectedAdvancesWeekSeconds` assumes the 32-bit
  first sum does not wrap. That takes an interval of more than 136 years, and
  after a wrap the time is no longer `delta` seconds later.
- `Rtc.TimestampAfterSeconds` states its seconds-of-day equation only when the
  32-bit first sum does not wrap. When it does wrap, only validity and the
  unchanged fields are stated, although the wrap itself is modelled.

## Findings

| source | as written | input that shows it | evidently intended | confidence | as-written member | corrected member |
|---|---|---|---|---|---|---|
| Core/Src/mems_data_buffer.c:18-25 | The cursor step is skipped when the store is empty. The fetch that drains the store still advances `first`, because the count is decremented after the step. The next append sees count 0 and writes at `last` without stepping, so `first` is one slot past the record just written. | From a cleared store: append A, fetch (gets A), append B, fetch. The second fetch returns the stale slot 1, not B. Each further drain-then-append moves the read cursor one more slot away from the write cursor, wrapping around every 2048 rounds (`MeasurementStore.DrainRoundsDrift`). | An append to an empty store writes at `first`, keeping head == tail, so the queue stays FIFO across drains. | high, not executed | MeasurementStore.DrainThenAppendFetchesStale | MeasurementStore.AppendCorrected |
| Core/Src/rtc_utils.c:125-130 | A midnight crossing is detected by comparing hours: the weekday advances only if the new hour is below the old one. | An alarm on Monday 10:30:00, moved by 23:45:00, becomes Monday 10:15:00. It rings six days and 23:45 later instead of 23:45 later. | The weekday advances by the number of midnights the move crosses, as the comment at line 148 says. | medium, not executed (needs an interval of at least 23 hours) | Rtc.MoveAlarmMissesSameHourMidnight | Rtc.MoveAlarmCorrected |
| Core/Src/rtc_utils.c:149-154 | `moveRTCAlarmBySeconds` uses the same hour comparison, directly under the comment at line 148. Its interval is an `unsigned` count of seconds, so a move can also cross several midnights, and at most one is counted. | From Monday 10:30:00: 85500 s gives Monday 10:15:00, and 172800 s gives Monday 10:30:00. Both should be later in the week. | The weekday advances by the number of midnights crossed. | medium, not executed (needs an interval of at least 23 hours) | Rtc.MoveAlarmBySecondsMissesMidnights | Rtc.MoveAlarmBySecondsCorrected |

In these rows the as-written behaviour is the one in `MeasurementStore.Append`,
`Rtc.MoveAlarm` and `Rtc.MoveAlarmBySeconds`. The corrected definitions carry the intended properties:
- `MeasurementStore.AppendCorrectedKeepsFifo`, `MeasurementStore.FetchKeepsOrdered`
  and `MeasurementStore.DrainThenAppendCorrectedFetchesLatest` for the store;
- `Rtc.MoveAlarmCorrectedAdvancesWeekSeconds`,
  `Rtc.MoveAlarmBySecondsCorrectedAdvancesWeekSeconds`,
  `Rtc.MoveAlarmAgreesUnlessSameHour` and
  `Rtc.MoveAlarmBySecondsAgreesUnlessSameHour` for the alarm.
