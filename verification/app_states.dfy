/**
 The control-byte handler of `app_states.c`. Of the client commands only
 SET_DATE_AND_TIME does anything: GET_DATA, FETCH_NEXT_RECORD,
 ABORT_FETCHING and SET_MEASUREMENT_INTERVAL are empty cases, and every other
 byte is ignored. Changing the application state publishes the control value
 DEFAULT on entering IDLE, NEXT_RECORD_AVAILABLE on entering RECORD_READY, and
 nothing otherwise.
 */
module AppStates {
  import opened Bytes
  import opened Wrappers
  import opened Rtc
  import opened BleServices
  import opened BleInterface

  /** AppState */
  datatype AppState = Idle | Measuring | SettingInterval | SettingDateAndTime | FetchingRecords | RecordReady

  /** The application's state, the RTC it drives, and every control-characteristic update it made, oldest first. */
  datatype AppCtx = AppCtx(state: AppState, clock: Clock, published: seq<GattUpdate>)

  /** The static initialiser: IDLE, nothing published yet. */
  function Initial(clock: Clock): (ctx: AppCtx)
    ensures ctx.state == Idle && ctx.published == [] && ctx.clock == clock
  {
    AppCtx(Idle, clock, [])
  }

  /** get_app_state */
  function GetAppState(ctx: AppCtx): AppState {
    ctx.state
  }

  /** Every update in the log writes one of the two control values the firmware owns: DEFAULT or NEXT_RECORD_AVAILABLE. */
  predicate DeviceLog(h: Handles, log: seq<GattUpdate>) {
    forall i :: 0 <= i < |log| ==>
      log[i] == PublishControl(h, Default) || log[i] == PublishControl(h, NextRecordAvailable)
  }

  /** set_app_state */
  function SetAppState(ctx: AppCtx, h: Handles, newState: AppState): (r: AppCtx)
    ensures GetAppState(r) == newState && r.clock == ctx.clock
    ensures newState == Idle ==> r.published == ctx.published + [PublishControl(h, Default)]
    ensures newState == RecordReady ==> r.published == ctx.published + [PublishControl(h, NextRecordAvailable)]
    ensures newState != Idle && newState != RecordReady ==> r.published == ctx.published
  {
    var published := match newState
      case Idle => ctx.published + [PublishControl(h, Default)]
      case RecordReady => ctx.published + [PublishControl(h, NextRecordAvailable)]
      case _ => ctx.published;
    AppCtx(newState, ctx.clock, published)
  }

  /**
   app_set_date_and_time: enter SETTING_DATE_AND_TIME, write the stored date
   then the stored time to the clock (each only if its own validator passes),
   and return to IDLE.
   */
  function AppSetDateAndTime(ctx: AppCtx, h: Handles, ble: BleValues): (r: AppCtx)
    ensures r.state == Idle
    ensures r.published == ctx.published + [PublishControl(h, Default)]
    ensures r.clock.date == (if ValidateDate(ble.date) then ble.date else ctx.clock.date)
    ensures r.clock.time == (if ValidateTime(ble.time) then ble.time else ctx.clock.time)
    ensures r.clock.alarm == ctx.clock.alarm && r.clock.alarmIrqEnabled == ctx.clock.alarmIrqEnabled
  {
    var setting := SetAppState(ctx, h, SettingDateAndTime);
    var clock := SetTimeS(SetDateS(setting.clock, ble.date), ble.time);
    SetAppState(setting.(clock := clock), h, Idle)
  }

  /** ble_control_value_changed (the strong definition that replaces the weak no-op of the interface file). */
  function ControlValueChanged(ctx: AppCtx, h: Handles, ble: BleValues, value: uint8): (r: AppCtx)
    ensures DecodeControl(value) != Some(SetDateAndTime) ==> r == ctx
    ensures DecodeControl(value) == Some(SetDateAndTime) ==>
      && r.state == Idle
      && r.published == ctx.published + [PublishControl(h, Default)]
      && r.clock == SetTimeS(SetDateS(ctx.clock, ble.date), ble.time)
  {
    if value == SetDateAndTime.Code() then AppSetDateAndTime(ctx, h, ble)
    else
      // GET_DATA, FETCH_NEXT_RECORD, ABORT_FETCHING, SET_MEASUREMENT_INTERVAL: empty cases;
      // DEFAULT, NEXT_RECORD_AVAILABLE and any other byte: ignored
      ctx
  }

  /** Whatever state is entered, the firmware only ever publishes DEFAULT or NEXT_RECORD_AVAILABLE, and at most once. */
  lemma SetAppStatePublishesOnlyDeviceValues(ctx: AppCtx, h: Handles, newState: AppState)
    requires DeviceLog(h, ctx.published)
    ensures DeviceLog(h, SetAppState(ctx, h, newState).published)
    ensures |SetAppState(ctx, h, newState).published| <= |ctx.published| + 1
  {
  }

  /** A date accepted by the validator reaches the clock even when the time in the same command is rejected, and vice versa. */
  lemma DateAndTimeGatedIndependently(ctx: AppCtx, h: Handles, ble: BleValues)
    requires ValidateDate(ble.date) != ValidateTime(ble.time)
    ensures var r := ControlValueChanged(ctx, h, ble, SetDateAndTime.Code());
            && (ValidateDate(ble.date) ==> r.clock.date == ble.date && r.clock.time == ctx.clock.time)
            && (ValidateTime(ble.time) ==> r.clock.time == ble.time && r.clock.date == ctx.clock.date)
  {
  }

  /** Starting from a valid clock, the handler never leaves an invalid time or date on the clock, whatever the client wrote. */
  lemma ControlValueChangedKeepsClockValid(ctx: AppCtx, h: Handles, ble: BleValues, value: uint8)
    requires ValidClock(ctx.clock)
    ensures ValidClock(ControlValueChanged(ctx, h, ble, value).clock)
  {
  }
}
