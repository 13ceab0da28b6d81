/** The user interface of the feature, as plain recomputation: which toggle buttons are
    registered, how each button mirrors the command, and how the dropdown that holds them
    derives its icon and its enabled flag. Icons are opaque tokens. */
module UI {
  import opened Wrappers
  import opened Seqs
  import Utils
  import opened Command

  /** The two icons shipped with the plugin. */
  datatype Icon = LtrIcon | RtlIcon

  /** The icon table: one icon per supported option. */
  const Icons: map<string, Icon> := map["ltr" := LtrIcon, "rtl" := RtlIcon]

  /** The dropdown's fallback icon: right-to-left as a default is not supported. */
  const DefaultIcon: Icon := LtrIcon

  /** `icons.get( option )`: absent for an option without an icon. */
  function IconFor(option: string): (r: Option<Icon>)
    ensures r.Some? <==> Utils.IsSupported(option)
    ensures option == "ltr" ==> r == Some(LtrIcon)
    ensures option == "rtl" ==> r == Some(RtlIcon)
  {
    if option in Icons then Some(Icons[option]) else None
  }

  /** The name a button is registered under in the component factory. */
  function ComponentName(option: string): (name: string)
  {
    "direction:" + option
  }

  /** A toggle button for one option, bound to the command. */
  datatype ButtonState = ButtonState(option: string, icon: Option<Icon>, isOn: bool, isEnabled: bool)

  /** The button for `option` under the command state `cmd`: on exactly when the command's
      value is that option, enabled exactly when the command is. */
  function Button(option: string, cmd: CommandState): (b: ButtonState)
    ensures b.option == option && b.icon == IconFor(option)
    ensures b.isOn <==> cmd.value == option
    ensures b.isEnabled == cmd.isEnabled
  {
    ButtonState(option, IconFor(option), cmd.value == option, cmd.isEnabled)
  }

  /** The request a button sends when pressed: execute the command with its option. */
  function ButtonRequest(option: string): (value: Option<string>)
    ensures value.Some? && value.value == option
  {
    Some(option)
  }

  /** The options a button is registered for: the configured ones that are supported. */
  function RegisteredOptions(options: seq<string>): (r: seq<string>)
    ensures forall o :: o in r <==> o in options && Utils.IsSupported(o)
    ensures forall k :: 0 <= k < |r| ==> IconFor(r[k]).Some?
  {
    Utils.SupportedOnly(options)
  }

  /** The component factory refuses to create a component that was never registered. */
  datatype UIError = ComponentMissing(name: string)

  /** Creates the buttons for `options`, in order, from a factory holding buttons for the
      options in `registered`; fails at the first option that has none. */
  function CreateButtons(registered: seq<string>, options: seq<string>, cmd: CommandState): (r: Result<seq<ButtonState>, UIError>)
    ensures r.Success? <==> forall k :: 0 <= k < |options| ==> options[k] in registered
    ensures r.Success? ==> |r.value| == |options| && forall k :: 0 <= k < |options| ==> r.value[k] == Button(options[k], cmd)
    ensures r.Failure? ==> exists k :: (0 <= k < |options| && options[k] !in registered
                                        && r.error == ComponentMissing(ComponentName(options[k]))
                                        && forall j :: 0 <= j < k ==> options[j] in registered)
  {
    if options == [] then Success([])
    else if options[0] !in registered then Failure(ComponentMissing(ComponentName(options[0])))
    else
      match CreateButtons(registered, options[1..], cmd)
      case Success(rest) =>
        assert forall k :: 1 <= k < |options| ==> options[k] == options[1..][k - 1];
        Success([Button(options[0], cmd)] + rest)
      case Failure(e) =>
        assert forall k :: 1 <= k < |options| ==> options[k] == options[1..][k - 1];
        Failure(e)
  }

  /** The dropdown's buttons as the plugin asks for them: one per configured option,
      unfiltered, although only supported options have a registered button. */
  function DropdownButtonsAsWritten(options: seq<string>, cmd: CommandState): (r: Result<seq<ButtonState>, UIError>)
    ensures r.Success? <==> forall k :: 0 <= k < |options| ==> Utils.IsSupported(options[k])
    ensures r.Success? ==> |r.value| == |options| && forall k :: 0 <= k < |options| ==> r.value[k] == Button(options[k], cmd)
  {
    CreateButtons(RegisteredOptions(options), options, cmd)
  }

  /** The dropdown's buttons when only registered buttons are requested: one per supported
      configured option, in configuration order. Creating them never fails. */
  function DropdownButtons(options: seq<string>, cmd: CommandState): (buttons: seq<ButtonState>)
    ensures |buttons| == |RegisteredOptions(options)|
    ensures forall k :: 0 <= k < |buttons| ==> buttons[k] == Button(RegisteredOptions(options)[k], cmd)
  {
    var registered := RegisteredOptions(options);
    assert forall k :: 0 <= k < |registered| ==> registered[k] in registered;
    CreateButtons(registered, registered, cmd).value
  }

  /** The dropdown's icon: that of the first button that is on, otherwise the default icon. */
  function DropdownIcon(buttons: seq<ButtonState>): (icon: Option<Icon>)
    ensures (forall k :: 0 <= k < |buttons| ==> !buttons[k].isOn) ==> icon == Some(DefaultIcon)
    ensures forall k :: 0 <= k < |buttons| && buttons[k].isOn && (forall j :: 0 <= j < k ==> !buttons[j].isOn) ==>
      icon == buttons[k].icon
  {
    var index := FindIndex((b: ButtonState) => b.isOn, buttons);
    if index < 0 then Some(DefaultIcon) else buttons[index].icon
  }

  /** The dropdown is enabled when some button in it is. */
  function DropdownEnabled(buttons: seq<ButtonState>): (r: bool)
    ensures r <==> exists k :: 0 <= k < |buttons| && buttons[k].isEnabled
  {
    Any((b: ButtonState) => b.isEnabled, buttons)
  }
}
