/** What the toolbar promises: the buttons and the dropdown mirror the command, and pressing
    a button toggles its direction. */
module UIProperties {
  import opened Wrappers
  import opened Seqs
  import Utils
  import opened Command
  import opened CommandProperties
  import opened UI

  /** Registration follows configuration order; the default configuration registers both
      buttons, and a configuration with only `ltr` registers no `rtl` button. */
  lemma RegistrationFollowsConfig(a: seq<string>, b: seq<string>)
    ensures RegisteredOptions(a + b) == RegisteredOptions(a) + RegisteredOptions(b)
    ensures RegisteredOptions(Utils.SupportedOptions) == ["ltr", "rtl"]
    ensures RegisteredOptions(["ltr"]) == ["ltr"] && "rtl" !in RegisteredOptions(["ltr"])
  {
    Utils.SupportedOnlyKeepsOrder(a, b, "ltr");
    Utils.SupportedOptionsShape();
  }

  /** The dropdown's icon is the icon of the command's value when a button for that value is
      in the dropdown, and the left-to-right icon otherwise. */
  lemma DropdownIconFollowsCommand(buttons: seq<ButtonState>, options: seq<string>, cmd: CommandState)
    requires |buttons| == |options|
    requires forall k :: 0 <= k < |options| ==> buttons[k] == Button(options[k], cmd)
    ensures DropdownIcon(buttons) == if cmd.value in options then IconFor(cmd.value) else Some(LtrIcon)
  {
    if cmd.value in options {
      var k := FindIndex((o: string) => o == cmd.value, options);
      assert k >= 0 && buttons[k].isOn && buttons[k].icon == IconFor(cmd.value);
      assert forall j :: 0 <= j < k ==> !buttons[j].isOn;
    } else {
      forall k | 0 <= k < |buttons| ensures !buttons[k].isOn {
        assert options[k] in options;
      }
    }
  }

  /** The dropdown is enabled exactly when the command is enabled and it holds some button. */
  lemma DropdownEnabledFollowsCommand(buttons: seq<ButtonState>, options: seq<string>, cmd: CommandState)
    requires |buttons| == |options|
    requires forall k :: 0 <= k < |options| ==> buttons[k] == Button(options[k], cmd)
    ensures DropdownEnabled(buttons) <==> cmd.isEnabled && options != []
  {
    if cmd.isEnabled && options != [] {
      assert buttons[0].isEnabled;
    }
  }

  /** Both facts for the dropdown built from registered buttons only. */
  lemma DropdownFollowsCommand(options: seq<string>, cmd: CommandState)
    ensures DropdownIcon(DropdownButtons(options, cmd))
      == if cmd.value in options && Utils.IsSupported(cmd.value) then IconFor(cmd.value) else Some(LtrIcon)
    ensures DropdownEnabled(DropdownButtons(options, cmd)) <==> cmd.isEnabled && RegisteredOptions(options) != []
  {
    DropdownIconFollowsCommand(DropdownButtons(options, cmd), RegisteredOptions(options), cmd);
    DropdownEnabledFollowsCommand(DropdownButtons(options, cmd), RegisteredOptions(options), cmd);
  }

  /** As written, a configured option without a button makes the dropdown impossible to
      create; requesting only registered buttons gives the dropdown the `ltr` button. */
  lemma UnsupportedOptionBreaksDropdown(cmd: CommandState)
    ensures DropdownButtonsAsWritten(["ltr", "auto"], cmd) == Failure(ComponentMissing("direction:auto"))
    ensures DropdownButtons(["ltr", "auto"], cmd) == [Button("ltr", cmd)]
  {
    var options := ["ltr", "auto"];
    assert !Utils.IsSupported("auto");
    Utils.SupportedOnlyKeepsOrder(["ltr"], ["auto"], "auto");
    Utils.SupportedOnlyKeepsOrder(["ltr"], ["auto"], "ltr");
    assert options == ["ltr"] + ["auto"];
    assert RegisteredOptions(options) == ["ltr"];
    assert options[1..] == ["auto"];
    assert ComponentName("auto") == "direction:auto";
    assert CreateButtons(["ltr"], ["auto"], cmd) == Failure(ComponentMissing("direction:auto"));
  }

  /** When every configured option is supported the two agree. */
  lemma DropdownAsWrittenAgrees(options: seq<string>, cmd: CommandState)
    requires forall k :: 0 <= k < |options| ==> Utils.IsSupported(options[k])
    ensures DropdownButtonsAsWritten(options, cmd) == Success(DropdownButtons(options, cmd))
  {
    FilterKeepsAll(Utils.IsSupported, options);
  }

  /** Pressing a supported button on an enabled command toggles it: when the button is on, or
      it is the default `ltr` button, the attribute is removed as if no value were requested;
      otherwise its option is set and the refreshed command shows it. */
  lemma ButtonPressToggles(bs: seq<Block>, sel: seq<nat>, option: string)
    requires SelectionWellFormed(|bs|, sel)
    requires RefreshState(bs, sel).isEnabled && Utils.IsSupported(option)
    ensures ExecuteOn(bs, sel, ButtonRequest(option)).Success?
    ensures Button(option, RefreshState(bs, sel)).isOn || Utils.IsDefault(option) ==>
      ExecuteOn(bs, sel, ButtonRequest(option)) == ExecuteOn(bs, sel, None)
    ensures !Button(option, RefreshState(bs, sel)).isOn && !Utils.IsDefault(option) ==>
      RefreshState(ExecuteOn(bs, sel, ButtonRequest(option)).value, sel) == CommandState(true, option)
  {
    RefreshFirstBlock(bs, sel);
    var cmd := RefreshState(bs, sel);
    if !Button(option, cmd).isOn && !Utils.IsDefault(option) {
      assert option == "rtl";
      ExecuteSets(bs, sel, option);
      var out := ExecuteOn(bs, sel, Some(option)).value;
      assert out[sel[0]] == bs[sel[0]].(direction := Some(option));
    }
  }
}
