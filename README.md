# Text direction plugin: a Dafny model

This project models the text-direction plugin for a rich-text editor. The plugin adds a
`direction` block attribute (`ltr` or `rtl`, absent meaning the default `ltr`), a `direction`
command that reads and toggles it on the selected blocks, the converter definition that maps
the attribute to a `direction` style in the view, and a toolbar dropdown with one toggle
button per option.

The host editor is abstract here:

- the document is an `array<Block>`;
- each `Block` carries an `eligible` flag, standing for the schema's answer to "may this block
  carry `direction`", and a `direction: Option<string>`;
- the selection is a sequence of block indices in document order.

Modules, one per source file plus two helpers:

- `Wrappers` (`wrappers.dfy`): `Option`, `Outcome`, `Result`.
- `Seqs` (`seqs.dfy`): the array methods the plugin calls (`filter`, `findIndex`, `some`), each
  with its contract.
- `Utils` (`utils.dfy`): the supported options and the default (`src/utils.js`).
- `Command` (`command.dfy`): the `DirectionCommand` class with its `isEnabled` and `value`
  fields, and `Refresh` and `Execute` methods over a `Document` object. Each is proved against a
  specification function (`RefreshState`, `ExecuteOn`). The two loops that write the attribute
  are methods over the block array (`src/directioncommand.js`).
- `CommandProperties` (`command_properties.dfy`): what `refresh` and `execute` promise, as
  lemmas over `RefreshState` and `ExecuteOn`, plus a client of the class.
- `Editing` (`editing.dfy`): the default configuration, option filtering, and
  `BuildDefinition`, a method with the source's loop (`src/directionediting.js`).
- `UI` and `UIProperties` (`ui.dfy`, `ui_properties.dfy`): the button and dropdown rules as
  pure functions over button states, with icons as opaque tokens (`src/directionui.js`).

Behaviour of the code worth knowing:

- The removal rule compares the requested value with the attribute of the *first* eligible
  selected block only. When that block is already `rtl`, executing `rtl` removes the attribute
  from every eligible selected block (`CommandProperties.ExecuteOnAlreadyRtl`). When only a
  later eligible block is `rtl`, executing `rtl` sets `rtl` on all of them
  (`CommandProperties.ExecuteSets`).
- `execute` does not validate the requested value. An unsupported literal is stored as it is
  (`CommandProperties.UnsupportedValueIsWritten`), so a stored attribute is not always a
  supported, non-default value. It is when only supported values are requested
  (`CommandProperties.ExecutePreservesNormal`).
- The body of `execute` reads `blocks[0]` without a guard, so called directly with no eligible
  selected block it fails before writing anything. `Execute` models that body: it returns
  `Fail(NoEligibleBlock)` and leaves the document unchanged. Through the host, which runs
  `execute` only while the command is enabled, this case is not reached
  (`CommandProperties.EnabledImpliesExecutable`).
- The removal rule treats the empty string like a missing value (the code tests `!value`).

## Model

| member | source | states |
|---|---|---|
| `Utils.IsSupported` | src/utils.js:16-26 | an option is supported exactly when it is `ltr` or `rtl` |
| `Utils.IsDefault` | src/utils.js:34-37 | a direction is default exactly when it is `ltr`, the first supported option; a default is supported |
| `Utils.SupportedOptionsShape` | src/utils.js:16 | the supported list is distinct, has two entries, starts with the only default, and `rtl` is supported and not default |
| `Utils.SupportedOnly` | src/directionediting.js:39 | the enabled options are exactly the configured options that are supported, never more of them |
| `Utils.SupportedOnlyKeepsOrder` | src/directionediting.js:39 | filtering distributes over concatenation and keeps or drops each option alone, so configuration order is kept |
| `Command.CanBeAligned` | src/directioncommand.js:83-85 | the schema's answer to "may this block carry `direction`" is the block's `eligible` flag, the only test `refresh` and `execute` apply to a block |
| `Command.RefreshState` | src/directioncommand.js:26-38 | enabled exactly when the first selected block exists and is eligible; a disabled command shows `ltr`; an enabled one shows the first block's attribute, or `ltr` when it has none |
| `Command.ExecuteOn` | src/directioncommand.js:59-71 | fails exactly when no selected block is eligible; otherwise the document keeps its length and eligibility flags, every eligible selected block loses its attribute when the removal rule holds for the first eligible block's value and gets the requested value when it does not, and every other block is unchanged |
| `Command.RemovesDirection` | src/directioncommand.js:62-66 | removal happens exactly when the request is absent, empty, `ltr`, or equal to the current value |
| `Command.EligibleIndices` | src/directioncommand.js:59 | a block is operated on exactly when it is selected, exists and is eligible |
| `Command.FirstEligible` | src/directioncommand.js:59-60 | the block whose attribute `execute` reads is the first selected block that exists and is eligible: it is eligible and no earlier selected block is |
| `Command.RemoveDirectionFromSelection` | src/directioncommand.js:90-94 | afterwards every listed block has no attribute and every other block is as before |
| `Command.SetDirectionOnSelection` | src/directioncommand.js:98-102 | afterwards every listed block has the given attribute and every other block is as before |
| `Command.DirectionCommand.Refresh` | src/directioncommand.js:25-39 | the new `isEnabled` and `value` are those `RefreshState` gives for the document and selection |
| `Command.DirectionCommand.Execute` | src/directioncommand.js:50-74 | the document becomes `ExecuteOn` of the old one; when no selected block is eligible it fails and nothing changes |
| `CommandProperties.RefreshEmptySelection` | src/directioncommand.js:26-38 | with nothing selected the command is disabled and its value is `ltr` |
| `CommandProperties.RefreshFirstBlock` | src/directioncommand.js:26-38 | enabled exactly when the first selected block exists and is eligible; value is its attribute when enabled and present, else `ltr`; an enabled command's first block is the one `execute` reads |
| `CommandProperties.RefreshIgnoresLaterBlocks` | src/directioncommand.js:26-29 | two selections with the same first block give the same command state |
| `CommandProperties.RefreshValueSupported` | src/directioncommand.js:38 | in a document storing only supported non-default values, the value is supported, and it is `ltr` exactly when disabled or the first block has no attribute |
| `CommandProperties.EnabledImpliesExecutable` | src/directioncommand.js:59-60 | an enabled command's `execute` never fails |
| `CommandProperties.DisabledButExecutable` | src/directioncommand.js:26-29 | the body of `execute`, called directly while the command is disabled by an ineligible first block, still sets the attribute on a later eligible block (the host's enabled guard would not run it) |
| `CommandProperties.ExecuteFailsIffNoEligible` | src/directioncommand.js:59-60 | `execute` fails exactly when no selected block is eligible |
| `CommandProperties.ExecuteFrame` | src/directioncommand.js:88-102 | eligibility never changes, and unselected or ineligible blocks are left as they were |
| `CommandProperties.ExecuteRemoves` | src/directioncommand.js:66-69 | with no, empty, default or current value, every eligible selected block loses its attribute |
| `CommandProperties.ExecuteSets` | src/directioncommand.js:66-71 | with any other value, supported or not, every eligible selected block gets exactly that value |
| `CommandProperties.ExecuteCurrentValueIsRemoval` | src/directioncommand.js:62-66 | requesting the current, empty or default value is the same as requesting nothing |
| `CommandProperties.EligibleIndicesDependOnFlags` | src/directioncommand.js:59 | the blocks `execute` works on depend only on the eligibility flags, not on the attributes |
| `CommandProperties.ToggleTwice` | src/directioncommand.js:60-71 | executing `rtl` twice from a non-`rtl` first eligible block sets `rtl` on every eligible block, then gives the same document as executing with no value |
| `CommandProperties.ExecuteThenRefresh` | src/directioncommand.js:25-74 | execute `rtl` then refresh shows `rtl`; execute `rtl` again then refresh shows `ltr` |
| `CommandProperties.ExecutePreservesNormal` | src/directioncommand.js:66-71 | requesting nothing or a supported value keeps every stored attribute supported and non-default |
| `CommandProperties.UnsupportedValueIsWritten` | src/directioncommand.js:55-71 | an unsupported literal is stored as it is, breaking the "supported, non-default" invariant |
| `CommandProperties.ExecuteOnAlreadyRtl` | src/directioncommand.js:59-69 | on a first eligible block already `rtl` plus an ineligible block, executing `rtl` removes the first block's attribute and leaves the other alone |
| `Editing.DefaultConfig` | src/directionediting.js:26-28 | the default configuration lists the supported options in order, and filtering keeps all of them |
| `Editing.ConverterOptions` | src/directionediting.js:45 | the options handed to the converter are exactly the enabled options that are not default |
| `Editing.BuildDefinition` | src/directionediting.js:55-74 | model key `direction` with the options in order as values; the view has an entry for each option and no other entry; each entry maps the option to a `style` holding `direction: <option>`; with distinct options the view has exactly one entry per option |
| `Editing.Init` | src/directionediting.js:39-45 | enabled options are the configured ones filtered by support, keeping order and repetitions; converter values are the enabled ones without the default, keeping order, so exactly the supported, non-default configured options; view keys are the converter values, each mapped to its style |
| `Editing.DefaultConfigConverterOptions` | src/directionediting.js:26-45 | with the default configuration only `rtl` reaches the converter |
| `Editing.ConverterOptionsKeepOrder` | src/directionediting.js:39-45 | the converter options keep configuration order |
| `UI.IconFor` | src/directionui.js:19-22 | an option has an icon exactly when it is supported: the ltr icon for `ltr`, the rtl icon for `rtl` |
| `UI.Button` | src/directionui.js:128-140 | a button is on exactly when the command's value is its option, is enabled exactly when the command is, and has its option's icon |
| `UI.ButtonRequest` | src/directionui.js:143-144 | pressing a button requests the command with `{ value: option }` |
| `UI.RegisteredOptions` | src/directionui.js:70-72 | buttons are registered for exactly the supported configured options, each of which has an icon |
| `UI.CreateButtons` | src/directionui.js:78 | creating buttons succeeds exactly when every requested option was registered; the buttons then follow the options one to one and in order; otherwise the error names the first option that is missing |
| `UI.DropdownButtonsAsWritten` | src/directionui.js:78 | the dropdown asks for one button per configured option, unfiltered, and this succeeds exactly when every configured option is supported |
| `UI.DropdownButtons` | src/directionui.js:70-78 | asking only for registered buttons always succeeds, giving one button per supported configured option in order |
| `UI.DropdownIcon` | src/directionui.js:95-110 | with no button on, the icon is the ltr icon; otherwise it is the icon of the first button that is on |
| `UI.DropdownEnabled` | src/directionui.js:113 | the dropdown is enabled exactly when some button in it is enabled |
| `UIProperties.RegistrationFollowsConfig` | src/directionui.js:68-72 | registration keeps configuration order; the default configuration registers `ltr` and `rtl`; a configuration of just `ltr` registers no `rtl` button |
| `UIProperties.DropdownIconFollowsCommand` | src/directionui.js:95-110 | for buttons bound to the command, the icon is the command value's icon when one of the buttons has that option, else the ltr icon |
| `UIProperties.DropdownEnabledFollowsCommand` | src/directionui.js:113 | for buttons bound to the command, the dropdown is enabled exactly when the command is enabled and there is at least one button |
| `UIProperties.DropdownFollowsCommand` | src/directionui.js:78-113 | the dropdown of registered buttons shows the icon of the command's value if that value is a supported configured option, else the ltr icon, and is enabled exactly when the command is and some option is registered |
| `UIProperties.UnsupportedOptionBreaksDropdown` | src/directionui.js:70-78 | with options `['ltr', 'auto']` the dropdown as written fails on the missing `direction:auto`, while the registered-only dropdown holds just the `ltr` button |
| `UIProperties.DropdownAsWrittenAgrees` | src/directionui.js:70-78 | when every configured option is supported, the dropdown as written and the registered-only dropdown coincide |
| `UIProperties.ButtonPressToggles` | src/directionui.js:139-144 | on an enabled command, pressing a button that is on, or the `ltr` button, removes the attribute; pressing an `rtl` button that is off sets `rtl`, and the refreshed command then shows it |

## Findings

| source | as written | input that shows it | evidently intended | confidence | as-written member | corrected member |
|---|---|---|---|---|---|---|
| src/directionui.js:78 | the dropdown asks the component factory for `direction:<option>` for every configured option, but only supported options got a button (lines 70-72) | `direction.options = ['ltr', 'auto']`: no `direction:auto` component exists, so creating the dropdown fails | the dropdown holds the buttons that were registered, so unsupported options are dropped as in the editing part | medium, not executed; relies on the host component factory refusing names that were never registered | `UIProperties.UnsupportedOptionBreaksDropdown` | `UI.DropdownButtons` |

The dropdown properties (`UIProperties.DropdownFollowsCommand`) are stated for the corrected
`UI.DropdownButtons`. `UIProperties.DropdownAsWrittenAgrees` shows that for configurations of
supported options only, nothing else changes.

## Left out

- `src/direction.js` is plugin glue: a list of required plugins and a name, with no logic.
- Host plugin lifecycle is not modelled: `editor.config.define/get` and the merging of
  configuration, `schema.extend`, `setAttributeProperties`, `conversion.attributeToAttribute`
  and `commands.add`. These are host calls. Only their inputs are modelled
  (`Editing.DefaultConfig`, `Editing.Init`).
- The atomicity of `model.change` is not modelled. `Execute` is a single state transition.
- The real schema and selection engines are abstracted to the `eligible` flag and an index
  sequence. `Document.Select` stands for the host changing the selection.
- Command base class: the host's base class is not modelled. This covers the initial state
  before the first refresh, the automatic refresh on every document change, read-only
  handling, and the guard that runs `execute` only while `isEnabled` holds.
  `DirectionCommand.Execute` models the body of `execute` called directly, without that
  guard; `CommandProperties.EnabledImpliesExecutable` shows that under the guard it never
  fails. The `DirectionCommand` constructor gives an already refreshed command, and
  `Refresh` is called explicitly.
- UI widgets are not modelled: component registration, `ButtonView`, `createDropdown`,
  `addToolbarToDropdown`, labels, tooltips, `extendTemplate`, `isVertical`, and the observable
  `bind/to/toMany` machinery. They are replaced by functions recomputed from the command state.
- Localization (`t()`), returning focus to the editing view, and the SVG icon contents are
  UI input/output. Icons are opaque tokens.
- Registering the same component name twice is not modelled. This happens with a configuration
  that repeats an option, and the host factory refuses it.
- Falsy values other than a missing value and the empty string (`null`, `0`, `false`) are left
  out, because the requested value is a string.
