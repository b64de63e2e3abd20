# Revealer device registry, SSDP reply parser and table layout in Dafny

Revealer finds devices on the local network, using SSDP and an older legacy
broadcast protocol, and shows them in a two-block table. This project models
and proves the three sequential parts of that program.

- **The device registry** (`revealerdevice.py`). `RevealerDeviceRow` is a record
  of one found device. `RevealerDeviceList` holds two lists:
  - `ssdp_devices`: the SSDP devices. OUR devices come first, then all others.
    Within each block the devices are ordered by `upper(name + link)`.
  - `old_devices`: the legacy devices, ordered by name while names are
    distinct (see "Findings" for a shared name).

  It also holds three dictionaries. `ssdp_dict` and `ip_dict_whole` reject
  devices already seen: an SSDP device by its `name + link` and by its
  `ip_address + uuid`, a legacy device by its link in `ip_dict_whole`.
  `legacy_dict` is never tested; it records the legacy names for the row rank.
- **The SSDP reply parser** `parse_ssdp_data` (`main.py`). It turns an M-SEARCH
  reply into the four fields `server`, `version`, `location` and `uuid`. It
  fails with Python's `IndexError` on certain malformed lines.
- **The pure decisions of the device table** (`revealertable.py`):
  - how a found device is passed to the registry;
  - which grid row each table line takes;
  - the colour of each row;
  - the fonts of the name and the link;
  - which settings button a row gets;
  - the table's row counters.

  Each Tk widget row is represented by a `RowPlan` value.

## Modules

- `wrappers.dfy` (`Wrappers`): `Option` and `Result`.
- `py_strings.dfy` (`PyStrings`): the Python `str` operations the code relies on.
  - `split` with a non-empty separator (leftmost, non-overlapping occurrences) and its inverse `join`.
  - Slicing from and to an index.
  - ASCII `lower`/`upper`.
  - The code-point order Python uses to compare strings (`LexLe`), proved to be a total order.
- `ssdp_parse.dfy` (`SsdpParse`): `parse_ssdp_data`.
  - `ParseLine` is the step for one line, returning `Err(IndexError)` where Python raises.
  - `ParseLines` is the left fold over the lines.
  - `ParseSsdpData` is the `for` loop as a method, proved equal to the fold.
- `registry_model.dfy` (`DeviceRegistry`): the registry as a value (`Registry`) and what the registry operations mean.
  - `AddToSsdpDict`, `AddToLegacyDict` and `AddDevice` are the specification functions.
  - `Inv` is the ordering and indexing invariant.
  - Lemmas about all of them.
- `revealer_device.dfy` (`RevealerDevice`): the two classes.
  - Each has fields that its methods reassign.
  - Each method's contract ties the object's new `Value()` to the specification function applied to `old(Value())`.
  - `add_device_to_ssdp_dict` keeps its partition loop over the dictionary keys.
- `revealer_table.dfy` (`RevealerTable`): row plans, the layout of `update`, `ButtonSettings` and the `RevealerTable` counters.

How Python dictionaries behave is modelled by `map`s:
- A dictionary key check becomes map membership.
- `sorted(block, key=upper).index(device)` becomes a count. `sorted` is stable, the keys are distinct and the new device was inserted last, so the index is the number of other block keys whose upper-case form is `<=` the device's.
- `sorted(legacy_dict).index(name)` is the number of legacy names strictly below `name`.

## Model

| member | source | states |
|---|---|---|
| SsdpParse.Defaults | main.py:88 | the initial result has exactly the keys server, version, location and uuid, each mapped to "" |
| SsdpParse.ParseSsdpData | main.py:87-113 | the loop over the `"\r\n"`-separated lines equals the fold of the line step over them from the defaults; a successful result has exactly the four keys |
| SsdpParse.ParseLine | main.py:92-112 | one iteration: a line is matched on its lower-cased text before the first `:`; SERVER, LOCATION and USN go to their field step, any other name leaves the dictionary as it is (`ParseKeepsKeys`, `LineWritesOnlyItsKeys`, `OtherHeaderUnchanged`) |
| SsdpParse.ParseLines | main.py:91-112 | the loop as a left fold of `ParseLine`; the first `Err(IndexError)` ends the whole parse (`ParseAppend`, `LastWriterWins`) |
| SsdpParse.ServerField | main.py:95-101 | SERVER: the last space-separated word split at `/`; fields 0 and 1 become server and version, and fewer than two fields is `IndexError` (`ServerLine`, `ServerFails`) |
| SsdpParse.LocationField | main.py:103-108 | LOCATION: `:`-fields 1, 2 and 3 joined with `:`, one leading space of field 1 dropped; a missing field or an empty field 1 is `IndexError` (`LocationLine`, `LocationFails`) |
| SsdpParse.UsnField | main.py:110-112 | USN: the third `:`-field becomes the uuid; fewer than three fields is `IndexError` (`UsnLine`, `UsnFails`) |
| SsdpParse.ParseKeepsKeys | main.py:88-112 | whatever lines are parsed, a successful result keeps exactly the four keys |
| SsdpParse.LineKeepsKeys | main.py:95-112 | one line never adds or removes a key |
| SsdpParse.KeysGrow | main.py:91-112 | parsing never drops a key already present |
| SsdpParse.ParseAppend | main.py:91-112 | parsing `xs + ys` is parsing `xs`, then `ys` from its result; an error in `xs` is the error of the whole |
| SsdpParse.LineWritesOnlyItsKeys | main.py:95-112 | a line writes only the keys of its own header (server and version for SERVER, location for LOCATION, uuid for USN) |
| SsdpParse.UnwrittenKeyKept | main.py:91-112 | a key no line's header writes keeps its starting value |
| SsdpParse.LastWriterWins | main.py:91-112 | a key's final value is what the last line with its header wrote |
| SsdpParse.HeaderNameOf | main.py:93-95 | the header name is the text before the first `:`, lower-cased |
| SsdpParse.StatusTestNeverSkips | main.py:92 | the three-character slice never equals "http", so no line is skipped |
| SsdpParse.StatusLineUnchanged | main.py:92-112 | a status line starting with http leaves the result unchanged, because it matches no header |
| SsdpParse.OtherHeaderUnchanged | main.py:95-112 | a line whose header is not server, location or usn leaves the result unchanged |
| SsdpParse.ServerLine | main.py:95-101 | `SERVER:<text> <product>/<version>` sets server to product and version to version |
| SsdpParse.ServerLineLonger | main.py:95-101 | with more `/`-fields, `SERVER:<text> <product>/<version>/<rest>` still sets server to product and version to version; the rest is dropped |
| SsdpParse.ServerExample | main.py:95 | `SERVER: lwIP/1.4.1 UPnP/2.0 8SMC5-USB/4.7.7` gives server `8SMC5-USB` and version `4.7.7` |
| SsdpParse.ServerFails | main.py:96-101 | a SERVER line fails exactly when its last space-separated word has no `/` |
| SsdpParse.LocationLine | main.py:103-108 | LOCATION becomes fields 1..3 joined by `:`, with one leading space of field 1 dropped |
| SsdpParse.LocationFails | main.py:104-108 | a LOCATION line fails exactly when it has fewer than 4 `:`-fields or field 1 is empty |
| SsdpParse.UsnLine | main.py:110-112 | USN sets uuid to the third `:`-field |
| SsdpParse.UsnFails | main.py:110-112 | a USN line fails exactly when it has fewer than two `:` |
| DeviceRegistry.UuidKey | revealerdevice.py:158-163 | the uuid part of the identity key: the row's own uuid, else `other_data['UDN'][5:]`, else "" when there is no description or no UDN (`UuidFallback`) |
| DeviceRegistry.UuidFallback | revealerdevice.py:158-163 | a missing uuid falls back to `other_data['UDN'][5:]`; with no description or no UDN it falls back to "" |
| DeviceRegistry.AddToSsdpDict | revealerdevice.py:142-197 | the SSDP helper changes neither device list nor the legacy dictionary; a returned row is at least 1 |
| DeviceRegistry.SortedIndex | revealerdevice.py:187-188 | `sorted(keys, key=upper).index(device)` for distinct keys, as the number of other keys whose upper-cased form sorts `<=` the device's, the stable order of `sorted` (`BlockRank`) |
| DeviceRegistry.SsdpRank | revealerdevice.py:185-193 | `alpha_row`: one plus the device's index in its own block with it added, plus the size of the OUR block for a non-OUR device (`SsdpRankIsBlockEnd`, `SsdpRowRange`) |
| DeviceRegistry.AddToLegacyDict | revealerdevice.py:199-224 | the legacy helper changes neither device list nor the SSDP dictionary; a returned row is at least 1 |
| DeviceRegistry.SortedPosition | revealerdevice.py:220-222 | `sorted(legacy_dict).index(name)` as the number of keys strictly below `name` (`LegacyRowIsNamesBelow`) |
| DeviceRegistry.PyInsert | revealerdevice.py:127 | Python's `list.insert`: every element keeps its place before the index, the new element is at it, the rest shift by one; past the end it appends |
| DeviceRegistry.AddSsdpDevice | revealerdevice.py:122-127 | the SSDP branch of `add_device`: the dictionary step, then the row numbered and inserted at `row - 1` when one is returned (`SsdpInsertsOnce`, `SsdpAddKeepsInv`) |
| DeviceRegistry.AddLegacyDevice | revealerdevice.py:129-133 | the legacy branch of `add_device`, the same with `old_devices` (`LegacyInsertsOnce`, `LegacyAddKeepsInv`) |
| DeviceRegistry.AddDevice | revealerdevice.py:122-133 | `add_device` chooses the branch by the `legacy` flag (`AddDeviceKeepsInv`, `AddDeviceInsertsOnce`, `AddDeviceIdempotent`) |
| DeviceRegistry.OurCountSplits | revealerdevice.py:179-183 | in an ordered list, a row is OUR exactly when its index is below the OUR count |
| DeviceRegistry.OurBlockSize | revealerdevice.py:179-193 | `len(our_dict)` equals the number of OUR rows in `ssdp_devices` |
| DeviceRegistry.BlockEndSplits | revealerdevice.py:187-193 | inside a block, a row's key is `<=` the device's exactly when the row lies before the block end |
| DeviceRegistry.BlockKeys | revealerdevice.py:179-193 | the dictionary keys of a block that sort no later than the device are exactly the keys of the rows before the insertion point |
| DeviceRegistry.SsdpRankIsBlockEnd | revealerdevice.py:185-193 | the row the helper returns, less one, is the end of the tied-or-smaller part of the device's block |
| DeviceRegistry.BlockRank | revealerdevice.py:185-193 | when the device's block is the index range lo..hi, its position in the sorted block keys is the block end of its key, counted from lo |
| DeviceRegistry.SsdpInsertOrdered | revealerdevice.py:185-193 | inserting at a point that splits the block correctly keeps OUR first and each block sorted |
| DeviceRegistry.InsertKeys | revealerdevice.py:127 | an insertion adds exactly the new row's key and name |
| DeviceRegistry.InsertDistinct | revealerdevice.py:173-176 | inserting a new key keeps the keys distinct |
| DeviceRegistry.SsdpInsertPoint | revealerdevice.py:185-197 | the returned row is between 1 and one past the end; OUR devices and tied-or-smaller keys are before it, the rest after, so equal keys go after existing ties |
| DeviceRegistry.InsertIndexed | revealerdevice.py:195 | after the insert, `ssdp_dict` has exactly the listed keys with their types |
| DeviceRegistry.SsdpAddKeepsInv | revealerdevice.py:122-197 | an SSDP add keeps the invariant: OUR block first, each block sorted by upper-cased name+link, keys distinct and indexed by `ssdp_dict` |
| DeviceRegistry.LegacyRowInRange | revealerdevice.py:218-222 | a legacy row is at most one past the end of `old_devices` |
| DeviceRegistry.LegacyAddKeepsInv | revealerdevice.py:199-224 | a legacy add keeps the invariant; `legacy_dict` keys stay the names of `old_devices` |
| DeviceRegistry.AddDeviceKeepsInv | revealerdevice.py:108-133 | every `add_device` keeps the invariant |
| DeviceRegistry.EmptyInv | revealerdevice.py:91-98 | the empty registry satisfies the invariant |
| DeviceRegistry.AddDeviceInsertsOnce | revealerdevice.py:122-133 | `add_device` changes at most one list, by one insertion numbered by its position, and inserts exactly when the helper returns a row; the other list is unchanged |
| DeviceRegistry.SsdpInsertsOnce | revealerdevice.py:122-127 | the SSDP branch leaves `old_devices` as it was and inserts into `ssdp_devices` at most once, exactly when the helper returns a row |
| DeviceRegistry.LegacyInsertsOnce | revealerdevice.py:129-133 | the legacy branch leaves `ssdp_devices` as it was and inserts into `old_devices` at most once, exactly when the helper returns a row |
| DeviceRegistry.SsdpIdentityRecorded | revealerdevice.py:165-171 | a seen `ip_address + uuid` leaves the registry unchanged; an unseen one is recorded, even if `name + link` then rejects the device; the add changes nothing exactly when the identity was seen |
| DeviceRegistry.SsdpFirstWriterWins | revealerdevice.py:173-176 | re-adding a known `name + link` leaves both lists and `ssdp_dict` unchanged |
| DeviceRegistry.AddDeviceIdempotent | revealerdevice.py:108-224 | adding the same device twice is adding it once |
| DeviceRegistry.SsdpRowRange | revealerdevice.py:185-197 | OUR rows land in 1..our+1 and other rows in our+1..len+1; within the block, existing rows with keys `<=` the device's come before the new row, and only those |
| DeviceRegistry.LegacyRejectedIffLinkSeen | revealerdevice.py:211-216 | a legacy add changes nothing exactly when its link is already in `ip_dict_whole` |
| DeviceRegistry.LegacyRowIsNamesBelow | revealerdevice.py:218-222 | with distinct names, the legacy row is one plus the number of listed names strictly below the new name |
| DeviceRegistry.InsertBelowKeepsSorted | revealerdevice.py:220-222 | inserting after every smaller name keeps the names sorted |
| DeviceRegistry.InsertBelowKeepsIncreasing | revealerdevice.py:220-222 | inserting a new name there keeps the names strictly increasing |
| DeviceRegistry.LegacyAddKeepsOrder | revealerdevice.py:199-224 | adding a legacy device with a new name keeps `old_devices` strictly sorted by name |
| DeviceRegistry.BelowIsPrefix | revealerdevice.py:220-222 | in a sorted list the rows with smaller names are exactly a prefix |
| DeviceRegistry.LegacySharedNameUnsorted | revealerdevice.py:218-222 | adding A/l1, A/l2 and B/l3 as legacy devices leaves `old_devices` with three rows not sorted by name |
| DeviceRegistry.CorrectedAddToLegacyDict | revealerdevice.py:199-224 | a corrected legacy position, one past the listed rows with a smaller name, always lies within the list |
| DeviceRegistry.CorrectedLegacyKeepsSorted | revealerdevice.py:199-224 | with the corrected position, every legacy add keeps `old_devices` sorted by name |
| DeviceRegistry.CorrectedAgreesOnDistinctNames | revealerdevice.py:218-222 | while names are distinct, the corrected position equals the one the code computes |
| RevealerDevice.RevealerDeviceRow.constructor | revealerdevice.py:21-34 | the nine descriptive fields are the arguments and `row` is 0 |
| RevealerDevice.RevealerDeviceRow.SetRow | revealerdevice.py:36-37 | `row` is set and nothing else changes |
| RevealerDevice.RevealerDeviceRow.Reinit | revealerdevice.py:42-55 | all nine fields are overwritten and `row` is reset to 0 |
| RevealerDevice.RevealerDeviceRow.DeepCopy | revealerdevice.py:57-68 | a fresh row with the same nine fields and `row` 0 |
| RevealerDevice.RevealerDeviceRow.GetDict | revealerdevice.py:70-82 | the nine descriptive fields of the row object and not its `row` number |
| RevealerDevice.Values | revealerdevice.py:93-94 | the abstraction of the `ssdp_devices` and `old_devices` lists of row objects: one value per object, in order, each its fields and its `row` number |
| RevealerDevice.BlockOf | revealerdevice.py:179-183 | partitioning all of `ssdp_dict`'s keys gives exactly the OUR or the other block |
| RevealerDevice.RevealerDeviceList.constructor | revealerdevice.py:91-98 | a new list is the empty registry |
| RevealerDevice.RevealerDeviceList.ClearAll | revealerdevice.py:100-106 | both lists and all three dictionaries are empty |
| RevealerDevice.RevealerDeviceList.AddDevice | revealerdevice.py:108-133 | the new state is `AddDevice` of the old state and the device's nine fields; the invariant is kept |
| RevealerDevice.RevealerDeviceList.AddToSsdpDevices | revealerdevice.py:122-127 | the SSDP branch: the new row is numbered and inserted at `row - 1` when the helper accepts it |
| RevealerDevice.RevealerDeviceList.AddToOldDevices | revealerdevice.py:129-133 | the legacy branch, the same with `old_devices` |
| RevealerDevice.RevealerDeviceList.PlaceSsdpRow | revealerdevice.py:124-127 | `set_row` then `insert(row - 1, …)`: the row gets its number and only `ssdp_devices` changes, by that insertion |
| RevealerDevice.RevealerDeviceList.PlaceOldRow | revealerdevice.py:131-133 | the same for `old_devices` |
| RevealerDevice.RevealerDeviceList.AddDeviceToSsdpDict | revealerdevice.py:142-197 | the returned row and the whole new registry value are those of `AddToSsdpDict`; the lists are unchanged |
| RevealerDevice.RevealerDeviceList.PartitionSsdpDict | revealerdevice.py:179-183 | the loop over `ssdp_dict` collects exactly its OUR entries in one dictionary and all others in the second |
| RevealerDevice.RevealerDeviceList.SsdpAlphaRow | revealerdevice.py:179-193 | the computed `alpha_row` is the rank `SsdpRank` of the new device in its own block, shifted past the OUR block when not OUR |
| RevealerDevice.RevealerDeviceList.AddDeviceToLegacyDict | revealerdevice.py:199-224 | the returned row and the whole new registry value are those of `AddToLegacyDict`; the lists are unchanged |
| RevealerTable.RowColor | revealertable.py:318-321 | the background of grid row `row`: `EVEN_ROW_COLOR` on even rows, white on odd ones (`ColorsAlternate`) |
| RevealerTable.SsdpButton | revealertable.py:367-385 | the settings frame of an SSDP line: OTHER without uuid, OUR otherwise, its change button disabled when the uuid is "" (`SsdpButtonChoice`) |
| RevealerTable.SsdpRowPlan | revealertable.py:311-395 | the line `add_ssdp_row` lays out: parity colour, bold name with a uuid, hyperlink style unless "not_local", a settings frame (`SsdpRowStyle`) |
| RevealerTable.LegacyRowPlan | revealertable.py:463-510 | the line `add_legacy_row` lays out: parity colour; bold name and hyperlink style unless "not_local", else the default font and plain text; no settings frame |
| RevealerTable.LegacyHeaderPlans | revealertable.py:397-461 | two blank lines and the legacy title line on three consecutive rows |
| RevealerTable.Layout | revealertable.py:268-299 | what `update` lays out: the SSDP lines from row 1, then the headers and the legacy lines only when there are legacy devices (`LayoutRows`, `LayoutRowsIncrease`) |
| RevealerTable.ColorsAlternate | revealertable.py:318-321 | even rows are shaded, odd rows white, so neighbouring rows differ |
| RevealerTable.SsdpPlans | revealertable.py:292-293 | SSDP line `i` is the plan for row `start + i` |
| RevealerTable.LegacyPlans | revealertable.py:297-299 | legacy line `j` is the plan for row `start + j` |
| RevealerTable.LayoutRows | revealertable.py:292-299 | SSDP device `i` is on row `i+1`; the header lines are at `len(ssdp)+1..len(ssdp)+3` only when there are legacy devices; legacy device `j` is on row `4+len(ssdp)+j` |
| RevealerTable.LayoutRowsIncrease | revealertable.py:292-299 | grid rows strictly increase along the layout, so every legacy line lies below every SSDP and header line |
| RevealerTable.SsdpColorsAlternate | revealertable.py:318-321 | along the SSDP lines the colours alternate, starting white on row 1 |
| RevealerTable.SsdpRowStyle | revealertable.py:318-349 | the name is bold exactly when there is a uuid; the link is styled as a hyperlink (blue, underlined, hand cursor) exactly when the tag is not "not_local"; the row has a settings button and its parity colour |
| RevealerTable.SsdpButtonChoice | revealertable.py:367-385 | an OUR button exactly when there is a uuid; disabled exactly when the uuid is "" |
| RevealerTable.SsdpItemType | revealertable.py:579-584 | OTHER exactly when the uuid is `None`; an empty uuid still makes the device OUR |
| RevealerTable.SsdpItemInfo | revealertable.py:586-587 | the device `add_row_ssdp_item` passes to `add_device`: its type by uuid, every other field forwarded, not legacy (`SsdpItemKeepsTyped`) |
| RevealerTable.SsdpItemPlacement | revealertable.py:579-587 | a device with a uuid joins the OUR block at the top, one without joins the block below it |
| RevealerTable.BoldLinesFirst | revealertable.py:331-334 | when every row was typed by its uuid, a bold line never follows a regular one |
| RevealerTable.SsdpItemKeepsTyped | revealertable.py:579-587 | adding through `add_row_ssdp_item` keeps every SSDP row typed by its uuid |
| RevealerTable.WithState | revealertable.py:698-710 | only an existing change button changes state, and its colour is kept |
| RevealerTable.WithStateLastWins | revealertable.py:698-710 | the last state set is the one that holds |
| RevealerTable.DisableEnableRoundTrip | revealertable.py:698-710 | a button built "normal" is back as it was after disable and enable |
| RevealerTable.ButtonSettings.constructor | revealertable.py:649-676 | `button_flag` exactly when the state is "normal"; a change button exactly for OUR, built with that state and colour |
| RevealerTable.ButtonSettings.Disable | revealertable.py:698-705 | the change button, if there is one, is disabled; nothing else changes |
| RevealerTable.ButtonSettings.Enable | revealertable.py:707-710 | the change button, if there is one, is back to "normal" |
| RevealerTable.ButtonSettings.ChangeButtonColor | revealertable.py:712-718 | both buttons take the colour |
| RevealerTable.DisableAllButtons | revealertable.py:242-253 | every frame with `button_flag` has its change button disabled; others are untouched |
| RevealerTable.EnableAllButtons | revealertable.py:255-266 | every frame with `button_flag` has its change button enabled; frames built disabled stay disabled |
| RevealerTable.RevealerTable.constructor | revealertable.py:176-182 | `last_row` 1, the legacy counters 0, an empty registry |
| RevealerTable.RevealerTable.AddRowSsdpItem | revealertable.py:571-589 | the registry is updated with type OTHER exactly when uuid is None, every other field forwarded, not legacy |
| RevealerTable.RevealerTable.AddRowOldItem | revealertable.py:602-615 | the registry is updated with a legacy device whose address is its name, with no type, description or uuid |
| RevealerTable.RevealerTable.SetRowColor | revealertable.py:591-600 | the colour follows the parity of `row + additional_row`, less the legacy header row when asked, and a settings button takes it too |
| RevealerTable.RevealerTable.AddSsdpRow | revealertable.py:311-395 | one SSDP line is laid out and `last_row` grows by exactly one |
| RevealerTable.RevealerTable.AddLegacyHeaders | revealertable.py:397-461 | two blank lines and the legacy title line; the counters stay |
| RevealerTable.RevealerTable.AddLegacyRow | revealertable.py:463-510 | one legacy line without settings button; the counters stay |
| RevealerTable.RevealerTable.Update | revealertable.py:268-299 | the lines laid out are exactly the layout of both device lists, and `last_row` grows by the number of SSDP devices |
| RevealerTable.RevealerTable.AddSsdpRows | revealertable.py:292-293 | the SSDP loop lays out the SSDP plans from row 1 |
| RevealerTable.RevealerTable.AddLegacyRows | revealertable.py:296-299 | the legacy loop lays out the legacy plans from `4 + len(ssdp)` |
| RevealerTable.RevealerTable.DeleteAllRows | revealertable.py:512-515 | `last_row` is 1 and both legacy counters are 0; no line is left |

## Left out

- Sockets, `ifaddr` adapter enumeration, `os.system` ping and the `__main__` Tk block of `main.py`: these are I/O. Only `parse_ssdp_data` is modelled; its input is a parameter.
- `thread.py` and `RevealerTable.lock`: concurrency.
- Tk widget construction, fonts and their sizes, images, `Hovertip`, cursors, event bindings and click callbacks. These are UI library calls. A table line is a `RowPlan`, and a settings frame is a `ButtonSettings` holding its flag, change-button state and colours.
- The `winfo_children` scans: `DisableAllButtons` and `EnableAllButtons` take the table's settings frames as a sequence.
- The `destroy_tag` marking at the start of `update`, and `delete_to_widget`: widget bookkeeping. `DeleteAllRows` empties the modelled lines and resets the counters.
- `AutoScrollbar` and `VerticalScrolledFrame`: floating point and UI.
- `print_old_devices` and every `log` call: output only.
- `RevealerDeviceRow.get_row`: a plain accessor; the `row` field is read directly.
- `RevealerTable.add_device_to_ssdp_dict` (revealertable.py 537-569): dead code. It calls `device_list.add_ssdp` and reads `self.ssdp_dict`, and neither exists. The live version is `RevealerDeviceList.add_device_to_ssdp_dict`.
- The UPnP description fetch, MIPAS reconfiguration, legacy broadcast and NOTIFY listener have no code in the modelled files and are not part of this model.
- `upper()`/`lower()` are modelled on ASCII letters only. Python maps the whole of Unicode.
- DeviceRegistry.AddToSsdpDict: Python dictionaries keep insertion order; maps do not. The order only matters through `sorted`, which the model states as a count.
- RevealerDevice.RevealerDeviceList.AddDevice: the new `RevealerDeviceRow` object's identity and its aliasing with other rows are not observable through `Value()`.
- DeviceRegistry.AddToSsdpDict: the helper stores `{'type': t}` per key; the model stores `t` alone.
- RevealerTable.SsdpItemPlacement: the row returned for a device that is rejected is `None`; the lemma states placement only for accepted devices.

## Findings

| source | as written | input that shows it | evidently intended | confidence | as-written member | corrected member |
|---|---|---|---|---|---|---|
| revealerdevice.py:218-222 | `legacy_dict` is keyed by name while legacy devices are deduplicated by link, so a second device with a known name and a new link gets the rank of the name among distinct names | legacy adds A/l1, A/l2, B/l3: `old_devices` names become [A, B, A] | `old_devices` stays sorted by name; the new row goes after every listed row with a smaller name | not executed | DeviceRegistry.LegacySharedNameUnsorted | DeviceRegistry.CorrectedLegacyKeepsSorted |

`DeviceRegistry.CorrectedAddToLegacyDict` and `DeviceRegistry.CorrectedAddLegacy` define the corrected placement. `DeviceRegistry.CorrectedAgreesOnDistinctNames` proves that it returns the code's row whenever names are distinct. The classes follow the code as written, so `RevealerDeviceList` reproduces the unsorted list. `DeviceRegistry.LegacyAddKeepsOrder` states the order the code keeps: sorted and strictly increasing, as long as names are not repeated.

## Notes on the source

- `update` reads `device_list._ssdp_devices` and `device_list._old_devices` (revealertable.py 292-299). `RevealerDeviceList` defines only `ssdp_devices` and `old_devices` (revealerdevice.py 93-94), so as written `update` raises `AttributeError`. The layout is modelled over the lists the class defines.
- The status-line test in `parse_ssdp_data` compares the 3-character slice `string[0:3]` with the 4-character `"http"`, so it never skips a line. Status lines are still harmless, because their first `:`-piece is no header name.
- Besides the SERVER and LOCATION cases, a USN line with fewer than two `:` also raises `IndexError`. The model includes this fourth failure.
- An `IndexError` from any line ends the whole parse without a result. The model returns `Err(IndexError)` for the whole input.
- The code has no fallback when the SERVER line is missing or malformed, keeps only the first three `:`-fields after a LOCATION header and raises with fewer, skips no status line, and orders legacy names case-sensitively. The model follows the code in each.
- The `ip_address + uuid` key of an SSDP device is recorded before the `name + link` check (revealerdevice.py 165-176). A device rejected by that second check still occupies its identity key.
- Legacy devices share `ip_dict_whole` with SSDP identities: a legacy link equal to some `ip_address + uuid` is rejected as seen.
