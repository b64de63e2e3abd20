/**
  The decisions of revealertable.py without its Tk widgets: which block a
  found device joins, which grid row, colour, fonts and settings button each
  table line gets, and the row counters of the table. A table line is a
  `RowPlan` value; the table keeps the lines it has laid out in `grid`.
 */
module RevealerTable {
  import opened Wrappers
  import opened DeviceRegistry
  import opened RevealerDevice

  const EvenRowColor := "#eAeFeF"
  const DefaultBgColor := "white"
  const HeaderColor := "#ced0d0"

  const StateNormal := "normal"
  const StateDisabled := "disabled"

  /** Background of table row `row`: even rows shaded, odd rows white. */
  function RowColor(row: int): string
  {
    if row % 2 == 0 then EvenRowColor else DefaultBgColor
  }

  /** Neighbouring rows differ in colour and every second row repeats it. */
  lemma ColorsAlternate(row: int)
    ensures RowColor(row) != RowColor(row + 1)
    ensures RowColor(row) == RowColor(row + 2)
    ensures RowColor(row) == EvenRowColor <==> row % 2 == 0
  {
  }

  // ---------------------------------------------------------------------------
  // Row plans

  /** Font weight of a label: 'bold', '' or no font given at all. */
  datatype Weight = Bold | Regular | TkDefault

  /** A link label: styled as a hyperlink (blue, underlined, hand cursor), or plain text of a weight. */
  datatype LinkStyle = Hyperlink | Text(weight: Weight)

  /** The arguments a `ButtonSettings` is built with. */
  datatype ButtonPlan = ButtonPlan(buttonType: DeviceType, state: string)

  /** One line of the table: a device, one of the two blank lines, or the legacy title line. */
  datatype RowPlan =
    | DeviceLine(row: int, color: string, tag: string, name: string, link: string,
                 nameWeight: Weight, linkStyle: LinkStyle, button: Option<ButtonPlan>)
    | BlankLine(row: int)
    | LegacyTitle(row: int)

  /** The settings button of an SSDP line: view only without uuid, disabled with an empty one. */
  function SsdpButton(uuid: Option<string>): ButtonPlan
  {
    match uuid
    case None => ButtonPlan(Other, StateNormal)
    case Some(u) => if u != "" then ButtonPlan(Our, StateNormal) else ButtonPlan(Our, StateDisabled)
  }

  /** `add_ssdp_row`: the line a listed SSDP device gets on grid row `row`. */
  function SsdpRowPlan(row: int, info: DeviceInfo): RowPlan
  {
    var weight := if info.uuid.None? then Regular else Bold;
    DeviceLine(row, RowColor(row), info.tag, info.name, info.link, weight,
               if info.tag != TagNotLocal then Hyperlink else Text(weight), Some(SsdpButton(info.uuid)))
  }

  /** `add_legacy_row`: legacy lines have no settings button. */
  function LegacyRowPlan(row: int, info: DeviceInfo): RowPlan
  {
    if info.tag != TagNotLocal then DeviceLine(row, RowColor(row), info.tag, info.name, info.link, Bold, Hyperlink, None)
    else DeviceLine(row, RowColor(row), info.tag, info.name, info.link, TkDefault, Text(Regular), None)
  }

  /** `add_legacy_headers`: two blank lines and the "Legacy Protocol Devices" title. */
  function LegacyHeaderPlans(row: int): seq<RowPlan>
  {
    [BlankLine(row), BlankLine(row + 1), LegacyTitle(row + 2)]
  }

  /** Lines for `rows`, the first on grid row `start`, one row each. */
  function SsdpPlans(rows: seq<DeviceRow>, start: int): (plans: seq<RowPlan>)
    ensures |plans| == |rows|
    ensures forall i :: 0 <= i < |rows| ==> plans[i] == SsdpRowPlan(start + i, rows[i].info)
    decreases |rows|
  {
    if |rows| == 0 then [] else [SsdpRowPlan(start, rows[0].info)] + SsdpPlans(rows[1..], start + 1)
  }

  function LegacyPlans(rows: seq<DeviceRow>, start: int): (plans: seq<RowPlan>)
    ensures |plans| == |rows|
    ensures forall i :: 0 <= i < |rows| ==> plans[i] == LegacyRowPlan(start + i, rows[i].info)
    decreases |rows|
  {
    if |rows| == 0 then [] else [LegacyRowPlan(start, rows[0].info)] + LegacyPlans(rows[1..], start + 1)
  }

  /** What `update` lays out for the two lists, in the order it lays it out. */
  function Layout(ssdp: seq<DeviceRow>, legacy: seq<DeviceRow>): seq<RowPlan>
  {
    SsdpPlans(ssdp, 1)
    + if |legacy| > 0 then LegacyHeaderPlans(|ssdp| + 1) + LegacyPlans(legacy, 4 + |ssdp|) else []
  }

  /**
    SSDP device `i` is on grid row `i + 1`; the header lines follow on rows
    `|ssdp| + 1..|ssdp| + 3` only when there are legacy devices, and legacy
    device `j` is on row `4 + |ssdp| + j`.
   */
  lemma LayoutRows(ssdp: seq<DeviceRow>, legacy: seq<DeviceRow>)
    ensures var l := Layout(ssdp, legacy);
            |l| == |ssdp| + (if |legacy| > 0 then 3 + |legacy| else 0)
            && (forall i :: 0 <= i < |ssdp| ==> l[i] == SsdpRowPlan(i + 1, ssdp[i].info))
            && (|legacy| > 0 ==> l[|ssdp|..|ssdp| + 3] == LegacyHeaderPlans(|ssdp| + 1))
            && (forall j :: 0 <= j < |legacy| ==> l[|ssdp| + 3 + j] == LegacyRowPlan(4 + |ssdp| + j, legacy[j].info))
  {
    var l := Layout(ssdp, legacy);
    if |legacy| > 0 {
      var rest := LegacyHeaderPlans(|ssdp| + 1) + LegacyPlans(legacy, 4 + |ssdp|);
      assert l == SsdpPlans(ssdp, 1) + rest;
      assert l[|ssdp|..|ssdp| + 3] == rest[..3];
      forall j | 0 <= j < |legacy| ensures l[|ssdp| + 3 + j] == LegacyRowPlan(4 + |ssdp| + j, legacy[j].info)
      {
        assert l[|ssdp| + 3 + j] == rest[3 + j];
      }
    }
  }

  /**
    Grid rows grow strictly along the layout, so no two lines share a row and
    every legacy line lies below every SSDP and header line.
   */
  lemma LayoutRowsIncrease(ssdp: seq<DeviceRow>, legacy: seq<DeviceRow>)
    ensures var l := Layout(ssdp, legacy);
            forall i, j :: 0 <= i < j < |l| ==> l[i].row < l[j].row
  {
    var l := Layout(ssdp, legacy);
    LayoutRows(ssdp, legacy);
    forall i | 0 <= i < |l| ensures l[i].row == i + 1
    {
      if |ssdp| <= i < |ssdp| + 3 {
        assert l[i] == l[|ssdp|..|ssdp| + 3][i - |ssdp|];
      } else if |ssdp| + 3 <= i {
        assert l[i] == l[|ssdp| + 3 + (i - |ssdp| - 3)];
      }
    }
  }

  /** Along the SSDP block the line colours alternate, starting odd (white) on row 1. */
  lemma SsdpColorsAlternate(ssdp: seq<DeviceRow>, legacy: seq<DeviceRow>, i: nat)
    requires i + 1 < |ssdp|
    ensures var l := Layout(ssdp, legacy);
            l[i].color != l[i + 1].color && (l[i].color == DefaultBgColor <==> i % 2 == 0)
  {
    LayoutRows(ssdp, legacy);
    ColorsAlternate(i + 1);
  }

  /**
    Name and link styling of an SSDP line: bold exactly when the device has a
    uuid; a link styled as a hyperlink exactly when the tag is not "not_local".
   */
  lemma SsdpRowStyle(row: int, info: DeviceInfo)
    ensures var p := SsdpRowPlan(row, info);
            (p.nameWeight == Bold <==> info.uuid.Some?)
            && (p.linkStyle == Hyperlink <==> info.tag != TagNotLocal)
            && p.button.Some? && p.color == RowColor(row)
  {
  }

  /**
    The settings button of an SSDP line: with no uuid an OTHER (view only)
    button; otherwise an OUR button, disabled exactly when the uuid is empty.
   */
  lemma SsdpButtonChoice(uuid: Option<string>)
    ensures SsdpButton(uuid).buttonType == Our <==> uuid.Some?
    ensures SsdpButton(uuid).state == StateDisabled <==> uuid == Some("")
    ensures SsdpButton(uuid).state == StateNormal <==> uuid != Some("")
  {
  }

  // ---------------------------------------------------------------------------
  // From the table to the registry

  /** The type `add_row_ssdp_item` gives a device: OUR for any uuid, the empty one included. */
  function SsdpItemType(uuid: Option<string>): (t: DeviceType)
  {
    if uuid.None? then Other else Our
  }

  /** What `add_row_ssdp_item` passes to `add_device`. */
  function SsdpItemInfo(name: string, link: string, ipAddress: string, uuid: Option<string>,
                        otherData: Option<map<string, string>>, tag: string): DeviceInfo
  {
    DeviceInfo(name, Some(SsdpItemType(uuid)), otherData, link, ipAddress, uuid, tag, false, false)
  }

  /**
    A device reported with a uuid joins the OUR block at the top of the list,
    one without joins the block below it.
   */
  lemma SsdpItemPlacement(reg: Registry, name: string, link: string, ipAddress: string, uuid: Option<string>,
                          otherData: Option<map<string, string>>, tag: string)
    requires Inv(reg)
    requires AddToSsdpDict(reg, SsdpItemInfo(name, link, ipAddress, uuid, otherData, tag)).row.Some?
    ensures var r := AddToSsdpDict(reg, SsdpItemInfo(name, link, ipAddress, uuid, otherData, tag)).row.value;
            (uuid.Some? ==> 1 <= r <= OurCount(reg.ssdpDevices) + 1)
            && (uuid.None? ==> OurCount(reg.ssdpDevices) + 1 <= r <= |reg.ssdpDevices| + 1)
  {
    SsdpRowRange(reg, SsdpItemInfo(name, link, ipAddress, uuid, otherData, tag));
  }

  /** Every row was added the way `add_row_ssdp_item` adds it: OUR exactly when it has a uuid. */
  ghost predicate TypedByUuid(rows: seq<DeviceRow>)
  {
    forall i :: 0 <= i < |rows| ==> rows[i].info.deviceType == Some(SsdpItemType(rows[i].info.uuid))
  }

  /**
    On the screen our devices are on top: along the SSDP lines of the table a
    bold (uuid-carrying) line never follows a regular one.
   */
  lemma BoldLinesFirst(reg: Registry, legacy: seq<DeviceRow>, i: nat, j: nat)
    requires Inv(reg) && TypedByUuid(reg.ssdpDevices)
    requires i < j < |reg.ssdpDevices|
    ensures var l := Layout(reg.ssdpDevices, legacy);
            l[j].nameWeight == Bold ==> l[i].nameWeight == Bold
  {
    var rows := reg.ssdpDevices;
    LayoutRows(rows, legacy);
    SsdpRowStyle(i + 1, rows[i].info);
    SsdpRowStyle(j + 1, rows[j].info);
  }

  /** Adding through `add_row_ssdp_item` keeps every listed SSDP row typed by its uuid. */
  lemma SsdpItemKeepsTyped(reg: Registry, name: string, link: string, ipAddress: string, uuid: Option<string>,
                           otherData: Option<map<string, string>>, tag: string)
    requires TypedByUuid(reg.ssdpDevices)
    ensures TypedByUuid(AddDevice(reg, SsdpItemInfo(name, link, ipAddress, uuid, otherData, tag)).ssdpDevices)
  {
    var info := SsdpItemInfo(name, link, ipAddress, uuid, otherData, tag);
    var st := AddToSsdpDict(reg, info);
    if st.row.Some? {
      var rows := PyInsert(st.reg.ssdpDevices, st.row.value - 1, DeviceRow(info, st.row.value));
      assert AddDevice(reg, info).ssdpDevices == rows;
      forall k | 0 <= k < |rows| ensures rows[k].info.deviceType == Some(SsdpItemType(rows[k].info.uuid))
      {
      }
    }
  }

  // ---------------------------------------------------------------------------
  // ButtonSettings

  /** The change-settings button: its Tk state and background. */
  datatype ChangeButton = ChangeButton(state: string, bg: string)

  /** The change button, if there is one, put in Tk state `state`. */
  function WithState(b: Option<ChangeButton>, state: string): (r: Option<ChangeButton>)
    ensures r.Some? <==> b.Some?
    ensures r.Some? ==> r.value.state == state && r.value.bg == b.value.bg
  {
    if b.None? then None else Some(b.value.(state := state))
  }

  /** Setting a state twice is setting it once; the last state set wins. */
  lemma WithStateLastWins(b: Option<ChangeButton>, s1: string, s2: string)
    ensures WithState(WithState(b, s1), s2) == WithState(b, s2)
  {
  }

  /** A button built in state "normal" is as it was after a disable and an enable. */
  lemma DisableEnableRoundTrip(b: Option<ChangeButton>)
    requires b.Some? ==> b.value.state == StateNormal
    ensures WithState(WithState(b, StateDisabled), StateNormal) == b
  {
  }

  class ButtonSettings {
    /** The frame's `button_flag`: the button is re-enabled after a search. */
    var buttonFlag: bool
    /** The change-settings button; only OUR devices have one. */
    var changeButton: Option<ChangeButton>
    /** Background of the view-properties button. */
    var viewBg: string
    var tag: string

    constructor (bgColor: string, tag: string, state: string, buttonType: DeviceType)
      ensures buttonFlag <==> state == StateNormal
      ensures changeButton.Some? <==> buttonType == Our
      ensures changeButton.Some? ==> changeButton.value == ChangeButton(state, bgColor)
      ensures viewBg == bgColor && this.tag == tag
    {
      buttonFlag := state == StateNormal;
      if buttonType == Our {
        changeButton := Some(ChangeButton(state, bgColor));
      } else {
        changeButton := None;
      }
      viewBg := bgColor;
      this.tag := tag;
    }

    /** `disable`: the change button, if there is one, is disabled; nothing else changes. */
    method Disable()
      modifies this
      ensures changeButton == WithState(old(changeButton), StateDisabled)
      ensures buttonFlag == old(buttonFlag) && viewBg == old(viewBg) && tag == old(tag)
    {
      if changeButton.Some? {
        changeButton := Some(changeButton.value.(state := StateDisabled));
      }
    }

    /** `enable`: the change button, if there is one, is back to "normal". */
    method Enable()
      modifies this
      ensures changeButton == WithState(old(changeButton), StateNormal)
      ensures buttonFlag == old(buttonFlag) && viewBg == old(viewBg) && tag == old(tag)
    {
      if changeButton.Some? {
        changeButton := Some(changeButton.value.(state := StateNormal));
      }
    }

    /** `change_button_color`: both buttons take the colour. */
    method ChangeButtonColor(color: string)
      modifies this
      ensures changeButton == if old(changeButton).None? then None else Some(old(changeButton).value.(bg := color))
      ensures viewBg == color && buttonFlag == old(buttonFlag) && tag == old(tag)
    {
      if changeButton.Some? {
        changeButton := Some(changeButton.value.(bg := color));
      }
      viewBg := color;
    }
  }

  /**
    `disable_all_buttons`, over the settings frames of the table: each frame
    whose `button_flag` is set has its change button disabled; frames built
    disabled, and everything else about each frame, stay as they are.
   */
  method DisableAllButtons(buttons: seq<ButtonSettings>)
    modifies set b | b in buttons
    ensures forall b :: b in buttons ==>
              b.changeButton == (if old(b.buttonFlag) then WithState(old(b.changeButton), StateDisabled) else old(b.changeButton))
    ensures forall b :: b in buttons ==> b.buttonFlag == old(b.buttonFlag) && b.viewBg == old(b.viewBg) && b.tag == old(b.tag)
  {
    var i := 0;
    while i < |buttons|
      invariant 0 <= i <= |buttons|
      invariant forall b :: b in buttons && b in buttons[..i] ==>
                  b.changeButton == (if old(b.buttonFlag) then WithState(old(b.changeButton), StateDisabled) else old(b.changeButton))
      invariant forall b :: b in buttons && b !in buttons[..i] ==> b.changeButton == old(b.changeButton)
      invariant forall b :: b in buttons ==> b.buttonFlag == old(b.buttonFlag) && b.viewBg == old(b.viewBg) && b.tag == old(b.tag)
    {
      if buttons[i].buttonFlag {
        buttons[i].Disable();
      }
      assert buttons[..i + 1] == buttons[..i] + [buttons[i]];
      i := i + 1;
    }
    assert buttons[..|buttons|] == buttons;
  }

  /**
    `enable_all_buttons`: each frame whose `button_flag` is set has its change
    button back in state "normal"; frames built disabled stay disabled.
   */
  method EnableAllButtons(buttons: seq<ButtonSettings>)
    modifies set b | b in buttons
    ensures forall b :: b in buttons ==>
              b.changeButton == (if old(b.buttonFlag) then WithState(old(b.changeButton), StateNormal) else old(b.changeButton))
    ensures forall b :: b in buttons ==> b.buttonFlag == old(b.buttonFlag) && b.viewBg == old(b.viewBg) && b.tag == old(b.tag)
  {
    var i := 0;
    while i < |buttons|
      invariant 0 <= i <= |buttons|
      invariant forall b :: b in buttons && b in buttons[..i] ==>
                  b.changeButton == (if old(b.buttonFlag) then WithState(old(b.changeButton), StateNormal) else old(b.changeButton))
      invariant forall b :: b in buttons && b !in buttons[..i] ==> b.changeButton == old(b.changeButton)
      invariant forall b :: b in buttons ==> b.buttonFlag == old(b.buttonFlag) && b.viewBg == old(b.viewBg) && b.tag == old(b.tag)
    {
      if buttons[i].buttonFlag {
        buttons[i].Enable();
      }
      assert buttons[..i + 1] == buttons[..i] + [buttons[i]];
      i := i + 1;
    }
    assert buttons[..|buttons|] == buttons;
  }

  // ---------------------------------------------------------------------------
  // RevealerTable

  class RevealerTable {
    /** The last added row. */
    var lastRow: int
    var legacyLastRow: int
    var legacyHeaderRow: int
    /** The lines laid out below the fixed header on row 0. */
    var grid: seq<RowPlan>
    const deviceList: RevealerDeviceList

    constructor ()
      ensures lastRow == 1 && legacyLastRow == 0 && legacyHeaderRow == 0 && grid == []
      ensures fresh(deviceList) && deviceList.Value() == Empty()
    {
      lastRow := 1;
      legacyLastRow := 0;
      legacyHeaderRow := 0;
      grid := [];
      deviceList := new RevealerDeviceList();
    }

    /** `add_row_ssdp_item`: OTHER without uuid, OUR with one, never legacy. */
    method AddRowSsdpItem(name: string, link: string, ipAddress: string, uuid: Option<string>,
                          otherData: Option<map<string, string>>, tag: string)
      modifies deviceList
      ensures deviceList.Value() ==
              DeviceRegistry.AddDevice(old(deviceList.Value()), SsdpItemInfo(name, link, ipAddress, uuid, otherData, tag))
    {
      var deviceType: DeviceType;
      if uuid.None? {
        deviceType := Other;
      } else {
        deviceType := Our;
      }
      deviceList.AddDevice(name, Some(deviceType), link, ipAddress, otherData, uuid, tag, false, false);
    }

    /** `add_row_old_item`: a legacy device without type, description or uuid, addressed by its name. */
    method AddRowOldItem(name: string, link: string, tag: string)
      modifies deviceList
      ensures deviceList.Value() == DeviceRegistry.AddDevice(old(deviceList.Value()), LegacyInfo(name, link, tag))
    {
      deviceList.AddDevice(name, None, link, name, None, None, tag, true, false);
    }

    /**
      `_set_row_color`: the colour of `row + additionalRow`, less the legacy
      header row when asked; a settings button on the line takes it too.
     */
    method SetRowColor(row: int, additionalRow: int, button: Option<ButtonSettings>, subtractLegacyHeaderRow: bool)
      returns (background: string)
      modifies if button.Some? then {button.value} else {}
      ensures background == RowColor(row + additionalRow - (if subtractLegacyHeaderRow then legacyHeaderRow else 0))
      ensures button.Some? ==> button.value.viewBg == background
      ensures button.Some? ==>
                button.value.changeButton ==
                if old(button.value.changeButton).None? then None
                else Some(old(button.value.changeButton).value.(bg := background))
      ensures button.Some? ==> button.value.buttonFlag == old(button.value.buttonFlag) && button.value.tag == old(button.value.tag)
    {
      var subtrahend := if subtractLegacyHeaderRow then legacyHeaderRow else 0;
      if (row + additionalRow - subtrahend) % 2 == 0 {
        background := EvenRowColor;
      } else {
        background := DefaultBgColor;
      }
      if button.Some? {
        button.value.ChangeButtonColor(background);
      }
    }

    /** `add_ssdp_row`: one line, and `last_row` up by one. */
    method AddSsdpRow(row: int, deviceRow: RevealerDeviceRow)
      modifies this
      ensures grid == old(grid) + [SsdpRowPlan(row, deviceRow.GetDict())]
      ensures lastRow == old(lastRow) + 1
      ensures legacyLastRow == old(legacyLastRow) && legacyHeaderRow == old(legacyHeaderRow)
    {
      grid := grid + [SsdpRowPlan(row, deviceRow.GetDict())];
      lastRow := lastRow + 1;
    }

    /** `add_legacy_headers`. */
    method AddLegacyHeaders(row: int)
      modifies this
      ensures grid == old(grid) + LegacyHeaderPlans(row)
      ensures lastRow == old(lastRow) && legacyLastRow == old(legacyLastRow) && legacyHeaderRow == old(legacyHeaderRow)
    {
      grid := grid + LegacyHeaderPlans(row);
    }

    /** `add_legacy_row`: one line; the counters stay. */
    method AddLegacyRow(row: int, deviceRow: RevealerDeviceRow)
      modifies this
      ensures grid == old(grid) + [LegacyRowPlan(row, deviceRow.GetDict())]
      ensures lastRow == old(lastRow) && legacyLastRow == old(legacyLastRow) && legacyHeaderRow == old(legacyHeaderRow)
    {
      grid := grid + [LegacyRowPlan(row, deviceRow.GetDict())];
    }

    /**
      `update`: the SSDP lines from row 1, then, when there are legacy
      devices, the header lines and the legacy lines; `last_row` grows by the
      number of SSDP lines.
     */
    method Update()
      modifies this
      ensures grid == old(grid + Layout(Values(deviceList.ssdpDevices), Values(deviceList.oldDevices)))
      ensures lastRow == old(lastRow) + |deviceList.ssdpDevices|
      ensures legacyLastRow == old(legacyLastRow) && legacyHeaderRow == old(legacyHeaderRow)
    {
      var ssdp := deviceList.ssdpDevices;
      var legacy := deviceList.oldDevices;
      ghost var ssdpValues, legacyValues := Values(ssdp), Values(legacy);
      ghost var before := grid;
      AddSsdpRows(ssdp, ssdpValues);
      if |legacy| > 0 {
        ghost var plans, headers := SsdpPlans(ssdpValues, 1), LegacyHeaderPlans(|ssdp| + 1);
        AddLegacyHeaders(|ssdp| + 1);
        AddLegacyRows(legacy, legacyValues, 4 + |ssdp|);
        ghost var rest := LegacyPlans(legacyValues, 4 + |ssdp|);
        assert grid == before + plans + headers + rest;
        assert Layout(ssdpValues, legacyValues) == plans + (headers + rest);
      }
    }

    /** The SSDP loop of `update`: device `i` of `rows` on row `i + 1`. */
    method AddSsdpRows(rows: seq<RevealerDeviceRow>, ghost vs: seq<DeviceRow>)
      requires |vs| == |rows| && forall k :: 0 <= k < |rows| ==> rows[k].GetDict() == vs[k].info
      modifies this
      ensures grid == old(grid) + SsdpPlans(vs, 1)
      ensures lastRow == old(lastRow) + |rows|
      ensures legacyLastRow == old(legacyLastRow) && legacyHeaderRow == old(legacyHeaderRow)
    {
      var i := 0;
      while i < |rows|
        invariant 0 <= i <= |rows|
        invariant grid == old(grid) + SsdpPlans(vs[..i], 1)
        invariant lastRow == old(lastRow) + i
        invariant legacyLastRow == old(legacyLastRow) && legacyHeaderRow == old(legacyHeaderRow)
      {
        AddSsdpRow(i + 1, rows[i]);
        SsdpPlansSnoc(vs, i, 1);
        i := i + 1;
      }
      assert vs[..|rows|] == vs;
    }

    /** The legacy loop of `update`: device `j` of `rows` on row `start + j`. */
    method AddLegacyRows(rows: seq<RevealerDeviceRow>, ghost vs: seq<DeviceRow>, start: int)
      requires |vs| == |rows| && forall k :: 0 <= k < |rows| ==> rows[k].GetDict() == vs[k].info
      modifies this
      ensures grid == old(grid) + LegacyPlans(vs, start)
      ensures lastRow == old(lastRow) && legacyLastRow == old(legacyLastRow) && legacyHeaderRow == old(legacyHeaderRow)
    {
      var j := 0;
      while j < |rows|
        invariant 0 <= j <= |rows|
        invariant grid == old(grid) + LegacyPlans(vs[..j], start)
        invariant lastRow == old(lastRow) && legacyLastRow == old(legacyLastRow) && legacyHeaderRow == old(legacyHeaderRow)
      {
        AddLegacyRow(j + start, rows[j]);
        LegacyPlansSnoc(vs, j, start);
        j := j + 1;
      }
      assert vs[..|rows|] == vs;
    }

    /** `delete_all_rows`: every laid-out line removed, the counters back to their start. */
    method DeleteAllRows()
      modifies this
      ensures lastRow == 1 && legacyLastRow == 0 && legacyHeaderRow == 0 && grid == []
    {
      lastRow := 1;
      legacyLastRow := 0;
      legacyHeaderRow := 0;
      grid := [];
    }
  }

  /** One more row laid out at the end of the SSDP lines. */
  lemma SsdpPlansSnoc(rows: seq<DeviceRow>, i: nat, start: int)
    requires i < |rows|
    ensures SsdpPlans(rows[..i + 1], start) == SsdpPlans(rows[..i], start) + [SsdpRowPlan(start + i, rows[i].info)]
  {
    var a := SsdpPlans(rows[..i + 1], start);
    var b := SsdpPlans(rows[..i], start) + [SsdpRowPlan(start + i, rows[i].info)];
    assert |a| == |b|;
    forall k | 0 <= k < |a| ensures a[k] == b[k]
    {
      assert rows[..i + 1][k] == rows[k];
      if k < i { assert rows[..i][k] == rows[k]; }
    }
  }

  lemma LegacyPlansSnoc(rows: seq<DeviceRow>, i: nat, start: int)
    requires i < |rows|
    ensures LegacyPlans(rows[..i + 1], start) == LegacyPlans(rows[..i], start) + [LegacyRowPlan(start + i, rows[i].info)]
  {
    var a := LegacyPlans(rows[..i + 1], start);
    var b := LegacyPlans(rows[..i], start) + [LegacyRowPlan(start + i, rows[i].info)];
    assert |a| == |b|;
    forall k | 0 <= k < |a| ensures a[k] == b[k]
    {
      assert rows[..i + 1][k] == rows[k];
      if k < i { assert rows[..i][k] == rows[k]; }
    }
  }
}
