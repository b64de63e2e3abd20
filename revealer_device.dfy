/**
  The two classes of revealerdevice.py. `RevealerDeviceRow` holds one
  device's fields and its row number; `RevealerDeviceList` holds the two row
  lists and the three dictionaries and inserts rows in place. Each method is
  proved against the functions of `DeviceRegistry`, whose lemmas state what
  the invariant and the insertion order are.
 */
module RevealerDevice {
  import opened Wrappers
  import opened PyStrings
  import opened DeviceRegistry

  class RevealerDeviceRow {
    var name: string
    var deviceType: Option<DeviceType>
    var otherData: Option<map<string, string>>
    var link: string
    var ipAddress: string
    var uuid: Option<string>
    var tag: string
    var legacy: bool
    /** The device supports setting its network settings over SSDP. */
    var mipas: bool
    var row: int

    /** `get_dict`: the nine descriptive fields, without `row`. */
    function GetDict(): DeviceInfo
      reads this
    {
      DeviceInfo(name, deviceType, otherData, link, ipAddress, uuid, tag, legacy, mipas)
    }

    function Value(): DeviceRow
      reads this
    {
      DeviceRow(GetDict(), row)
    }

    constructor (deviceName: string, deviceType: Option<DeviceType>, deviceInfo: Option<map<string, string>>,
                 deviceLink: string, deviceIpAddress: string, deviceUuid: Option<string>, deviceTag: string,
                 deviceLegacy: bool, deviceMipas: bool)
      ensures GetDict() == DeviceInfo(deviceName, deviceType, deviceInfo, deviceLink, deviceIpAddress,
                                      deviceUuid, deviceTag, deviceLegacy, deviceMipas)
      ensures row == 0
    {
      name := deviceName;
      this.deviceType := deviceType;
      otherData := deviceInfo;
      link := deviceLink;
      ipAddress := deviceIpAddress;
      uuid := deviceUuid;
      tag := deviceTag;
      legacy := deviceLegacy;
      mipas := deviceMipas;
      row := 0;
    }

    method SetRow(row: int)
      modifies this
      ensures this.row == row && GetDict() == old(GetDict())
    {
      this.row := row;
    }

    /** `reinit`: every descriptive field overwritten, the row back to 0. */
    method Reinit(deviceName: string, deviceType: Option<DeviceType>, deviceInfo: Option<map<string, string>>,
                  deviceLink: string, deviceIpAddress: string, deviceUuid: Option<string>, deviceTag: string,
                  deviceLegacy: bool, deviceMipas: bool)
      modifies this
      ensures GetDict() == DeviceInfo(deviceName, deviceType, deviceInfo, deviceLink, deviceIpAddress,
                                      deviceUuid, deviceTag, deviceLegacy, deviceMipas)
      ensures row == 0
    {
      name := deviceName;
      this.deviceType := deviceType;
      otherData := deviceInfo;
      link := deviceLink;
      ipAddress := deviceIpAddress;
      uuid := deviceUuid;
      tag := deviceTag;
      legacy := deviceLegacy;
      mipas := deviceMipas;
      row := 0;
    }

    /** `deepcopy`: a new row with the same nine fields, numbered 0. */
    method DeepCopy() returns (copy: RevealerDeviceRow)
      ensures fresh(copy)
      ensures copy.GetDict() == GetDict() && copy.row == 0
    {
      copy := new RevealerDeviceRow(name, deviceType, otherData, link, ipAddress, uuid, tag, legacy, mipas);
    }
  }

  /** The values of a list of rows. */
  function Values(rows: seq<RevealerDeviceRow>): (vs: seq<DeviceRow>)
    reads rows
    ensures |vs| == |rows| && forall i :: 0 <= i < |rows| ==> vs[i] == rows[i].Value()
  {
    seq(|rows|, i reads rows requires 0 <= i < |rows| => rows[i].Value())
  }

  /** The entries of `dict` among `keys` whose type is OUR exactly when `our` holds. */
  function BlockOf(dict: map<string, Option<DeviceType>>, keys: set<string>, our: bool)
    : (b: map<string, Option<DeviceType>>)
    ensures keys == dict.Keys ==> b == Block(dict, our)
  {
    map k | k in keys && k in dict && IsOur(dict[k]) == our :: dict[k]
  }

  /** One more key visited: it joins the block its type belongs to. */
  lemma BlockOfAdd(dict: map<string, Option<DeviceType>>, keys: set<string>, k: string, our: bool)
    requires k in dict && k !in keys
    ensures BlockOf(dict, keys + {k}, our) ==
            if IsOur(dict[k]) == our then BlockOf(dict, keys, our)[k := dict[k]] else BlockOf(dict, keys, our)
  {
  }

  lemma ValuesInsert(rows: seq<RevealerDeviceRow>, i: nat, x: RevealerDeviceRow)
    ensures Values(PyInsert(rows, i, x)) == PyInsert(Values(rows), i, x.Value())
  {
  }

  class RevealerDeviceList {
    var ssdpDevices: seq<RevealerDeviceRow>
    var oldDevices: seq<RevealerDeviceRow>
    var ssdpDict: map<string, Option<DeviceType>>
    var legacyDict: map<string, int>
    var ipDictWhole: map<string, string>

    function Value(): Registry
      reads this, ssdpDevices, oldDevices
    {
      Registry(Values(ssdpDevices), Values(oldDevices), ssdpDict, legacyDict, ipDictWhole)
    }

    constructor ()
      ensures Value() == Empty() && Inv(Value())
    {
      ssdpDevices := [];
      oldDevices := [];
      ssdpDict := map[];
      legacyDict := map[];
      ipDictWhole := map[];
      EmptyInv();
    }

    /** `clear_all`: both lists and all three dictionaries emptied. */
    method ClearAll()
      modifies this
      ensures ssdpDevices == [] && oldDevices == []
      ensures ssdpDict == map[] && legacyDict == map[] && ipDictWhole == map[]
      ensures Value() == Empty() && Inv(Value())
    {
      ssdpDevices := [];
      oldDevices := [];
      ssdpDict := map[];
      legacyDict := map[];
      ipDictWhole := map[];
      EmptyInv();
    }

    /** `add_device`: a new row, handed to the SSDP or the legacy branch. */
    method AddDevice(name: string, deviceType: Option<DeviceType>, link: string, ipAddress: string,
                     otherData: Option<map<string, string>>, uuid: Option<string>, tag: string, legacy: bool,
                     mipasSupport: bool)
      modifies this
      ensures Value() == DeviceRegistry.AddDevice(old(Value()),
        DeviceInfo(name, deviceType, otherData, link, ipAddress, uuid, tag, legacy, mipasSupport))
      ensures Inv(old(Value())) ==> Inv(Value())
    {
      ghost var before := Value();
      var deviceRow := new RevealerDeviceRow(name, deviceType, otherData, link, ipAddress, uuid, tag, legacy,
                                             mipasSupport);
      if !legacy {
        AddToSsdpDevices(deviceRow);
      } else {
        AddToOldDevices(deviceRow);
      }
      if Inv(before) {
        AddDeviceKeepsInv(before, deviceRow.GetDict());
      }
    }

    /** The non-legacy branch of `add_device`: the row goes to `ssdp_devices` at index `row - 1`. */
    method AddToSsdpDevices(deviceRow: RevealerDeviceRow)
      requires deviceRow !in ssdpDevices && deviceRow !in oldDevices
      modifies this, deviceRow
      ensures deviceRow.GetDict() == old(deviceRow.GetDict())
      ensures Value() == AddSsdpDevice(old(Value()), deviceRow.GetDict())
    {
      ghost var before := Value();
      ghost var info := deviceRow.GetDict();
      var row := AddDeviceToSsdpDict(deviceRow);
      ghost var mid := Value();
      if row.Some? {
        PlaceSsdpRow(deviceRow, row.value);
      }
      AddSsdpDeviceSteps(before, info, mid, row, Value());
    }

    /** `set_row` and `insert(row - 1, …)` of the SSDP branch: only `ssdpDevices` and the row's number change. */
    method PlaceSsdpRow(deviceRow: RevealerDeviceRow, row: nat)
      requires row >= 1 && deviceRow !in ssdpDevices && deviceRow !in oldDevices
      modifies this, deviceRow
      ensures deviceRow.GetDict() == old(deviceRow.GetDict())
      ensures Value() == old(Value()).(ssdpDevices := PyInsert(old(Value()).ssdpDevices, row - 1, DeviceRow(deviceRow.GetDict(), row)))
    {
      deviceRow.SetRow(row);
      ValuesInsert(ssdpDevices, row - 1, deviceRow);
      ssdpDevices := PyInsert(ssdpDevices, row - 1, deviceRow);
    }

    /** The legacy branch of `add_device`: the row goes to `old_devices` at index `row - 1`. */
    method AddToOldDevices(deviceRow: RevealerDeviceRow)
      requires deviceRow !in ssdpDevices && deviceRow !in oldDevices
      modifies this, deviceRow
      ensures deviceRow.GetDict() == old(deviceRow.GetDict())
      ensures Value() == AddLegacyDevice(old(Value()), deviceRow.GetDict())
    {
      ghost var before := Value();
      ghost var info := deviceRow.GetDict();
      var row := AddDeviceToLegacyDict(deviceRow);
      ghost var mid := Value();
      if row.Some? {
        PlaceOldRow(deviceRow, row.value);
      }
      AddLegacyDeviceSteps(before, info, mid, row, Value());
    }

    /** `set_row` and `insert(row - 1, …)` of the legacy branch: only `oldDevices` and the row's number change. */
    method PlaceOldRow(deviceRow: RevealerDeviceRow, row: nat)
      requires row >= 1 && deviceRow !in ssdpDevices && deviceRow !in oldDevices
      modifies this, deviceRow
      ensures deviceRow.GetDict() == old(deviceRow.GetDict())
      ensures Value() == old(Value()).(oldDevices := PyInsert(old(Value()).oldDevices, row - 1, DeviceRow(deviceRow.GetDict(), row)))
    {
      deviceRow.SetRow(row);
      ValuesInsert(oldDevices, row - 1, deviceRow);
      oldDevices := PyInsert(oldDevices, row - 1, deviceRow);
    }

    /**
      `add_device_to_ssdp_dict`: checks the two identity keys, then splits
      `ssdp_dict` into the OUR and the other entries and ranks the new key in
      its block.
     */
    method AddDeviceToSsdpDict(deviceRow: RevealerDeviceRow) returns (row: Option<nat>)
      modifies this
      ensures ssdpDevices == old(ssdpDevices) && oldDevices == old(oldDevices)
      ensures var st := AddToSsdpDict(old(Value()), deviceRow.GetDict());
              row == st.row && Value() == st.reg
    {
      var deviceInfo := deviceRow.GetDict();
      var device := deviceInfo.name + deviceInfo.link;
      var deviceType := deviceInfo.deviceType;
      var uuid: string;
      if deviceInfo.uuid.Some? {
        uuid := deviceInfo.uuid.value;
      } else if deviceInfo.otherData.Some? && "UDN" in deviceInfo.otherData.value {
        uuid := SliceFrom(deviceInfo.otherData.value["UDN"], 5);
      } else {
        uuid := "";
      }
      assert uuid == UuidKey(deviceInfo);
      if deviceInfo.ipAddress + uuid in ipDictWhole {
        return None;
      }
      ipDictWhole := ipDictWhole[deviceInfo.ipAddress + uuid := deviceInfo.name];
      if device in ssdpDict {
        return None;
      }
      var alphaRow := SsdpAlphaRow(device, deviceType);
      ssdpDict := ssdpDict[device := deviceType];
      return Some(alphaRow);
    }

    /** The row of a new SSDP `device`: its place among the entries of its own block, after the OUR block if it is not OUR. */
    method SsdpAlphaRow(device: string, deviceType: Option<DeviceType>) returns (alphaRow: nat)
      ensures alphaRow == SsdpRank(ssdpDict, device, deviceType)
    {
      var ourDict, otherDict := PartitionSsdpDict();
      if deviceType == Some(Our) {
        ourDict := ourDict[device := deviceType];
        alphaRow := SortedIndex(ourDict.Keys, device) + 1;
      } else {
        otherDict := otherDict[device := deviceType];
        alphaRow := SortedIndex(otherDict.Keys, device) + 1 + |ourDict|;
      }
    }

    /** The loop of `add_device_to_ssdp_dict` that splits `ssdp_dict` into its OUR and its other entries. */
    method PartitionSsdpDict() returns (ourDict: map<string, Option<DeviceType>>, otherDict: map<string, Option<DeviceType>>)
      ensures ourDict == Block(ssdpDict, true) && otherDict == Block(ssdpDict, false)
    {
      ourDict, otherDict := map[], map[];
      var pending := ssdpDict.Keys;
      while pending != {}
        invariant pending <= ssdpDict.Keys
        invariant ourDict == BlockOf(ssdpDict, ssdpDict.Keys - pending, true)
        invariant otherDict == BlockOf(ssdpDict, ssdpDict.Keys - pending, false)
        decreases pending
      {
        var exDevice :| exDevice in pending;
        BlockOfAdd(ssdpDict, ssdpDict.Keys - pending, exDevice, true);
        BlockOfAdd(ssdpDict, ssdpDict.Keys - pending, exDevice, false);
        assert ssdpDict.Keys - (pending - {exDevice}) == (ssdpDict.Keys - pending) + {exDevice};
        if ssdpDict[exDevice] == Some(Our) {
          ourDict := ourDict[exDevice := ssdpDict[exDevice]];
        } else {
          otherDict := otherDict[exDevice := ssdpDict[exDevice]];
        }
        pending := pending - {exDevice};
      }
      assert ssdpDict.Keys - pending == ssdpDict.Keys;
    }

    /** `add_device_to_legacy_dict`: a new link is recorded and ranked by name in `legacy_dict`. */
    method AddDeviceToLegacyDict(deviceRow: RevealerDeviceRow) returns (row: Option<nat>)
      modifies this
      ensures ssdpDevices == old(ssdpDevices) && oldDevices == old(oldDevices)
      ensures var st := AddToLegacyDict(old(Value()), deviceRow.GetDict());
              row == st.row && Value() == st.reg
    {
      var deviceInfo := deviceRow.GetDict();
      var name := deviceInfo.name;
      var link := deviceInfo.link;
      if link in ipDictWhole {
        return None;
      }
      ipDictWhole := ipDictWhole[link := name];
      legacyDict := legacyDict[name := |oldDevices| + |ssdpDevices| + 4];
      var alphaRow := SortedPosition(legacyDict.Keys, name) + 1;
      return Some(alphaRow);
    }
  }
}
