/**
  The device registry of revealerdevice.py as values: a registry is the two
  row lists (`ssdp_devices`, `old_devices`) with the three dictionaries that
  decide where a new row goes (`ssdp_dict`, `legacy_dict`, `ip_dict_whole`).
  `AddToSsdpDict`, `AddToLegacyDict` and `AddDevice` are what the methods of
  `RevealerDeviceList` do to that state; the lemmas below state what they keep.
 */
module DeviceRegistry {
  import opened Wrappers
  import opened PyStrings

  /** `RevealerDeviceType`: OUR = 0, OTHER = 1. */
  datatype DeviceType = Our | Other

  /** `RevealerDeviceTag`. */
  const TagLocal := "local"
  const TagLocalOther := "local_other"
  const TagNotLocal := "not_local"
  const TagOldLocal := "old_local"

  /**
    The nine descriptive fields of a `RevealerDeviceRow`, as `get_dict` returns
    them. Legacy rows carry no type (`None`); `other_data` is the UPnP
    description dictionary or `None`.
   */
  datatype DeviceInfo = DeviceInfo(
    name: string,
    deviceType: Option<DeviceType>,
    otherData: Option<map<string, string>>,
    link: string,
    ipAddress: string,
    uuid: Option<string>,
    tag: string,
    legacy: bool,
    mipas: bool)

  /** A row of a device list: its fields and the 1-based row it was given. */
  datatype DeviceRow = DeviceRow(info: DeviceInfo, row: int)

  datatype Registry = Registry(
    ssdpDevices: seq<DeviceRow>,
    oldDevices: seq<DeviceRow>,
    ssdpDict: map<string, Option<DeviceType>>,
    legacyDict: map<string, int>,
    ipDictWhole: map<string, string>)

  /** What a helper leaves behind: the new state and the row it returns (`None` when it refuses). */
  datatype Step = Step(reg: Registry, row: Option<nat>)

  // ---------------------------------------------------------------------------
  // Keys

  /** The uuid of the first identity key: the row's own, else `other_data['UDN'][5:]`, else "". */
  function UuidKey(info: DeviceInfo): string
  {
    match info.uuid
    case Some(u) => u
    case None =>
      match info.otherData
      case Some(data) => if "UDN" in data then SliceFrom(data["UDN"], 5) else ""
      case None => ""
  }

  /**
    A row without a uuid takes it from a UDN of the form "uuid:<u>"; without
    a description or without a UDN the uuid part of the key is empty.
   */
  lemma UuidFallback(info: DeviceInfo, u: string)
    requires info.uuid.None?
    ensures info.otherData.Some? && "UDN" in info.otherData.value && info.otherData.value["UDN"] == "uuid:" + u ==>
            UuidKey(info) == u
    ensures (info.otherData.None? || "UDN" !in info.otherData.value) ==> UuidKey(info) == ""
  {
    if info.otherData.Some? && "UDN" in info.otherData.value && info.otherData.value["UDN"] == "uuid:" + u {
      assert ("uuid:" + u)[5..] == u;
    }
  }

  /** First SSDP identity key, shared in `ip_dict_whole` with the legacy links. */
  function SsdpIdentity(info: DeviceInfo): string
  {
    info.ipAddress + UuidKey(info)
  }

  /** Second SSDP identity key, the key of `ssdp_dict`. */
  function NameLink(info: DeviceInfo): string
  {
    info.name + info.link
  }

  predicate IsOur(t: Option<DeviceType>)
  {
    t == Some(Our)
  }

  /** The order `sorted(..., key=lambda v: v.upper())` uses. */
  predicate KeyLe(a: string, b: string)
  {
    LexLe(Upper(a), Upper(b))
  }

  function Key(r: DeviceRow): string
  {
    NameLink(r.info)
  }

  predicate OurRow(r: DeviceRow)
  {
    IsOur(r.info.deviceType)
  }

  // ---------------------------------------------------------------------------
  // The helpers and add_device

  /** The entries of `ssdp_dict` of one block: `our_dict` when `our` holds, `other_dict` otherwise. */
  function Block(dict: map<string, Option<DeviceType>>, our: bool): map<string, Option<DeviceType>>
  {
    map k | k in dict && IsOur(dict[k]) == our :: dict[k]
  }

  /**
    `sorted(keys, key=upper).index(device)` when `device` is the key added
    last: the sort is stable, so every other key whose upper-cased form is at
    most that of `device` comes first.
   */
  function SortedIndex(keys: set<string>, device: string): nat
  {
    |set k | k in keys && k != device && KeyLe(k, device)|
  }

  /** The row `add_device_to_ssdp_dict` returns for a new `device` of type `t`. */
  function SsdpRank(dict: map<string, Option<DeviceType>>, device: string, t: Option<DeviceType>): nat
  {
    if IsOur(t) then SortedIndex(Block(dict, true)[device := t].Keys, device) + 1
    else SortedIndex(Block(dict, false)[device := t].Keys, device) + 1 + |Block(dict, true)|
  }

  /** `add_device_to_ssdp_dict`. */
  function AddToSsdpDict(reg: Registry, info: DeviceInfo): (st: Step)
    ensures st.reg.ssdpDevices == reg.ssdpDevices && st.reg.oldDevices == reg.oldDevices
    ensures st.reg.legacyDict == reg.legacyDict
    ensures st.row.Some? ==> st.row.value >= 1
  {
    var whole := SsdpIdentity(info);
    if whole in reg.ipDictWhole then Step(reg, None)
    else
      var recorded := reg.(ipDictWhole := reg.ipDictWhole[whole := info.name]);
      var device := NameLink(info);
      if device in reg.ssdpDict then Step(recorded, None)
      else
        Step(recorded.(ssdpDict := reg.ssdpDict[device := info.deviceType]),
             Some(SsdpRank(reg.ssdpDict, device, info.deviceType)))
  }

  /** `sorted(keys).index(name)` for a key `name` of `keys`. */
  function SortedPosition(keys: set<string>, name: string): nat
  {
    |set k | k in keys && LexLt(k, name)|
  }

  /** `add_device_to_legacy_dict`. */
  function AddToLegacyDict(reg: Registry, info: DeviceInfo): (st: Step)
    ensures st.reg.ssdpDevices == reg.ssdpDevices && st.reg.oldDevices == reg.oldDevices
    ensures st.reg.ssdpDict == reg.ssdpDict
    ensures st.row.Some? ==> st.row.value >= 1
  {
    if info.link in reg.ipDictWhole then Step(reg, None)
    else
      var legacy := reg.legacyDict[info.name := |reg.oldDevices| + |reg.ssdpDevices| + 4];
      Step(reg.(ipDictWhole := reg.ipDictWhole[info.link := info.name], legacyDict := legacy),
           Some(SortedPosition(legacy.Keys, info.name) + 1))
  }

  /** Python's `s.insert(i, x)` for `i >= 0`: an index past the end appends. */
  function PyInsert<T>(s: seq<T>, i: nat, x: T): (r: seq<T>)
    ensures |r| == |s| + 1
    ensures i <= |s| ==> forall k :: 0 <= k < |r| ==> r[k] == if k < i then s[k] else if k == i then x else s[k - 1]
    ensures |s| < i ==> r == s + [x]
  {
    if i <= |s| then s[..i] + [x] + s[i..] else s + [x]
  }

  /** The non-legacy branch of `add_device`: the helper's row `r` puts the new row, numbered `r`, at index `r - 1`. */
  function AddSsdpDevice(reg: Registry, info: DeviceInfo): Registry
  {
    var st := AddToSsdpDict(reg, info);
    match st.row
    case None => st.reg
    case Some(r) => st.reg.(ssdpDevices := PyInsert(st.reg.ssdpDevices, r - 1, DeviceRow(info, r)))
  }

  /** `add_device`'s SSDP branch is the dictionary step followed by the insertion of the row it returns. */
  lemma AddSsdpDeviceSteps(reg: Registry, info: DeviceInfo, mid: Registry, row: Option<nat>, after: Registry)
    requires AddToSsdpDict(reg, info) == Step(mid, row)
    requires row.None? ==> after == mid
    requires row.Some? ==> after == mid.(ssdpDevices := PyInsert(mid.ssdpDevices, row.value - 1, DeviceRow(info, row.value)))
    ensures after == AddSsdpDevice(reg, info)
  {
  }

  /** The legacy branch of `add_device`, the same with `old_devices`. */
  function AddLegacyDevice(reg: Registry, info: DeviceInfo): Registry
  {
    var st := AddToLegacyDict(reg, info);
    match st.row
    case None => st.reg
    case Some(r) => st.reg.(oldDevices := PyInsert(st.reg.oldDevices, r - 1, DeviceRow(info, r)))
  }

  /** `add_device`'s legacy branch is the dictionary step followed by the insertion of the row it returns. */
  lemma AddLegacyDeviceSteps(reg: Registry, info: DeviceInfo, mid: Registry, row: Option<nat>, after: Registry)
    requires AddToLegacyDict(reg, info) == Step(mid, row)
    requires row.None? ==> after == mid
    requires row.Some? ==> after == mid.(oldDevices := PyInsert(mid.oldDevices, row.value - 1, DeviceRow(info, row.value)))
    ensures after == AddLegacyDevice(reg, info)
  {
  }

  /** `add_device`. */
  function AddDevice(reg: Registry, info: DeviceInfo): Registry
  {
    if !info.legacy then AddSsdpDevice(reg, info) else AddLegacyDevice(reg, info)
  }

  // ---------------------------------------------------------------------------
  // The invariant

  /** OUR rows first, then the rest; each block ordered by upper-cased name + link. */
  ghost predicate SsdpOrdered(rows: seq<DeviceRow>)
  {
    (forall i, j :: 0 <= i < j < |rows| && OurRow(rows[j]) ==> OurRow(rows[i]))
    && (forall i, j :: 0 <= i < j < |rows| && OurRow(rows[i]) == OurRow(rows[j]) ==>
          KeyLe(Key(rows[i]), Key(rows[j])))
  }

  ghost predicate SsdpDistinct(rows: seq<DeviceRow>)
  {
    forall i, j :: 0 <= i < j < |rows| ==> Key(rows[i]) != Key(rows[j])
  }

  ghost function KeySet(rows: seq<DeviceRow>): set<string>
  {
    set i | 0 <= i < |rows| :: Key(rows[i])
  }

  ghost function NameSet(rows: seq<DeviceRow>): set<string>
  {
    set i | 0 <= i < |rows| :: rows[i].info.name
  }

  /** `old_devices` strictly increasing by name: sorted, and no name twice. */
  ghost predicate NamesIncreasing(rows: seq<DeviceRow>)
  {
    forall i, j :: 0 <= i < j < |rows| ==> LexLt(rows[i].info.name, rows[j].info.name)
  }

  /** `ssdp_dict` holds exactly the keys of `ssdp_devices`, each with its row's type. */
  ghost predicate SsdpIndexed(reg: Registry)
  {
    reg.ssdpDict.Keys == KeySet(reg.ssdpDevices)
    && forall i :: 0 <= i < |reg.ssdpDevices| ==>
         reg.ssdpDict[Key(reg.ssdpDevices[i])] == reg.ssdpDevices[i].info.deviceType
  }

  /** What every registry reachable from the empty one satisfies. */
  ghost predicate Inv(reg: Registry)
  {
    SsdpOrdered(reg.ssdpDevices) && SsdpDistinct(reg.ssdpDevices) && SsdpIndexed(reg)
    && reg.legacyDict.Keys == NameSet(reg.oldDevices)
  }

  // ---------------------------------------------------------------------------
  // Counting helpers

  /** Distinct keys: the keys of rows `lo..m` are `m - lo` strings. */
  lemma {:induction false} KeyImageCard(rows: seq<DeviceRow>, lo: nat, m: nat)
    requires lo <= m <= |rows| && SsdpDistinct(rows)
    ensures |set i | lo <= i < m :: Key(rows[i])| == m - lo
    decreases m
  {
    if m > lo {
      KeyImageCard(rows, lo, m - 1);
      var prev := set i | lo <= i < m - 1 :: Key(rows[i]);
      var all := set i | lo <= i < m :: Key(rows[i]);
      assert all == prev + {Key(rows[m - 1])};
      assert Key(rows[m - 1]) !in prev;
    }
  }

  /** With strictly increasing names, the names of rows `0..m` are `m` strings. */
  lemma {:induction false} NameImageCard(rows: seq<DeviceRow>, m: nat)
    requires m <= |rows| && NamesIncreasing(rows)
    ensures |set i | 0 <= i < m :: rows[i].info.name| == m
    decreases m
  {
    if m > 0 {
      NameImageCard(rows, m - 1);
      var prev := set i | 0 <= i < m - 1 :: rows[i].info.name;
      assert (set i | 0 <= i < m :: rows[i].info.name) == prev + {rows[m - 1].info.name};
      assert rows[m - 1].info.name !in prev;
    }
  }

  /** The number of leading OUR rows. */
  function OurCount(rows: seq<DeviceRow>): (p: nat)
    ensures p <= |rows|
  {
    if |rows| == 0 || !OurRow(rows[0]) then 0 else 1 + OurCount(rows[1..])
  }

  /** In ordered rows, a row is OUR exactly when it lies before `OurCount`. */
  lemma {:induction false} OurCountSplits(rows: seq<DeviceRow>)
    requires SsdpOrdered(rows)
    ensures forall i :: 0 <= i < |rows| ==> (OurRow(rows[i]) <==> i < OurCount(rows))
    decreases |rows|
  {
    if |rows| > 0 {
      if OurRow(rows[0]) {
        var tail := rows[1..];
        assert SsdpOrdered(tail) by {
          forall i, j | 0 <= i < j < |tail| ensures tail[i] == rows[i + 1] && tail[j] == rows[j + 1] { }
        }
        OurCountSplits(tail);
        forall i | 0 < i < |rows| ensures OurRow(rows[i]) <==> i < OurCount(rows)
        {
          assert rows[i] == tail[i - 1];
        }
      }
    }
  }

  /** The first index in `lo..hi` whose key sorts above `device`, or `hi`. */
  function BlockEnd(rows: seq<DeviceRow>, lo: nat, hi: nat, device: string): (m: nat)
    requires lo <= hi <= |rows|
    ensures lo <= m <= hi
    decreases hi - lo
  {
    if lo == hi || !KeyLe(Key(rows[lo]), device) then lo else BlockEnd(rows, lo + 1, hi, device)
  }

  /** Within one ordered block, the rows whose key sorts at most `device` are those before `BlockEnd`. */
  lemma {:induction false} BlockEndSplits(rows: seq<DeviceRow>, lo: nat, hi: nat, device: string, our: bool)
    requires lo <= hi <= |rows| && SsdpOrdered(rows)
    requires forall i :: lo <= i < hi ==> OurRow(rows[i]) == our
    ensures forall i :: lo <= i < hi ==> (KeyLe(Key(rows[i]), device) <==> i < BlockEnd(rows, lo, hi, device))
    decreases hi - lo
  {
    var m := BlockEnd(rows, lo, hi, device);
    if lo < hi {
      if KeyLe(Key(rows[lo]), device) {
        BlockEndSplits(rows, lo + 1, hi, device, our);
      } else {
        forall i | lo < i < hi ensures !KeyLe(Key(rows[i]), device)
        {
          if KeyLe(Key(rows[i]), device) {
            LexLeTrans(Upper(Key(rows[lo])), Upper(Key(rows[i])), Upper(device));
          }
        }
      }
    }
  }

  /** The keys of one block that sort at most `device` are the keys of the rows `lo..m`. */
  lemma BlockKeys(reg: Registry, our: bool, device: string, lo: nat, hi: nat, m: nat)
    requires Inv(reg)
    requires lo <= m <= hi <= |reg.ssdpDevices|
    requires forall i :: 0 <= i < |reg.ssdpDevices| ==> (OurRow(reg.ssdpDevices[i]) == our <==> lo <= i < hi)
    requires forall i :: lo <= i < hi ==> (KeyLe(Key(reg.ssdpDevices[i]), device) <==> i < m)
    ensures (set k | k in reg.ssdpDict && IsOur(reg.ssdpDict[k]) == our && KeyLe(k, device)) ==
            (set i | lo <= i < m :: Key(reg.ssdpDevices[i]))
  {
    var rows := reg.ssdpDevices;
    var s := set k | k in reg.ssdpDict && IsOur(reg.ssdpDict[k]) == our && KeyLe(k, device);
    var t := set i | lo <= i < m :: Key(rows[i]);
    forall k | k in s ensures k in t
    {
      assert k in KeySet(rows);
      var i :| 0 <= i < |rows| && Key(rows[i]) == k;
      assert reg.ssdpDict[Key(rows[i])] == rows[i].info.deviceType;
    }
    forall k | k in t ensures k in s
    {
      var i :| lo <= i < m && Key(rows[i]) == k;
      assert Key(rows[i]) in KeySet(rows);
      assert reg.ssdpDict[Key(rows[i])] == rows[i].info.deviceType;
    }
  }

  /** The OUR entries of `ssdp_dict` are exactly the keys of the leading OUR rows. */
  lemma OurBlockSize(reg: Registry)
    requires Inv(reg)
    ensures |Block(reg.ssdpDict, true)| == OurCount(reg.ssdpDevices)
  {
    var rows := reg.ssdpDevices;
    var p := OurCount(rows);
    OurCountSplits(rows);
    var t := set i | 0 <= i < p :: Key(rows[i]);
    var b := Block(reg.ssdpDict, true);
    forall k | k in b.Keys ensures k in t
    {
      assert k in KeySet(rows);
      var i :| 0 <= i < |rows| && Key(rows[i]) == k;
      assert reg.ssdpDict[Key(rows[i])] == rows[i].info.deviceType;
    }
    forall k | k in t ensures k in b.Keys
    {
      var i :| 0 <= i < p && Key(rows[i]) == k;
      assert Key(rows[i]) in KeySet(rows);
      assert reg.ssdpDict[Key(rows[i])] == rows[i].info.deviceType;
    }
    assert b.Keys == t;
    KeyImageCard(rows, 0, p);
  }

  /**
    Under the invariant the row returned for a new key is one past the last
    row of its block whose key sorts at most the new one: the position that
    keeps the block ordered and puts the newcomer after its ties.
   */
  lemma SsdpRankIsBlockEnd(reg: Registry, device: string, t: Option<DeviceType>)
    requires Inv(reg) && device !in reg.ssdpDict
    ensures var rows := reg.ssdpDevices;
            var p := OurCount(rows);
            SsdpRank(reg.ssdpDict, device, t) - 1 ==
              if IsOur(t) then BlockEnd(rows, 0, p, device) else BlockEnd(rows, p, |rows|, device)
  {
    var rows := reg.ssdpDevices;
    var p := OurCount(rows);
    OurCountSplits(rows);
    if IsOur(t) {
      BlockRank(reg, device, t, 0, p);
    } else {
      BlockRank(reg, device, t, p, |rows|);
      OurBlockSize(reg);
    }
  }

  /** Within the block `lo..hi` of the new key's type, its sorted index counts the rows before the block end. */
  lemma BlockRank(reg: Registry, device: string, t: Option<DeviceType>, lo: nat, hi: nat)
    requires Inv(reg) && device !in reg.ssdpDict
    requires lo <= hi <= |reg.ssdpDevices|
    requires forall i :: 0 <= i < |reg.ssdpDevices| ==> (OurRow(reg.ssdpDevices[i]) == IsOur(t) <==> lo <= i < hi)
    ensures SortedIndex(Block(reg.ssdpDict, IsOur(t))[device := t].Keys, device) == BlockEnd(reg.ssdpDevices, lo, hi, device) - lo
  {
    var rows := reg.ssdpDevices;
    var our := IsOur(t);
    BlockEndSplits(rows, lo, hi, device, our);
    var m := BlockEnd(rows, lo, hi, device);
    BlockKeys(reg, our, device, lo, hi, m);
    KeyImageCard(rows, lo, m);
    BlockBelow(reg.ssdpDict, device, t);
  }

  /** The keys of the new key's block that sort no later than it, itself left out. */
  lemma BlockBelow(dict: map<string, Option<DeviceType>>, device: string, t: Option<DeviceType>)
    requires device !in dict
    ensures (set k | k in Block(dict, IsOur(t))[device := t].Keys && k != device && KeyLe(k, device)) ==
            (set k | k in dict && IsOur(dict[k]) == IsOur(t) && KeyLe(k, device))
  {
  }

  /** Inserting a row at a split point of its block keeps the SSDP rows ordered. */
  lemma SsdpInsertOrdered(rows: seq<DeviceRow>, x: DeviceRow, m: nat)
    requires SsdpOrdered(rows) && m <= |rows|
    requires forall i :: 0 <= i < m ==>
      (OurRow(x) ==> OurRow(rows[i])) && (OurRow(rows[i]) == OurRow(x) ==> KeyLe(Key(rows[i]), Key(x)))
    requires forall i :: m <= i < |rows| ==>
      (OurRow(rows[i]) ==> OurRow(x)) && (OurRow(rows[i]) == OurRow(x) ==> KeyLe(Key(x), Key(rows[i])))
    ensures SsdpOrdered(PyInsert(rows, m, x))
  {
    var r := PyInsert(rows, m, x);
    forall i, j | 0 <= i < j < |r|
      ensures (OurRow(r[j]) ==> OurRow(r[i]))
      ensures (OurRow(r[i]) == OurRow(r[j]) ==> KeyLe(Key(r[i]), Key(r[j])))
    {
      var i0 := if i < m then i else i - 1;
      var j0 := if j <= m then j else j - 1;
      if i != m && j != m {
        assert r[i] == rows[i0] && r[j] == rows[j0] && i0 < j0;
      } else if i == m {
        assert r[i] == x && r[j] == rows[j - 1];
      } else {
        assert r[j] == x && r[i] == rows[i];
      }
    }
  }

  /** The keys and names of a list after an insertion are the old ones and the new row's. */
  lemma InsertKeys(rows: seq<DeviceRow>, m: nat, x: DeviceRow)
    requires m <= |rows|
    ensures KeySet(PyInsert(rows, m, x)) == KeySet(rows) + {Key(x)}
    ensures NameSet(PyInsert(rows, m, x)) == NameSet(rows) + {x.info.name}
  {
    var r := PyInsert(rows, m, x);
    forall k | k in KeySet(r) ensures k in KeySet(rows) + {Key(x)}
    {
      var i :| 0 <= i < |r| && Key(r[i]) == k;
      if i < m { assert r[i] == rows[i]; } else if i > m { assert r[i] == rows[i - 1]; }
    }
    forall k | k in KeySet(rows) ensures k in KeySet(r)
    {
      var i :| 0 <= i < |rows| && Key(rows[i]) == k;
      if i < m { assert r[i] == rows[i]; } else { assert r[i + 1] == rows[i]; }
    }
    assert r[m] == x;
    forall k | k in NameSet(r) ensures k in NameSet(rows) + {x.info.name}
    {
      var i :| 0 <= i < |r| && r[i].info.name == k;
      if i < m { assert r[i] == rows[i]; } else if i > m { assert r[i] == rows[i - 1]; }
    }
    forall k | k in NameSet(rows) ensures k in NameSet(r)
    {
      var i :| 0 <= i < |rows| && rows[i].info.name == k;
      if i < m { assert r[i] == rows[i]; } else { assert r[i + 1] == rows[i]; }
    }
  }

  /** A new key inserted anywhere keeps the keys distinct. */
  lemma InsertDistinct(rows: seq<DeviceRow>, m: nat, x: DeviceRow)
    requires m <= |rows| && SsdpDistinct(rows) && Key(x) !in KeySet(rows)
    ensures SsdpDistinct(PyInsert(rows, m, x))
  {
    var r := PyInsert(rows, m, x);
    forall i, j | 0 <= i < j < |r| ensures Key(r[i]) != Key(r[j])
    {
      if i != m && j != m {
        var i0 := if i < m then i else i - 1;
        var j0 := if j < m then j else j - 1;
        assert r[i] == rows[i0] && r[j] == rows[j0];
      } else if i == m {
        assert r[j] == rows[j - 1];
        assert Key(rows[j - 1]) in KeySet(rows);
      } else {
        assert r[i] == rows[i];
        assert Key(rows[i]) in KeySet(rows);
      }
    }
  }

  /** The row an SSDP device is given splits its block as `SsdpInsertOrdered` needs. */
  lemma SsdpInsertPoint(reg: Registry, info: DeviceInfo, r: nat)
    requires Inv(reg) && NameLink(info) !in reg.ssdpDict
    requires r == SsdpRank(reg.ssdpDict, NameLink(info), info.deviceType)
    ensures 1 <= r <= |reg.ssdpDevices| + 1
    ensures forall i :: 0 <= i < r - 1 ==>
      (OurRow(DeviceRow(info, r)) ==> OurRow(reg.ssdpDevices[i]))
      && (OurRow(reg.ssdpDevices[i]) == OurRow(DeviceRow(info, r)) ==> KeyLe(Key(reg.ssdpDevices[i]), NameLink(info)))
    ensures forall i :: r - 1 <= i < |reg.ssdpDevices| ==>
      (OurRow(reg.ssdpDevices[i]) ==> OurRow(DeviceRow(info, r)))
      && (OurRow(reg.ssdpDevices[i]) == OurRow(DeviceRow(info, r)) ==>
            !KeyLe(Key(reg.ssdpDevices[i]), NameLink(info)) && KeyLe(NameLink(info), Key(reg.ssdpDevices[i])))
  {
    var rows := reg.ssdpDevices;
    var device := NameLink(info);
    var t := info.deviceType;
    SsdpRankIsBlockEnd(reg, device, t);
    var p := OurCount(rows);
    OurCountSplits(rows);
    var lo, hi := if IsOur(t) then 0 else p, if IsOur(t) then p else |rows|;
    BlockEndSplits(rows, lo, hi, device, IsOur(t));
    forall i | r - 1 <= i < |rows| && OurRow(rows[i]) == IsOur(t)
      ensures KeyLe(device, Key(rows[i]))
    {
      LexLeTotal(Upper(device), Upper(Key(rows[i])));
    }
  }

  /** `ssdp_dict` updated with the new key still indexes the list with the new row inserted. */
  lemma InsertIndexed(rows: seq<DeviceRow>, m: nat, x: DeviceRow, dict: map<string, Option<DeviceType>>)
    requires m <= |rows| && dict.Keys == KeySet(rows) && Key(x) !in dict
    requires forall i :: 0 <= i < |rows| ==> dict[Key(rows[i])] == rows[i].info.deviceType
    ensures var r := PyInsert(rows, m, x);
            var d := dict[Key(x) := x.info.deviceType];
            d.Keys == KeySet(r) && forall i :: 0 <= i < |r| ==> d[Key(r[i])] == r[i].info.deviceType
  {
    var r := PyInsert(rows, m, x);
    InsertKeys(rows, m, x);
    forall i | 0 <= i < |r|
      ensures dict[Key(x) := x.info.deviceType][Key(r[i])] == r[i].info.deviceType
    {
      if i < m { assert r[i] == rows[i]; } else if i > m { assert r[i] == rows[i - 1]; }
    }
  }

  /** Accepting an SSDP device keeps the invariant. */
  lemma SsdpAddKeepsInv(reg: Registry, info: DeviceInfo)
    requires Inv(reg) && !info.legacy
    ensures Inv(AddDevice(reg, info))
  {
    var st := AddToSsdpDict(reg, info);
    if st.row.Some? {
      var rows := reg.ssdpDevices;
      var r := st.row.value;
      var x := DeviceRow(info, r);
      SsdpInsertPoint(reg, info, r);
      SsdpInsertOrdered(rows, x, r - 1);
      InsertDistinct(rows, r - 1, x);
      InsertIndexed(rows, r - 1, x, reg.ssdpDict);
      assert AddDevice(reg, info).ssdpDevices == PyInsert(rows, r - 1, x);
      assert AddDevice(reg, info).ssdpDict == reg.ssdpDict[Key(x) := x.info.deviceType];
    }
  }

  /** A list has at most as many names as rows. */
  lemma {:induction false} NameSetSize(rows: seq<DeviceRow>)
    ensures |NameSet(rows)| <= |rows|
    decreases |rows|
  {
    if |rows| > 0 {
      var init := rows[..|rows| - 1];
      NameSetSize(init);
      assert NameSet(rows) == NameSet(init) + {rows[|rows| - 1].info.name} by {
        forall k | k in NameSet(rows) ensures k in NameSet(init) + {rows[|rows| - 1].info.name}
        {
          var i :| 0 <= i < |rows| && rows[i].info.name == k;
          if i < |rows| - 1 { assert init[i] == rows[i]; }
        }
        forall k | k in NameSet(init) ensures k in NameSet(rows)
        {
          var i :| 0 <= i < |init| && init[i].info.name == k;
          assert init[i] == rows[i];
        }
      }
    }
  }

  /** Under the invariant the legacy row never lies past the end of `old_devices` plus one. */
  lemma LegacyRowInRange(reg: Registry, info: DeviceInfo)
    requires reg.legacyDict.Keys == NameSet(reg.oldDevices) && info.link !in reg.ipDictWhole
    ensures AddToLegacyDict(reg, info).row.value <= |reg.oldDevices| + 1
  {
    var legacy := reg.legacyDict[info.name := |reg.oldDevices| + |reg.ssdpDevices| + 4];
    var below := set k | k in legacy.Keys && LexLt(k, info.name);
    assert AddToLegacyDict(reg, info).row.value == |below| + 1;
    assert below <= reg.legacyDict.Keys;
    SubsetSize(below, reg.legacyDict.Keys);
    NameSetSize(reg.oldDevices);
  }

  lemma {:induction false} SubsetSize(a: set<string>, b: set<string>)
    requires a <= b
    ensures |a| <= |b|
    decreases |b|
  {
    if a != {} {
      var x :| x in a;
      SubsetSize(a - {x}, b - {x});
    }
  }

  /** Accepting a legacy device keeps the invariant. */
  lemma LegacyAddKeepsInv(reg: Registry, info: DeviceInfo)
    requires Inv(reg) && info.legacy
    ensures Inv(AddDevice(reg, info))
  {
    var st := AddToLegacyDict(reg, info);
    if st.row.Some? {
      var r := st.row.value;
      LegacyRowInRange(reg, info);
      InsertKeys(reg.oldDevices, r - 1, DeviceRow(info, r));
    }
  }

  /** `add_device` keeps the invariant. */
  lemma AddDeviceKeepsInv(reg: Registry, info: DeviceInfo)
    requires Inv(reg)
    ensures Inv(AddDevice(reg, info))
  {
    if info.legacy { LegacyAddKeepsInv(reg, info); } else { SsdpAddKeepsInv(reg, info); }
  }

  // ---------------------------------------------------------------------------
  // What one call does

  /** The registry of a new `RevealerDeviceList` and of `clear_all`. */
  function Empty(): Registry
  {
    Registry([], [], map[], map[], map[])
  }

  lemma EmptyInv()
    ensures Inv(Empty())
  {
  }

  /** The list `after` is `before` or `before` with one new row, numbered by its 1-based position. */
  ghost predicate InsertedOnce(before: seq<DeviceRow>, after: seq<DeviceRow>, info: DeviceInfo)
  {
    after == before
    || exists n :: 0 <= n <= |before| && after == before[..n] + [DeviceRow(info, n + 1)] + before[n..]
  }

  /**
    `add_device` changes one list at most, by one insertion: `ssdp_devices`
    for an SSDP device, `old_devices` for a legacy one. It inserts exactly
    when the helper returns a row; the new row's number is its position.
   */
  lemma AddDeviceInsertsOnce(reg: Registry, info: DeviceInfo)
    requires Inv(reg)
    ensures var after := AddDevice(reg, info);
            if !info.legacy then
              after.oldDevices == reg.oldDevices && InsertedOnce(reg.ssdpDevices, after.ssdpDevices, info)
              && (|after.ssdpDevices| == |reg.ssdpDevices| + 1 <==> AddToSsdpDict(reg, info).row.Some?)
            else
              after.ssdpDevices == reg.ssdpDevices && InsertedOnce(reg.oldDevices, after.oldDevices, info)
              && (|after.oldDevices| == |reg.oldDevices| + 1 <==> AddToLegacyDict(reg, info).row.Some?)
  {
    if !info.legacy {
      SsdpInsertsOnce(reg, info);
    } else {
      LegacyInsertsOnce(reg, info);
    }
  }

  lemma SsdpInsertsOnce(reg: Registry, info: DeviceInfo)
    requires Inv(reg) && !info.legacy
    ensures var after := AddSsdpDevice(reg, info);
            after.oldDevices == reg.oldDevices && InsertedOnce(reg.ssdpDevices, after.ssdpDevices, info)
            && (|after.ssdpDevices| == |reg.ssdpDevices| + 1 <==> AddToSsdpDict(reg, info).row.Some?)
  {
    var st := AddToSsdpDict(reg, info);
    if st.row.Some? {
      var r := st.row.value;
      SsdpInsertPoint(reg, info, r);
      assert AddSsdpDevice(reg, info).ssdpDevices ==
             reg.ssdpDevices[..r - 1] + [DeviceRow(info, r - 1 + 1)] + reg.ssdpDevices[r - 1..];
    }
  }

  lemma LegacyInsertsOnce(reg: Registry, info: DeviceInfo)
    requires reg.legacyDict.Keys == NameSet(reg.oldDevices)
    ensures var after := AddLegacyDevice(reg, info);
            after.ssdpDevices == reg.ssdpDevices && InsertedOnce(reg.oldDevices, after.oldDevices, info)
            && (|after.oldDevices| == |reg.oldDevices| + 1 <==> AddToLegacyDict(reg, info).row.Some?)
  {
    var st := AddToLegacyDict(reg, info);
    if st.row.Some? {
      var r := st.row.value;
      LegacyRowInRange(reg, info);
      assert AddLegacyDevice(reg, info).oldDevices ==
             reg.oldDevices[..r - 1] + [DeviceRow(info, r - 1 + 1)] + reg.oldDevices[r - 1..];
    }
  }

  /**
    An SSDP device whose `ip_address + uuid` was seen before changes nothing;
    otherwise that key is recorded with the device's name, even when the
    `name + link` check then turns the device away.
   */
  lemma SsdpIdentityRecorded(reg: Registry, info: DeviceInfo)
    requires !info.legacy
    ensures SsdpIdentity(info) in reg.ipDictWhole ==> AddDevice(reg, info) == reg
    ensures SsdpIdentity(info) !in reg.ipDictWhole ==>
      AddDevice(reg, info).ipDictWhole == reg.ipDictWhole[SsdpIdentity(info) := info.name]
    ensures AddDevice(reg, info) == reg <==> SsdpIdentity(info) in reg.ipDictWhole
  {
    if SsdpIdentity(info) !in reg.ipDictWhole {
      assert SsdpIdentity(info) in AddDevice(reg, info).ipDictWhole;
    }
  }

  /**
    First writer wins: a device whose `name + link` is already listed leaves
    `ssdp_devices` and `ssdp_dict` as they were.
   */
  lemma SsdpFirstWriterWins(reg: Registry, info: DeviceInfo)
    requires !info.legacy && NameLink(info) in reg.ssdpDict
    ensures AddDevice(reg, info).ssdpDevices == reg.ssdpDevices
    ensures AddDevice(reg, info).ssdpDict == reg.ssdpDict
    ensures AddDevice(reg, info).oldDevices == reg.oldDevices
  {
  }

  /** Adding the same device twice is adding it once. */
  lemma AddDeviceIdempotent(reg: Registry, info: DeviceInfo)
    ensures AddDevice(AddDevice(reg, info), info) == AddDevice(reg, info)
  {
    var after := AddDevice(reg, info);
    if !info.legacy {
      SsdpIdentityRecorded(reg, info);
      assert SsdpIdentity(info) in after.ipDictWhole;
      SsdpIdentityRecorded(after, info);
    } else {
      assert info.link in after.ipDictWhole;
    }
  }

  /**
    The row of an accepted OUR device lies in `1..|our| + 1`, that of any
    other device in `|our| + 1..|our| + |other| + 1`; the device goes after
    every row of its block whose key sorts at most its own, and before the rest.
   */
  lemma SsdpRowRange(reg: Registry, info: DeviceInfo)
    requires Inv(reg) && !info.legacy && AddToSsdpDict(reg, info).row.Some?
    ensures var r := AddToSsdpDict(reg, info).row.value;
            var rows := reg.ssdpDevices;
            var p := OurCount(rows);
            (IsOur(info.deviceType) ==> 1 <= r <= p + 1)
            && (!IsOur(info.deviceType) ==> p + 1 <= r <= |rows| + 1)
            && (forall i :: 0 <= i < |rows| && OurRow(rows[i]) == IsOur(info.deviceType) ==>
                  (KeyLe(Key(rows[i]), NameLink(info)) <==> i < r - 1))
  {
    var rows := reg.ssdpDevices;
    var t := info.deviceType;
    var device := NameLink(info);
    SsdpRankIsBlockEnd(reg, device, t);
    var p := OurCount(rows);
    OurCountSplits(rows);
    var lo, hi := if IsOur(t) then 0 else p, if IsOur(t) then p else |rows|;
    BlockEndSplits(rows, lo, hi, device, IsOur(t));
  }

  /** A legacy device is turned away, changing nothing, exactly when its link is in `ip_dict_whole`. */
  lemma LegacyRejectedIffLinkSeen(reg: Registry, info: DeviceInfo)
    requires info.legacy
    ensures AddDevice(reg, info) == reg <==> info.link in reg.ipDictWhole
  {
    if info.link !in reg.ipDictWhole {
      assert info.link in AddDevice(reg, info).ipDictWhole;
    }
  }

  /**
    While the names in `old_devices` are distinct, the position of a name in
    the sorted `legacy_dict` keys is the number of rows whose name sorts below it.
   */
  lemma LegacyRowIsNamesBelow(reg: Registry, info: DeviceInfo)
    requires reg.legacyDict.Keys == NameSet(reg.oldDevices) && NamesIncreasing(reg.oldDevices)
    requires info.link !in reg.ipDictWhole
    ensures AddToLegacyDict(reg, info).row == Some(NamesBelow(reg.oldDevices, info.name) + 1)
  {
    var rows := reg.oldDevices;
    var name := info.name;
    var c := NamesBelow(rows, name);
    BelowIsPrefix(rows, name);
    var legacy := reg.legacyDict[name := |rows| + |reg.ssdpDevices| + 4];
    NamesBelowSet(rows, legacy.Keys, name);
    NameImageCard(rows, c);
  }

  /** The legacy names below `name` are the names of the first `NamesBelow` rows. */
  lemma NamesBelowSet(rows: seq<DeviceRow>, keys: set<string>, name: string)
    requires keys == NameSet(rows) + {name} && NamesSorted(rows)
    ensures (set k | k in keys && LexLt(k, name)) == set i | 0 <= i < NamesBelow(rows, name) :: rows[i].info.name
  {
    var c := NamesBelow(rows, name);
    BelowIsPrefix(rows, name);
    forall k | k in keys && LexLt(k, name) ensures k in set i | 0 <= i < c :: rows[i].info.name
    {
      assert k in NameSet(rows);
      var i :| 0 <= i < |rows| && rows[i].info.name == k;
    }
  }

  /** Inserting a row at `NamesBelow` of its name keeps rows sorted by name. */
  lemma InsertBelowKeepsSorted(rows: seq<DeviceRow>, x: DeviceRow)
    requires NamesSorted(rows)
    ensures NamesSorted(PyInsert(rows, NamesBelow(rows, x.info.name), x))
  {
    var name := x.info.name;
    var c := NamesBelow(rows, name);
    BelowIsPrefix(rows, name);
    var r := PyInsert(rows, c, x);
    forall i | c <= i < |rows| ensures LexLe(name, rows[i].info.name)
    {
      LexLeTotal(name, rows[i].info.name);
    }
    forall i, j | 0 <= i < j < |r| ensures LexLe(r[i].info.name, r[j].info.name)
    {
      if i < c && j == c {
        assert r[i] == rows[i];
      } else if i == c {
        assert r[j] == rows[j - 1];
      } else if j < c {
        assert r[i] == rows[i] && r[j] == rows[j];
      } else if i < c {
        assert r[i] == rows[i] && r[j] == rows[j - 1];
        LexLeTrans(rows[i].info.name, name, rows[j - 1].info.name);
      } else {
        assert r[i] == rows[i - 1] && r[j] == rows[j - 1];
      }
    }
  }

  /** A name not yet present, inserted at `NamesBelow`, keeps rows strictly increasing. */
  lemma InsertBelowKeepsIncreasing(rows: seq<DeviceRow>, x: DeviceRow)
    requires NamesIncreasing(rows) && x.info.name !in NameSet(rows)
    ensures NamesIncreasing(PyInsert(rows, NamesBelow(rows, x.info.name), x))
  {
    var c := NamesBelow(rows, x.info.name);
    var r := PyInsert(rows, c, x);
    InsertBelowKeepsSorted(rows, x);
    InsertKeys(rows, c, x);
    forall i, j | 0 <= i < j < |r| ensures r[i].info.name != r[j].info.name
    {
      if i != c && j != c {
        var i0 := if i < c then i else i - 1;
        var j0 := if j < c then j else j - 1;
        assert r[i] == rows[i0] && r[j] == rows[j0];
      } else if i == c {
        assert r[j] == rows[j - 1];
        assert rows[j - 1].info.name in NameSet(rows);
      } else {
        assert r[i] == rows[i];
        assert rows[i].info.name in NameSet(rows);
      }
    }
  }

  /**
    While no two legacy devices share a name, `old_devices` stays strictly
    ordered by name (case-sensitively).
   */
  lemma LegacyAddKeepsOrder(reg: Registry, info: DeviceInfo)
    requires Inv(reg) && info.legacy && NamesIncreasing(reg.oldDevices)
    requires info.name !in reg.legacyDict
    ensures NamesIncreasing(AddDevice(reg, info).oldDevices)
  {
    if info.link !in reg.ipDictWhole {
      LegacyRowIsNamesBelow(reg, info);
      var c := NamesBelow(reg.oldDevices, info.name);
      InsertBelowKeepsIncreasing(reg.oldDevices, DeviceRow(info, c + 1));
    }
  }

  /** The number of rows whose name sorts strictly below `name`. */
  function NamesBelow(rows: seq<DeviceRow>, name: string): (c: nat)
    ensures c <= |rows|
  {
    if |rows| == 0 then 0
    else (if LexLt(rows[0].info.name, name) then 1 else 0) + NamesBelow(rows[1..], name)
  }

  /** `old_devices` ordered by name, ties allowed. */
  ghost predicate NamesSorted(rows: seq<DeviceRow>)
  {
    forall i, j :: 0 <= i < j < |rows| ==> LexLe(rows[i].info.name, rows[j].info.name)
  }

  /** In rows sorted by name, those below `name` are the first `NamesBelow`. */
  lemma {:induction false} BelowIsPrefix(rows: seq<DeviceRow>, name: string)
    requires NamesSorted(rows)
    ensures forall i :: 0 <= i < |rows| ==> (LexLt(rows[i].info.name, name) <==> i < NamesBelow(rows, name))
    decreases |rows|
  {
    if |rows| > 0 {
      var tail := rows[1..];
      assert NamesSorted(tail) by {
        forall i, j | 0 <= i < j < |tail| ensures tail[i] == rows[i + 1] && tail[j] == rows[j + 1] { }
      }
      BelowIsPrefix(tail, name);
      if !LexLt(rows[0].info.name, name) {
        forall i | 0 < i < |rows| ensures !LexLt(rows[i].info.name, name)
        {
          assert rows[i] == tail[i - 1];
          if LexLt(rows[i].info.name, name) {
            LexLeTrans(rows[0].info.name, rows[i].info.name, name);
            if rows[0].info.name == name {
              LexLeAntisym(rows[0].info.name, rows[i].info.name);
            }
          }
        }
      } else {
        forall i | 0 < i < |rows| ensures LexLt(rows[i].info.name, name) <==> i < NamesBelow(rows, name)
        {
          assert rows[i] == tail[i - 1];
        }
      }
    }
  }

  // ---------------------------------------------------------------------------
  // Legacy devices sharing a name

  /**
    A legacy device as `add_row_old_item` hands it over: no type, no
    description, no uuid, and the name doubles as the address.
   */
  function LegacyInfo(name: string, link: string, tag: string): DeviceInfo
  {
    DeviceInfo(name, None, None, link, name, None, tag, true, false)
  }

  /**
    `legacy_dict` is keyed by name while duplicates are detected by link, so
    two legacy devices named "A" at different links are both listed, and a
    third named "B" is then put between them: `old_devices` reads A, B, A.
   */
  lemma LegacySharedNameUnsorted()
    ensures var r1 := AddDevice(Empty(), LegacyInfo("A", "l1", TagOldLocal));
            var r2 := AddDevice(r1, LegacyInfo("A", "l2", TagOldLocal));
            var r3 := AddDevice(r2, LegacyInfo("B", "l3", TagOldLocal));
            |r3.oldDevices| == 3 && !NamesSorted(r3.oldDevices)
  {
    SharedNameFirst();
    SharedNameSecond();
    SharedNameThird();
    var r3 := [DeviceRow(LegacyInfo("A", "l2", TagOldLocal), 1), DeviceRow(LegacyInfo("B", "l3", TagOldLocal), 2),
               DeviceRow(LegacyInfo("A", "l1", TagOldLocal), 1)];
    assert !LexLe(r3[1].info.name, r3[2].info.name);
  }

  /** The first legacy device "A" at link l1 goes to row 1. */
  lemma SharedNameFirst()
    ensures AddDevice(Empty(), LegacyInfo("A", "l1", TagOldLocal)) ==
            Registry([], [DeviceRow(LegacyInfo("A", "l1", TagOldLocal), 1)], map[], map["A" := 4], map["l1" := "A"])
  {
    assert (set k | k in {"A"} && LexLt(k, "A")) == {};
  }

  /** A second "A", at link l2, is accepted and also gets row 1: it goes first. */
  lemma SharedNameSecond()
    ensures AddDevice(Registry([], [DeviceRow(LegacyInfo("A", "l1", TagOldLocal), 1)], map[], map["A" := 4], map["l1" := "A"]),
                      LegacyInfo("A", "l2", TagOldLocal)) ==
            Registry([], [DeviceRow(LegacyInfo("A", "l2", TagOldLocal), 1), DeviceRow(LegacyInfo("A", "l1", TagOldLocal), 1)],
                     map[], map["A" := 5], map["l1" := "A", "l2" := "A"])
  {
    assert "l2" != "l1";
    assert map["A" := 4]["A" := 5] == map["A" := 5];
    assert (set k | k in {"A"} && LexLt(k, "A")) == {};
  }

  /** "B" ranks second among the two distinct names and lands between the two "A" rows. */
  lemma SharedNameThird()
    ensures AddDevice(Registry([], [DeviceRow(LegacyInfo("A", "l2", TagOldLocal), 1), DeviceRow(LegacyInfo("A", "l1", TagOldLocal), 1)],
                               map[], map["A" := 5], map["l1" := "A", "l2" := "A"]),
                      LegacyInfo("B", "l3", TagOldLocal)).oldDevices ==
            [DeviceRow(LegacyInfo("A", "l2", TagOldLocal), 1), DeviceRow(LegacyInfo("B", "l3", TagOldLocal), 2),
             DeviceRow(LegacyInfo("A", "l1", TagOldLocal), 1)]
  {
    assert "l3" != "l1" && "l3" != "l2";
    assert LexLt("A", "B") && !LexLt("B", "B");
    var legacy := map["A" := 5]["B" := 6];
    assert legacy.Keys == {"A", "B"};
    assert (set k | k in legacy.Keys && LexLt(k, "B")) == {"A"};
  }

  /**
    The intended legacy placement: the row after every listed device whose
    name sorts below the new one, counted over `old_devices` itself.
   */
  function CorrectedAddToLegacyDict(reg: Registry, info: DeviceInfo): (st: Step)
    ensures st.reg.ssdpDevices == reg.ssdpDevices && st.reg.oldDevices == reg.oldDevices
    ensures st.row.Some? ==> 1 <= st.row.value <= |reg.oldDevices| + 1
  {
    if info.link in reg.ipDictWhole then Step(reg, None)
    else
      var legacy := reg.legacyDict[info.name := |reg.oldDevices| + |reg.ssdpDevices| + 4];
      Step(reg.(ipDictWhole := reg.ipDictWhole[info.link := info.name], legacyDict := legacy),
           Some(NamesBelow(reg.oldDevices, info.name) + 1))
  }

  /** `add_device` for a legacy device with the intended placement. */
  function CorrectedAddLegacy(reg: Registry, info: DeviceInfo): Registry
  {
    var st := CorrectedAddToLegacyDict(reg, info);
    match st.row
    case None => st.reg
    case Some(r) => st.reg.(oldDevices := PyInsert(st.reg.oldDevices, r - 1, DeviceRow(info, r)))
  }

  /** With the intended placement `old_devices` stays sorted by name, shared names or not. */
  lemma CorrectedLegacyKeepsSorted(reg: Registry, info: DeviceInfo)
    requires NamesSorted(reg.oldDevices)
    ensures NamesSorted(CorrectedAddLegacy(reg, info).oldDevices)
  {
    var st := CorrectedAddToLegacyDict(reg, info);
    if st.row.Some? {
      InsertBelowKeepsSorted(reg.oldDevices, DeviceRow(info, st.row.value));
    }
  }

  /** Where names are distinct the intended placement is the one `add_device_to_legacy_dict` computes. */
  lemma CorrectedAgreesOnDistinctNames(reg: Registry, info: DeviceInfo)
    requires reg.legacyDict.Keys == NameSet(reg.oldDevices) && NamesIncreasing(reg.oldDevices)
    ensures CorrectedAddToLegacyDict(reg, info) == AddToLegacyDict(reg, info)
  {
    if info.link !in reg.ipDictWhole {
      LegacyRowIsNamesBelow(reg, info);
    }
  }
}
