/** The configuration records of src/seg2map/common.py: the saved config dict, the
    per-ROI settings and the sitename check over them. */
module CommonConfig {
  import opened Outcomes
  import opened Json
  import opened Text

  // ---------------------------------------------------------------------------
  // create_json_config

  function StrList(ss: seq<string>): (js: seq<Json>)
    ensures |js| == |ss| && forall i :: 0 <= i < |ss| ==> js[i] == Str(ss[i])
  {
    if ss == [] then [] else [Str(ss[0])] + StrList(ss[1..])
  }

  /** `create_json_config(input_settings, settings)`: a copy of `input_settings` with
      "roi_ids" set to the list of its keys and then "settings" set to `settings`. */
  function CreateJsonConfig(inputSettings: seq<Field>, settings: seq<Field>): (config: seq<Field>)
    ensures Get(config, "settings") == Some(Obj(settings))
    ensures Get(config, "roi_ids") == Some(Arr(StrList(Keys(inputSettings))))
  {
    var ids := Arr(StrList(Keys(inputSettings)));
    var withIds := Put(inputSettings, "roi_ids", ids);
    PutGet(withIds, "settings", Obj(settings), "settings");
    PutGet(withIds, "settings", Obj(settings), "roi_ids");
    PutGet(inputSettings, "roi_ids", ids, "roi_ids");
    Put(withIds, "settings", Obj(settings))
  }

  /** "roi_ids" lists the input's keys in order, "settings" holds `settings`, every other
      key keeps its input value, and a key the input lacks is absent. */
  lemma CreateJsonConfigGet(inputSettings: seq<Field>, settings: seq<Field>, k: string)
    ensures Get(CreateJsonConfig(inputSettings, settings), k) ==
      if k == "settings" then Some(Obj(settings))
      else if k == "roi_ids" then Some(Arr(StrList(Keys(inputSettings))))
      else Get(inputSettings, k)
  {
    var config := Put(inputSettings, "roi_ids", Arr(StrList(Keys(inputSettings))));
    PutGet(config, "settings", Obj(settings), k);
    PutGet(inputSettings, "roi_ids", Arr(StrList(Keys(inputSettings))), k);
  }

  /** The config keeps the input's key order and appends "roi_ids" and "settings" when the
      input does not already hold them; it never holds a key twice. */
  lemma CreateJsonConfigKeys(inputSettings: seq<Field>, settings: seq<Field>)
    requires DistinctKeys(inputSettings)
    ensures Keys(CreateJsonConfig(inputSettings, settings)) ==
      Keys(inputSettings)
      + (if "roi_ids" in Keys(inputSettings) then [] else ["roi_ids"])
      + (if "settings" in Keys(inputSettings) then [] else ["settings"])
    ensures DistinctKeys(CreateJsonConfig(inputSettings, settings))
  {
    var ids := Arr(StrList(Keys(inputSettings)));
    assert CreateJsonConfig(inputSettings, settings) == Put(Put(inputSettings, "roi_ids", ids), "settings", Obj(settings));
    assert "roi_ids"[0] != "settings"[0];
    PutTwiceKeys(inputSettings, "roi_ids", ids, "settings", Obj(settings));
    PutDistinct(inputSettings, "roi_ids", ids);
    PutDistinct(Put(inputSettings, "roi_ids", ids), "settings", Obj(settings));
  }

  // ---------------------------------------------------------------------------
  // create_roi_settings

  /** Python's subscript `x[i]` for a non-negative int `i` on a settings value: lists and
      strings are indexed, a dict is looked up with the int key (which a dict with string
      keys never holds), and the scalar types are not subscriptable. */
  function Index(x: Json, i: nat): (r: Result<Json>)
    ensures x.Arr? ==> (r.Success? <==> i < |x.items|) && (r.Success? ==> r.value == x.items[i])
    ensures x.Str? ==> (r.Success? <==> i < |x.s|) && (r.Success? ==> r.value == Str([x.s[i]]))
    ensures (x.Arr? || x.Str?) && r.Failure? ==> r.error == IndexError
    ensures x.Obj? ==> r == Failure(KeyError(NatToString(i)))
    ensures (x.Null? || x.Bool? || x.Num?) ==> r == Failure(TypeError)
  {
    match x
    case Arr(items) => if i < |items| then Success(items[i]) else Failure(IndexError)
    case Str(s) => if i < |s| then Success(Str([s[i]])) else Failure(IndexError)
    case Obj(_) => Failure(KeyError(NatToString(i)))
    case _ => Failure(TypeError)
  }

  /** Python's `str(n)` for any int. */
  function IntToString(n: int): (s: string)
    ensures n >= 0 ==> AllDigits(s) && DecimalValue(s) == n
    ensures n < 0 ==> |s| >= 2 && s[0] == '-' && AllDigits(s[1..]) && DecimalValue(s[1..]) == -n
  {
    if n < 0 then
      DecimalRoundTrip(-n);
      assert ("-" + NatToString(-n))[1..] == NatToString(-n);
      "-" + NatToString(-n)
    else
      DecimalRoundTrip(n);
      NatToString(n)
  }

  /** How an f-string renders a settings value: a string as itself, numbers and the
      constants as `str` gives them; the rendering of a nested list or dict is `reprOf`. */
  function Format(x: Json, reprOf: Json -> string): string {
    match x
    case Str(s) => s
    case Num(n) => IntToString(n)
    case Bool(b) => if b then "True" else "False"
    case Null => "None"
    case _ => reprOf(x)
  }

  /** The two rendered dates `{dates[0]}` and `{dates[1]}`, evaluated in that order. */
  function DateStrings(dates: Json, reprOf: Json -> string): (r: Result<(string, string)>)
    ensures r.Success? <==> Index(dates, 0).Success? && Index(dates, 1).Success?
    ensures r.Failure? ==> r.error == if Index(dates, 0).Failure? then Index(dates, 0).error else Index(dates, 1).error
    ensures r.Success? ==> r.value == (Format(Index(dates, 0).value, reprOf), Format(Index(dates, 1).value, reprOf))
  {
    match Index(dates, 0)
    case Failure(e) => Failure(e)
    case Success(d0) =>
      match Index(dates, 1)
      case Failure(e) => Failure(e)
      case Success(d1) => Success((Format(d0, reprOf), Format(d1, reprOf)))
  }

  /** `f"ID_{roi_id}_dates_{dates[0]}_to_{dates[1]}"`. */
  function RoiName(roiId: string, d0: string, d1: string): string {
    "ID_" + roiId + "_dates_" + d0 + "_to_" + d1
  }

  /** The id can be read back from an ROI name when it does not contain '_'. */
  lemma RoiNameId(roiId: string, d0: string, d1: string)
    requires '_' !in roiId
    ensures |RoiName(roiId, d0, d1)| >= 3
    ensures BeforeFirst(RoiName(roiId, d0, d1)[3..], '_') == roiId
  {
    var rest := "dates_" + d0 + "_to_" + d1;
    assert RoiName(roiId, d0, d1)[3..] == roiId + ['_'] + rest;
    BeforeFirstSeparator(roiId, '_', rest);
  }

  /** The settings dict of one ROI, its keys in the order the source writes them. */
  function RoiEntry(roiId: string, dates: Json, roiName: string, sitename: Json, filepath: string): seq<Field> {
    [ Field("dates", dates), Field("roi_id", Str(roiId)), Field("roi_name", Str(roiName)),
      Field("sitename", sitename), Field("filepath", Str(filepath)) ]
  }

  /** An ROI entry has exactly the five keys, in the order the source writes them. */
  lemma RoiEntryKeys(roiId: string, dates: Json, roiName: string, sitename: Json, filepath: string)
    ensures Keys(RoiEntry(roiId, dates, roiName, sitename, filepath)) == ["dates", "roi_id", "roi_name", "sitename", "filepath"]
  {
  }

  /** No key of an ROI entry occurs twice. */
  lemma RoiEntryDistinct(roiId: string, dates: Json, roiName: string, sitename: Json, filepath: string)
    ensures DistinctKeys(RoiEntry(roiId, dates, roiName, sitename, filepath))
  {
    var e := RoiEntry(roiId, dates, roiName, sitename, filepath);
    forall i, j | 0 <= i < j < |e| ensures e[i].key != e[j].key {
      // the five keys differ in their length or in their first letter
      assert |e[i].key| != |e[j].key| || e[i].key[0] != e[j].key[0];
    }
  }

  /** An ROI entry reads back what it was built from. */
  lemma RoiEntryFields(roiId: string, dates: Json, roiName: string, sitename: Json, filepath: string)
    ensures var e := RoiEntry(roiId, dates, roiName, sitename, filepath);
      && Get(e, "dates") == Some(dates)
      && Get(e, "roi_id") == Some(Str(roiId))
      && Get(e, "roi_name") == Some(Str(roiName))
      && Get(e, "sitename") == Some(sitename)
      && Get(e, "filepath") == Some(Str(filepath))
  {
    var e := RoiEntry(roiId, dates, roiName, sitename, filepath);
    RoiEntryDistinct(roiId, dates, roiName, sitename, filepath);
    GetAt(e, 0);
    GetAt(e, 1);
    GetAt(e, 2);
    GetAt(e, 3);
    GetAt(e, 4);
  }

  /** The settings of every selected ROI, keyed by its id. */
  function RoiSettingsMap(selectedIds: set<string>, dates: Json, d0: string, d1: string,
                          sitename: Json, filepath: string): map<string, seq<Field>> {
    map roiId | roiId in selectedIds :: RoiEntry(roiId, dates, RoiName(roiId, d0, d1), sitename, filepath)
  }

  /** The map has the selected ids as its keys, and the entry of each reads back its own id,
      its name and the shared values. */
  lemma RoiSettingsMapContents(selectedIds: set<string>, dates: Json, d0: string, d1: string,
                               sitename: Json, filepath: string, roiId: string)
    ensures RoiSettingsMap(selectedIds, dates, d0, d1, sitename, filepath).Keys == selectedIds
    ensures roiId in selectedIds ==>
      var e := RoiSettingsMap(selectedIds, dates, d0, d1, sitename, filepath)[roiId];
      && Get(e, "roi_id") == Some(Str(roiId))
      && Get(e, "roi_name") == Some(Str(RoiName(roiId, d0, d1)))
      && Get(e, "dates") == Some(dates)
      && Get(e, "sitename") == Some(sitename)
      && Get(e, "filepath") == Some(Str(filepath))
  {
    if roiId in selectedIds {
      RoiEntryFields(roiId, dates, RoiName(roiId, d0, d1), sitename, filepath);
    }
  }

  /** What `create_roi_settings(settings, selected_ids, filepath)` returns or raises:
      `settings["sitename"]` and then `settings["dates"]` are looked up first; the dates are
      indexed only inside the loop, so they are never read when no id is selected. */
  function CreateRoiSettingsSpec(settings: seq<Field>, selectedIds: set<string>, filepath: string,
                                 reprOf: Json -> string): Result<map<string, seq<Field>>> {
    match Get(settings, "sitename")
    case None => Failure(KeyError("sitename"))
    case Some(sitename) =>
      match Get(settings, "dates")
      case None => Failure(KeyError("dates"))
      case Some(dates) =>
        if selectedIds == {} then Success(map[])
        else
          match DateStrings(dates, reprOf)
          case Failure(e) => Failure(e)
          case Success(ds) => Success(RoiSettingsMap(selectedIds, dates, ds.0, ds.1, sitename, filepath))
  }

  /** The result has the selected ids as its keys, and each entry carries its own id, the
      shared dates, sitename and filepath, and the name "ID_<id>_dates_<d0>_to_<d1>" built
      from the two rendered dates. */
  lemma CreateRoiSettingsContents(settings: seq<Field>, selectedIds: set<string>, filepath: string,
                                  reprOf: Json -> string, roiId: string)
    requires CreateRoiSettingsSpec(settings, selectedIds, filepath, reprOf).Success?
    ensures CreateRoiSettingsSpec(settings, selectedIds, filepath, reprOf).value.Keys == selectedIds
    ensures var m := CreateRoiSettingsSpec(settings, selectedIds, filepath, reprOf).value;
      roiId in m ==>
        var ds := DateStrings(Get(settings, "dates").value, reprOf).value;
        && Get(m[roiId], "roi_id") == Some(Str(roiId))
        && Get(m[roiId], "roi_name") == Some(Str(RoiName(roiId, ds.0, ds.1)))
        && Get(m[roiId], "dates") == Get(settings, "dates")
        && Get(m[roiId], "sitename") == Get(settings, "sitename")
        && Get(m[roiId], "filepath") == Some(Str(filepath))
  {
    if selectedIds != {} {
      var ds := DateStrings(Get(settings, "dates").value, reprOf).value;
      RoiSettingsMapContents(selectedIds, Get(settings, "dates").value, ds.0, ds.1,
                             Get(settings, "sitename").value, filepath, roiId);
    }
  }

  /** Adding one id to the selection adds its entry. */
  lemma RoiSettingsMapAdd(ids: set<string>, roiId: string, dates: Json, d0: string, d1: string,
                          sitename: Json, filepath: string)
    ensures RoiSettingsMap(ids + {roiId}, dates, d0, d1, sitename, filepath)
         == RoiSettingsMap(ids, dates, d0, d1, sitename, filepath)[roiId := RoiEntry(roiId, dates, RoiName(roiId, d0, d1), sitename, filepath)]
  {
  }

  /** `create_roi_settings`: fills `roi_settings` one selected id at a time; `list(selected_ids)`
      visits the set in an order of its own, which a map does not record. */
  method CreateRoiSettings(settings: seq<Field>, selectedIds: set<string>, filepath: string,
                           reprOf: Json -> string) returns (r: Result<map<string, seq<Field>>>)
    ensures r == CreateRoiSettingsSpec(settings, selectedIds, filepath, reprOf)
  {
    var sitenameValue := Get(settings, "sitename");
    if sitenameValue.None? {
      return Failure(KeyError("sitename"));
    }
    var datesValue := Get(settings, "dates");
    if datesValue.None? {
      return Failure(KeyError("dates"));
    }
    var sitename, dates := sitenameValue.value, datesValue.value;
    ghost var rendered := DateStrings(dates, reprOf);
    var roiSettings: map<string, seq<Field>> := map[];
    var remaining := selectedIds;
    while remaining != {}
      invariant remaining <= selectedIds
      invariant remaining != selectedIds ==> rendered.Success?
      invariant rendered.Success? ==>
        roiSettings == RoiSettingsMap(selectedIds - remaining, dates, rendered.value.0, rendered.value.1, sitename, filepath)
      invariant rendered.Failure? ==> roiSettings == map[]
      decreases |remaining|
    {
      var roiId :| roiId in remaining;
      var ds := DateStrings(dates, reprOf);
      if ds.Failure? {
        return Failure(ds.error);
      }
      var roiName := RoiName(roiId, ds.value.0, ds.value.1);
      RoiSettingsMapAdd(selectedIds - remaining, roiId, dates, ds.value.0, ds.value.1, sitename, filepath);
      assert selectedIds - (remaining - {roiId}) == (selectedIds - remaining) + {roiId};
      roiSettings := roiSettings[roiId := RoiEntry(roiId, dates, roiName, sitename, filepath)];
      remaining := remaining - {roiId};
    }
    if selectedIds == {} {
      return Success(map[]);
    }
    assert selectedIds - remaining == selectedIds;
    return Success(roiSettings);
  }

  // ---------------------------------------------------------------------------
  // do_rois_have_sitenames

  /** What `do_rois_have_sitenames(roi_settings, roi_ids)` returns or raises: the ids are
      checked in order, a missing id or a missing "sitename" raises KeyError, and the first
      sitename equal to "" answers False. */
  function SitenameCheck(roiSettings: map<string, seq<Field>>, roiIds: seq<string>): Result<bool> {
    if roiIds == [] then Success(true)
    else if roiIds[0] !in roiSettings then Failure(KeyError(roiIds[0]))
    else
      match Get(roiSettings[roiIds[0]], "sitename")
      case None => Failure(KeyError("sitename"))
      case Some(sitename) =>
        if sitename == Str("") then Success(false)
        else SitenameCheck(roiSettings, roiIds[1..])
  }

  /** Every listed id has an entry with a "sitename". */
  predicate AllHaveSitenames(roiSettings: map<string, seq<Field>>, roiIds: seq<string>) {
    forall i :: 0 <= i < |roiIds| ==> roiIds[i] in roiSettings && "sitename" in Keys(roiSettings[roiIds[i]])
  }

  predicate BlankAt(roiSettings: map<string, seq<Field>>, roiIds: seq<string>, i: int)
    requires 0 <= i < |roiIds| && roiIds[i] in roiSettings
  {
    Get(roiSettings[roiIds[i]], "sitename") == Some(Str(""))
  }

  /** When every id has a sitename, the check answers whether none of them is "". */
  lemma {:induction false} SitenameCheckAnswers(roiSettings: map<string, seq<Field>>, roiIds: seq<string>)
    requires AllHaveSitenames(roiSettings, roiIds)
    ensures SitenameCheck(roiSettings, roiIds) == Success(forall i :: 0 <= i < |roiIds| ==> !BlankAt(roiSettings, roiIds, i))
  {
    if roiIds != [] {
      var rest := roiIds[1..];
      assert AllHaveSitenames(roiSettings, rest) by {
        forall i | 0 <= i < |rest| ensures rest[i] == roiIds[i + 1] { }
      }
      SitenameCheckAnswers(roiSettings, rest);
      if !BlankAt(roiSettings, roiIds, 0) {
        if forall i :: 0 <= i < |rest| ==> !BlankAt(roiSettings, rest, i) {
          forall i | 0 < i < |roiIds| ensures !BlankAt(roiSettings, roiIds, i) {
            assert rest[i - 1] == roiIds[i];
            assert !BlankAt(roiSettings, rest, i - 1);
          }
        } else {
          var i :| 0 <= i < |rest| && BlankAt(roiSettings, rest, i);
          assert rest[i] == roiIds[i + 1];
          assert BlankAt(roiSettings, roiIds, i + 1);
        }
      }
    }
  }

  /** The id has an entry with a sitename other than "": the loop moves past it. */
  predicate Passes(roiSettings: map<string, seq<Field>>, roiId: string) {
    && roiId in roiSettings
    && Get(roiSettings[roiId], "sitename").Some?
    && Get(roiSettings[roiId], "sitename") != Some(Str(""))
  }

  /** The id has no entry, or its entry has no sitename: looking it up raises. */
  predicate Unreadable(roiSettings: map<string, seq<Field>>, roiId: string) {
    roiId !in roiSettings || Get(roiSettings[roiId], "sitename").None?
  }

  /** The KeyError a lookup of an unreadable id raises: the missing id, or "sitename". */
  function LookupError(roiSettings: map<string, seq<Field>>, roiId: string): Error {
    if roiId !in roiSettings then KeyError(roiId) else KeyError("sitename")
  }

  /** An exception comes from the first id, in list order, that has no entry or no
      sitename, and every id before it passes. */
  lemma {:induction false} SitenameCheckErrors(roiSettings: map<string, seq<Field>>, roiIds: seq<string>)
    requires SitenameCheck(roiSettings, roiIds).Failure?
    ensures exists k ::
      && 0 <= k < |roiIds|
      && (forall i :: 0 <= i < k ==> Passes(roiSettings, roiIds[i]))
      && Unreadable(roiSettings, roiIds[k])
      && SitenameCheck(roiSettings, roiIds).error == LookupError(roiSettings, roiIds[k])
  {
    if !Unreadable(roiSettings, roiIds[0]) {
      var rest := roiIds[1..];
      SitenameCheckErrors(roiSettings, rest);
      var k :| && 0 <= k < |rest|
        && (forall i :: 0 <= i < k ==> Passes(roiSettings, rest[i]))
        && Unreadable(roiSettings, rest[k])
        && SitenameCheck(roiSettings, rest).error == LookupError(roiSettings, rest[k]);
      forall i | 0 < i < k + 1 ensures Passes(roiSettings, roiIds[i]) {
        assert roiIds[i] == rest[i - 1];
      }
      assert roiIds[k + 1] == rest[k];
    }
  }

  /** `do_rois_have_sitenames`: a flag loop that stops at the first blank sitename. */
  method DoRoisHaveSitenames(roiSettings: map<string, seq<Field>>, roiIds: seq<string>) returns (r: Result<bool>)
    ensures r == SitenameCheck(roiSettings, roiIds)
  {
    var isSitenameNotEmpty := true;
    var i := 0;
    while i < |roiIds|
      invariant 0 <= i <= |roiIds|
      invariant isSitenameNotEmpty
      invariant SitenameCheck(roiSettings, roiIds) == SitenameCheck(roiSettings, roiIds[i..])
    {
      var roiId := roiIds[i];
      assert roiIds[i..][1..] == roiIds[i + 1..];
      if roiId !in roiSettings {
        return Failure(KeyError(roiId));
      }
      var sitename := Get(roiSettings[roiId], "sitename");
      if sitename.None? {
        return Failure(KeyError("sitename"));
      }
      if sitename.value == Str("") {
        isSitenameNotEmpty := false;
        break;
      }
      i := i + 1;
    }
    return Success(isSitenameNotEmpty);
  }

  /** ROIs built from settings with a non-empty string sitename pass the check for any list
      of selected ids. */
  lemma CreatedRoisHaveSitenames(selectedIds: set<string>, dates: Json, d0: string, d1: string,
                                 site: string, filepath: string, roiIds: seq<string>)
    requires site != ""
    requires forall i :: 0 <= i < |roiIds| ==> roiIds[i] in selectedIds
    ensures SitenameCheck(RoiSettingsMap(selectedIds, dates, d0, d1, Str(site), filepath), roiIds) == Success(true)
  {
    var m := RoiSettingsMap(selectedIds, dates, d0, d1, Str(site), filepath);
    forall i | 0 <= i < |roiIds|
      ensures roiIds[i] in m && Get(m[roiIds[i]], "sitename") == Some(Str(site))
    {
      RoiEntryFields(roiIds[i], dates, RoiName(roiIds[i], d0, d1), Str(site), filepath);
    }
    SitenameCheckAnswers(m, roiIds);
  }

  /** Every entry has a sitename, and none of them is "". */
  predicate SitenamesFilled(roiSettings: map<string, seq<Field>>) {
    forall roiId :: roiId in roiSettings ==> Passes(roiSettings, roiId)
  }

  /** Over entries whose sitenames are all filled, the check fails exactly at the first id
      without an entry. */
  lemma {:induction false} SitenameCheckFirstMissing(roiSettings: map<string, seq<Field>>, roiIds: seq<string>)
    requires SitenamesFilled(roiSettings)
    requires exists i :: 0 <= i < |roiIds| && roiIds[i] !in roiSettings.Keys
    ensures SitenameCheck(roiSettings, roiIds) == Failure(KeyError(roiIds[FirstOutside(roiIds, roiSettings.Keys)]))
  {
    if roiIds[0] in roiSettings {
      var rest := roiIds[1..];
      assert exists i :: 0 <= i < |rest| && rest[i] !in roiSettings.Keys by {
        var i :| 0 <= i < |roiIds| && roiIds[i] !in roiSettings.Keys;
        assert rest[i - 1] == roiIds[i];
      }
      SitenameCheckFirstMissing(roiSettings, rest);
      assert rest[FirstOutside(rest, roiSettings.Keys)] == roiIds[FirstOutside(roiIds, roiSettings.Keys)];
    }
  }

  /** Checking an id that was not selected raises KeyError for the first such id. */
  lemma UnselectedRoiRaises(selectedIds: set<string>, dates: Json, d0: string, d1: string,
                            site: string, filepath: string, roiIds: seq<string>)
    requires site != ""
    requires exists i :: 0 <= i < |roiIds| && roiIds[i] !in selectedIds
    ensures SitenameCheck(RoiSettingsMap(selectedIds, dates, d0, d1, Str(site), filepath), roiIds)
         == Failure(KeyError(roiIds[FirstOutside(roiIds, selectedIds)]))
  {
    var m := RoiSettingsMap(selectedIds, dates, d0, d1, Str(site), filepath);
    assert m.Keys == selectedIds;
    forall roiId | roiId in m
      ensures Get(m[roiId], "sitename") == Some(Str(site))
    {
      RoiEntryFields(roiId, dates, RoiName(roiId, d0, d1), Str(site), filepath);
    }
    SitenameCheckFirstMissing(m, roiIds);
  }
}
