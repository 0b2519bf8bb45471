/** Localisation of a MapRoot tree (jsonp.py:137-182).

    A MapRoot object may carry `localized_map_roots`, and each Layer object
    `localized_layers`: lists of `{"language": ..., "map_root"/"layer": {...}}`
    entries. Localising to a language pops that list, lets the keys of the
    first entry in the language override the node's own keys, and then walks
    into `layers` (for the MapRoot) and `sublayers` (for each Layer).

    The source mutates dictionaries in place; here every step returns the new
    object. Shapes the source does not expect end in `Err(TypeFault)`, the
    TypeError or AttributeError Python would raise there. */
module Localization {
  import opened Base
  import opened JsonValue

  /** `'localized_%ss' % field_name`. */
  function LocalizationKey(field: string): string
  {
    "localized_" + field + "s"
  }

  const LAYER_KEY: string := LocalizationKey("layer")
  const MAP_ROOT_KEY: string := LocalizationKey("map_root")

  /** `for x in value` as the callers can observe it: a list yields its items;
      an empty dictionary or string yields nothing. A non-empty dictionary or
      string yields strings, on which both callers fail at once (`.get` or
      `.pop` of a string), and numbers, booleans and None are not iterable. */
  function Elements(v: Json): (r: Result<seq<Json>>)
    ensures v.JArray? ==> r == Ok(v.items)
    ensures r.Ok? <==> v.JArray? || ((v.JObject? || v.JStr?) && !Truthy(v))
    ensures r.Ok? && !v.JArray? ==> r.value == []
    ensures r.Err? ==> r.error == TypeFault
  {
    match v
    case JArray(items) => Ok(items)
    case JObject(fields) => if |fields| == 0 then Ok([]) else Err(TypeFault)
    case JStr(s) => if |s| == 0 then Ok([]) else Err(TypeFault)
    case _ => Err(TypeFault)
  }

  /** A localisation entry for `lang`: `entry.get('language') == lang`. */
  predicate IsEntryFor(entry: Json, lang: string)
  {
    entry.JObject? && "language" in entry.fields && entry.fields["language"] == JStr(lang)
  }

  /** An entry the scan reads and passes over. */
  predicate Skipped(entry: Json, lang: string)
  {
    entry.JObject? && !IsEntryFor(entry, lang)
  }

  /** The scan of the entries: the index of the first entry in `lang`, or None
      when every entry is a dictionary in some other language. An entry that
      is not a dictionary, met before a match, makes `.get` fail. */
  function FirstLocalization(entries: seq<Json>, lang: string): (r: Result<Option<nat>>)
    ensures r.Ok? && r.value.Some? ==>
              r.value.value < |entries| && IsEntryFor(entries[r.value.value], lang)
              && forall j :: 0 <= j < r.value.value ==> Skipped(entries[j], lang)
    ensures r == Ok(None) <==> forall j :: 0 <= j < |entries| ==> Skipped(entries[j], lang)
    ensures r.Err? ==> (r.error == TypeFault
                        && exists i :: 0 <= i < |entries| && !entries[i].JObject?
                                       && forall j :: 0 <= j < i ==> Skipped(entries[j], lang))
    decreases |entries|
  {
    if |entries| == 0 then Ok(None)
    else if !entries[0].JObject? then Err(TypeFault)
    else if IsEntryFor(entries[0], lang) then Ok(Some(0))
    else
      var rest := entries[1..];
      match FirstLocalization(rest, lang)
      case Ok(Some(i)) => Ok(Some(i + 1))
      case Ok(None) => Ok(None)
      case Err(e) =>
        var i :| 0 <= i < |rest| && !rest[i].JObject? && forall j :: 0 <= j < i ==> Skipped(rest[j], lang);
        assert !entries[i + 1].JObject? && forall j :: 0 <= j < i + 1 ==> Skipped(entries[j], lang);
        Err(e)
  }

  /** A list of objects: a localisation list the scan always gets through. */
  predicate ObjectList(v: Json)
  {
    v.JArray? && forall i :: 0 <= i < |v.items| ==> v.items[i].JObject?
  }

  /** What `PopLocalizedChild` leaves behind and what it returns. */
  datatype Popped = Popped(rest: map<string, Json>, child: Option<Json>)

  /** `PopLocalizedChild`: removes the localisation list from the parent and
      returns the `field` value of the first entry in `lang` (an empty object
      when the entry has none), or None when no entry is in `lang`. */
  function PopLocalizedChild(parent: map<string, Json>, field: string, lang: string): (r: Result<Popped>)
    ensures r.Ok? ==> r.value.rest == parent - {LocalizationKey(field)}
    ensures r.Ok? && r.value.child.Some? ==>
              var key := LocalizationKey(field);
              key in parent && parent[key].JArray?
              && exists i :: 0 <= i < |parent[key].items| && IsEntryFor(parent[key].items[i], lang)
                             && (forall j :: 0 <= j < i ==> Skipped(parent[key].items[j], lang))
                             && r.value.child.value == GetOr(parent[key].items[i].fields, field, JObject(map[]))
    ensures r.Ok? && r.value.child.None? && LocalizationKey(field) in parent ==>
              var list := parent[LocalizationKey(field)];
              !list.JArray? || forall j :: 0 <= j < |list.items| ==> Skipped(list.items[j], lang)
    ensures LocalizationKey(field) !in parent ==> r == Ok(Popped(parent, None))
    ensures r.Err? <==> var key := LocalizationKey(field);
                        key in parent && (Elements(parent[key]).Err?
                                          || FirstLocalization(Elements(parent[key]).value, lang).Err?)
    ensures ObjectList(GetOr(parent, LocalizationKey(field), JArray([]))) ==> r.Ok?
    ensures r.Err? ==> r.error == TypeFault
  {
    var key := LocalizationKey(field);
    var list := GetOr(parent, key, JArray([]));
    assert key !in parent ==> parent - {key} == parent;
    match Elements(list)
    case Err(e) => Err(e)
    case Ok(entries) =>
      match FirstLocalization(entries, lang)
      case Err(e) => Err(e)
      case Ok(None) => Ok(Popped(parent - {key}, None))
      case Ok(Some(i)) => Ok(Popped(parent - {key}, Some(GetOr(entries[i].fields, field, JObject(map[])))))
  }

  /** The keys a localisation contributes: an object's own, none otherwise. */
  function ChildFields(child: Option<Json>): map<string, Json>
  {
    if child.Some? && child.value.JObject? then child.value.fields else map[]
  }

  /** `node.update(child or {})`. A falsy child (None, or an empty or false
      value) changes nothing; a truthy value that is not an object fails. */
  function Override(node: map<string, Json>, child: Option<Json>): (r: Result<map<string, Json>>)
    ensures r.Ok? ==> r.value.Keys == node.Keys + ChildFields(child).Keys
    ensures r.Ok? ==> forall k :: k in r.value ==>
              r.value[k] == if k in ChildFields(child) then ChildFields(child)[k] else node[k]
    ensures r.Err? <==> child.Some? && Truthy(child.value) && !child.value.JObject?
  {
    match child
    case None => Ok(node)
    case Some(c) =>
      if !Truthy(c) then Ok(node)
      else if c.JObject? then Ok(node + c.fields)
      else Err(TypeFault)
  }

  /** `LocalizeLayer`: pop and apply this layer's localisation, then localise
      every element of its `sublayers`. */
  function LocalizeLayer(layer: Json, lang: string): (r: Result<Json>)
    ensures r.Ok? ==> layer.JObject? && r.value.JObject?
    ensures !layer.JObject? ==> r == Err(TypeFault)
    decreases layer, 2
  {
    if !layer.JObject? then Err(TypeFault)
    else
      match PopLocalizedChild(layer.fields, "layer", lang)
      case Err(e) => Err(e)
      case Ok(popped) =>
        match Override(popped.rest, popped.child)
        case Err(e) => Err(e)
        case Ok(merged) =>
          if "sublayers" !in merged then Ok(JObject(merged))
          else
            SublayersComeFromLayer(layer, lang, popped, merged);
            match LocalizeEach(merged["sublayers"], lang)
            case Err(e) => Err(e)
            case Ok(subs) => Ok(JObject(merged["sublayers" := subs]))
  }

  /** Where a merged `sublayers` value comes from: the layer itself or the
      chosen localisation; either way it lies inside the layer, which is what
      makes the walk terminate. */
  lemma {:induction false} SublayersComeFromLayer(layer: Json, lang: string, popped: Popped, merged: map<string, Json>)
    requires layer.JObject?
    requires PopLocalizedChild(layer.fields, "layer", lang) == Ok(popped)
    requires Override(popped.rest, popped.child) == Ok(merged)
    requires "sublayers" in merged
    ensures merged["sublayers"] < layer
  {
    var key := LocalizationKey("layer");
    var cf := ChildFields(popped.child);
    if "sublayers" in cf {
      assert popped.child.Some?;
      var list := layer.fields[key];
      var i :| 0 <= i < |list.items| && IsEntryFor(list.items[i], lang)
               && popped.child.value == GetOr(list.items[i].fields, "layer", JObject(map[]));
      ChosenLocalizationInside(layer, list, i, popped.child.value);
      assert merged["sublayers"] == popped.child.value.fields["sublayers"];
    } else {
      assert "sublayers" != key;
      assert merged["sublayers"] == popped.rest["sublayers"];
      assert merged["sublayers"] == layer.fields["sublayers"];
    }
  }

  lemma ChosenLocalizationInside(layer: Json, list: Json, i: nat, child: Json)
    requires layer.JObject? && LocalizationKey("layer") in layer.fields
    requires list == layer.fields[LocalizationKey("layer")] && list.JArray?
    requires i < |list.items| && list.items[i].JObject?
    requires child.JObject? && "sublayers" in child.fields
    requires child == GetOr(list.items[i].fields, "layer", JObject(map[]))
    ensures child.fields["sublayers"] < layer
  {
    var entry := list.items[i];
    assert "layer" in entry.fields;
    assert child == entry.fields["layer"];
  }

  /** `for sublayer in value: LocalizeLayer(sublayer, lang)`, producing the
      list of localised elements in order. */
  function LocalizeEach(v: Json, lang: string): (r: Result<Json>)
    ensures r.Ok? && v.JArray? ==> r.value.JArray? && |r.value.items| == |v.items|
    ensures r.Ok? && !v.JArray? ==> r.value == v
    decreases v, 1
  {
    match Elements(v)
    case Err(e) => Err(e)
    case Ok(_) =>
      if v.JArray? then
        match LocalizeList(v.items, lang)
        case Err(e) => Err(e)
        case Ok(items) => Ok(JArray(items))
      else Ok(v)
  }

  function LocalizeList(items: seq<Json>, lang: string): (r: Result<seq<Json>>)
    ensures r.Ok? ==> |r.value| == |items|
    decreases items, 0
  {
    if |items| == 0 then Ok([])
    else
      match LocalizeLayer(items[0], lang)
      case Err(e) => Err(e)
      case Ok(first) =>
        match LocalizeList(items[1..], lang)
        case Err(e) => Err(e)
        case Ok(rest) => Ok([first] + rest)
  }

  /** `LocalizeMapRoot`: pop and apply the MapRoot's localisation, then
      localise every element of its `layers`. */
  function LocalizeMapRoot(root: Json, lang: string): (r: Result<Json>)
    ensures r.Ok? ==> root.JObject? && r.value.JObject?
    ensures !root.JObject? ==> r == Err(TypeFault)
  {
    if !root.JObject? then Err(TypeFault)
    else
      match PopLocalizedChild(root.fields, "map_root", lang)
      case Err(e) => Err(e)
      case Ok(popped) =>
        match Override(popped.rest, popped.child)
        case Err(e) => Err(e)
        case Ok(merged) =>
          if "layers" !in merged then Ok(JObject(merged))
          else
            match LocalizeEach(merged["layers"], lang)
            case Err(e) => Err(e)
            case Ok(layers) => Ok(JObject(merged["layers" := layers]))
  }

  /** `out` is `node` overridden by the keys of `child`, on every key except
      `walked` (the list the walk descends into). */
  ghost predicate OverriddenExcept(out: map<string, Json>, node: map<string, Json>, child: Option<Json>, walked: string)
  {
    forall k :: k != walked ==>
      (k in out <==> k in node || k in ChildFields(child))
      && (k in out ==> out[k] == if k in ChildFields(child) then ChildFields(child)[k] else node[k])
  }

  /** A localised layer keeps every key of the original except the
      localisation list, with the keys of the chosen localisation overriding
      the layer's own; `sublayers` is present exactly when either had it, and
      then holds each element of the overridden list localised in turn. */
  lemma LocalizeLayerOverrides(layer: Json, lang: string)
    requires LocalizeLayer(layer, lang).Ok?
    ensures PopLocalizedChild(layer.fields, "layer", lang).Ok?
    ensures var r := LocalizeLayer(layer, lang).value;
            var child := PopLocalizedChild(layer.fields, "layer", lang).value.child;
            OverriddenExcept(r.fields, layer.fields - {LAYER_KEY}, child, "sublayers")
            && ("sublayers" in r.fields <==> "sublayers" in layer.fields || "sublayers" in ChildFields(child))
    ensures var p := PopLocalizedChild(layer.fields, "layer", lang).value;
            Override(p.rest, p.child).Ok?
            && var merged := Override(p.rest, p.child).value;
               var r := LocalizeLayer(layer, lang).value;
               "sublayers" in merged ==>
                 LocalizeEach(merged["sublayers"], lang).Ok?
                 && r.fields["sublayers"] == LocalizeEach(merged["sublayers"], lang).value
                 && (merged["sublayers"].JArray? ==>
                       forall i :: 0 <= i < |merged["sublayers"].items| ==>
                         LocalizeLayer(merged["sublayers"].items[i], lang) == Ok(r.fields["sublayers"].items[i]))
  {
    var p := PopLocalizedChild(layer.fields, "layer", lang).value;
    var merged := Override(p.rest, p.child).value;
    var r := LocalizeLayer(layer, lang).value;
    if "sublayers" in merged {
      var subs := LocalizeEach(merged["sublayers"], lang).value;
      assert r.fields == merged["sublayers" := subs];
      if merged["sublayers"].JArray? {
        LocalizeEachElementwise(merged["sublayers"], lang);
      }
    } else {
      assert r.fields == merged;
    }
  }

  /** With no localisation in the language, the only change to the layer's
      own keys is the removal of the localisation list. */
  lemma UnmatchedLayerLosesOnlyItsList(layer: Json, lang: string)
    requires LocalizeLayer(layer, lang).Ok?
    requires PopLocalizedChild(layer.fields, "layer", lang).value.child.None?
    ensures var r := LocalizeLayer(layer, lang).value;
            r.fields.Keys == layer.fields.Keys - {LAYER_KEY}
            && forall k :: k in r.fields && k != "sublayers" ==> r.fields[k] == layer.fields[k]
  {
    LocalizeLayerOverrides(layer, lang);
  }

  /** A localised MapRoot keeps every key of the original except the
      localisation list, with the keys of the chosen localisation overriding
      the MapRoot's own; `layers` is present exactly when either had it, and
      then holds each element of the overridden list localised in turn. */
  lemma LocalizeMapRootOverrides(root: Json, lang: string)
    requires LocalizeMapRoot(root, lang).Ok?
    ensures PopLocalizedChild(root.fields, "map_root", lang).Ok?
    ensures var r := LocalizeMapRoot(root, lang).value;
            var child := PopLocalizedChild(root.fields, "map_root", lang).value.child;
            OverriddenExcept(r.fields, root.fields - {MAP_ROOT_KEY}, child, "layers")
            && ("layers" in r.fields <==> "layers" in root.fields || "layers" in ChildFields(child))
    ensures var p := PopLocalizedChild(root.fields, "map_root", lang).value;
            Override(p.rest, p.child).Ok?
            && var merged := Override(p.rest, p.child).value;
               var r := LocalizeMapRoot(root, lang).value;
               "layers" in merged ==>
                 LocalizeEach(merged["layers"], lang).Ok?
                 && r.fields["layers"] == LocalizeEach(merged["layers"], lang).value
                 && (merged["layers"].JArray? ==>
                       forall i :: 0 <= i < |merged["layers"].items| ==>
                         LocalizeLayer(merged["layers"].items[i], lang) == Ok(r.fields["layers"].items[i]))
  {
    var p := PopLocalizedChild(root.fields, "map_root", lang).value;
    var merged := Override(p.rest, p.child).value;
    var r := LocalizeMapRoot(root, lang).value;
    if "layers" in merged {
      var layers := LocalizeEach(merged["layers"], lang).value;
      assert r.fields == merged["layers" := layers];
      if merged["layers"].JArray? {
        LocalizeEachElementwise(merged["layers"], lang);
      }
    } else {
      assert r.fields == merged;
    }
  }

  /** Localising a list localises each element on its own, in order. */
  lemma {:induction false} LocalizeListElementwise(items: seq<Json>, lang: string)
    requires LocalizeList(items, lang).Ok?
    ensures forall i :: 0 <= i < |items| ==> LocalizeLayer(items[i], lang) == Ok(LocalizeList(items, lang).value[i])
    decreases |items|
  {
    if |items| > 0 {
      LocalizeListElementwise(items[1..], lang);
      var out := LocalizeList(items, lang).value;
      assert out == [LocalizeLayer(items[0], lang).value] + LocalizeList(items[1..], lang).value;
      forall i | 1 <= i < |items|
        ensures LocalizeLayer(items[i], lang) == Ok(out[i])
      {
        assert items[i] == items[1..][i - 1];
      }
    }
  }

  /** Every element of the walked list, after the override, is replaced by
      its own localisation. */
  lemma LocalizeEachElementwise(v: Json, lang: string)
    requires LocalizeEach(v, lang).Ok? && v.JArray?
    ensures forall i :: 0 <= i < |v.items| ==>
              LocalizeLayer(v.items[i], lang) == Ok(LocalizeEach(v, lang).value.items[i])
  {
    LocalizeListElementwise(v.items, lang);
  }

  /** A layer carrying no localisation list, whose `sublayers` (if any) hold
      only such layers, all the way down. */
  predicate LayerSettled(j: Json)
    decreases j, 1
  {
    j.JObject? && LAYER_KEY !in j.fields
    && ("sublayers" in j.fields ==> ListSettled(j.fields["sublayers"]))
  }

  /** A walked list whose elements are all settled layers (or an empty value
      the walk does not enter). */
  predicate ListSettled(v: Json)
    decreases v, 0
  {
    match v
    case JArray(items) => forall i :: 0 <= i < |items| ==> LayerSettled(items[i])
    case JObject(f) => |f| == 0
    case JStr(s) => |s| == 0
    case _ => false
  }

  predicate RootSettled(root: Json)
  {
    root.JObject? && MAP_ROOT_KEY !in root.fields
    && ("layers" in root.fields ==> ListSettled(root.fields["layers"]))
  }

  /** A settled layer is left exactly as it is. */
  lemma {:induction false} SettledLayerIsFixpoint(j: Json, lang: string)
    requires LayerSettled(j)
    ensures LocalizeLayer(j, lang) == Ok(j)
    decreases j, 2
  {
    var p := PopLocalizedChild(j.fields, "layer", lang);
    assert p == Ok(Popped(j.fields, None));
    if "sublayers" in j.fields {
      SettledListIsFixpoint(j.fields["sublayers"], lang);
      assert j.fields["sublayers" := j.fields["sublayers"]] == j.fields;
    }
  }

  lemma {:induction false} SettledListIsFixpoint(v: Json, lang: string)
    requires ListSettled(v)
    ensures LocalizeEach(v, lang) == Ok(v)
    decreases v, 1
  {
    if v.JArray? {
      SettledItemsAreFixpoint(v, v.items, lang);
    }
  }

  lemma {:induction false} SettledItemsAreFixpoint(v: Json, items: seq<Json>, lang: string)
    requires v.JArray? && ListSettled(v)
    requires forall i :: 0 <= i < |items| ==> items[i] in v.items
    ensures LocalizeList(items, lang) == Ok(items)
    decreases v, 0, |items|
  {
    if |items| > 0 {
      var k :| 0 <= k < |v.items| && v.items[k] == items[0];
      SettledLayerIsFixpoint(items[0], lang);
      forall i | 0 <= i < |items[1..]|
        ensures items[1..][i] in v.items
      {
        assert items[1..][i] == items[i + 1];
      }
      SettledItemsAreFixpoint(v, items[1..], lang);
      assert [items[0]] + items[1..] == items;
    }
  }

  /** A settled MapRoot is left exactly as it is. */
  lemma SettledRootIsFixpoint(root: Json, lang: string)
    requires RootSettled(root)
    ensures LocalizeMapRoot(root, lang) == Ok(root)
  {
    var p := PopLocalizedChild(root.fields, "map_root", lang);
    assert p == Ok(Popped(root.fields, None));
    if "layers" in root.fields {
      SettledListIsFixpoint(root.fields["layers"], lang);
      assert root.fields["layers" := root.fields["layers"]] == root.fields;
    }
  }

  /** No localisation brings a localisation list of its own: a layer's
      localisations may carry new `sublayers`, and every layer below, whether
      the layer's own or a localisation's, is flat in the same way. */
  predicate LayerFlat(j: Json)
    decreases j, 2
  {
    j.JObject? ==>
      (LAYER_KEY in j.fields && j.fields[LAYER_KEY].JArray? ==>
         forall i :: 0 <= i < |j.fields[LAYER_KEY].items| ==> EntryFlat(j.fields[LAYER_KEY].items[i]))
      && ("sublayers" in j.fields ==> ListFlat(j.fields["sublayers"]))
  }

  /** One entry of a localisation list: its `layer` value has no list of its
      own, and what it would put in `sublayers` is flat. */
  predicate EntryFlat(e: Json)
    decreases e, 1
  {
    e.JObject? && "layer" in e.fields && e.fields["layer"].JObject? ==>
      var c := e.fields["layer"];
      LAYER_KEY !in c.fields
      && ("sublayers" in c.fields ==> ListFlat(c.fields["sublayers"]))
  }

  predicate ListFlat(v: Json)
    decreases v, 0
  {
    v.JArray? ==> forall i :: 0 <= i < |v.items| ==> LayerFlat(v.items[i])
  }

  /** The MapRoot counterpart of `LayerFlat`. */
  predicate RootFlat(root: Json)
  {
    root.JObject? ==>
      (MAP_ROOT_KEY in root.fields && root.fields[MAP_ROOT_KEY].JArray? ==>
         forall i :: 0 <= i < |root.fields[MAP_ROOT_KEY].items| ==> RootEntryFlat(root.fields[MAP_ROOT_KEY].items[i]))
      && ("layers" in root.fields ==> ListFlat(root.fields["layers"]))
  }

  predicate RootEntryFlat(e: Json)
  {
    e.JObject? && "map_root" in e.fields && e.fields["map_root"].JObject? ==>
      var c := e.fields["map_root"];
      MAP_ROOT_KEY !in c.fields
      && ("layers" in c.fields ==> ListFlat(c.fields["layers"]))
  }

  /** The chosen localisation of a flat layer carries no localisation list,
      and any `sublayers` it brings is flat. */
  lemma ChosenLayerIsFlat(j: Json, lang: string, popped: Popped)
    requires j.JObject? && LayerFlat(j)
    requires PopLocalizedChild(j.fields, "layer", lang) == Ok(popped)
    ensures LAYER_KEY !in ChildFields(popped.child)
    ensures "sublayers" in ChildFields(popped.child) ==> ListFlat(ChildFields(popped.child)["sublayers"])
  {
    if popped.child.Some? {
      var list := j.fields[LAYER_KEY];
      var i :| 0 <= i < |list.items| && IsEntryFor(list.items[i], lang)
               && popped.child.value == GetOr(list.items[i].fields, "layer", JObject(map[]));
      if "layer" in list.items[i].fields {
        assert EntryFlat(list.items[i]);
      }
    }
  }

  /** After the override, a flat layer has no localisation list left and its
      `sublayers`, wherever it came from, is flat. */
  lemma MergedLayerIsFlat(j: Json, lang: string, popped: Popped, merged: map<string, Json>)
    requires j.JObject? && LayerFlat(j)
    requires PopLocalizedChild(j.fields, "layer", lang) == Ok(popped)
    requires Override(popped.rest, popped.child) == Ok(merged)
    ensures LAYER_KEY !in merged
    ensures "sublayers" in merged ==> ListFlat(merged["sublayers"])
  {
    ChosenLayerIsFlat(j, lang, popped);
    assert "sublayers" != LAYER_KEY;
  }

  /** Localising a flat layer settles it: no localisation list is left
      anywhere in the result. */
  lemma {:induction false} LocalizeLayerSettles(j: Json, lang: string)
    requires LayerFlat(j) && LocalizeLayer(j, lang).Ok?
    ensures LayerSettled(LocalizeLayer(j, lang).value)
    decreases j, 2
  {
    var popped := PopLocalizedChild(j.fields, "layer", lang).value;
    var merged := Override(popped.rest, popped.child).value;
    MergedLayerIsFlat(j, lang, popped, merged);
    if "sublayers" in merged {
      SublayersComeFromLayer(j, lang, popped, merged);
      var v := merged["sublayers"];
      LocalizeEachSettles(v, lang);
      var subs := LocalizeEach(v, lang).value;
      assert LocalizeLayer(j, lang).value == JObject(merged["sublayers" := subs]);
    } else {
      assert LocalizeLayer(j, lang).value == JObject(merged);
    }
  }

  lemma {:induction false} LocalizeEachSettles(v: Json, lang: string)
    requires ListFlat(v) && LocalizeEach(v, lang).Ok?
    ensures ListSettled(LocalizeEach(v, lang).value)
    decreases v, 1
  {
    var out := LocalizeEach(v, lang).value;
    if v.JArray? {
      LocalizeEachElementwise(v, lang);
      forall i | 0 <= i < |out.items|
        ensures LayerSettled(out.items[i])
      {
        LocalizeLayerSettles(v.items[i], lang);
      }
    }
  }

  /** Localising a flat layer twice is the same as localising it once. */
  lemma LocalizeLayerIdempotent(j: Json, lang: string)
    requires LayerFlat(j) && LocalizeLayer(j, lang).Ok?
    ensures LocalizeLayer(LocalizeLayer(j, lang).value, lang) == LocalizeLayer(j, lang)
  {
    LocalizeLayerSettles(j, lang);
    SettledLayerIsFixpoint(LocalizeLayer(j, lang).value, lang);
  }

  /** The MapRoot counterpart of `MergedLayerIsFlat`. */
  lemma MergedRootIsFlat(root: Json, lang: string, popped: Popped, merged: map<string, Json>)
    requires root.JObject? && RootFlat(root)
    requires PopLocalizedChild(root.fields, "map_root", lang) == Ok(popped)
    requires Override(popped.rest, popped.child) == Ok(merged)
    ensures MAP_ROOT_KEY !in merged
    ensures "layers" in merged ==> ListFlat(merged["layers"])
  {
    if popped.child.Some? {
      var list := root.fields[MAP_ROOT_KEY];
      var i :| 0 <= i < |list.items| && IsEntryFor(list.items[i], lang)
               && popped.child.value == GetOr(list.items[i].fields, "map_root", JObject(map[]));
      if "map_root" in list.items[i].fields {
        assert RootEntryFlat(list.items[i]);
      }
    }
    assert "layers" != MAP_ROOT_KEY;
  }

  /** Localising a flat MapRoot settles it. */
  lemma LocalizeMapRootSettles(root: Json, lang: string)
    requires RootFlat(root) && LocalizeMapRoot(root, lang).Ok?
    ensures RootSettled(LocalizeMapRoot(root, lang).value)
  {
    var popped := PopLocalizedChild(root.fields, "map_root", lang).value;
    var merged := Override(popped.rest, popped.child).value;
    MergedRootIsFlat(root, lang, popped, merged);
    if "layers" in merged {
      var v := merged["layers"];
      LocalizeEachSettles(v, lang);
      var layers := LocalizeEach(v, lang).value;
      assert LocalizeMapRoot(root, lang).value == JObject(merged["layers" := layers]);
    } else {
      assert LocalizeMapRoot(root, lang).value == JObject(merged);
    }
  }

  /** Localising a flat MapRoot twice is the same as localising it once. */
  lemma LocalizeMapRootIdempotent(root: Json, lang: string)
    requires RootFlat(root) && LocalizeMapRoot(root, lang).Ok?
    ensures LocalizeMapRoot(LocalizeMapRoot(root, lang).value, lang) == LocalizeMapRoot(root, lang)
  {
    LocalizeMapRootSettles(root, lang);
    SettledRootIsFixpoint(LocalizeMapRoot(root, lang).value, lang);
  }

  /** A layer of the shape the map editor writes: an object whose
      localisation list (if any) holds objects whose `layer` value (if any)
      is an object, and whose `sublayers`, its own or a localisation's, are
      lists of such layers. */
  predicate LayerShaped(j: Json)
    decreases j, 2
  {
    j.JObject?
    && (LAYER_KEY in j.fields ==>
          j.fields[LAYER_KEY].JArray?
          && forall i :: 0 <= i < |j.fields[LAYER_KEY].items| ==> EntryShaped(j.fields[LAYER_KEY].items[i]))
    && ("sublayers" in j.fields ==> ListShaped(j.fields["sublayers"]))
  }

  predicate EntryShaped(e: Json)
    decreases e, 1
  {
    e.JObject?
    && ("layer" in e.fields ==>
          e.fields["layer"].JObject?
          && ("sublayers" in e.fields["layer"].fields ==> ListShaped(e.fields["layer"].fields["sublayers"])))
  }

  predicate ListShaped(v: Json)
    decreases v, 0
  {
    v.JArray? && forall i :: 0 <= i < |v.items| ==> LayerShaped(v.items[i])
  }

  /** The MapRoot counterpart of `LayerShaped`. */
  predicate RootShaped(root: Json)
  {
    root.JObject?
    && (MAP_ROOT_KEY in root.fields ==>
          root.fields[MAP_ROOT_KEY].JArray?
          && forall i :: 0 <= i < |root.fields[MAP_ROOT_KEY].items| ==> RootEntryShaped(root.fields[MAP_ROOT_KEY].items[i]))
    && ("layers" in root.fields ==> ListShaped(root.fields["layers"]))
  }

  predicate RootEntryShaped(e: Json)
  {
    e.JObject?
    && ("map_root" in e.fields ==>
          e.fields["map_root"].JObject?
          && ("layers" in e.fields["map_root"].fields ==> ListShaped(e.fields["map_root"].fields["layers"])))
  }

  /** On a well-shaped layer the pop and the override succeed, and the
      overridden `sublayers` is again a list of well-shaped layers. */
  lemma MergedLayerIsShaped(j: Json, lang: string)
    requires LayerShaped(j)
    ensures PopLocalizedChild(j.fields, "layer", lang).Ok?
    ensures var p := PopLocalizedChild(j.fields, "layer", lang).value;
            Override(p.rest, p.child).Ok?
            && ("sublayers" in Override(p.rest, p.child).value ==>
                  ListShaped(Override(p.rest, p.child).value["sublayers"]))
  {
    var list := GetOr(j.fields, LAYER_KEY, JArray([]));
    assert ObjectList(list) by {
      if LAYER_KEY in j.fields {
        forall i | 0 <= i < |list.items| ensures list.items[i].JObject? {
          assert EntryShaped(list.items[i]);
        }
      }
    }
    var p := PopLocalizedChild(j.fields, "layer", lang).value;
    if p.child.Some? {
      var items := j.fields[LAYER_KEY].items;
      var i :| 0 <= i < |items| && IsEntryFor(items[i], lang)
               && p.child.value == GetOr(items[i].fields, "layer", JObject(map[]));
      assert EntryShaped(items[i]);
    }
    assert "sublayers" != LAYER_KEY;
  }

  /** A well-shaped layer tree localises without error. */
  lemma {:induction false} LocalizeLayerSucceeds(j: Json, lang: string)
    requires LayerShaped(j)
    ensures LocalizeLayer(j, lang).Ok?
    decreases j, 2
  {
    MergedLayerIsShaped(j, lang);
    var p := PopLocalizedChild(j.fields, "layer", lang).value;
    var merged := Override(p.rest, p.child).value;
    if "sublayers" in merged {
      SublayersComeFromLayer(j, lang, p, merged);
      LocalizeEachSucceeds(merged["sublayers"], lang);
    }
  }

  lemma {:induction false} LocalizeEachSucceeds(v: Json, lang: string)
    requires ListShaped(v)
    ensures LocalizeEach(v, lang).Ok?
    decreases v, 1
  {
    LocalizeItemsSucceed(v, v.items, lang);
  }

  lemma {:induction false} LocalizeItemsSucceed(v: Json, items: seq<Json>, lang: string)
    requires ListShaped(v)
    requires forall i :: 0 <= i < |items| ==> items[i] in v.items
    ensures LocalizeList(items, lang).Ok?
    decreases v, 0, |items|
  {
    if |items| > 0 {
      var k :| 0 <= k < |v.items| && v.items[k] == items[0];
      LocalizeLayerSucceeds(items[0], lang);
      forall i | 0 <= i < |items[1..]|
        ensures items[1..][i] in v.items
      {
        assert items[1..][i] == items[i + 1];
      }
      LocalizeItemsSucceed(v, items[1..], lang);
    }
  }

  /** A well-shaped MapRoot localises without error. */
  lemma LocalizeMapRootSucceeds(root: Json, lang: string)
    requires RootShaped(root)
    ensures LocalizeMapRoot(root, lang).Ok?
  {
    var list := GetOr(root.fields, MAP_ROOT_KEY, JArray([]));
    assert ObjectList(list) by {
      if MAP_ROOT_KEY in root.fields {
        forall i | 0 <= i < |list.items| ensures list.items[i].JObject? {
          assert RootEntryShaped(list.items[i]);
        }
      }
    }
    var p := PopLocalizedChild(root.fields, "map_root", lang).value;
    if p.child.Some? {
      var items := root.fields[MAP_ROOT_KEY].items;
      var i :| 0 <= i < |items| && IsEntryFor(items[i], lang)
               && p.child.value == GetOr(items[i].fields, "map_root", JObject(map[]));
      assert RootEntryShaped(items[i]);
    }
    assert "layers" != MAP_ROOT_KEY;
    var merged := Override(p.rest, p.child).value;
    if "layers" in merged {
      LocalizeEachSucceeds(merged["layers"], lang);
    }
  }
}
