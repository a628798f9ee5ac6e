/**
 * The two-level directory of JFormDB (`tes_form_db`): a root mapping from
 * storage name to object, where a storage is a form map (form key to entry
 * object) and an entry is usually a plain map (string key to value).
 *
 * `Context` stands for the part of `tes_context` this core touches: the
 * root object's name-to-object mapping, the contents of every form map and
 * every plain map, and the allocator (a fresh-id counter). Objects are
 * handles (`Obj`); null handles are `None`.
 */
module FormDb {
  import opened Wrappers
  import opened Subpath

  /** An object handle: a form map, a plain map, or any other object (array, ...). */
  datatype Obj = FormMapRef(id: nat) | MapRef(id: nat) | Other(id: nat)

  /** An opaque form key; the form id 0 is the null form. */
  datatype FormKey = FormKey(formId: nat)

  /** `operator bool` of a form key: whether it refers to a form at all. */
  predicate IsForm(k: FormKey): (ok: bool)
    ensures ok <==> k != FormKey(0)
  {
    k.formId != 0
  }

  /** `validate_storage_name`: a non-null pointer whose first character is not the terminator. */
  predicate ValidateStorageName(name: Option<string>)
  {
    name.Some? && name.value != [] && name.value[0] != '\0'
  }

  /** A storage name is valid exactly when it is a non-null, non-empty C string. */
  lemma ValidNameIsNonEmptyCString(name: Option<string>)
    ensures ValidateStorageName(name) <==> name.Some? && CLength(name.value) > 0
  {
  }

  /** Every storage name the parser yields is accepted by the directory. */
  lemma ExtractedNameIsValid(path: Option<seq<char>>, kind: PathType)
    requires Extract(path, kind).Some?
    ensures ValidateStorageName(StorageNameOf(Extract(path, kind)))
  {
    ExtractedShape(path, kind);
    SegmentHasNoNul(path, kind);
    var e := Extract(path, kind).value;
    assert e.StorageName()[0] == e.segment[0];
  }

  /** `o` is live, given the ids of the form maps, the ids of the plain maps and the next free id. */
  ghost predicate LiveIn(o: Obj, formIds: set<nat>, mapIds: set<nat>, nextId: nat)
  {
    match o
    case FormMapRef(id) => id in formIds
    case MapRef(id) => id in mapIds
    case Other(id) => id < nextId
  }

  /** The invariant of a directory, stated on the values it consists of. */
  ghost predicate ValidState(root: map<string, Obj>, formMaps: map<nat, map<FormKey, Obj>>,
                             mapIds: set<nat>, nextId: nat)
  {
    && (forall id :: id in formMaps ==> id < nextId)
    && (forall id :: id in mapIds ==> id < nextId && id !in formMaps)
    && (forall n :: n in root ==> LiveIn(root[n], formMaps.Keys, mapIds, nextId))
    && (forall id :: id in formMaps ==> FormMapLive(formMaps[id], formMaps.Keys, mapIds, nextId))
  }

  /** Every key of a form map is a non-null form and every value is live. */
  ghost predicate FormMapLive(m: map<FormKey, Obj>, formIds: set<nat>, mapIds: set<nat>, nextId: nat)
  {
    forall k :: k in m ==> IsForm(k) && LiveIn(m[k], formIds, mapIds, nextId)
  }

  /** A form map stays live when the id sets grow and the next free id does not shrink. */
  lemma FormMapLiveGrows(m: map<FormKey, Obj>, formIds: set<nat>, mapIds: set<nat>, nextId: nat,
                         formIds': set<nat>, mapIds': set<nat>, nextId': nat)
    requires FormMapLive(m, formIds, mapIds, nextId)
    requires formIds <= formIds' && mapIds <= mapIds' && nextId <= nextId'
    ensures FormMapLive(m, formIds', mapIds', nextId')
  {
    forall k | k in m ensures LiveIn(m[k], formIds', mapIds', nextId') {
      assert LiveIn(m[k], formIds, mapIds, nextId);
    }
  }

  /** Registering a fresh, empty form map under a storage name keeps the invariant. */
  lemma AllocateFormMapKeepsValid(root: map<string, Obj>, formMaps: map<nat, map<FormKey, Obj>>,
                                  mapIds: set<nat>, nextId: nat, name: string)
    requires ValidState(root, formMaps, mapIds, nextId)
    ensures ValidState(root[name := FormMapRef(nextId)], formMaps[nextId := map[]], mapIds, nextId + 1)
  {
    var formMaps' := formMaps[nextId := map[]];
    forall id | id in formMaps' ensures FormMapLive(formMaps'[id], formMaps'.Keys, mapIds, nextId + 1) {
      if id != nextId {
        FormMapLiveGrows(formMaps[id], formMaps.Keys, mapIds, nextId, formMaps'.Keys, mapIds, nextId + 1);
      }
    }
  }

  /** Allocating a fresh plain map keeps the invariant. */
  lemma AllocateMapKeepsValid(root: map<string, Obj>, formMaps: map<nat, map<FormKey, Obj>>,
                              mapIds: set<nat>, nextId: nat)
    requires ValidState(root, formMaps, mapIds, nextId)
    ensures ValidState(root, formMaps, mapIds + {nextId}, nextId + 1)
  {
    forall id | id in formMaps ensures FormMapLive(formMaps[id], formMaps.Keys, mapIds + {nextId}, nextId + 1) {
      FormMapLiveGrows(formMaps[id], formMaps.Keys, mapIds, nextId, formMaps.Keys, mapIds + {nextId}, nextId + 1);
    }
  }

  /** Storing a live handle under a form key in an existing form map keeps the invariant. */
  lemma StoreEntryKeepsValid(root: map<string, Obj>, formMaps: map<nat, map<FormKey, Obj>>,
                             mapIds: set<nat>, nextId: nat, fm: nat, form: FormKey, o: Obj)
    requires ValidState(root, formMaps, mapIds, nextId)
    requires fm in formMaps && IsForm(form) && LiveIn(o, formMaps.Keys, mapIds, nextId)
    ensures ValidState(root, formMaps[fm := formMaps[fm][form := o]], mapIds, nextId)
  {
    var formMaps' := formMaps[fm := formMaps[fm][form := o]];
    assert formMaps'.Keys == formMaps.Keys;
    assert FormMapLive(formMaps'[fm], formMaps.Keys, mapIds, nextId) by {
      assert FormMapLive(formMaps[fm], formMaps.Keys, mapIds, nextId);
    }
  }

  /** Removing a form key from an existing form map keeps the invariant. */
  lemma RemoveEntryKeepsValid(root: map<string, Obj>, formMaps: map<nat, map<FormKey, Obj>>,
                              mapIds: set<nat>, nextId: nat, fm: nat, form: FormKey)
    requires ValidState(root, formMaps, mapIds, nextId)
    requires fm in formMaps
    ensures ValidState(root, formMaps[fm := formMaps[fm] - {form}], mapIds, nextId)
  {
    var formMaps' := formMaps[fm := formMaps[fm] - {form}];
    assert formMaps'.Keys == formMaps.Keys;
    assert FormMapLive(formMaps'[fm], formMaps.Keys, mapIds, nextId) by {
      assert FormMapLive(formMaps[fm], formMaps.Keys, mapIds, nextId);
    }
  }

  /** The contents of form map `id` in `formMaps`, empty when there is no such map. */
  ghost function FormMapIn(formMaps: map<nat, map<FormKey, Obj>>, id: nat): (m: map<FormKey, Obj>)
  {
    if id in formMaps then formMaps[id] else map[]
  }

  /**
   * From `before` to `after` nothing changed but the entry for `form` in
   * form map `fm` (which may have been created): every other form map is as
   * it was, and so is every other form's entry in `fm`.
   */
  ghost predicate OnlyEntryChanged(before: map<nat, map<FormKey, Obj>>, after: map<nat, map<FormKey, Obj>>,
                                   fm: nat, form: FormKey)
  {
    && (forall id :: id in before && id != fm ==> id in after && after[id] == before[id])
    && FormMapIn(after, fm) - {form} == FormMapIn(before, fm) - {form}
  }

  /** Under `OnlyEntryChanged`, an entry of another form map or of another form keeps its value. */
  lemma OtherEntryKept(before: map<nat, map<FormKey, Obj>>, after: map<nat, map<FormKey, Obj>>,
                       fm: nat, form: FormKey, id: nat, k: FormKey)
    requires OnlyEntryChanged(before, after, fm, form)
    requires id in before && k in before[id] && (id != fm || k != form)
    ensures id in after && k in after[id] && after[id][k] == before[id][k]
  {
    if id == fm {
      assert k in FormMapIn(before, fm) - {form};
      assert (FormMapIn(after, fm) - {form})[k] == (FormMapIn(before, fm) - {form})[k];
    }
  }

  /** Changing nothing changes only the entry. */
  lemma OnlyEntryChangedRefl(formMaps: map<nat, map<FormKey, Obj>>, fm: nat, form: FormKey)
    ensures OnlyEntryChanged(formMaps, formMaps, fm, form)
  {
  }

  /** Two steps that each change only the same entry change only that entry. */
  lemma OnlyEntryChangedTrans(a: map<nat, map<FormKey, Obj>>, b: map<nat, map<FormKey, Obj>>,
                              c: map<nat, map<FormKey, Obj>>, fm: nat, form: FormKey)
    requires OnlyEntryChanged(a, b, fm, form) && OnlyEntryChanged(b, c, fm, form)
    ensures OnlyEntryChanged(a, c, fm, form)
  {
  }

  /** Creating an empty form map under a fresh id changes no entry. */
  lemma CreateFormMapChangesOnlyEntry(formMaps: map<nat, map<FormKey, Obj>>, fm: nat, form: FormKey)
    requires fm !in formMaps
    ensures OnlyEntryChanged(formMaps, formMaps[fm := map[]], fm, form)
  {
    assert FormMapIn(formMaps[fm := map[]], fm) - {form} == map[];
  }

  /** Storing under `form` in form map `fm` changes only that entry. */
  lemma StoreChangesOnlyEntry(formMaps: map<nat, map<FormKey, Obj>>, fm: nat, form: FormKey, o: Obj)
    requires fm in formMaps
    ensures OnlyEntryChanged(formMaps, formMaps[fm := formMaps[fm][form := o]], fm, form)
  {
    assert formMaps[fm][form := o] - {form} == formMaps[fm] - {form};
  }

  class Context<V> {
    /** The root object's mapping from storage name to object. */
    var root: map<string, Obj>
    /** Contents of each form map, by id. */
    var formMaps: map<nat, map<FormKey, Obj>>
    /** Contents of each plain map, by id. */
    var maps: map<nat, map<string, V>>
    /** The next id the allocator hands out. */
    var nextId: nat

    /** A handle denotes an allocated object, and a map handle one whose contents are known. */
    ghost predicate Live(o: Obj)
      reads this
    {
      LiveIn(o, formMaps.Keys, maps.Keys, nextId)
    }

    /**
     * Ids are allocated below `nextId`, each to one kind of map; every
     * handle the directory holds is live, and form maps hold no null key.
     */
    ghost predicate Valid()
      reads this
    {
      ValidState(root, formMaps, maps.Keys, nextId)
    }

    /** A fresh context, as `tes_context_standalone` gives: no storages, no objects. */
    constructor ()
      ensures Valid()
      ensures root == map[] && formMaps == map[] && maps == map[] && nextId == 0
    {
      root := map[];
      formMaps := map[];
      maps := map[];
      nextId := 0;
    }

    /**
     * The storage under `name`: `getItem<object_base*>` on the root followed
     * by `as<form_map>()`, so a value of another kind reads as null.
     */
    function FindStorage(name: Option<string>): (fmap: Option<nat>)
      reads this`root
      ensures fmap.Some? <==> name.Some? && name.value in root && root[name.value].FormMapRef?
      ensures fmap.Some? ==> root[name.value] == FormMapRef(fmap.value)
    {
      if name.Some? && name.value in root && root[name.value].FormMapRef?
      then Some(root[name.value].id) else None
    }

    /** The contents of form map `id`, empty when there is no such map. */
    ghost function FormMapOf(id: nat): (m: map<FormKey, Obj>)
      reads this`formMaps
    {
      FormMapIn(formMaps, id)
    }

    /**
     * `findEntry`: the entry stored for `form` in storage `name`, without
     * creating anything; null when either is unknown or `form` is null.
     */
    function FindEntry(name: Option<string>, form: FormKey): (entry: Option<Obj>)
      reads this`root, this`formMaps
      ensures entry.Some? <==>
              FindStorage(name).Some? && FindStorage(name).value in formMaps &&
              form in formMaps[FindStorage(name).value]
      ensures entry.Some? ==> entry == Some(formMaps[FindStorage(name).value][form])
    {
      var fmap := FindStorage(name);
      if fmap.Some? && fmap.value in formMaps && form in formMaps[fmap.value]
      then Some(formMaps[fmap.value][form]) else None
    }

    /** `findMapEntry`: `findEntry` followed by `as<map>()`, null unless the entry is a map. */
    function FindMapEntry(name: Option<string>, form: FormKey): (entry: Option<nat>)
      reads this`root, this`formMaps
      ensures entry.Some? <==> FindEntry(name, form).Some? && FindEntry(name, form).value.MapRef?
      ensures entry.Some? ==> FindEntry(name, form) == Some(MapRef(entry.value))
    {
      match FindEntry(name, form)
      case Some(MapRef(id)) => Some(id)
      case _ => None
    }

    /** In a valid directory lookups yield live handles, and a null form finds nothing. */
    lemma FindEntryIsLive(name: Option<string>, form: FormKey)
      requires Valid()
      ensures FindEntry(name, form).Some? ==> IsForm(form) && Live(FindEntry(name, form).value)
      ensures FindMapEntry(name, form).Some? ==> FindMapEntry(name, form).value in maps
    {
    }

    /** The contents of the map entry for `form` in storage `name`, empty when there is none. */
    ghost function EntryMapOf(name: Option<string>, form: FormKey): (m: map<string, V>)
      reads this
    {
      match FindMapEntry(name, form)
      case Some(id) => if id in maps then maps[id] else map[]
      case None => map[]
    }

    /**
     * `makeFormStorage`: the form map under `name`, created (replacing any
     * value of another kind) when there is none; null for an invalid name.
     */
    method MakeFormStorage(name: Option<string>) returns (fmap: Option<nat>)
      requires Valid()
      modifies this
      ensures Valid()
      ensures fmap.Some? <==> ValidateStorageName(name)
      ensures fmap.Some? ==> FindStorage(name) == fmap && fmap.value in formMaps
      ensures !ValidateStorageName(name) ==> unchanged(this)
      ensures ValidateStorageName(name) && old(FindStorage(name)).Some? ==>
              fmap == old(FindStorage(name)) && unchanged(this)
      ensures ValidateStorageName(name) && old(FindStorage(name)).None? ==>
              && fmap == Some(old(nextId))
              && nextId == old(nextId) + 1
              && root == old(root)[name.value := FormMapRef(old(nextId))]
              && formMaps == old(formMaps)[old(nextId) := map[]]
              && maps == old(maps)
    {
      if !ValidateStorageName(name) {
        return None;
      }
      fmap := FindStorage(name);
      if fmap.None? {
        AllocateFormMapKeepsValid(root, formMaps, maps.Keys, nextId, name.value);
        var id := nextId;
        nextId := nextId + 1;
        formMaps := formMaps[id := map[]];
        root := root[name.value := FormMapRef(id)];
        fmap := Some(id);
      }
    }

    /**
     * `setEntry`: associates `entry` with `form` in storage `name`
     * (creating the storage), or, for a null entry, removes `form` from an
     * existing storage. An invalid name or a null form changes nothing.
     */
    method SetEntry(name: Option<string>, form: FormKey, entry: Option<Obj>)
      requires Valid()
      requires entry.Some? ==> Live(entry.value)
      modifies this
      ensures Valid()
      ensures !ValidateStorageName(name) || !IsForm(form) ==> unchanged(this)
      ensures ValidateStorageName(name) && IsForm(form) && entry.Some? ==>
              && FindStorage(name).Some?
              && FindEntry(name, form) == entry
              && var fm := FindStorage(name).value;
              && (old(FindStorage(name)).Some? ==> fm == old(FindStorage(name)).value && nextId == old(nextId))
              && (old(FindStorage(name)).None? ==> fm == old(nextId) && nextId == old(nextId) + 1)
              && root == old(root)[name.value := FormMapRef(fm)]
              && formMaps == old(formMaps)[fm := old(FormMapOf(fm))[form := entry.value]]
              && maps == old(maps)
      ensures ValidateStorageName(name) && IsForm(form) && entry.None? ==>
              && FindEntry(name, form).None?
              && root == old(root) && maps == old(maps) && nextId == old(nextId)
              && formMaps == (match old(FindStorage(name))
                              case Some(fm) => old(formMaps)[fm := old(formMaps)[fm] - {form}]
                              case None => old(formMaps))
    {
      if !ValidateStorageName(name) || !IsForm(form) {
        return;
      }
      if entry.Some? {
        var fmap := MakeFormStorage(name);
        StoreEntryKeepsValid(root, formMaps, maps.Keys, nextId, fmap.value, form, entry.value);
        formMaps := formMaps[fmap.value := formMaps[fmap.value][form := entry.value]];
      } else {
        var fmap := FindStorage(name);
        if fmap.Some? {
          RemoveEntryKeepsValid(root, formMaps, maps.Keys, nextId, fmap.value, form);
          formMaps := formMaps[fmap.value := formMaps[fmap.value] - {form}];
        }
      }
    }

    /**
     * `makeMapEntry`: the map entry for `form` in storage `name`, creating
     * the storage and a fresh empty map (replacing an entry of any other
     * kind) when needed; null for a null form or an invalid name.
     */
    method MakeMapEntry(name: Option<string>, form: FormKey) returns (entry: Option<nat>)
      requires Valid()
      modifies this
      ensures Valid()
      ensures entry.Some? <==> IsForm(form) && ValidateStorageName(name)
      ensures entry.None? ==> unchanged(this)
      ensures entry.Some? ==> FindMapEntry(name, form) == entry && entry.value in maps
      ensures entry.Some? ==> OnlyEntryChanged(old(formMaps), formMaps, FindStorage(name).value, form)
      ensures entry.Some? && old(FindMapEntry(name, form)).Some? ==>
              entry == old(FindMapEntry(name, form)) && unchanged(this)
      ensures entry.Some? && old(FindMapEntry(name, form)).None? ==>
              && FindStorage(name).Some?
              && var fm := FindStorage(name).value;
              && (old(FindStorage(name)).Some? ==>
                    fm == old(FindStorage(name)).value && entry == Some(old(nextId)) && nextId == old(nextId) + 1)
              && (old(FindStorage(name)).None? ==>
                    fm == old(nextId) && entry == Some(old(nextId) + 1) && nextId == old(nextId) + 2)
              && root == old(root)[name.value := FormMapRef(fm)]
              && formMaps == old(formMaps)[fm := old(FormMapOf(fm))[form := MapRef(entry.value)]]
              && maps == old(maps)[entry.value := map[]]
    {
      if !IsForm(form) || !ValidateStorageName(name) {
        return None;
      }
      ghost var found := FindMapEntry(name, form);
      ghost var storage := FindStorage(name);
      ghost var formMaps0 := formMaps;
      var fmap := MakeFormStorage(name);
      assert storage.Some? ==> FindMapEntry(name, form) == found;
      assert FormMapOf(fmap.value) == old(FormMapOf(fmap.value));
      if storage.None? {
        CreateFormMapChangesOnlyEntry(formMaps0, fmap.value, form);
      } else {
        OnlyEntryChangedRefl(formMaps0, fmap.value, form);
      }
      entry := FindMapEntry(name, form);
      if entry.None? {
        assert found.None?;
        ghost var formMaps1 := formMaps;
        StoreChangesOnlyEntry(formMaps1, fmap.value, form, MapRef(nextId));
        var id := AttachNewMap(fmap.value, form);
        entry := Some(id);
        assert FindMapEntry(name, form) == entry;
        OnlyEntryChangedTrans(formMaps0, formMaps1, formMaps, fmap.value, form);
      }
    }

    /**
     * Allocates a fresh empty map and stores it under `form` in form map
     * `fm` (`tes_object::object<map>` followed by `tes_form_map::setItem`).
     */
    method AttachNewMap(fm: nat, form: FormKey) returns (id: nat)
      requires Valid() && fm in formMaps && IsForm(form)
      modifies this
      ensures Valid()
      ensures id == old(nextId) && nextId == old(nextId) + 1
      ensures root == old(root)
      ensures maps == old(maps)[id := map[]]
      ensures formMaps == old(formMaps)[fm := old(formMaps)[fm][form := MapRef(id)]]
    {
      AllocateMapKeepsValid(root, formMaps, maps.Keys, nextId);
      id := nextId;
      nextId := nextId + 1;
      maps := maps[id := map[]];
      StoreEntryKeepsValid(root, formMaps, maps.Keys, nextId, fm, form, MapRef(id));
      formMaps := formMaps[fm := formMaps[fm][form := MapRef(id)]];
    }

    /**
     * `getItem<T>`: parses `path` in key mode and reads the remainder as a
     * key of the form's map entry, without creating anything; `default`
     * when the address is malformed or the storage, entry or key is absent.
     */
    function GetItem(form: FormKey, path: Option<seq<char>>, default: V): (v: V)
      reads this
      requires Valid()
      ensures Extract(path, IsKey).None? || !IsForm(form) ==> v == default
      ensures Extract(path, IsKey).Some? ==>
              var e := Extract(path, IsKey).value;
              v == if e.rest in EntryMapOf(Some(e.StorageName()), form)
                   then EntryMapOf(Some(e.StorageName()), form)[e.rest] else default
    {
      var parsed := Extract(path, IsKey);
      if parsed.None? then default
      else
        FindEntryIsLive(StorageNameOf(parsed), form);
        match FindMapEntry(StorageNameOf(parsed), form)
        case None => default
        case Some(id) => if parsed.value.rest in maps[id] then maps[id][parsed.value.rest] else default
    }

    /**
     * `setItem<T>`: parses `path` in key mode, makes (or finds) the form's
     * map entry in the named storage and sets the remainder key to `item`.
     */
    method SetItem(form: FormKey, path: Option<seq<char>>, item: V)
      requires Valid()
      modifies this
      ensures Valid()
      ensures Extract(path, IsKey).None? || !IsForm(form) ==> unchanged(this)
      ensures Extract(path, IsKey).Some? && IsForm(form) ==>
              var e := Extract(path, IsKey).value;
              var name := Some(e.StorageName());
              && FindMapEntry(name, form).Some?
              && EntryMapOf(name, form) == old(EntryMapOf(name, form))[e.rest := item]
              && (forall id :: id in old(maps) && Some(id) != FindMapEntry(name, form) ==>
                    id in maps && maps[id] == old(maps[id]))
              && FindStorage(name).Some?
              && root == old(root)[name.value := FormMapRef(FindStorage(name).value)]
              && (old(FindStorage(name)).Some? ==> FindStorage(name) == old(FindStorage(name)))
              && (old(FindStorage(name)).None? ==> FindStorage(name).value !in old(formMaps))
              && (old(FindMapEntry(name, form)).Some? ==> FindMapEntry(name, form) == old(FindMapEntry(name, form)))
              && (old(FindMapEntry(name, form)).None? ==> FindMapEntry(name, form).value !in old(maps))
              && (old(FindMapEntry(name, form)).Some? ==> nextId == old(nextId))
              && old(nextId) <= nextId <= old(nextId) + 2
              && OnlyEntryChanged(old(formMaps), formMaps, FindStorage(name).value, form)
      ensures forall d :: Extract(path, IsKey).Some? && IsForm(form) ==> GetItem(form, path, d) == item
    {
      ghost var parsed := Extract(path, IsKey);
      if parsed.Some? {
        ExtractedNameIsValid(path, IsKey);
      }
      var sub := new SubpathExtractor(path, IsKey);
      PutItem(sub.StorageName(), form, sub.Rest(), item);
    }

    /**
     * `tes_map::setItem` applied to `makeMapEntry(name, form)`: a null map
     * or a null key sets nothing, but the entry is made all the same.
     */
    method PutItem(name: Option<string>, form: FormKey, key: Option<string>, item: V)
      requires Valid()
      modifies this
      ensures Valid()
      ensures !ValidateStorageName(name) || !IsForm(form) ==> unchanged(this)
      ensures ValidateStorageName(name) && IsForm(form) ==>
              && FindMapEntry(name, form).Some?
              && EntryMapOf(name, form) == (if key.Some? then old(EntryMapOf(name, form))[key.value := item]
                                            else old(EntryMapOf(name, form)))
              && (forall id :: id in old(maps) && Some(id) != FindMapEntry(name, form) ==>
                    id in maps && maps[id] == old(maps[id]))
              && FindStorage(name).Some?
              && root == old(root)[name.value := FormMapRef(FindStorage(name).value)]
              && (old(FindStorage(name)).Some? ==> FindStorage(name) == old(FindStorage(name)))
              && (old(FindStorage(name)).None? ==> FindStorage(name).value !in old(formMaps))
              && (old(FindMapEntry(name, form)).Some? ==> FindMapEntry(name, form) == old(FindMapEntry(name, form)))
              && (old(FindMapEntry(name, form)).None? ==> FindMapEntry(name, form).value !in old(maps))
              && (old(FindMapEntry(name, form)).Some? ==> nextId == old(nextId))
              && old(nextId) <= nextId <= old(nextId) + 2
              && OnlyEntryChanged(old(formMaps), formMaps, FindStorage(name).value, form)
    {
      ghost var before := EntryMapOf(name, form);
      assert forall id :: id in formMaps ==> id < nextId;
      var entry := MakeMapEntry(name, form);
      if entry.Some? {
        assert maps[entry.value] == before;
        ghost var root1, formMaps1 := root, formMaps;
        if key.Some? {
          SetMapKey(entry.value, key.value, item);
          assert root == root1 && formMaps == formMaps1;
          assert FindMapEntry(name, form) == entry;
        }
      }
    }

    /** `tes_map::setItem` on map `id`: sets `key` to `item`, replacing any previous value. */
    method SetMapKey(id: nat, key: string, item: V)
      requires Valid() && id in maps
      modifies this`maps
      ensures Valid()
      ensures maps == old(maps)[id := old(maps[id])[key := item]]
      ensures key in maps[id] && maps[id][key] == item
    {
      maps := maps[id := maps[id][key := item]];
      assert maps.Keys == old(maps).Keys;
    }
  }
}
