/**
 * The `storage_and_entry` and `get_set` tests of `tes_form_db`, played on a
 * fresh context, plus the removal of an entry from a storage that does not
 * exist. Values kept in plain maps are nullable handles, as for
 * `getItem<object_base*>`.
 */
module FormDbScenarios {
  import opened Wrappers
  import opened Subpath
  import opened FormDb

  /** `".forms.object"` is `.` + `forms` + `.` + `object`. */
  lemma FormsObjectPieces(path: seq<char>)
    requires path == ".forms.object"
    ensures path == ['.'] + "forms" + ['.'] + "object"
  {
  }

  /** `".forms.object"` names storage `forms` and, in key mode, key `object`. */
  lemma ExtractFormsObject(path: seq<char>)
    requires path == ".forms.object"
    ensures Extract(Some(path), IsKey).Some?
    ensures StorageNameOf(Extract(Some(path), IsKey)) == Some("forms")
    ensures RestOf(Extract(Some(path), IsKey)) == Some("object")
  {
    FormsObjectPieces(path);
    ExtractComposed(path, "forms", '.', "object", IsKey);
  }

  /**
   * `storage_and_entry`: making the storage `forms` twice yields the same
   * form map, and making the map entry of form 0x14 twice yields the same map.
   */
  method StorageAndEntryScenario()
    returns (storage1: Option<nat>, storage2: Option<nat>, entry1: Option<nat>, entry2: Option<nat>)
    ensures storage1.Some? && storage1 == storage2
    ensures entry1.Some? && entry1 == entry2
  {
    var ctx := new Context<Option<Obj>>();
    storage1 := ctx.MakeFormStorage(Some("forms"));
    storage2 := ctx.MakeFormStorage(Some("forms"));
    var fakeForm := FormKey(0x14);
    entry1 := ctx.MakeMapEntry(Some("forms"), fakeForm);
    entry2 := ctx.MakeMapEntry(Some("forms"), fakeForm);
  }

  /** Two forms get two distinct map entries in one storage. */
  method DistinctFormsScenario() returns (entry1: Option<nat>, entry2: Option<nat>)
    ensures entry1.Some? && entry2.Some? && entry1 != entry2
  {
    var ctx := new Context<Option<Obj>>();
    entry1 := ctx.MakeMapEntry(Some("forms"), FormKey(0x14));
    entry2 := ctx.MakeMapEntry(Some("forms"), FormKey(0x15));
  }

  /** A null form or an empty storage name makes nothing. */
  method RejectedScenario() returns (entry1: Option<nat>, entry2: Option<nat>, storage: Option<nat>)
    ensures entry1.None? && entry2.None? && storage.None?
  {
    var ctx := new Context<Option<Obj>>();
    entry1 := ctx.MakeMapEntry(Some("forms"), FormKey(0));
    entry2 := ctx.MakeMapEntry(Some(""), FormKey(0x14));
    storage := ctx.MakeFormStorage(None);
  }

  /** `get_set`: the handle stored under `".forms.object"` for form 0x14 reads back. */
  method GetSetScenario(path: seq<char>, ar: Obj) returns (got: Option<Obj>)
    requires path == ".forms.object"
    ensures got == Some(ar)
  {
    ExtractFormsObject(path);
    var ctx := new Context<Option<Obj>>();
    var fakeForm := FormKey(0x14);
    ctx.SetItem(fakeForm, Some(path), Some(ar));
    got := ctx.GetItem(fakeForm, Some(path), None);
  }

  /**
   * Setting a null entry when the storage does not exist removes nothing
   * and creates no storage; setting a live entry and then a null one
   * leaves no entry behind.
   */
  method SetEntryScenario() returns (afterRemove: Option<Obj>, storage: Option<nat>, found: Option<Obj>, removed: Option<Obj>)
    ensures afterRemove.None? && storage.None?
    ensures found.Some? && found.value.MapRef?
    ensures removed.None?
  {
    var ctx := new Context<Option<Obj>>();
    ctx.SetEntry(Some("forms"), FormKey(0x14), None);
    afterRemove := ctx.FindEntry(Some("forms"), FormKey(0x14));
    storage := ctx.FindStorage(Some("forms"));
    var m := ctx.MakeMapEntry(Some("other"), FormKey(0x14));
    ctx.SetEntry(Some("forms"), FormKey(0x14), Some(MapRef(m.value)));
    found := ctx.FindEntry(Some("forms"), FormKey(0x14));
    ctx.SetEntry(Some("forms"), FormKey(0x14), None);
    removed := ctx.FindEntry(Some("forms"), FormKey(0x14));
  }

  /**
   * `setItem` of `item` for `form` under `".forms.object"`, with the outcome
   * stated for storage `forms` and key `object` directly.
   */
  method SetFormsObject(ctx: Context<int>, path: seq<char>, form: FormKey, item: int)
    requires path == ".forms.object"
    requires ctx.Valid() && IsForm(form)
    modifies ctx
    ensures ctx.Valid()
    ensures ctx.FindStorage(Some("forms")).Some?
    ensures ctx.root == old(ctx.root)["forms" := FormMapRef(ctx.FindStorage(Some("forms")).value)]
    ensures old(ctx.FindStorage(Some("forms"))).Some? ==> ctx.FindStorage(Some("forms")) == old(ctx.FindStorage(Some("forms")))
    ensures old(ctx.FindStorage(Some("forms"))).None? ==> ctx.FindStorage(Some("forms")).value !in old(ctx.formMaps)
    ensures OnlyEntryChanged(old(ctx.formMaps), ctx.formMaps, ctx.FindStorage(Some("forms")).value, form)
    ensures ctx.FindMapEntry(Some("forms"), form).Some?
    ensures old(ctx.FindMapEntry(Some("forms"), form)).None? ==> ctx.FindMapEntry(Some("forms"), form).value !in old(ctx.maps)
    ensures forall id :: id in old(ctx.maps) && Some(id) != ctx.FindMapEntry(Some("forms"), form) ==>
              id in ctx.maps && ctx.maps[id] == old(ctx.maps[id])
    ensures ctx.EntryMapOf(Some("forms"), form) == old(ctx.EntryMapOf(Some("forms"), form))["object" := item]
    ensures ctx.GetItem(form, Some(path), 0) == item
  {
    ExtractFormsObject(path);
    ghost var e := Extract(Some(path), IsKey).value;
    assert e.StorageName() == "forms" && e.rest == "object";
    ctx.SetItem(form, Some(path), item);
  }

  /** A fresh context holding map entries for form 7 in storages `forms` and `other`. */
  method TwoEntriesForForm7() returns (ctx: Context<int>)
    ensures fresh(ctx) && ctx.Valid()
    ensures ctx.FindEntry(Some("forms"), FormKey(7)).Some?
    ensures ctx.FindEntry(Some("other"), FormKey(7)).Some?
    ensures ctx.FindStorage(Some("forms")) != ctx.FindStorage(Some("other"))
  {
    ctx := new Context<int>();
    var m1 := ctx.MakeMapEntry(Some("forms"), FormKey(7));
    ghost var forms := ctx.FindStorage(Some("forms"));
    assert "other" != "forms" by { assert "other"[0] != "forms"[0]; }
    var m2 := ctx.MakeMapEntry(Some("other"), FormKey(7));
    assert ctx.FindStorage(Some("forms")) == forms;
  }

  /**
   * `setItem` for form 0x14 under `".forms.object"` leaves the entries of
   * form 7, in the same storage and in another one, as they were.
   */
  method SetItemFrameScenario(path: seq<char>)
    returns (sameStorage1: Option<Obj>, sameStorage2: Option<Obj>, otherStorage1: Option<Obj>, otherStorage2: Option<Obj>)
    requires path == ".forms.object"
    ensures sameStorage1.Some? && sameStorage1 == sameStorage2
    ensures otherStorage1.Some? && otherStorage1 == otherStorage2
  {
    var ctx := TwoEntriesForForm7();
    sameStorage1 := ctx.FindEntry(Some("forms"), FormKey(7));
    otherStorage1 := ctx.FindEntry(Some("other"), FormKey(7));
    ghost var forms := ctx.FindStorage(Some("forms")).value;
    ghost var other := ctx.FindStorage(Some("other")).value;
    ghost var before := ctx.formMaps;
    assert "other" != "forms" by { assert "other"[0] != "forms"[0]; }
    SetFormsObject(ctx, path, FormKey(0x14), 5);
    assert ctx.FindStorage(Some("forms")) == Some(forms);
    assert ctx.FindStorage(Some("other")) == Some(other);
    OtherEntryKept(before, ctx.formMaps, forms, FormKey(0x14), forms, FormKey(7));
    OtherEntryKept(before, ctx.formMaps, forms, FormKey(0x14), other, FormKey(7));
    sameStorage2 := ctx.FindEntry(Some("forms"), FormKey(7));
    otherStorage2 := ctx.FindEntry(Some("other"), FormKey(7));
  }

  /** A fresh context whose only storage, `other`, holds a map entry for form 0x14. */
  method EntryForForm14InOther() returns (ctx: Context<int>)
    ensures fresh(ctx) && ctx.Valid()
    ensures ctx.FindEntry(Some("other"), FormKey(0x14)).Some?
    ensures ctx.FindStorage(Some("forms")).None? && ctx.FindStorage(Some("zzz")).None?
  {
    ctx := new Context<int>();
    var m := ctx.MakeMapEntry(Some("other"), FormKey(0x14));
    assert "forms" != "other" by { assert "forms"[0] != "other"[0]; }
    assert "zzz" != "other" by { assert "zzz"[0] != "other"[0]; }
  }

  /**
   * `setItem` for form 0x14 under `".forms.object"` creates storage `forms`
   * with a map of its own: the entry of storage `other` for the same form is
   * kept, and no storage appears under an unrelated name.
   */
  method SetItemNewStorageScenario(path: seq<char>) returns (before: Option<Obj>, after: Option<Obj>, unrelated: Option<nat>)
    requires path == ".forms.object"
    ensures before.Some? && before == after
    ensures unrelated.None?
  {
    var ctx := EntryForForm14InOther();
    before := ctx.FindEntry(Some("other"), FormKey(0x14));
    ghost var other := ctx.FindStorage(Some("other")).value;
    ghost var formMaps0 := ctx.formMaps;
    assert "other" != "forms" by { assert "other"[0] != "forms"[0]; }
    assert "zzz" != "forms" by { assert "zzz"[0] != "forms"[0]; }
    SetFormsObject(ctx, path, FormKey(0x14), 5);
    ghost var forms := ctx.FindStorage(Some("forms")).value;
    assert other in formMaps0 && forms !in formMaps0;
    assert ctx.FindStorage(Some("other")) == Some(other);
    OtherEntryKept(formMaps0, ctx.formMaps, forms, FormKey(0x14), other, FormKey(0x14));
    after := ctx.FindEntry(Some("other"), FormKey(0x14));
    unrelated := ctx.FindStorage(Some("zzz"));
  }

  /** A fresh context after `setItem` of 1 for form 7 under `".forms.object"`. */
  method Form7SetTo1(path: seq<char>) returns (ctx: Context<int>)
    requires path == ".forms.object"
    ensures fresh(ctx) && ctx.Valid()
    ensures ctx.FindStorage(Some("forms")).Some?
    ensures ctx.FindMapEntry(Some("forms"), FormKey(7)).Some?
    ensures ctx.EntryMapOf(Some("forms"), FormKey(7)) == map["object" := 1]
    ensures ctx.FindEntry(Some("forms"), FormKey(0x14)).None?
  {
    ctx := new Context<int>();
    ghost var formMaps0 := ctx.formMaps;
    SetFormsObject(ctx, path, FormKey(7), 1);
    ghost var forms := ctx.FindStorage(Some("forms")).value;
    assert FormMapIn(formMaps0, forms) == map[];
    assert FormKey(0x14) !in FormMapIn(ctx.formMaps, forms) - {FormKey(7)};
  }

  /**
   * `setItem` for form 7 and then for form 0x14 under the same path: the
   * second call gives form 0x14 a map of its own, so form 7's value reads back.
   */
  method TwoFormsGetSetScenario(path: seq<char>) returns (got7: int, got14: int)
    requires path == ".forms.object"
    ensures got7 == 1 && got14 == 5
  {
    ExtractFormsObject(path);
    ghost var e := Extract(Some(path), IsKey).value;
    assert e.StorageName() == "forms" && e.rest == "object";
    var ctx := Form7SetTo1(path);
    ghost var forms := ctx.FindStorage(Some("forms")).value;
    ghost var id7 := ctx.FindMapEntry(Some("forms"), FormKey(7)).value;
    ghost var formMaps0, maps0 := ctx.formMaps, ctx.maps;
    assert id7 in maps0 && maps0[id7] == map["object" := 1];
    assert ctx.FindMapEntry(Some("forms"), FormKey(0x14)).None?;
    SetFormsObject(ctx, path, FormKey(0x14), 5);
    assert ctx.FindStorage(Some("forms")) == Some(forms);
    OtherEntryKept(formMaps0, ctx.formMaps, forms, FormKey(0x14), forms, FormKey(7));
    assert ctx.FindMapEntry(Some("forms"), FormKey(7)) == Some(id7);
    assert ctx.FindMapEntry(Some("forms"), FormKey(0x14)).value != id7;
    assert ctx.maps[id7] == map["object" := 1];
    got7 := ctx.GetItem(FormKey(7), Some(path), 0);
    got14 := ctx.GetItem(FormKey(0x14), Some(path), 0);
  }
}
