/**
  The REST-support hook (`custom_post_type_rest_support`, run on `init`): when
  the endpoint setting is not PHP-empty, every name it lists gets its entry in
  the host's post-type registry flagged `show_in_rest = true`, one name after
  the other in list order.
 */
module RestSupport {
  import opened EndpointList

  /** A post type's registration record. Only `showInRest` is written by the
      plugin; the other fields stand for the rest of the registration. */
  datatype PostType = PostType(title: string, isPublic: bool, builtin: bool, showInRest: bool)

  /** One step of the loop: flag `name` if it is registered, otherwise leave
      the registry alone (the PHP hook would assign through a missing entry there). */
  function ExposeOne(types: map<string, PostType>, name: string): (r: map<string, PostType>)
    ensures r.Keys == types.Keys
    ensures name in types ==> r[name].showInRest && r[name].(showInRest := types[name].showInRest) == types[name]
    ensures forall other :: other in types && other != name ==> r[other] == types[other]
  {
    if name in types then types[name := types[name].(showInRest := true)] else types
  }

  /** The registry after the loop has run over `names` in order. */
  function ExposeAll(types: map<string, PostType>, names: seq<string>): (r: map<string, PostType>)
    ensures r.Keys == types.Keys
    ensures forall name :: name in types ==>
      r[name] == types[name].(showInRest := types[name].showInRest || name in names)
  {
    if names == [] then types
    else
      var last := names[|names| - 1];
      assert forall name :: name in names <==> name in names[..|names| - 1] || name == last;
      ExposeOne(ExposeAll(types, names[..|names| - 1]), last)
  }

  /** What the hook does to the registry for a given stored setting. */
  function Applied(types: map<string, PostType>, setting: StoredOption): (r: map<string, PostType>)
    ensures r.Keys == types.Keys
    ensures IsEmpty(setting) ==> r == types
    ensures forall name :: name in types ==>
      r[name].(showInRest := types[name].showInRest) == types[name] &&
      (types[name].showInRest ==> r[name].showInRest)
  {
    if IsEmpty(setting) then types else ExposeAll(types, Parse(setting.text))
  }

  /** The listed names that have no registry entry, in list order: the ones for
      which the PHP hook reaches past the registry. */
  function Unregistered(types: map<string, PostType>, names: seq<string>): (r: seq<string>)
    ensures forall name :: name in r <==> name in names && name !in types
    ensures |r| <= |names|
  {
    if names == [] then []
    else
      var last := names[|names| - 1];
      assert forall name :: name in names <==> name in names[..|names| - 1] || name == last;
      Unregistered(types, names[..|names| - 1]) + (if last in types then [] else [last])
  }

  /** The host's registry of post types, updated in place by the hook. */
  class Registry {
    var types: map<string, PostType>

    constructor (types: map<string, PostType>)
      ensures this.types == types
    {
      this.types := types;
    }

    /** `custom_post_type_rest_support`: when the setting is not PHP-empty,
        flags every listed, registered name and reports the listed names that
        are not registered, which it skips. */
    method ApplyRestSupport(setting: StoredOption) returns (skipped: seq<string>)
      modifies this
      ensures types == Applied(old(types), setting)
      ensures skipped == if IsEmpty(setting) then [] else Unregistered(old(types), Parse(setting.text))
    {
      skipped := [];
      if !IsEmpty(setting) {
        var names := Parse(setting.text);
        skipped := ExposeListed(names);
      }
    }

    /** The hook's `foreach`: sets `showInRest` on each listed entry in turn. */
    method ExposeListed(names: seq<string>) returns (skipped: seq<string>)
      modifies this
      ensures types == ExposeAll(old(types), names)
      ensures skipped == Unregistered(old(types), names)
    {
      skipped := [];
      ghost var before := types;
      var i := 0;
      while i < |names|
        invariant 0 <= i <= |names|
        invariant types == ExposeAll(before, names[..i])
        invariant skipped == Unregistered(before, names[..i])
      {
        var name := names[i];
        ghost var done := names[..i + 1];
        assert done[..i] == names[..i] && done[i] == name;
        assert name in types <==> name in before;
        assert ExposeAll(before, done) == ExposeOne(types, name);
        assert Unregistered(before, done)
            == skipped + (if name in before then [] else [name]);
        if name in types {
          types := types[name := types[name].(showInRest := true)];
        } else {
          skipped := skipped + [name];
        }
        i := i + 1;
      }
      assert names[..i] == names;
    }
  }

  // ---------------------------------------------------------------------------
  // What the hook guarantees

  /** A PHP-empty setting (never saved, `""` or `"0"`) leaves the registry as it was. */
  lemma EmptySettingNoChange(types: map<string, PostType>, setting: StoredOption)
    requires IsEmpty(setting)
    ensures Applied(types, setting) == types
  {
  }

  /** After the hook, every listed name that is registered is exposed; every
      registered name that is not listed, and every field other than
      `showInRest`, keeps its old value; no entry is added or removed. */
  lemma AppliedFlagsListed(types: map<string, PostType>, setting: StoredOption, name: string)
    requires !IsEmpty(setting)
    requires name in types
    ensures Applied(types, setting).Keys == types.Keys
    ensures name in Parse(setting.text) ==> Applied(types, setting)[name].showInRest
    ensures name !in Parse(setting.text) ==> Applied(types, setting)[name] == types[name]
    ensures Applied(types, setting)[name].(showInRest := types[name].showInRest) == types[name]
  {
  }

  /** Running the hook twice leaves the registry as running it once. */
  lemma AppliedIdempotent(types: map<string, PostType>, setting: StoredOption)
    ensures Applied(Applied(types, setting), setting) == Applied(types, setting)
  {
    if !IsEmpty(setting) {
      var once := Applied(types, setting);
      var twice := Applied(once, setting);
      assert twice.Keys == once.Keys;
      forall name | name in once ensures twice[name] == once[name] { }
    }
  }

  /** The order of the names does not matter: the registry after the hook
      depends only on the set of listed names. */
  lemma ExposeAllOrderFree(types: map<string, PostType>, p: seq<string>, q: seq<string>)
    requires forall name :: name in p <==> name in q
    ensures ExposeAll(types, p) == ExposeAll(types, q)
  {
    var r1, r2 := ExposeAll(types, p), ExposeAll(types, q);
    assert r1.Keys == r2.Keys;
    forall name | name in r1 ensures r1[name] == r2[name] { }
  }

  /** A setting that names only unregistered types changes nothing. */
  lemma UnregisteredOnlyNoChange(types: map<string, PostType>, text: string)
    requires forall name :: name in Parse(text) ==> name !in types
    ensures Applied(types, Stored(text)) == types
  {
    var r := Applied(types, Stored(text));
    assert r.Keys == types.Keys;
    forall name | name in types ensures r[name] == types[name] { }
  }
}
