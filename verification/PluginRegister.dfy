/**
 The plugin register: a table of plugins by type and name, and beside it an
 ordered list of names per type in which hardware codecs come first.
 */
module PluginRegister {
  import opened Sequences

  datatype PluginType =
    | INVALID_TYPE | SOURCE | DEMUXER | AUDIO_DECODER | AUDIO_ENCODER | VIDEO_DECODER | VIDEO_ENCODER
    | AUDIO_SINK | VIDEO_SINK | MUXER | OUTPUT_SINK | GENERIC_PLUGIN | UnknownType(n: nat)

  datatype CodecMode = HARDWARE | SOFTWARE

  datatype Status = OK | ERROR_INVALID_DATA | ERROR_UNKNOWN | ERROR_PLUGIN_ALREADY_EXISTS

  /** A loaded library, or none for built-in plugins. */
  datatype Loader = NoLoader | Library(id: nat)

  datatype PluginDef = PluginDef(pluginType: PluginType, name: string, rank: int, apiVersion: nat, codecMode: CodecMode)

  datatype RegInfo = RegInfo(pluginType: PluginType, codecMode: CodecMode, loader: Loader)

  type Names = map<PluginType, seq<string>>
  type Table = map<PluginType, map<string, RegInfo>>

  predicate IsCodec(t: PluginType) {
    t == AUDIO_DECODER || t == VIDEO_DECODER || t == AUDIO_ENCODER || t == VIDEO_ENCODER
  }

  /** Lookups as `std::map::operator[]` does them: an absent type has nothing. */
  function NamesOf(names: Names, t: PluginType): seq<string> {
    if t in names then names[t] else []
  }

  function TableOf(table: Table, t: PluginType): map<string, RegInfo> {
    if t in table then table[t] else map[]
  }

  // ------------------------------------------------------------------
  // Registration
  // ------------------------------------------------------------------

  predicate Verification(def: PluginDef) {
    0 <= def.rank <= 100 && def.pluginType != INVALID_TYPE
  }

  /** Major and minor version of the core for a type; all interfaces are at 1.0. */
  function CoreVersion(t: PluginType): (nat, nat) {
    if t.UnknownType? || t.INVALID_TYPE? then (0, 0) else (1, 0)
  }

  predicate VersionMatched(def: PluginDef) {
    def.pluginType == GENERIC_PLUGIN ||
    var (major, minor) := CoreVersion(def.pluginType);
    def.apiVersion / 0x1_0000 % 0x1_0000 == major && def.apiVersion % 0x1_0000 <= minor
  }

  function InfoOf(def: PluginDef, loader: Loader): RegInfo {
    RegInfo(def.pluginType, def.codecMode, loader)
  }

  /** Hardware codecs go to the front of the list of names. */
  predicate IsHardware(info: RegInfo) {
    IsCodec(info.pluginType) && info.codecMode == HARDWARE
  }

  function AddName(names: Names, info: RegInfo, name: string): Names {
    var list := NamesOf(names, info.pluginType);
    names[info.pluginType := if IsHardware(info) then [name] + list else list + [name]]
  }

  function AddInfo(table: Table, info: RegInfo, name: string): Table {
    table[info.pluginType := TableOf(table, info.pluginType)[name := info]]
  }

  class RegisterData {
    var registerNames: Names
    var registerTable: Table

    constructor ()
      ensures registerNames == map[] && registerTable == map[]
    {
      registerNames, registerTable := map[], map[];
    }

    predicate IsPluginExist(t: PluginType, name: string)
      reads this
    {
      name in TableOf(registerTable, t)
    }

    /** The names of a type, hardware codecs first, or last when software is preferred. */
    method ListPlugins(t: PluginType, preferred: CodecMode) returns (list: seq<string>)
      ensures list == Listed(NamesOf(registerNames, t), t, preferred)
    {
      list := NamesOf(registerNames, t);
      if IsCodec(t) && preferred != HARDWARE {
        var n := |list|;
        var reversed: seq<string> := [];
        for i := 0 to n
          invariant reversed == Reversed(list[..i])
        {
          assert list[..i + 1][..i] == list[..i];
          reversed := [list[i]] + reversed;
        }
        assert list[..n] == list;
        list := reversed;
      }
    }

    /** Removes a plugin from the table and every occurrence of its name from the list. */
    method DeletePlugin(t: PluginType, name: string)
      modifies this
      ensures NamesOf(registerNames, t) == Without(NamesOf(old(registerNames), t), {name})
      ensures TableOf(registerTable, t) == TableOf(old(registerTable), t) - {name}
      ensures forall u :: u != t ==>
        NamesOf(registerNames, u) == NamesOf(old(registerNames), u) && TableOf(registerTable, u) == TableOf(old(registerTable), u)
    {
      var list := NamesOf(registerNames, t);
      var kept: seq<string> := [];
      for i := 0 to |list|
        invariant kept == Without(list[..i], {name})
      {
        assert list[..i + 1][..i] == list[..i];
        if list[i] != name {
          kept := kept + [list[i]];
        }
      }
      assert list[..|list|] == list;
      registerNames := registerNames[t := kept];
      registerTable := registerTable[t := TableOf(registerTable, t) - {name}];
    }

    /** Removes, type by type, every plugin that holds the loader. */
    method EraseRegisteredPluginsByLoader(loader: Loader)
      modifies this
      ensures forall t :: NamesOf(registerNames, t) == Without(NamesOf(old(registerNames), t), Holding(TableOf(old(registerTable), t), loader))
      ensures forall t :: TableOf(registerTable, t) == TableOf(old(registerTable), t) - Holding(TableOf(old(registerTable), t), loader)
    {
      hide Without, Holding;
      var types := registerTable.Keys;
      while types != {}
        invariant types <= old(registerTable).Keys
        invariant forall t :: t in types || t !in old(registerTable) ==>
          NamesOf(registerNames, t) == NamesOf(old(registerNames), t) && TableOf(registerTable, t) == TableOf(old(registerTable), t)
        invariant forall t :: t in old(registerTable) && t !in types ==>
          && NamesOf(registerNames, t) == Without(NamesOf(old(registerNames), t), Holding(TableOf(old(registerTable), t), loader))
          && TableOf(registerTable, t) == TableOf(old(registerTable), t) - Holding(TableOf(old(registerTable), t), loader)
        decreases types
      {
        var t :| t in types;
        types := types - {t};
        ErasePluginsOfType(t, loader);
      }
      forall t
        ensures NamesOf(registerNames, t) == Without(NamesOf(old(registerNames), t), Holding(TableOf(old(registerTable), t), loader))
        ensures TableOf(registerTable, t) == TableOf(old(registerTable), t) - Holding(TableOf(old(registerTable), t), loader)
      {
        if t !in old(registerTable) {
          NothingHeld(NamesOf(old(registerNames), t), loader);
        }
      }
    }

    method ErasePluginsOfType(t: PluginType, loader: Loader)
      modifies this
      ensures NamesOf(registerNames, t) == Without(NamesOf(old(registerNames), t), Holding(TableOf(old(registerTable), t), loader))
      ensures TableOf(registerTable, t) == TableOf(old(registerTable), t) - Holding(TableOf(old(registerTable), t), loader)
      ensures forall u :: u != t ==>
        NamesOf(registerNames, u) == NamesOf(old(registerNames), u) && TableOf(registerTable, u) == TableOf(old(registerTable), u)
    {
      var plugins := TableOf(registerTable, t);
      ghost var names := NamesOf(registerNames, t);
      ghost var gone: set<string> := {};
      var rest := plugins.Keys;
      WithoutNone(names);
      while rest != {}
        invariant rest <= plugins.Keys
        invariant gone == set n | n in plugins && n !in rest && plugins[n].loader == loader
        invariant NamesOf(registerNames, t) == Without(names, gone)
        invariant TableOf(registerTable, t) == plugins - gone
        invariant forall u :: u != t ==>
          NamesOf(registerNames, u) == NamesOf(old(registerNames), u) && TableOf(registerTable, u) == TableOf(old(registerTable), u)
        decreases rest
      {
        var name :| name in rest;
        rest := rest - {name};
        if plugins[name].loader == loader {
          DeletePlugin(t, name);
          WithoutTwice(names, gone, {name});
          assert plugins - gone - {name} == plugins - (gone + {name});
          gone := gone + {name};
        }
      }
      assert gone == Holding(plugins, loader);
    }
  }

  /** The names of the plugins that hold the loader. */
  function Holding(plugins: map<string, RegInfo>, loader: Loader): set<string> {
    set n | n in plugins && plugins[n].loader == loader
  }

  lemma NothingHeld(names: seq<string>, loader: Loader)
    ensures Holding(map[], loader) == {} && Without(names, {}) == names
    ensures var none: map<string, RegInfo> := map[]; none - Holding(none, loader) == none
  {
  }

  lemma {:induction false} WithoutNone(s: seq<string>)
    ensures Without(s, {}) == s
  {
    if s != [] {
      WithoutNone(s[..|s| - 1]);
    }
  }

  lemma {:induction false} WithoutTwice(s: seq<string>, a: set<string>, b: set<string>)
    ensures Without(Without(s, a), b) == Without(s, a + b)
  {
    if s != [] {
      var init, last := s[..|s| - 1], s[|s| - 1];
      WithoutTwice(init, a, b);
      var r := Without(init, a);
      if last in a {
        assert Without(s, a) == r;
      } else {
        assert (r + [last])[..|r|] == r;
      }
    }
  }

  function Reversed(s: seq<string>): seq<string> {
    if s == [] then [] else [s[|s| - 1]] + Reversed(s[..|s| - 1])
  }

  function Listed(names: seq<string>, t: PluginType, preferred: CodecMode): seq<string> {
    if IsCodec(t) && preferred != HARDWARE then Reversed(names) else names
  }

  /** `s` without the names of `drop`, in the same order. */
  function Without(s: seq<string>, drop: set<string>): seq<string> {
    if s == [] then []
    else
      var last := s[|s| - 1];
      Without(s[..|s| - 1], drop) + if last in drop then [] else [last]
  }

  /** One package's view of the register, with the loader it was opened for. */
  class RegisterImpl {
    var pluginLoader: Loader
    const registerData: RegisterData

    constructor (data: RegisterData, loader: Loader)
      ensures registerData == data && pluginLoader == loader
    {
      registerData, pluginLoader := data, loader;
    }

    method AddPlugin(def: PluginDef) returns (status: Status)
      modifies this, registerData
      ensures status == AddStatus(old(registerData.registerTable), def)
      ensures status == ERROR_INVALID_DATA <==> def.rank < 0 || def.rank > 100 || def.pluginType == INVALID_TYPE
      ensures status == ERROR_UNKNOWN <==>
        && 0 <= def.rank <= 100 && def.pluginType != INVALID_TYPE && def.pluginType != GENERIC_PLUGIN
        && !(if def.pluginType.UnknownType? then def.apiVersion % 0x1_0000_0000 == 0
             else def.apiVersion % 0x1_0000_0000 == 0x1_0000)
      ensures status == ERROR_PLUGIN_ALREADY_EXISTS ==> old(registerData.IsPluginExist(def.pluginType, def.name))
      ensures status == OK ==> !old(registerData.IsPluginExist(def.pluginType, def.name))
      ensures status == OK && !def.pluginType.UnknownType? ==>
        && def.pluginType in registerData.registerTable && def.name in registerData.registerTable[def.pluginType]
        && registerData.registerTable[def.pluginType][def.name] == RegInfo(def.pluginType, def.codecMode, old(pluginLoader))
        && pluginLoader == NoLoader
      ensures def.pluginType.UnknownType? ==>
        && registerData.registerTable == old(registerData.registerTable)
        && registerData.registerNames == old(registerData.registerNames) && pluginLoader == old(pluginLoader)
      ensures
        if status == OK && Kept(def) then
          && registerData.registerNames == AddName(old(registerData.registerNames), InfoOf(def, old(pluginLoader)), def.name)
          && registerData.registerTable == AddInfo(old(registerData.registerTable), InfoOf(def, old(pluginLoader)), def.name)
          && pluginLoader == NoLoader
        else
          && registerData.registerNames == old(registerData.registerNames)
          && registerData.registerTable == old(registerData.registerTable)
          && pluginLoader == old(pluginLoader)
    {
      if !Verification(def) {
        return ERROR_INVALID_DATA;
      }
      if !VersionMatched(def) {
        return ERROR_UNKNOWN;
      }
      if registerData.IsPluginExist(def.pluginType, def.name) {
        return ERROR_PLUGIN_ALREADY_EXISTS;
      }
      UpdateRegisterTableAndRegisterNames(def);
      return OK;
    }

    /** The loader moves into the new entry: what the package registers next has none. */
    method UpdateRegisterTableAndRegisterNames(def: PluginDef)
      modifies this, registerData
      ensures
        if Kept(def) then
          && registerData.registerNames == AddName(old(registerData.registerNames), InfoOf(def, old(pluginLoader)), def.name)
          && registerData.registerTable == AddInfo(old(registerData.registerTable), InfoOf(def, old(pluginLoader)), def.name)
          && pluginLoader == NoLoader
        else
          && registerData.registerNames == old(registerData.registerNames)
          && registerData.registerTable == old(registerData.registerTable)
          && pluginLoader == old(pluginLoader)
    {
      if !Kept(def) {
        return;
      }
      var info := InfoOf(def, pluginLoader);
      pluginLoader := NoLoader;
      registerData.registerTable := AddInfo(registerData.registerTable, info, def.name);
      registerData.registerNames := AddName(registerData.registerNames, info, def.name);
    }
  }

  /** A definition of a type that the register has a case for. */
  predicate Kept(def: PluginDef) {
    !def.pluginType.UnknownType? && def.pluginType != INVALID_TYPE
  }

  function AddStatus(table: Table, def: PluginDef): Status {
    if !Verification(def) then ERROR_INVALID_DATA
    else if !VersionMatched(def) then ERROR_UNKNOWN
    else if def.name in TableOf(table, def.pluginType) then ERROR_PLUGIN_ALREADY_EXISTS
    else OK
  }

  /** Only decoders and encoders of audio and video are codecs, and go to the front when they are in hardware. */
  lemma CodecTypes(def: PluginDef, loader: Loader)
    ensures IsCodec(def.pluginType) <==> def.pluginType in {AUDIO_DECODER, VIDEO_DECODER, AUDIO_ENCODER, VIDEO_ENCODER}
    ensures IsHardware(InfoOf(def, loader)) <==>
      def.codecMode == HARDWARE && def.pluginType in {AUDIO_DECODER, VIDEO_DECODER, AUDIO_ENCODER, VIDEO_ENCODER}
  {
  }

  // ------------------------------------------------------------------
  // The representation invariant
  // ------------------------------------------------------------------

  /** The list names the table's plugins, each once, hardware codecs before all others. */
  ghost predicate Agree(names: seq<string>, plugins: map<string, RegInfo>, t: PluginType) {
    && Distinct(names) && Elems(names) == plugins.Keys
    && (forall n :: n in plugins ==> plugins[n].pluginType == t)
    && forall i, j :: 0 <= i < j < |names| && names[i] in plugins && names[j] in plugins && IsHardware(plugins[names[j]]) ==>
         IsHardware(plugins[names[i]])
  }

  ghost predicate Consistent(names: Names, table: Table) {
    forall t :: Agree(NamesOf(names, t), TableOf(table, t), t)
  }

  lemma AddAgrees(names: seq<string>, plugins: map<string, RegInfo>, info: RegInfo, name: string)
    requires Agree(names, plugins, info.pluginType) && name !in plugins
    ensures Agree(if IsHardware(info) then [name] + names else names + [name], plugins[name := info], info.pluginType)
  {
    assert name !in Elems(names);
    assert Elems([name] + names) == {name} + Elems(names) && Elems(names + [name]) == Elems(names) + {name};
    assert forall i :: 0 <= i < |names| ==> names[i] in Elems(names);
  }

  lemma {:induction false} WithoutFacts(s: seq<string>, drop: set<string>)
    ensures Elems(Without(s, drop)) == Elems(s) - drop
    ensures Distinct(s) ==> Distinct(Without(s, drop))
  {
    if s != [] {
      var init, last := s[..|s| - 1], s[|s| - 1];
      assert s == init + [last];
      WithoutFacts(init, drop);
      var r := Without(init, drop);
      assert Elems(s) == Elems(init) + {last};
      assert Elems(r + [last]) == Elems(r) + {last};
      assert forall x :: x in r ==> x in Elems(r);
      if last in drop {
        assert Without(s, drop) == r;
      } else {
        assert Without(s, drop) == r + [last];
      }
    }
  }

  /** Dropping names keeps the order of those that stay. */
  lemma {:induction false} WithoutOrder(s: seq<string>, drop: set<string>, i: nat, j: nat) returns (i': nat, j': nat)
    requires i < j < |Without(s, drop)|
    ensures i' < j' < |s| && s[i'] == Without(s, drop)[i] && s[j'] == Without(s, drop)[j]
  {
    var init, last := s[..|s| - 1], s[|s| - 1];
    var r := Without(init, drop);
    if j < |r| {
      i', j' := WithoutOrder(init, drop, i, j);
    } else {
      j' := |s| - 1;
      assert r[i] in Elems(r);
      WithoutFacts(init, drop);
      i' :| 0 <= i' < |init| && init[i'] == r[i];
    }
  }

  lemma EraseAgrees(names: seq<string>, plugins: map<string, RegInfo>, t: PluginType, drop: set<string>)
    requires Agree(names, plugins, t)
    ensures Agree(Without(names, drop), plugins - drop, t)
  {
    WithoutFacts(names, drop);
    var kept := Without(names, drop);
    forall i, j | 0 <= i < j < |kept| && kept[i] in plugins - drop && kept[j] in plugins - drop && IsHardware(plugins[kept[j]])
      ensures IsHardware(plugins[kept[i]])
    {
      var i', j' := WithoutOrder(names, drop, i, j);
    }
  }

  datatype Op = Add(def: PluginDef, loader: Loader) | Erase(loader: Loader)

  datatype Register = Register(names: Names, table: Table)

  /** One operation on the register; an added plugin gets the loader its package still holds. */
  ghost predicate Step(r: Register, op: Op, r': Register) {
    match op
    case Add(def, loader) =>
      if AddStatus(r.table, def) == OK && Kept(def) then
        r' == Register(AddName(r.names, InfoOf(def, loader), def.name), AddInfo(r.table, InfoOf(def, loader), def.name))
      else r' == r
    case Erase(loader) =>
      forall t ::
        && NamesOf(r'.names, t) == Without(NamesOf(r.names, t), Holding(TableOf(r.table, t), loader))
        && TableOf(r'.table, t) == TableOf(r.table, t) - Holding(TableOf(r.table, t), loader)
  }

  lemma StepKeeps(r: Register, op: Op, r': Register)
    requires Consistent(r.names, r.table) && Step(r, op, r')
    ensures Consistent(r'.names, r'.table)
  {
    match op
    case Add(def, loader) =>
      if AddStatus(r.table, def) == OK && Kept(def) {
        AddAgrees(NamesOf(r.names, def.pluginType), TableOf(r.table, def.pluginType), InfoOf(def, loader), def.name);
        forall t
          ensures Agree(NamesOf(r'.names, t), TableOf(r'.table, t), t)
        {
          assert t != def.pluginType ==> NamesOf(r'.names, t) == NamesOf(r.names, t) && TableOf(r'.table, t) == TableOf(r.table, t);
        }
      }
    case Erase(loader) =>
      forall t
        ensures Agree(NamesOf(r'.names, t), TableOf(r'.table, t), t)
      {
        EraseAgrees(NamesOf(r.names, t), TableOf(r.table, t), t, Holding(TableOf(r.table, t), loader));
      }
  }

  /** Over any sequence of registrations and erasures, lists and table agree. */
  lemma {:induction false} RunsAgree(states: seq<Register>, ops: seq<Op>, i: nat)
    requires |states| == |ops| + 1 && states[0] == Register(map[], map[])
    requires forall k :: 0 <= k < |ops| ==> Step(states[k], ops[k], states[k + 1])
    requires i < |states|
    ensures Consistent(states[i].names, states[i].table)
  {
    if i > 0 {
      RunsAgree(states, ops, i - 1);
      StepKeeps(states[i - 1], ops[i - 1], states[i]);
    }
  }

  // ------------------------------------------------------------------
  // Listing
  // ------------------------------------------------------------------

  lemma {:induction false} ReversedAt(s: seq<string>)
    ensures |Reversed(s)| == |s|
    ensures forall i :: 0 <= i < |s| ==> Reversed(s)[i] == s[|s| - 1 - i]
  {
    if s != [] {
      ReversedAt(s[..|s| - 1]);
    }
  }

  /** The list shows every plugin of the type once, those of the preferred mode before the others. */
  lemma PreferredFirst(names: seq<string>, plugins: map<string, RegInfo>, t: PluginType, preferred: CodecMode)
    requires Agree(names, plugins, t)
    ensures
      var list := Listed(names, t, preferred);
      && Distinct(list) && Elems(list) == plugins.Keys
      && forall i, j :: 0 <= i < j < |list| && list[i] in plugins && list[j] in plugins && IsCodec(t) ==>
           (plugins[list[j]].codecMode == preferred ==> plugins[list[i]].codecMode == preferred)
  {
    var list := Listed(names, t, preferred);
    if IsCodec(t) && preferred != HARDWARE {
      ReversedAt(names);
      forall n | n in names
        ensures n in list
      {
        var k :| 0 <= k < |names| && names[k] == n;
        assert list[|names| - 1 - k] == n;
      }
      assert Elems(list) == Elems(names);
    }
  }

  // ------------------------------------------------------------------
  // A package and its loader
  // ------------------------------------------------------------------

  /** The two registers hold the same plugins in the same order. */
  ghost predicate SameContents(a: Register, b: Register) {
    forall t :: NamesOf(a.names, t) == NamesOf(b.names, t) && TableOf(a.table, t) == TableOf(b.table, t)
  }

  predicate Accepted(r: Register, def: PluginDef) {
    AddStatus(r.table, def) == OK && Kept(def)
  }

  function AddOne(r: Register, loader: Loader, def: PluginDef): (Register, Loader) {
    if Accepted(r, def) then
      (Register(AddName(r.names, InfoOf(def, loader), def.name), AddInfo(r.table, InfoOf(def, loader), def.name)), NoLoader)
    else (r, loader)
  }

  /** A package registers its plugins one after the other; also how many of them were accepted. */
  function AddPackage(r: Register, loader: Loader, defs: seq<PluginDef>): (Register, Loader, nat) {
    if defs == [] then (r, loader, 0)
    else
      var (r1, l1, n) := AddPackage(r, loader, defs[..|defs| - 1]);
      var def := defs[|defs| - 1];
      var (r2, l2) := AddOne(r1, l1, def);
      (r2, l2, if Accepted(r1, def) then n + 1 else n)
  }

  ghost predicate Unheld(r: Register, loader: Loader) {
    forall t, n :: n in TableOf(r.table, t) ==> TableOf(r.table, t)[n].loader != loader
  }

  /** A plugin that came with the package but does not hold its loader. */
  ghost predicate Orphan(r: Register, r': Register, t: PluginType, n: string) {
    n !in TableOf(r.table, t) && n in TableOf(r'.table, t) && TableOf(r'.table, t)[n].loader == NoLoader
  }

  lemma {:induction false} PackageShape(r: Register, loader: Loader, defs: seq<PluginDef>)
    ensures
      var (r', l', n) := AddPackage(r, loader, defs);
      && (n == 0 ==> r' == r && l' == loader)
      && (n == 1 ==> l' == NoLoader && exists def :: Accepted(r, def) && r' == AddOne(r, loader, def).0)
      && (n >= 2 ==> l' == NoLoader && exists t, m :: Orphan(r, r', t, m))
  {
    if defs != [] {
      var init, def := defs[..|defs| - 1], defs[|defs| - 1];
      PackageShape(r, loader, init);
      var (r1, l1, n) := AddPackage(r, loader, init);
      if Accepted(r1, def) {
        var r2 := AddOne(r1, l1, def).0;
        if n == 1 {
          var first :| Accepted(r, first) && r1 == AddOne(r, loader, first).0;
          assert Orphan(r, r2, def.pluginType, def.name);
        } else if n >= 2 {
          var t, m :| Orphan(r, r1, t, m);
          assert Orphan(r, r2, t, m);
        }
      }
    }
  }

  lemma {:induction false} WithoutAbsent(s: seq<string>, drop: set<string>)
    requires Elems(s) !! drop
    ensures Without(s, drop) == s
  {
    if s != [] {
      assert s[|s| - 1] in Elems(s) && Elems(s[..|s| - 1]) <= Elems(s);
      WithoutAbsent(s[..|s| - 1], drop);
    }
  }

  lemma {:induction false} WithoutFront(name: string, s: seq<string>, drop: set<string>)
    ensures Without([name] + s, drop) == (if name in drop then [] else [name]) + Without(s, drop)
  {
    if s == [] {
      assert [name] + s == [name] && [name][..0] == [];
    } else {
      var init, last := s[..|s| - 1], s[|s| - 1];
      WithoutFront(name, init, drop);
      assert ([name] + s)[..|s|] == [name] + init && ([name] + s)[|s|] == last;
    }
  }

  lemma EraseUndoesAdd(names: seq<string>, name: string)
    requires name !in names
    ensures Without([name] + names, {name}) == names && Without(names + [name], {name}) == names
  {
    assert Elems(names) !! {name};
    WithoutAbsent(names, {name});
    WithoutFront(name, names, {name});
    assert (names + [name])[..|names|] == names;
  }

  /**
   Erasing the loader of a package gives back the register from before the package
   exactly when it registered at most one plugin: the first plugin takes the loader,
   so further ones stay behind.
   */
  lemma PackageErased(r: Register, id: nat, defs: seq<PluginDef>, erased: Register)
    requires Consistent(r.names, r.table) && Unheld(r, Library(id))
    requires Step(AddPackage(r, Library(id), defs).0, Erase(Library(id)), erased)
    ensures SameContents(erased, r) <==> AddPackage(r, Library(id), defs).2 <= 1
  {
    var (r', _, n) := AddPackage(r, Library(id), defs);
    PackageShape(r, Library(id), defs);
    if n >= 2 {
      var t, m :| Orphan(r, r', t, m);
      assert m in TableOf(erased.table, t);
    } else {
      forall t
        ensures NamesOf(erased.names, t) == NamesOf(r.names, t) && TableOf(erased.table, t) == TableOf(r.table, t)
      {
        ErasedType(r, id, r', n, t);
      }
    }
  }

  /** Two demuxers from one library: the second is still there when the library's plugins have been erased. */
  lemma SecondPluginStays(id: nat, erased: Register)
    requires
      var defs := [PluginDef(DEMUXER, "a", 0, 0x1_0000, SOFTWARE), PluginDef(DEMUXER, "b", 0, 0x1_0000, SOFTWARE)];
      Step(AddPackage(Register(map[], map[]), Library(id), defs).0, Erase(Library(id)), erased)
    ensures "b" in TableOf(erased.table, DEMUXER) && "a" !in TableOf(erased.table, DEMUXER)
  {
    var first, second := PluginDef(DEMUXER, "a", 0, 0x1_0000, SOFTWARE), PluginDef(DEMUXER, "b", 0, 0x1_0000, SOFTWARE);
    var empty := Register(map[], map[]);
    assert [first, second][..1] == [first] && [first][..0] == [];
    assert AddPackage(empty, Library(id), []) == (empty, Library(id), 0);
    var (r1, l1, _) := AddPackage(empty, Library(id), [first]);
    assert TableOf(r1.table, DEMUXER) == map["a" := InfoOf(first, Library(id))] && l1 == NoLoader;
    var (r2, _, _) := AddPackage(empty, Library(id), [first, second]);
    assert TableOf(r2.table, DEMUXER)["a"].loader == Library(id) && TableOf(r2.table, DEMUXER)["b"].loader == NoLoader;
    assert Holding(TableOf(r2.table, DEMUXER), Library(id)) == {"a"};
  }

  lemma ErasedType(r: Register, id: nat, r': Register, n: nat, t: PluginType)
    requires Consistent(r.names, r.table) && Unheld(r, Library(id))
    requires n <= 1 && (n == 0 ==> r' == r)
    requires n == 1 ==> exists def :: Accepted(r, def) && r' == AddOne(r, Library(id), def).0
    ensures Without(NamesOf(r'.names, t), Holding(TableOf(r'.table, t), Library(id))) == NamesOf(r.names, t)
    ensures TableOf(r'.table, t) - Holding(TableOf(r'.table, t), Library(id)) == TableOf(r.table, t)
  {
    hide Without, Distinct, Accepted;
    var plugins, names := TableOf(r.table, t), NamesOf(r.names, t);
    assert Agree(names, plugins, t);
    assert Holding(plugins, Library(id)) == {};
    WithoutNone(names);
    if n == 1 {
      var def :| Accepted(r, def) && r' == AddOne(r, Library(id), def).0;
      NewName(r, def);
      if def.pluginType == t {
        NewHolder(plugins, def, id);
        assert def.name !in Elems(names);
        EraseUndoesAdd(names, def.name);
      }
    }
  }

  lemma NewName(r: Register, def: PluginDef)
    requires Accepted(r, def)
    ensures def.name !in TableOf(r.table, def.pluginType)
  {
  }

  lemma NewHolder(plugins: map<string, RegInfo>, def: PluginDef, id: nat)
    requires Holding(plugins, Library(id)) == {} && def.name !in plugins
    ensures
      var added := plugins[def.name := InfoOf(def, Library(id))];
      Holding(added, Library(id)) == {def.name} && added - {def.name} == plugins
  {
  }
}
