/** The configuration engine of decorators.py: discovery across several config
    directories, the choice between the base class and a named variant, and
    `_build_config`, which merges base defaults, group swaps and dotted field
    overrides into the final config object. */
module Decorators {
  import opened Results
  import opened Utils
  import opened Schema
  import opened Registry

  // ---------------------------------------------------------------------------
  // Dotted paths: `path.split(".")`

  /** `s.split(".")`: the pieces between dots, always at least one (possibly empty). */
  function SplitDots(s: string): (parts: seq<string>)
    ensures |parts| >= 1
    ensures forall i :: 0 <= i < |parts| ==> '.' !in parts[i]
    decreases |s|
  {
    if s == [] then [[]]
    else
      var rest := SplitDots(s[1..]);
      if s[0] == '.' then [[]] + rest
      else [[s[0]] + rest[0]] + rest[1..]
  }

  /** `".".join(parts)`. */
  function JoinDots(parts: seq<string>): string
    requires |parts| >= 1
    decreases |parts|
  {
    if |parts| == 1 then parts[0] else parts[0] + ['.'] + JoinDots(parts[1..])
  }

  /** Splitting loses nothing: joining the pieces gives the path back. */
  lemma {:induction false} JoinSplit(s: string)
    ensures JoinDots(SplitDots(s)) == s
    decreases |s|
  {
    if s != [] {
      var rest := SplitDots(s[1..]);
      JoinSplit(s[1..]);
      if s[0] == '.' {
        assert ([[]] + rest)[1..] == rest;
        assert s == ['.'] + s[1..];
      } else {
        var parts := [[s[0]] + rest[0]] + rest[1..];
        if |rest| == 1 {
          assert s == [s[0]] + s[1..];
        } else {
          assert parts[1..] == rest[1..];
          assert JoinDots(rest) == rest[0] + ['.'] + JoinDots(rest[1..]);
          assert s == [s[0]] + s[1..];
        }
      }
    }
  }

  /** A dot-free prefix joins the first piece of what follows it. */
  lemma {:induction false} SplitDotFree(a: string, tail: string)
    requires '.' !in a
    ensures SplitDots(a + tail) == [a + SplitDots(tail)[0]] + SplitDots(tail)[1..]
    decreases |a|
  {
    var st := SplitDots(tail);
    if a != [] {
      assert (a + tail)[1..] == a[1..] + tail;
      assert (a + tail)[0] == a[0] && a[0] != '.';
      SplitDotFree(a[1..], tail);
      var rest := SplitDots(a[1..] + tail);
      assert rest[0] == a[1..] + st[0] && rest[1..] == st[1..];
      assert [a[0]] + (a[1..] + st[0]) == a + st[0];
    } else {
      assert a + tail == tail;
      assert a + st[0] == st[0];
      assert st == [st[0]] + st[1..];
    }
  }

  /** Joining dot-free keys and splitting again gives the keys back. */
  lemma {:induction false} SplitJoin(parts: seq<string>)
    requires |parts| >= 1
    requires forall i :: 0 <= i < |parts| ==> '.' !in parts[i]
    ensures SplitDots(JoinDots(parts)) == parts
    decreases |parts|
  {
    if |parts| == 1 {
      SplitDotFree(parts[0], []);
      assert parts[0] + [] == parts[0];
      assert SplitDots([]) == [[]];
      assert parts == [parts[0]];
    } else {
      var rest := JoinDots(parts[1..]);
      SplitJoin(parts[1..]);
      assert parts[0] + ['.'] + rest == parts[0] + (['.'] + rest);
      SplitDotFree(parts[0], ['.'] + rest);
      assert (['.'] + rest)[1..] == rest && (['.'] + rest)[0] == '.';
      var st := SplitDots(['.'] + rest);
      assert st == [[]] + parts[1..];
      assert st[0] == [] && st[1..] == parts[1..];
      assert parts[0] + [] == parts[0];
      assert parts == [parts[0]] + parts[1..];
    }
  }

  // ---------------------------------------------------------------------------
  // Discovery over several directories and the choice of the root class

  /** The registrations of all directories, in the order they are given. */
  function AllRegistrations(dirs: seq<Directory>): seq<Registration>
    decreases |dirs|
  {
    if dirs == [] then [] else AllRegistrations(dirs[..|dirs| - 1]) + DirRegistrations(dirs[|dirs| - 1])
  }

  /** A new registry, then `discover` on each existing directory in turn. */
  method DiscoverAll(dirs: seq<Directory>) returns (registry: ConfigRegistry)
    ensures fresh(registry)
    ensures registry.State() == ApplyAll(Empty, AllRegistrations(dirs))
  {
    registry := new ConfigRegistry();
    var i := 0;
    while i < |dirs|
      invariant 0 <= i <= |dirs|
      invariant fresh(registry)
      invariant registry.State() == ApplyAll(Empty, AllRegistrations(dirs[..i]))
    {
      DiscoverStep(dirs, i);
      if dirs[i].Present? {
        registry.Discover(dirs[i]);
      }
      i := i + 1;
    }
    assert dirs[..|dirs|] == dirs;
  }

  /** One more directory: its registrations are performed after the earlier ones'. */
  lemma DiscoverStep(dirs: seq<Directory>, i: nat)
    requires i < |dirs|
    ensures ApplyAll(Empty, AllRegistrations(dirs[..i + 1])) ==
      ApplyAll(ApplyAll(Empty, AllRegistrations(dirs[..i])), DirRegistrations(dirs[i]))
    ensures dirs[i].Missing? ==> ApplyAll(Empty, AllRegistrations(dirs[..i + 1])) == ApplyAll(Empty, AllRegistrations(dirs[..i]))
  {
    assert dirs[..i + 1][..i] == dirs[..i];
    ApplyAllAppend(Empty, AllRegistrations(dirs[..i]), DirRegistrations(dirs[i]));
  }

  lemma {:induction false} AllFlatten(dirs: seq<Directory>)
    ensures AllRegistrations(dirs) == FlattenBy(dirs, DirRegistrations)
    decreases |dirs|
  {
    if dirs != [] {
      AllFlatten(dirs[..|dirs| - 1]);
    }
  }

  /** The last group registration of (g, n) across directories comes from the last
      directory that registers (g, n) at all. */
  lemma LastInGroupAcross(dirs: seq<Directory>, k: nat, g: string, n: string)
    requires k < |dirs| && LastInGroup(DirRegistrations(dirs[k]), g, n).Some?
    requires forall j :: k < j < |dirs| ==> LastInGroup(DirRegistrations(dirs[j]), g, n).None?
    ensures LastInGroup(AllRegistrations(dirs), g, n) == LastInGroup(DirRegistrations(dirs[k]), g, n)
  {
    AllFlatten(dirs);
    LastInGroupFlatten(dirs, DirRegistrations, k, g, n);
  }

  lemma LastVariantAcross(dirs: seq<Directory>, k: nat, v: string)
    requires k < |dirs| && LastVariant(DirRegistrations(dirs[k]), v).Some?
    requires forall j :: k < j < |dirs| ==> LastVariant(DirRegistrations(dirs[j]), v).None?
    ensures LastVariant(AllRegistrations(dirs), v) == LastVariant(DirRegistrations(dirs[k]), v)
  {
    AllFlatten(dirs);
    LastVariantFlatten(dirs, DirRegistrations, k, v);
  }

  /** Later directories override earlier ones: when directory k registers (g, n)
      and no later directory does, the registry built from all of them returns
      directory k's class. */
  lemma LaterDirectoryWinsGroup(dirs: seq<Directory>, k: nat, g: string, n: string)
    requires k < |dirs| && LastInGroup(DirRegistrations(dirs[k]), g, n).Some?
    requires forall j :: k < j < |dirs| ==> LastInGroup(DirRegistrations(dirs[j]), g, n).None?
    ensures FindInGroup(ApplyAll(Empty, AllRegistrations(dirs)), g, n) ==
      Ok(LastInGroup(DirRegistrations(dirs[k]), g, n).value)
  {
    LastInGroupAcross(dirs, k, g, n);
    FindAfterApplyAll(Empty, AllRegistrations(dirs), g, n);
  }

  /** The same for variants: the last directory that registers a variant name wins. */
  lemma LaterDirectoryWinsVariant(dirs: seq<Directory>, k: nat, v: string)
    requires k < |dirs| && LastVariant(DirRegistrations(dirs[k]), v).Some?
    requires forall j :: k < j < |dirs| ==> LastVariant(DirRegistrations(dirs[j]), v).None?
    ensures FindVariant(ApplyAll(Empty, AllRegistrations(dirs)), v) ==
      Ok(LastVariant(DirRegistrations(dirs[k]), v).value)
  {
    LastVariantAcross(dirs, k, v);
    FindVariantAfterApplyAll(Empty, AllRegistrations(dirs), v);
  }

  /** The class the build starts from: the named variant when a non-empty name is
      given, the base class when the name is absent or empty. */
  function SelectConfigClass(base: PyClass, t: Tables, variant: Option<string>): (r: Result<PyClass, LookupError>)
    ensures variant.None? || variant.value == [] ==> r == Ok(base)
    ensures variant.Some? && variant.value != [] ==>
      (r.Ok? <==> variant.value in t.variants) &&
      (r.Ok? ==> r.value == t.variants[variant.value])
  {
    if variant.Some? && variant.value != [] then FindVariant(t, variant.value) else Ok(base)
  }

  // ---------------------------------------------------------------------------
  // _build_config, as functions: one per stage

  /** A field of the final config: a raw (dumped) value or a typed instance. */
  datatype Slot = Raw(value: Value) | Typed(instance: Instance)

  /** The object `model_construct` returns: its class and its field slots. */
  datatype Config = Config(cls: PyClass, fields: map<string, Slot>)

  datatype BuildError =
    | Lookup(lookup: LookupError) // get_group raised KeyError
    | Path(path: PathError)       // set_nested_value raised
    | NotAMapping                 // a swapped group's entry was replaced by a non-dict value

  /** `config_dict` and `group_instances` as the first loop leaves them. */
  datatype Working = Working(dict: map<string, Value>, instances: map<string, Instance>)

  /** `config_cls().model_dump()`. */
  function BaseDict(root: PyClass): map<string, Value> {
    Dump(Instantiate(root)).entries
  }

  /** The first loop: each selection (group, name) looks the class up, and its
      default instance replaces the group's entry; the first failing lookup fails. */
  function Selected(root: PyClass, t: Tables, sels: seq<(string, string)>): Result<Working, BuildError>
    decreases |sels|
  {
    if sels == [] then Ok(Working(BaseDict(root), map[]))
    else
      match Selected(root, t, sels[..|sels| - 1])
      case Err(e) => Err(e)
      case Ok(w) =>
        var (g, n) := sels[|sels| - 1];
        match FindInGroup(t, g, n)
        case Err(e) => Err(Lookup(e))
        case Ok(c) =>
          var inst := Instantiate(c);
          Ok(Working(w.dict[g := Dump(inst)], w.instances[g := inst]))
  }

  /** The second loop: each override writes its value at its dotted path. */
  function ApplyOverrides(d: map<string, Value>, ovr: seq<(string, Value)>): Result<map<string, Value>, BuildError>
    decreases |ovr|
  {
    if ovr == [] then Ok(d)
    else
      match ApplyOverrides(d, ovr[..|ovr| - 1])
      case Err(e) => Err(e)
      case Ok(d1) =>
        match Set(d1, SplitDots(ovr[|ovr| - 1].0), ovr[|ovr| - 1].1)
        case Err(e) => Err(Path(e))
        case Ok(d2) => Ok(d2)
  }

  /** The third loop: each swapped group is constructed anew, as its own class, from
      its entry in `config_dict`; an entry that is not a dict cannot be unpacked. */
  function Rebuilt(d: map<string, Value>, instances: map<string, Instance>): Result<map<string, Instance>, BuildError> {
    if exists g :: g in instances && g in d && d[g].Leaf? then Err(NotAMapping)
    else Ok(Reconstructed(d, instances, instances.Keys))
  }

  /** `group_instances` after the groups among `keys` have been reconstructed. */
  function Reconstructed(d: map<string, Value>, instances: map<string, Instance>, keys: set<string>): map<string, Instance>
    requires forall g :: g in instances && g in keys && g in d ==> d[g].Dict?
  {
    map g | g in instances :: if g in keys && g in d then Construct(instances[g].cls, d[g].entries) else instances[g]
  }

  /** The last loop's treatment of a field that was not swapped: a dict under a field
      declared as a config class becomes an instance of that class. */
  function Typing(a: Annotation, v: Value): Slot {
    if a.TypeRef? && IsConfigClass(a.cls) && v.Dict? then Typed(Construct(a.cls, v.entries)) else Raw(v)
  }

  /** `final_dict` after the swapped groups among `keys` have gone in as their
      instances (all of them once `keys` covers `gi`). */
  function Placed(fd: map<string, Slot>, gi: map<string, Instance>, keys: set<string>): map<string, Slot> {
    fd + map g | g in gi && g in keys :: Typed(gi[g])
  }

  /** `final_dict` after the declared fields among `keys` have been looked at: a field
      that was not swapped and is still raw is typed by its annotation. */
  function Retyped(fd: map<string, Slot>, fields: map<string, FieldSpec>, gi: map<string, Instance>, keys: set<string>): map<string, Slot> {
    map k | k in fd ::
      if k in keys && k in fields && k !in gi && fd[k].Raw?
      then Typing(fields[k].annotation, fd[k].value) else fd[k]
  }

  /** `final_dict`: the defaults updated by `config_dict`, swapped groups as their
      rebuilt instances, and declared config-class fields that still hold a dict
      rebuilt as instances of their declared class. */
  function FinalDict(root: PyClass, d: map<string, Value>, rebuilt: map<string, Instance>): map<string, Slot> {
    var merged := BaseDict(root) + d;
    var placed := Placed(map k | k in merged :: Raw(merged[k]), rebuilt, rebuilt.Keys);
    Retyped(placed, Fields(root), rebuilt, Fields(root).Keys)
  }

  /** `model_construct(**final_dict)`: the root class's fields taken from `final_dict`
      (a field missing there would keep its default); other keys are dropped. */
  function FinalFields(root: PyClass, d: map<string, Value>, rebuilt: map<string, Instance>): map<string, Slot> {
    var fd := FinalDict(root, d, rebuilt);
    map f | f in Fields(root) :: if f in fd then fd[f] else Raw(Fields(root)[f].default)
  }

  /** Each field of the result: a swapped group is its rebuilt instance; any other
      field is the value `config_dict` holds for it (or its default), typed when it
      is declared as a config class and holds a dict. */
  lemma FinalFieldAt(root: PyClass, d: map<string, Value>, rebuilt: map<string, Instance>, f: string)
    requires f in Fields(root)
    ensures FinalFields(root, d, rebuilt)[f] ==
      if f in rebuilt then Typed(rebuilt[f])
      else Typing(Fields(root)[f].annotation, if f in d then d[f] else Fields(root)[f].default)
  {
    var merged := BaseDict(root) + d;
    assert f in BaseDict(root);
    assert merged[f] == if f in d then d[f] else Fields(root)[f].default;
    var raw := map k | k in merged :: Raw(merged[k]);
    var placed := Placed(raw, rebuilt, rebuilt.Keys);
    assert placed[f] == if f in rebuilt then Typed(rebuilt[f]) else Raw(merged[f]);
    assert FinalDict(root, d, rebuilt)[f] == Retyped(placed, Fields(root), rebuilt, Fields(root).Keys)[f];
  }

  /** `_build_config`. */
  function Build(root: PyClass, t: Tables, sels: seq<(string, string)>, ovr: seq<(string, Value)>): (r: Result<Config, BuildError>)
    ensures r.Ok? ==> r.value.cls == root && r.value.fields.Keys == Fields(root).Keys
  {
    match Selected(root, t, sels)
    case Err(e) => Err(e)
    case Ok(w) =>
      match ApplyOverrides(w.dict, ovr)
      case Err(e) => Err(e)
      case Ok(d) =>
        match Rebuilt(d, w.instances)
        case Err(e) => Err(e)
        case Ok(rebuilt) => Ok(Config(root, FinalFields(root, d, rebuilt)))
  }

  // ---------------------------------------------------------------------------
  // _build_config, as the source computes it: five loops over mutable maps (the last two run by `Finish`)

  method BuildConfig(root: PyClass, registry: ConfigRegistry, sels: seq<(string, string)>, ovr: seq<(string, Value)>)
    returns (r: Result<Config, BuildError>)
    ensures r == Build(root, registry.State(), sels, ovr)
  {
    var selected := SelectGroups(root, registry, sels);
    if selected.Err? {
      return Err(selected.error);
    }
    var w := selected.value;
    var overridden := OverrideFields(w.dict, ovr);
    if overridden.Err? {
      return Err(overridden.error);
    }
    var d := overridden.value;
    var rebuilt := RebuildGroups(d, w.instances);
    if rebuilt.Err? {
      return Err(rebuilt.error);
    }
    var cfg := Finish(root, d, rebuilt.value);
    return Ok(cfg);
  }

  /** Step 1: group selections. */
  method SelectGroups(root: PyClass, registry: ConfigRegistry, sels: seq<(string, string)>)
    returns (r: Result<Working, BuildError>)
    ensures r == Selected(root, registry.State(), sels)
  {
    var configDict := Dump(Instantiate(root)).entries;
    var groupInstances: map<string, Instance> := map[];
    var i := 0;
    while i < |sels|
      invariant 0 <= i <= |sels|
      invariant Selected(root, registry.State(), sels[..i]) == Ok(Working(configDict, groupInstances))
    {
      var (group, variant) := sels[i];
      assert sels[..i + 1][..i] == sels[..i];
      var found := registry.GetGroup(group, variant);
      if found.Err? {
        SelectedErrStays(root, registry.State(), sels, i + 1);
        return Err(Lookup(found.error));
      }
      var inst := Instantiate(found.value);
      groupInstances := groupInstances[group := inst];
      configDict := configDict[group := Dump(inst)];
      i := i + 1;
    }
    assert sels[..|sels|] == sels;
    return Ok(Working(configDict, groupInstances));
  }

  /** Step 2: field overrides. */
  method OverrideFields(configDict: map<string, Value>, ovr: seq<(string, Value)>)
    returns (r: Result<map<string, Value>, BuildError>)
    ensures r == ApplyOverrides(configDict, ovr)
  {
    var d := configDict;
    var i := 0;
    while i < |ovr|
      invariant 0 <= i <= |ovr|
      invariant ApplyOverrides(configDict, ovr[..i]) == Ok(d)
    {
      var (path, value) := ovr[i];
      assert ovr[..i + 1][..i] == ovr[..i];
      var keys := SplitDots(path);
      var written := SetNestedValue(d, keys, value);
      if written.Err? {
        OverridesErrStays(configDict, ovr, i + 1);
        return Err(Path(written.error));
      }
      d := written.value;
      i := i + 1;
    }
    assert ovr[..|ovr|] == ovr;
    return Ok(d);
  }

  /** Step 3: swapped groups are re-created with their overrides. */
  method RebuildGroups(configDict: map<string, Value>, instances: map<string, Instance>)
    returns (r: Result<map<string, Instance>, BuildError>)
    ensures r == Rebuilt(configDict, instances)
  {
    var groupInstances := instances;
    var todo := instances.Keys;
    ReconstructedNone(configDict, instances);
    while todo != {}
      invariant todo <= instances.Keys
      invariant forall g :: g in instances && g !in todo && g in configDict ==> configDict[g].Dict?
      invariant groupInstances == Reconstructed(configDict, instances, instances.Keys - todo)
      decreases |todo|
    {
      var group :| group in todo;
      ReconstructedStep(configDict, instances, instances.Keys - todo, group);
      if group in configDict {
        var entry := configDict[group];
        if entry.Leaf? {
          return Err(NotAMapping);
        }
        groupInstances := groupInstances[group := Construct(groupInstances[group].cls, entry.entries)];
      }
      assert instances.Keys - (todo - {group}) == (instances.Keys - todo) + {group};
      todo := todo - {group};
    }
    assert instances.Keys - todo == instances.Keys;
    return Ok(groupInstances);
  }

  lemma ReconstructedNone(d: map<string, Value>, instances: map<string, Instance>)
    ensures Reconstructed(d, instances, instances.Keys - instances.Keys) == instances
  {
  }

  /** Reconstructing one more group is one more update of `group_instances`, at a
      group that still holds its selected instance. */
  lemma ReconstructedStep(d: map<string, Value>, instances: map<string, Instance>, keys: set<string>, g: string)
    requires forall x :: x in instances && x in keys && x in d ==> d[x].Dict?
    requires g in instances && g !in keys
    ensures Reconstructed(d, instances, keys)[g] == instances[g]
    ensures g in d && d[g].Dict? ==>
      Reconstructed(d, instances, keys + {g}) == Reconstructed(d, instances, keys)[g := Construct(instances[g].cls, d[g].entries)]
    ensures g !in d ==> Reconstructed(d, instances, keys + {g}) == Reconstructed(d, instances, keys)
  {
  }

  /** Step 4: `final_dict` and `model_construct`. */
  method Finish(root: PyClass, configDict: map<string, Value>, groupInstances: map<string, Instance>)
    returns (cfg: Config)
    ensures cfg == Config(root, FinalFields(root, configDict, groupInstances))
  {
    var defaults := Dump(Instantiate(root)).entries;
    var merged := defaults + configDict;
    var finalDict: map<string, Slot> := map k | k in merged :: Raw(merged[k]);
    finalDict := PlaceGroups(finalDict, groupInstances);
    var fields := Fields(root);
    finalDict := RebuildFields(fields, groupInstances, finalDict);
    cfg := Config(root, map f | f in fields :: if f in finalDict then finalDict[f] else Raw(fields[f].default));
  }

  /** Swapped groups go into `final_dict` as their instances. */
  method PlaceGroups(finalDict: map<string, Slot>, groupInstances: map<string, Instance>)
    returns (out: map<string, Slot>)
    ensures out == Placed(finalDict, groupInstances, groupInstances.Keys)
  {
    out := finalDict;
    var todo := groupInstances.Keys;
    PlacedNone(finalDict, groupInstances);
    while todo != {}
      invariant todo <= groupInstances.Keys
      invariant out == Placed(finalDict, groupInstances, groupInstances.Keys - todo)
      decreases |todo|
    {
      var group :| group in todo;
      PlacedStep(finalDict, groupInstances, groupInstances.Keys - todo, group);
      out := out[group := Typed(groupInstances[group])];
      assert groupInstances.Keys - (todo - {group}) == (groupInstances.Keys - todo) + {group};
      todo := todo - {group};
    }
    assert groupInstances.Keys - todo == groupInstances.Keys;
  }

  lemma PlacedNone(fd: map<string, Slot>, gi: map<string, Instance>)
    ensures Placed(fd, gi, gi.Keys - gi.Keys) == fd
  {
    assert (map g | g in gi && g in gi.Keys - gi.Keys :: Typed(gi[g])) == map[];
  }

  /** Placing one more group is one more update of `final_dict`. */
  lemma PlacedStep(fd: map<string, Slot>, gi: map<string, Instance>, keys: set<string>, g: string)
    requires g in gi
    ensures Placed(fd, gi, keys + {g}) == Placed(fd, gi, keys)[g := Typed(gi[g])]
  {
  }

  /** Declared fields that were not swapped and hold a dict are rebuilt as instances
      of their declared config class. */
  method RebuildFields(fields: map<string, FieldSpec>, groupInstances: map<string, Instance>, finalDict: map<string, Slot>)
    returns (out: map<string, Slot>)
    ensures out == Retyped(finalDict, fields, groupInstances, fields.Keys)
  {
    out := finalDict;
    var pending := fields.Keys;
    RetypedNone(finalDict, fields, groupInstances);
    while pending != {}
      invariant pending <= fields.Keys
      invariant out == Retyped(finalDict, fields, groupInstances, fields.Keys - pending)
      decreases |pending|
    {
      var name :| name in pending;
      RetypedStep(finalDict, fields, groupInstances, fields.Keys - pending, name);
      if name !in groupInstances && name in out {
        var fieldType := fields[name].annotation;
        if fieldType.TypeRef? && IsConfigClass(fieldType.cls) {
          var current := out[name];
          if current.Raw? && current.value.Dict? {
            out := out[name := Typed(Construct(fieldType.cls, current.value.entries))];
          }
        }
      }
      assert fields.Keys - (pending - {name}) == (fields.Keys - pending) + {name};
      pending := pending - {name};
    }
    assert fields.Keys - pending == fields.Keys;
  }

  lemma RetypedNone(fd: map<string, Slot>, fields: map<string, FieldSpec>, gi: map<string, Instance>)
    ensures Retyped(fd, fields, gi, fields.Keys - fields.Keys) == fd
  {
  }

  /** Looking at one more declared field changes at most that field: a raw dict under
      a config-class annotation becomes an instance, anything else stays. */
  lemma RetypedStep(fd: map<string, Slot>, fields: map<string, FieldSpec>, gi: map<string, Instance>, keys: set<string>, k: string)
    requires k in fields && k !in keys
    ensures var before := Retyped(fd, fields, gi, keys);
      var after := Retyped(fd, fields, gi, keys + {k});
      && (k in fd <==> k in before)
      && (k in fd ==> before[k] == fd[k])
      && (k in gi || k !in fd ==> after == before)
      && (k !in gi && k in fd ==> after == before[k := if fd[k].Raw? then Typing(fields[k].annotation, fd[k].value) else fd[k]])
  {
  }

  lemma {:induction false} SelectedErrStays(root: PyClass, t: Tables, sels: seq<(string, string)>, i: nat)
    requires i <= |sels| && Selected(root, t, sels[..i]).Err?
    ensures Selected(root, t, sels) == Selected(root, t, sels[..i])
    decreases |sels| - i
  {
    if i < |sels| {
      assert sels[..|sels|][..|sels| - 1] == sels[..|sels| - 1];
      assert sels[..|sels| - 1][..i] == sels[..i];
      SelectedErrStays(root, t, sels[..|sels| - 1], i);
    } else {
      assert sels[..i] == sels;
    }
  }

  lemma {:induction false} OverridesErrStays(d: map<string, Value>, ovr: seq<(string, Value)>, i: nat)
    requires i <= |ovr| && ApplyOverrides(d, ovr[..i]).Err?
    ensures ApplyOverrides(d, ovr) == ApplyOverrides(d, ovr[..i])
    decreases |ovr| - i
  {
    if i < |ovr| {
      assert ovr[..|ovr| - 1][..i] == ovr[..i];
      OverridesErrStays(d, ovr[..|ovr| - 1], i);
    } else {
      assert ovr[..i] == ovr;
    }
  }
}
