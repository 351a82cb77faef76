/** ConfigRegistry of registry.py: the two tables (group -> name -> class and
    variant name -> class), registration, lookup with errors that list what is
    available, and the classification done by `discover`. Scanning the file
    system and importing modules is replaced by a description of what a scan
    finds: for each `.py` file, whether it sits directly in the root, its parent
    directory's name, its stem, and the module members `inspect.getmembers`
    yields (or nothing, when the import failed). */
module Registry {
  import opened Results
  import opened Utils
  import opened Schema

  // ---------------------------------------------------------------------------
  // The tables as values

  datatype LookupError =
    | GroupNotFound(group: string, available: set<string>)             // lists the known groups
    | NameNotFound(name: string, group: string, available: set<string>) // lists the names in `group`
    | VariantNotFound(name: string, available: set<string>)            // lists the known variants

  datatype Tables = Tables(groups: map<string, map<string, PyClass>>, variants: map<string, PyClass>)

  const Empty := Tables(map[], map[])

  /** get_group: the class registered as `name` in `group`, or the error that says
      which of the two keys is missing and lists the keys that do exist there. */
  function FindInGroup(t: Tables, group: string, name: string): (r: Result<PyClass, LookupError>)
    ensures r.Ok? <==> group in t.groups && name in t.groups[group]
    ensures r.Ok? ==> r.value == t.groups[group][name]
    ensures group !in t.groups ==> r == Err(GroupNotFound(group, t.groups.Keys))
    ensures group in t.groups && name !in t.groups[group] ==>
      r == Err(NameNotFound(name, group, t.groups[group].Keys))
  {
    if group !in t.groups then Err(GroupNotFound(group, t.groups.Keys))
    else if name !in t.groups[group] then Err(NameNotFound(name, group, t.groups[group].Keys))
    else Ok(t.groups[group][name])
  }

  /** get_variant: the class registered under `name`, or an error listing the variants. */
  function FindVariant(t: Tables, name: string): (r: Result<PyClass, LookupError>)
    ensures r.Ok? <==> name in t.variants
    ensures r.Ok? ==> r.value == t.variants[name]
    ensures r.Err? ==> r == Err(VariantNotFound(name, t.variants.Keys))
  {
    if name !in t.variants then Err(VariantNotFound(name, t.variants.Keys)) else Ok(t.variants[name])
  }

  /** list_groups: each group with the names registered in it. */
  function GroupListing(t: Tables): (r: map<string, set<string>>)
    ensures r.Keys == t.groups.Keys
    ensures forall g :: g in r ==> (forall n :: n in r[g] <==> FindInGroup(t, g, n).Ok?)
  {
    map g | g in t.groups :: t.groups[g].Keys
  }

  /** list_variants: the registered variant names. */
  function VariantListing(t: Tables): (r: set<string>)
    ensures forall n :: n in r <==> FindVariant(t, n).Ok?
  {
    t.variants.Keys
  }

  /** register_group: creates the group when it is new, then (over)writes one entry. */
  function WithGroup(t: Tables, group: string, name: string, cls: PyClass): Tables {
    var names := if group in t.groups then t.groups[group] else map[];
    Tables(t.groups[group := names[name := cls]], t.variants)
  }

  /** register_variant: (over)writes one entry. */
  function WithVariant(t: Tables, name: string, cls: PyClass): Tables {
    Tables(t.groups, t.variants[name := cls])
  }

  /** After register_group(g, n, c), get_group(g, n) returns c and n is listed under g. */
  lemma FindAfterWithGroup(t: Tables, group: string, name: string, cls: PyClass)
    ensures FindInGroup(WithGroup(t, group, name, cls), group, name) == Ok(cls)
    ensures group in GroupListing(WithGroup(t, group, name, cls))
    ensures name in GroupListing(WithGroup(t, group, name, cls))[group]
  {
  }

  /** register_group changes only its own entry: every other (group, name) is found
      or not found as before, with the same class, and the variants are untouched. */
  lemma WithGroupFrame(t: Tables, group: string, name: string, cls: PyClass, g: string, n: string)
    requires g != group || n != name
    ensures var r := FindInGroup(WithGroup(t, group, name, cls), g, n);
      r.Ok? == FindInGroup(t, g, n).Ok? && (r.Ok? ==> r.value == FindInGroup(t, g, n).value)
    ensures WithGroup(t, group, name, cls).variants == t.variants
  {
  }

  /** Registering the same (group, name) twice keeps only the second class. */
  lemma WithGroupOverwrites(t: Tables, group: string, name: string, c1: PyClass, c2: PyClass)
    ensures WithGroup(WithGroup(t, group, name, c1), group, name, c2) == WithGroup(t, group, name, c2)
  {
    var names := if group in t.groups then t.groups[group] else map[];
    assert names[name := c1][name := c2] == names[name := c2];
  }

  /** After register_variant(n, c), get_variant(n) returns c and n is listed; other
      variants and all groups are untouched; the last registration wins. */
  lemma FindAfterWithVariant(t: Tables, name: string, cls: PyClass, c2: PyClass, n: string)
    ensures FindVariant(WithVariant(t, name, cls), name) == Ok(cls)
    ensures name in VariantListing(WithVariant(t, name, cls))
    ensures n != name ==> var r := FindVariant(WithVariant(t, name, cls), n);
      r.Ok? == FindVariant(t, n).Ok? && (r.Ok? ==> r.value == FindVariant(t, n).value)
    ensures WithVariant(t, name, cls).groups == t.groups
    ensures WithVariant(WithVariant(t, name, cls), name, c2) == WithVariant(t, name, c2)
  {
    assert t.variants[name := cls][name := c2] == t.variants[name := c2];
  }

  /** A fresh registry lists no groups and no variants, and every lookup fails. */
  lemma EmptyHasNothing(g: string, n: string)
    ensures GroupListing(Empty) == map[] && VariantListing(Empty) == {}
    ensures FindInGroup(Empty, g, n) == Err(GroupNotFound(g, {}))
    ensures FindVariant(Empty, n) == Err(VariantNotFound(n, {}))
  {
  }

  // ---------------------------------------------------------------------------
  // What discovery registers

  /** One registration `discover` performs. */
  datatype Registration =
    | ToGroup(group: string, name: string, cls: PyClass)
    | ToVariant(name: string, cls: PyClass)

  function Apply(t: Tables, reg: Registration): Tables {
    match reg
    case ToGroup(g, n, c) => WithGroup(t, g, n, c)
    case ToVariant(n, c) => WithVariant(t, n, c)
  }

  /** The tables after performing `regs` in order. */
  function ApplyAll(t: Tables, regs: seq<Registration>): Tables
    decreases |regs|
  {
    if regs == [] then t else Apply(ApplyAll(t, regs[..|regs| - 1]), regs[|regs| - 1])
  }

  /** A module member as `inspect.getmembers` yields it: a class or any other object.
      The members of a module include the names it imports, sorted by name. */
  datatype Member = NotAClass | AClass(cls: PyClass)

  /** One `.py` file a scan finds. `members` is None when importing it failed. */
  datatype SourceFile = SourceFile(inRoot: bool, parent: string, stem: string, members: Option<seq<Member>>)

  /** A configuration directory: absent, or the `.py` files found under it in scan order. */
  datatype Directory = Missing | Present(files: seq<SourceFile>)

  /** `_is_config_class`: a class, a subclass of BaseModel, and not BaseModel itself.
      Objects that are not classes and `BaseModel` are refused; a class naming
      `BaseModel` among its direct bases is accepted. */
  predicate IsConfigObject(obj: Member): (b: bool)
    ensures b ==> obj.AClass? && obj.cls.Declared?
    ensures obj.AClass? && obj.cls.Declared? && BaseModel in obj.cls.bases ==> b
  {
    assert IsModel(BaseModel);
    obj.AClass? && IsConfigClass(obj.cls)
  }

  /** What `_is_variant` decides: some direct base is itself a config class.
      Such a class inherits from BaseModel, so it is a config class itself. */
  predicate HasConfigBase(c: PyClass): (b: bool)
    ensures b ==> IsConfigClass(c)
    ensures c.Declared? && BaseModel in c.bases && |c.bases| == 1 ==> !b
  {
    c.Declared? && exists i :: 0 <= i < |c.bases| && IsConfigClass(c.bases[i])
  }

  /** Files that contribute nothing: stems starting with `_` and failed imports. */
  predicate Skipped(f: SourceFile): (b: bool)
    ensures b <==> "_" <= f.stem || f.members.None?
  {
    (|f.stem| > 0 && f.stem[0] == '_') || f.members.None?
  }

  /** The registrations one member of file `f` causes. */
  function MemberRegistrations(f: SourceFile, obj: Member): seq<Registration> {
    if !IsConfigObject(obj) then []
    else
      (if f.inRoot then [] else [ToGroup(f.parent, f.stem, obj.cls)]) +
      (if HasConfigBase(obj.cls) then [ToVariant(CamelToKebab(obj.cls.name), obj.cls)] else [])
  }

  function MembersRegistrations(f: SourceFile, objs: seq<Member>): seq<Registration>
    decreases |objs|
  {
    if objs == [] then []
    else MembersRegistrations(f, objs[..|objs| - 1]) + MemberRegistrations(f, objs[|objs| - 1])
  }

  function FileRegistrations(f: SourceFile): seq<Registration> {
    if Skipped(f) then [] else MembersRegistrations(f, f.members.value)
  }

  function FilesRegistrations(files: seq<SourceFile>): seq<Registration>
    decreases |files|
  {
    if files == [] then []
    else FilesRegistrations(files[..|files| - 1]) + FileRegistrations(files[|files| - 1])
  }

  function DirRegistrations(d: Directory): seq<Registration> {
    if d.Missing? then [] else FilesRegistrations(d.files)
  }

  // ---------------------------------------------------------------------------
  // The registry object

  class ConfigRegistry {
    var groups: map<string, map<string, PyClass>>
    var variants: map<string, PyClass>

    function State(): Tables
      reads this
    {
      Tables(groups, variants)
    }

    /** A new registry is empty. */
    constructor()
      ensures State() == Empty
    {
      groups := map[];
      variants := map[];
    }

    method RegisterGroup(group: string, name: string, cls: PyClass)
      modifies this
      ensures State() == WithGroup(old(State()), group, name, cls)
    {
      if group !in groups {
        groups := groups[group := map[]];
      }
      groups := groups[group := groups[group][name := cls]];
    }

    method RegisterVariant(name: string, cls: PyClass)
      modifies this
      ensures State() == WithVariant(old(State()), name, cls)
    {
      variants := variants[name := cls];
    }

    function GetGroup(group: string, name: string): Result<PyClass, LookupError>
      reads this
    {
      FindInGroup(State(), group, name)
    }

    function GetVariant(name: string): Result<PyClass, LookupError>
      reads this
    {
      FindVariant(State(), name)
    }

    function ListGroups(): map<string, set<string>>
      reads this
    {
      GroupListing(State())
    }

    function ListVariants(): set<string>
      reads this
    {
      VariantListing(State())
    }

    /** `_is_variant`: the loop over the direct bases. */
    method IsVariant(cls: PyClass) returns (b: bool)
      ensures b == HasConfigBase(cls)
    {
      if cls.BaseModel? {
        return false;
      }
      var i := 0;
      while i < |cls.bases|
        invariant 0 <= i <= |cls.bases|
        invariant forall k :: 0 <= k < i ==> !IsConfigClass(cls.bases[k])
      {
        var base := cls.bases[i];
        if !base.BaseModel? && IsModel(base) {
          return true;
        }
        i := i + 1;
      }
      return false;
    }

    /** `discover`: every member of every file that is not skipped is classified and
        registered, in scan order. */
    method Discover(dir: Directory)
      modifies this
      ensures State() == ApplyAll(old(State()), DirRegistrations(dir))
    {
      if dir.Missing? {
        return;
      }
      var files := dir.files;
      var i := 0;
      while i < |files|
        invariant 0 <= i <= |files|
        invariant State() == ApplyAll(old(State()), FilesRegistrations(files[..i]))
      {
        var f := files[i];
        FilesStep(old(State()), files, i);
        if !((|f.stem| > 0 && f.stem[0] == '_') || f.members.None?) {
          DiscoverMembers(f, f.members.value);
        }
        i := i + 1;
      }
      assert files[..|files|] == files;
    }

    /** The inner loop of `discover`: the members of one imported file. */
    method DiscoverMembers(f: SourceFile, objs: seq<Member>)
      modifies this
      ensures State() == ApplyAll(old(State()), MembersRegistrations(f, objs))
    {
      var j := 0;
      while j < |objs|
        invariant 0 <= j <= |objs|
        invariant State() == ApplyAll(old(State()), MembersRegistrations(f, objs[..j]))
      {
        var obj := objs[j];
        assert objs[..j + 1][..j] == objs[..j];
        ApplyAllAppend(old(State()), MembersRegistrations(f, objs[..j]), MemberRegistrations(f, obj));
        RegisterMember(f, obj);
        j := j + 1;
      }
      assert objs[..|objs|] == objs;
    }

    /** The body of the inner loop: one member is checked and registered. */
    method RegisterMember(f: SourceFile, obj: Member)
      modifies this
      ensures State() == ApplyAll(old(State()), MemberRegistrations(f, obj))
    {
      if obj.AClass? && IsConfigClass(obj.cls) {
        ApplyTwo(State(), f, obj);
        if !f.inRoot {
          RegisterGroup(f.parent, f.stem, obj.cls);
        }
        var variant := IsVariant(obj.cls);
        if variant {
          RegisterVariant(CamelToKebab(obj.cls.name), obj.cls);
        }
      }
    }
  }

  // ---------------------------------------------------------------------------
  // Lemmas about discovery

  /** One more file: its registrations are performed after the earlier files'; a
      skipped file performs none. */
  lemma FilesStep(t: Tables, files: seq<SourceFile>, i: nat)
    requires i < |files|
    ensures ApplyAll(t, FilesRegistrations(files[..i + 1])) ==
      ApplyAll(ApplyAll(t, FilesRegistrations(files[..i])), FileRegistrations(files[i]))
    ensures Skipped(files[i]) ==> ApplyAll(t, FilesRegistrations(files[..i + 1])) == ApplyAll(t, FilesRegistrations(files[..i]))
  {
    assert files[..i + 1][..i] == files[..i];
    ApplyAllAppend(t, FilesRegistrations(files[..i]), FileRegistrations(files[i]));
  }

  lemma {:induction false} ApplyAllAppend(t: Tables, a: seq<Registration>, b: seq<Registration>)
    ensures ApplyAll(t, a + b) == ApplyAll(ApplyAll(t, a), b)
    decreases |b|
  {
    if b == [] {
      assert a + b == a;
    } else {
      assert (a + b)[..|a + b| - 1] == a + b[..|b| - 1];
      ApplyAllAppend(t, a, b[..|b| - 1]);
    }
  }

  lemma ApplyTwo(t: Tables, f: SourceFile, obj: Member)
    requires IsConfigObject(obj)
    ensures ApplyAll(t, MemberRegistrations(f, obj)) ==
      var t1 := if f.inRoot then t else WithGroup(t, f.parent, f.stem, obj.cls);
      if HasConfigBase(obj.cls) then WithVariant(t1, CamelToKebab(obj.cls.name), obj.cls) else t1
  {
    var regs := MemberRegistrations(f, obj);
    var g := ToGroup(f.parent, f.stem, obj.cls);
    var v := ToVariant(CamelToKebab(obj.cls.name), obj.cls);
    if !f.inRoot && HasConfigBase(obj.cls) {
      assert regs == [g, v];
      assert regs[..1] == [g] && [g][..0] == [];
      assert ApplyAll(t, [g]) == WithGroup(t, f.parent, f.stem, obj.cls);
      assert ApplyAll(t, regs) == Apply(ApplyAll(t, [g]), v);
    } else if !f.inRoot {
      assert regs == [g] && regs[..0] == [];
    } else if HasConfigBase(obj.cls) {
      assert regs == [v] && regs[..0] == [];
    } else {
      assert regs == [];
    }
  }

  /** What one member registers: nothing unless it is a config class; then its
      group entry (file stem under the parent directory's name) unless the file
      sits directly in the root, and its variant entry (the kebab-case class
      name) when a direct base is a config class. A class may be both. */
  lemma InMemberRegistrations(f: SourceFile, obj: Member, r: Registration)
    ensures r in MemberRegistrations(f, obj) <==>
      IsConfigObject(obj) &&
      ((!f.inRoot && r == ToGroup(f.parent, f.stem, obj.cls)) ||
       (HasConfigBase(obj.cls) && r == ToVariant(CamelToKebab(obj.cls.name), obj.cls)))
  {
  }

  /** The concatenation of `F(x)` over `xs`, in order. */
  function FlattenBy<X>(xs: seq<X>, F: X -> seq<Registration>): seq<Registration>
    decreases |xs|
  {
    if xs == [] then [] else FlattenBy(xs[..|xs| - 1], F) + F(xs[|xs| - 1])
  }

  lemma {:induction false} InFlattenBy<X>(xs: seq<X>, F: X -> seq<Registration>, r: Registration)
    ensures r in FlattenBy(xs, F) <==> exists k :: 0 <= k < |xs| && r in F(xs[k])
    decreases |xs|
  {
    if xs != [] {
      var last := |xs| - 1;
      var init := xs[..last];
      InFlattenBy(init, F, r);
      if r in FlattenBy(xs, F) && r !in F(xs[last]) {
        var k :| 0 <= k < last && r in F(init[k]);
        assert init[k] == xs[k];
      }
      if exists k :: 0 <= k < |xs| && r in F(xs[k]) {
        var k :| 0 <= k < |xs| && r in F(xs[k]);
        if k < last {
          assert init[k] == xs[k];
        }
      }
    }
  }

  lemma {:induction false} MembersFlatten(f: SourceFile, objs: seq<Member>)
    ensures MembersRegistrations(f, objs) == FlattenBy(objs, obj => MemberRegistrations(f, obj))
    decreases |objs|
  {
    if objs != [] {
      MembersFlatten(f, objs[..|objs| - 1]);
    }
  }

  lemma {:induction false} FilesFlatten(files: seq<SourceFile>)
    ensures FilesRegistrations(files) == FlattenBy(files, FileRegistrations)
    decreases |files|
  {
    if files != [] {
      FilesFlatten(files[..|files| - 1]);
    }
  }

  lemma InMembersRegistrations(f: SourceFile, objs: seq<Member>, r: Registration)
    ensures r in MembersRegistrations(f, objs) <==>
      exists k :: 0 <= k < |objs| && r in MemberRegistrations(f, objs[k])
  {
    MembersFlatten(f, objs);
    InFlattenBy(objs, obj => MemberRegistrations(f, obj), r);
  }

  lemma InFilesRegistrations(files: seq<SourceFile>, r: Registration)
    ensures r in FilesRegistrations(files) <==>
      exists k :: 0 <= k < |files| && r in FileRegistrations(files[k])
  {
    FilesFlatten(files);
    InFlattenBy(files, FileRegistrations, r);
  }

  /** Where a config class can come from: a member of a file that was not skipped. */
  predicate DeclaredIn(f: SourceFile, c: PyClass) {
    !Skipped(f) && AClass(c) in f.members.value && IsConfigClass(c)
  }

  lemma InFileRegistrations(f: SourceFile, r: Registration)
    ensures r in FileRegistrations(f) <==>
      (r.ToGroup? && DeclaredIn(f, r.cls) && !f.inRoot && r.group == f.parent && r.name == f.stem) ||
      (r.ToVariant? && DeclaredIn(f, r.cls) && HasConfigBase(r.cls) && r.name == CamelToKebab(r.cls.name))
  {
    if !Skipped(f) {
      var objs := f.members.value;
      InMembersRegistrations(f, objs, r);
      if r in FileRegistrations(f) {
        var k :| 0 <= k < |objs| && r in MemberRegistrations(f, objs[k]);
        InMemberRegistrations(f, objs[k], r);
      }
      if r.ToGroup? || r.ToVariant? {
        if AClass(r.cls) in objs {
          var k :| 0 <= k < |objs| && objs[k] == AClass(r.cls);
          InMemberRegistrations(f, objs[k], r);
        }
      }
    }
  }

  /** Discovery classification, groups: (g, n) is registered with class c exactly
      when some file that was not skipped and does not sit directly in the root has
      parent directory g and stem n, and c is one of its config-class members. */
  lemma GroupClassification(files: seq<SourceFile>, g: string, n: string, c: PyClass)
    ensures ToGroup(g, n, c) in FilesRegistrations(files) <==>
      exists k :: 0 <= k < |files| && DeclaredIn(files[k], c) && !files[k].inRoot &&
        files[k].parent == g && files[k].stem == n
  {
    InFilesRegistrations(files, ToGroup(g, n, c));
    forall k | 0 <= k < |files| {
      InFileRegistrations(files[k], ToGroup(g, n, c));
    }
  }

  /** Discovery classification, variants: v is registered with class c exactly when
      c is a config-class member of some file that was not skipped, c has a direct
      base that is a config class, and v is c's name in kebab case. */
  lemma VariantClassification(files: seq<SourceFile>, v: string, c: PyClass)
    ensures ToVariant(v, c) in FilesRegistrations(files) <==>
      (exists k :: 0 <= k < |files| && DeclaredIn(files[k], c)) &&
      HasConfigBase(c) && v == CamelToKebab(c.name)
  {
    InFilesRegistrations(files, ToVariant(v, c));
    forall k | 0 <= k < |files| {
      InFileRegistrations(files[k], ToVariant(v, c));
    }
  }

  /** Only config classes are registered; in particular never BaseModel itself. */
  lemma OnlyConfigClassesRegistered(files: seq<SourceFile>, r: Registration)
    requires r in FilesRegistrations(files)
    ensures IsConfigClass(r.cls) && r.cls != BaseModel
  {
    InFilesRegistrations(files, r);
    var k :| 0 <= k < |files| && r in FileRegistrations(files[k]);
    InFileRegistrations(files[k], r);
  }

  // ---------------------------------------------------------------------------
  // Last registration wins

  /** The class of the last group registration of (g, n) in `regs`, if any. */
  function LastInGroup(regs: seq<Registration>, g: string, n: string): Option<PyClass>
    decreases |regs|
  {
    if regs == [] then None
    else
      var r := regs[|regs| - 1];
      if r.ToGroup? && r.group == g && r.name == n then Some(r.cls)
      else LastInGroup(regs[..|regs| - 1], g, n)
  }

  /** The class of the last variant registration of `v` in `regs`, if any. */
  function LastVariant(regs: seq<Registration>, v: string): Option<PyClass>
    decreases |regs|
  {
    if regs == [] then None
    else
      var r := regs[|regs| - 1];
      if r.ToVariant? && r.name == v then Some(r.cls)
      else LastVariant(regs[..|regs| - 1], v)
  }

  /** After a sequence of registrations, get_group(g, n) returns the class of the
      last registration of (g, n); with none, it finds what it found before. */
  lemma {:induction false} FindAfterApplyAll(t: Tables, regs: seq<Registration>, g: string, n: string)
    ensures var r := FindInGroup(ApplyAll(t, regs), g, n);
      match LastInGroup(regs, g, n)
      case Some(c) => r == Ok(c)
      case None => r.Ok? == FindInGroup(t, g, n).Ok? && (r.Ok? ==> r.value == FindInGroup(t, g, n).value)
    decreases |regs|
  {
    if regs != [] {
      var prefix := regs[..|regs| - 1];
      var last := regs[|regs| - 1];
      FindAfterApplyAll(t, prefix, g, n);
      match last {
        case ToGroup(g', n', c') =>
          if g' == g && n' == n {
            FindAfterWithGroup(ApplyAll(t, prefix), g, n, c');
          } else {
            WithGroupFrame(ApplyAll(t, prefix), g', n', c', g, n);
          }
        case ToVariant(_, _) =>
      }
    }
  }

  /** After a sequence of registrations, get_variant(v) returns the class of the
      last registration of v; with none, it finds what it found before. */
  lemma {:induction false} FindVariantAfterApplyAll(t: Tables, regs: seq<Registration>, v: string)
    ensures var r := FindVariant(ApplyAll(t, regs), v);
      match LastVariant(regs, v)
      case Some(c) => r == Ok(c)
      case None => r.Ok? == FindVariant(t, v).Ok? && (r.Ok? ==> r.value == FindVariant(t, v).value)
    decreases |regs|
  {
    if regs != [] {
      var prefix := regs[..|regs| - 1];
      FindVariantAfterApplyAll(t, prefix, v);
      match regs[|regs| - 1] {
        case ToGroup(_, _, _) =>
        case ToVariant(v', c') =>
          FindAfterWithVariant(ApplyAll(t, prefix), v', c', c', v);
      }
    }
  }

  /** The last registration in `a + b` comes from `b` when `b` has one. */
  lemma {:induction false} LastInGroupAppend(a: seq<Registration>, b: seq<Registration>, g: string, n: string)
    ensures LastInGroup(a + b, g, n) ==
      if LastInGroup(b, g, n).Some? then LastInGroup(b, g, n) else LastInGroup(a, g, n)
    decreases |b|
  {
    if b == [] {
      assert a + b == a;
    } else {
      assert (a + b)[..|a + b| - 1] == a + b[..|b| - 1];
      LastInGroupAppend(a, b[..|b| - 1], g, n);
    }
  }

  lemma {:induction false} LastVariantAppend(a: seq<Registration>, b: seq<Registration>, v: string)
    ensures LastVariant(a + b, v) ==
      if LastVariant(b, v).Some? then LastVariant(b, v) else LastVariant(a, v)
    decreases |b|
  {
    if b == [] {
      assert a + b == a;
    } else {
      assert (a + b)[..|a + b| - 1] == a + b[..|b| - 1];
      LastVariantAppend(a, b[..|b| - 1], v);
    }
  }

  /** In a concatenation of pieces, the last registration of (g, n) comes from the
      last piece that has one. */
  lemma {:induction false} LastInGroupFlatten<X>(xs: seq<X>, F: X -> seq<Registration>, k: nat, g: string, n: string)
    requires k < |xs| && LastInGroup(F(xs[k]), g, n).Some?
    requires forall j :: k < j < |xs| ==> LastInGroup(F(xs[j]), g, n).None?
    ensures LastInGroup(FlattenBy(xs, F), g, n) == LastInGroup(F(xs[k]), g, n)
    decreases |xs|
  {
    var last := |xs| - 1;
    var init := xs[..last];
    LastInGroupAppend(FlattenBy(init, F), F(xs[last]), g, n);
    if k < last {
      assert init[k] == xs[k];
      forall j | k < j < |init|
        ensures LastInGroup(F(init[j]), g, n).None?
      {
        assert init[j] == xs[j];
      }
      LastInGroupFlatten(init, F, k, g, n);
    }
  }

  lemma {:induction false} LastVariantFlatten<X>(xs: seq<X>, F: X -> seq<Registration>, k: nat, v: string)
    requires k < |xs| && LastVariant(F(xs[k]), v).Some?
    requires forall j :: k < j < |xs| ==> LastVariant(F(xs[j]), v).None?
    ensures LastVariant(FlattenBy(xs, F), v) == LastVariant(F(xs[k]), v)
    decreases |xs|
  {
    var last := |xs| - 1;
    var init := xs[..last];
    LastVariantAppend(FlattenBy(init, F), F(xs[last]), v);
    if k < last {
      assert init[k] == xs[k];
      forall j | k < j < |init|
        ensures LastVariant(F(init[j]), v).None?
      {
        assert init[j] == xs[j];
      }
      LastVariantFlatten(init, F, k, v);
    }
  }

  /** A config-class member of a group file registers the file's key with its class. */
  lemma MemberTakesStem(f: SourceFile, obj: Member)
    requires !f.inRoot && IsConfigObject(obj)
    ensures LastInGroup(MemberRegistrations(f, obj), f.parent, f.stem) == Some(obj.cls)
  {
    var regs := MemberRegistrations(f, obj);
    assert regs[0] == ToGroup(f.parent, f.stem, obj.cls);
    if |regs| == 2 {
      assert regs[..1] == [regs[0]];
    }
  }

  /** Every config class of a group file is registered under the same key, the file
      stem, so the file's entry is its last config-class member in the order
      `inspect.getmembers` gives (sorted by name, imported names included). */
  lemma GroupFileEntry(t: Tables, f: SourceFile, k: nat)
    requires !f.inRoot && !Skipped(f) && k < |f.members.value|
    requires IsConfigObject(f.members.value[k])
    requires forall j :: k < j < |f.members.value| ==> !IsConfigObject(f.members.value[j])
    ensures FindInGroup(ApplyAll(t, FileRegistrations(f)), f.parent, f.stem) == Ok(f.members.value[k].cls)
  {
    var objs := f.members.value;
    var F := obj => MemberRegistrations(f, obj);
    MembersFlatten(f, objs);
    MemberTakesStem(f, objs[k]);
    forall j | k < j < |objs|
      ensures LastInGroup(F(objs[j]), f.parent, f.stem).None?
    {
      assert F(objs[j]) == [];
    }
    LastInGroupFlatten(objs, F, k, f.parent, f.stem);
    FindAfterApplyAll(t, FileRegistrations(f), f.parent, f.stem);
  }

  /** Two config classes in one group file: the later member is the entry. */
  lemma SameFileSameKey(t: Tables, f: SourceFile, c1: PyClass, c2: PyClass)
    requires !f.inRoot && !Skipped(f) && f.members.value == [AClass(c1), AClass(c2)]
    requires IsConfigClass(c1) && IsConfigClass(c2)
    ensures FindInGroup(ApplyAll(t, FileRegistrations(f)), f.parent, f.stem) == Ok(c2)
  {
    GroupFileEntry(t, f, 1);
  }

  /** A group file defining `AdamConfig` and importing `Field` and its base
      `OptimizerConfig` has the members AdamConfig, Field, OptimizerConfig: the
      imported base sorts last, so it is the file's entry. */
  lemma ImportedBaseTakesStem(t: Tables, f: SourceFile, defined: PyClass, imported: PyClass)
    requires !f.inRoot && !Skipped(f) && f.members.value == [AClass(defined), NotAClass, AClass(imported)]
    requires IsConfigClass(defined) && IsConfigClass(imported)
    ensures FindInGroup(ApplyAll(t, FileRegistrations(f)), f.parent, f.stem) == Ok(imported)
  {
    GroupFileEntry(t, f, 2);
  }

  /** A group file defining `SGDConfig` and importing `Field` and `OptimizerConfig`
      has the members Field, OptimizerConfig, SGDConfig: the defined class sorts
      last, so it is the file's entry. */
  lemma DefinedClassTakesStem(t: Tables, f: SourceFile, defined: PyClass, imported: PyClass)
    requires !f.inRoot && !Skipped(f) && f.members.value == [NotAClass, AClass(imported), AClass(defined)]
    requires IsConfigClass(defined) && IsConfigClass(imported)
    ensures FindInGroup(ApplyAll(t, FileRegistrations(f)), f.parent, f.stem) == Ok(defined)
  {
    GroupFileEntry(t, f, 2);
  }
}
