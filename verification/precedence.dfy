/** What `_build_config` promises about precedence: base (or variant) defaults
    are overridden by group swaps, which are overridden by dotted field overrides;
    swapped groups keep their selected class and the defaults no override touches;
    nested config fields that were not swapped are rebuilt as typed instances; an
    unknown group or name fails the build. */
module Precedence {
  import opened Results
  import opened Utils
  import opened Schema
  import opened Registry
  import opened Decorators

  // ---------------------------------------------------------------------------
  // Vocabulary

  /** The name last selected for group `g`, if any (later selections of the same
      group replace earlier ones). */
  function LastSelection(sels: seq<(string, string)>, g: string): Option<string>
    decreases |sels|
  {
    if sels == [] then None
    else if sels[|sels| - 1].0 == g then Some(sels[|sels| - 1].1)
    else LastSelection(sels[..|sels| - 1], g)
  }

  /** No override writes at, above or below the key path `q`. */
  predicate Untouched(ovr: seq<(string, Value)>, q: seq<string>) {
    forall j :: 0 <= j < |ovr| ==> Apart(SplitDots(ovr[j].0), q)
  }

  /** Override `i` writes exactly at `q`, and no later override writes at, above or
      below `q`. */
  predicate LastWrite(ovr: seq<(string, Value)>, i: nat, q: seq<string>) {
    i < |ovr| && SplitDots(ovr[i].0) == q &&
    forall j :: i < j < |ovr| ==> Apart(SplitDots(ovr[j].0), q)
  }

  /** Each field of the root class at its default, typed when it is declared as a
      config class and its default is a dict. */
  function DefaultFields(root: PyClass): map<string, Slot> {
    map f | f in Fields(root) :: Typing(Fields(root)[f].annotation, Fields(root)[f].default)
  }

  // ---------------------------------------------------------------------------
  // The stages, one by one

  /** After the selections, a selected group holds a default instance of the class
      its last selection names; any other key still holds the base default. */
  lemma {:induction false} SelectedState(root: PyClass, t: Tables, sels: seq<(string, string)>, g: string)
    requires Selected(root, t, sels).Ok?
    ensures var w := Selected(root, t, sels).value;
      match LastSelection(sels, g)
      case Some(n) =>
        FindInGroup(t, g, n).Ok? && g in w.instances &&
        w.instances[g] == Instantiate(FindInGroup(t, g, n).value) &&
        g in w.dict && w.dict[g] == Dump(w.instances[g])
      case None =>
        g !in w.instances && (g in BaseDict(root) ==> g in w.dict && w.dict[g] == BaseDict(root)[g])
    decreases |sels|
  {
    if sels != [] {
      SelectedState(root, t, sels[..|sels| - 1], g);
    }
  }

  /** The first selection whose lookup fails decides the error of the whole build. */
  lemma {:induction false} FirstFailingSelection(root: PyClass, t: Tables, sels: seq<(string, string)>,
                                                 ovr: seq<(string, Value)>, i: nat, e: LookupError)
    requires i < |sels|
    requires forall j :: 0 <= j < i ==> FindInGroup(t, sels[j].0, sels[j].1).Ok?
    requires FindInGroup(t, sels[i].0, sels[i].1) == Err(e)
    ensures Build(root, t, sels, ovr) == Err(Lookup(e))
  {
    SelectedPrefixOk(root, t, sels, i);
    assert sels[..i + 1][..i] == sels[..i];
    SelectedErrStays(root, t, sels, i + 1);
  }

  lemma {:induction false} SelectedPrefixOk(root: PyClass, t: Tables, sels: seq<(string, string)>, i: nat)
    requires i <= |sels|
    requires forall j :: 0 <= j < i ==> FindInGroup(t, sels[j].0, sels[j].1).Ok?
    ensures Selected(root, t, sels[..i]).Ok?
    decreases i
  {
    if i > 0 {
      assert sels[..i][..i - 1] == sels[..i - 1];
      SelectedPrefixOk(root, t, sels, i - 1);
    }
  }

  /** Overrides from index k on that stay apart from `q` leave what is found at `q`
      as it was after the first k overrides. */
  lemma {:induction false} OverridesFrame(d: map<string, Value>, ovr: seq<(string, Value)>, k: nat, q: seq<string>)
    requires k <= |ovr| && ApplyOverrides(d, ovr).Ok?
    requires forall j :: k <= j < |ovr| ==> Apart(SplitDots(ovr[j].0), q)
    ensures ApplyOverrides(d, ovr[..k]).Ok?
    ensures SameFind(Get(Dict(ApplyOverrides(d, ovr).value), q), Get(Dict(ApplyOverrides(d, ovr[..k]).value), q))
    decreases |ovr| - k
  {
    if k == |ovr| {
      assert ovr[..k] == ovr;
    } else {
      var init := ovr[..|ovr| - 1];
      assert init[..k] == ovr[..k];
      OverridesFrame(d, init, k, q);
      var last := ovr[|ovr| - 1];
      SetFrame(ApplyOverrides(d, init).value, SplitDots(last.0), last.1, q);
    }
  }

  /** An override that no later override disturbs is what is found at its path. */
  lemma OverridesLastWrite(d: map<string, Value>, ovr: seq<(string, Value)>, i: nat, q: seq<string>)
    requires ApplyOverrides(d, ovr).Ok? && LastWrite(ovr, i, q)
    ensures Get(Dict(ApplyOverrides(d, ovr).value), q) == Ok(ovr[i].1)
  {
    OverridesFrame(d, ovr, i + 1, q);
    var upto := ovr[..i + 1];
    assert upto[..i] == ovr[..i] && upto[i] == ovr[i];
    SetThenGet(ApplyOverrides(d, ovr[..i]).value, q, ovr[i].1);
  }

  /** With no override at, above or below `q`, the overrides leave `q` as it was. */
  lemma OverridesUntouched(d: map<string, Value>, ovr: seq<(string, Value)>, q: seq<string>)
    requires ApplyOverrides(d, ovr).Ok? && Untouched(ovr, q)
    ensures SameFind(Get(Dict(ApplyOverrides(d, ovr).value), q), Get(Dict(d), q))
  {
    OverridesFrame(d, ovr, 0, q);
    assert ovr[..0] == [];
  }

  lemma GetOne(d: map<string, Value>, f: string)
    ensures Get(Dict(d), [f]) == if f in d then Ok(d[f]) else Err(KeyNotFound(f))
  {
    assert [f][1..] == [];
  }

  lemma GetTwo(d: map<string, Value>, f: string, k: string)
    ensures Get(Dict(d), [f, k]).Ok? <==> f in d && d[f].Dict? && k in d[f].entries
    ensures Get(Dict(d), [f, k]).Ok? ==> Get(Dict(d), [f, k]).value == d[f].entries[k]
  {
    assert [f, k][1..] == [k] && [k][1..] == [];
    if f in d {
      assert Get(Dict(d), [f, k]) == Get(d[f], [k]);
      match d[f]
      case Leaf(_) =>
      case Dict(m) =>
        if k in m {
          assert Get(d[f], [k]) == Get(m[k], []);
        }
    }
  }

  /** Constructing `c` from the dict found under `g` gives field `k` the value found
      at `[g, k]`. */
  lemma ConstructAt(d: map<string, Value>, g: string, k: string, c: PyClass, val: Value)
    requires k in Fields(c) && Get(Dict(d), [g, k]) == Ok(val)
    ensures g in d && d[g].Dict? && Construct(c, d[g].entries).values[k] == val
  {
    GetTwo(d, g, k);
  }

  // ---------------------------------------------------------------------------
  // Precedence

  /** With no selections and no overrides, the result is the root class with each
      field at its default. */
  lemma BuildDefaults(root: PyClass, t: Tables)
    ensures Build(root, t, [], []) == Ok(Config(root, DefaultFields(root)))
  {
    BuildNothing(root, t);
    DefaultFinalFields(root);
  }

  /** `final_dict` built from the defaults alone is the typed defaults. */
  lemma DefaultFinalFields(root: PyClass)
    ensures FinalFields(root, BaseDict(root), map[]) == DefaultFields(root)
  {
    var fields := FinalFields(root, BaseDict(root), map[]);
    forall f | f in Fields(root)
      ensures fields[f] == DefaultFields(root)[f]
    {
      FinalFieldAt(root, BaseDict(root), map[], f);
    }
    SameMaps(fields, DefaultFields(root));
  }

  lemma SameMaps(a: map<string, Slot>, b: map<string, Slot>)
    requires a.Keys == b.Keys && forall k :: k in a ==> a[k] == b[k]
    ensures a == b
  {
  }

  /** With nothing selected and nothing overridden, the three stages pass the
      defaults through to `final_dict`. */
  lemma BuildNothing(root: PyClass, t: Tables)
    ensures Build(root, t, [], []) == Ok(Config(root, FinalFields(root, BaseDict(root), map[])))
  {
    assert Selected(root, t, []) == Ok(Working(BaseDict(root), map[]));
    assert ApplyOverrides(BaseDict(root), []) == Ok(BaseDict(root));
    assert Rebuilt(BaseDict(root), map[]) == Ok(map[]);
  }

  /** When the root is the variant named on the command line, the result is of the
      variant's class and carries the variant's own defaults. */
  lemma VariantDefaults(base: PyClass, t: Tables, v: string)
    requires v != [] && v in t.variants
    ensures SelectConfigClass(base, t, Some(v)) == Ok(t.variants[v])
    ensures Build(t.variants[v], t, [], []) == Ok(Config(t.variants[v], DefaultFields(t.variants[v])))
  {
    BuildDefaults(t.variants[v], t);
  }

  /** A group selection replaces the whole field: with no override under the group,
      the field is a fresh default instance of the selected class. */
  lemma GroupSwapReplacesField(root: PyClass, t: Tables, sels: seq<(string, string)>, ovr: seq<(string, Value)>,
                               g: string, n: string, c: PyClass)
    requires Build(root, t, sels, ovr).Ok? && g in Fields(root)
    requires LastSelection(sels, g) == Some(n) && FindInGroup(t, g, n) == Ok(c)
    requires Untouched(ovr, [g])
    ensures Build(root, t, sels, ovr).value.fields[g] == Typed(Instantiate(c))
  {
    var w := Selected(root, t, sels).value;
    SelectedState(root, t, sels, g);
    var d := ApplyOverrides(w.dict, ovr).value;
    OverridesUntouched(w.dict, ovr, [g]);
    GetOne(d, g);
    GetOne(w.dict, g);
    var rebuilt := Rebuilt(d, w.instances).value;
    assert rebuilt[g] == Construct(c, Dump(Instantiate(c)).entries);
    ConstructDefaults(c);
    FinalFieldAt(root, d, rebuilt, g);
  }

  /** The swapped instance of group g after the build: of the selected class, built
      from what `config_dict` holds under g once the overrides are applied. */
  lemma SwappedSlot(root: PyClass, t: Tables, sels: seq<(string, string)>, ovr: seq<(string, Value)>,
                    g: string, n: string, c: PyClass)
    requires Build(root, t, sels, ovr).Ok? && g in Fields(root)
    requires LastSelection(sels, g) == Some(n) && FindInGroup(t, g, n) == Ok(c)
    ensures var d := ApplyOverrides(Selected(root, t, sels).value.dict, ovr).value;
      g in d && d[g].Dict? &&
      Build(root, t, sels, ovr).value.fields[g] == Typed(Construct(c, d[g].entries))
  {
    var w := Selected(root, t, sels).value;
    SelectedState(root, t, sels, g);
    var d := ApplyOverrides(w.dict, ovr).value;
    OverridesKeepKeys(w.dict, ovr);
    var rebuilt := Rebuilt(d, w.instances).value;
    FinalFieldAt(root, d, rebuilt, g);
  }

  /** An override under a swapped group reaches the swapped instance, which keeps
      the selected class. */
  lemma OverrideReachesSwappedGroup(root: PyClass, t: Tables, sels: seq<(string, string)>, ovr: seq<(string, Value)>,
                                    g: string, n: string, c: PyClass, k: string, i: nat)
    requires Build(root, t, sels, ovr).Ok? && g in Fields(root)
    requires LastSelection(sels, g) == Some(n) && FindInGroup(t, g, n) == Ok(c)
    requires k in Fields(c) && LastWrite(ovr, i, [g, k])
    ensures var slot := Build(root, t, sels, ovr).value.fields[g];
      slot.Typed? && slot.instance.cls == c && k in slot.instance.values && slot.instance.values[k] == ovr[i].1
  {
    SwappedSlot(root, t, sels, ovr, g, n, c);
    var w := Selected(root, t, sels).value;
    OverridesLastWrite(w.dict, ovr, i, [g, k]);
    ConstructAt(ApplyOverrides(w.dict, ovr).value, g, k, c, ovr[i].1);
  }

  /** A swapped group keeps the selected class's default for every field that no
      override touches. */
  lemma SwappedGroupKeepsDefaults(root: PyClass, t: Tables, sels: seq<(string, string)>, ovr: seq<(string, Value)>,
                                  g: string, n: string, c: PyClass, k: string)
    requires Build(root, t, sels, ovr).Ok? && g in Fields(root)
    requires LastSelection(sels, g) == Some(n) && FindInGroup(t, g, n) == Ok(c)
    requires k in Fields(c) && Untouched(ovr, [g, k])
    ensures var slot := Build(root, t, sels, ovr).value.fields[g];
      slot.Typed? && slot.instance.cls == c && k in slot.instance.values && slot.instance.values[k] == Fields(c)[k].default
  {
    SwappedSlot(root, t, sels, ovr, g, n, c);
    var w := Selected(root, t, sels).value;
    SelectedState(root, t, sels, g);
    OverridesUntouched(w.dict, ovr, [g, k]);
    GetTwo(w.dict, g, k);
    ConstructAt(ApplyOverrides(w.dict, ovr).value, g, k, c, Fields(c)[k].default);
  }

  /** What `config_dict` holds for a field that was not swapped, after the overrides. */
  lemma PlainSlot(root: PyClass, t: Tables, sels: seq<(string, string)>, ovr: seq<(string, Value)>, f: string)
    requires Build(root, t, sels, ovr).Ok? && f in Fields(root) && LastSelection(sels, f).None?
    ensures var d := ApplyOverrides(Selected(root, t, sels).value.dict, ovr).value;
      Build(root, t, sels, ovr).value.fields[f] ==
        Typing(Fields(root)[f].annotation, if f in d then d[f] else Fields(root)[f].default)
  {
    var w := Selected(root, t, sels).value;
    SelectedState(root, t, sels, f);
    var d := ApplyOverrides(w.dict, ovr).value;
    var rebuilt := Rebuilt(d, w.instances).value;
    FinalFieldAt(root, d, rebuilt, f);
  }

  /** A field that is neither swapped nor overridden keeps the root class's default. */
  lemma UntouchedFieldKeepsDefault(root: PyClass, t: Tables, sels: seq<(string, string)>, ovr: seq<(string, Value)>, f: string)
    requires Build(root, t, sels, ovr).Ok? && f in Fields(root)
    requires LastSelection(sels, f).None? && Untouched(ovr, [f])
    ensures Build(root, t, sels, ovr).value.fields[f] == DefaultFields(root)[f]
  {
    PlainSlot(root, t, sels, ovr, f);
    var w := Selected(root, t, sels).value;
    SelectedState(root, t, sels, f);
    OverridesUntouched(w.dict, ovr, [f]);
    GetOne(ApplyOverrides(w.dict, ovr).value, f);
    GetOne(w.dict, f);
  }

  /** A field override beats the default: the field holds the overriding value
      (typed when the field is declared as a config class and the value is a dict). */
  lemma FieldOverrideWins(root: PyClass, t: Tables, sels: seq<(string, string)>, ovr: seq<(string, Value)>, f: string, i: nat)
    requires Build(root, t, sels, ovr).Ok? && f in Fields(root)
    requires LastSelection(sels, f).None? && LastWrite(ovr, i, [f])
    ensures Build(root, t, sels, ovr).value.fields[f] == Typing(Fields(root)[f].annotation, ovr[i].1)
  {
    PlainSlot(root, t, sels, ovr, f);
    var w := Selected(root, t, sels).value;
    OverridesLastWrite(w.dict, ovr, i, [f]);
    GetOne(ApplyOverrides(w.dict, ovr).value, f);
  }

  /** A field declared as a config class and not swapped is rebuilt as an instance
      of its declared class, carrying any override below it. */
  lemma NestedOverrideRebuilt(root: PyClass, t: Tables, sels: seq<(string, string)>, ovr: seq<(string, Value)>,
                              f: string, k: string, i: nat, c: PyClass)
    requires Build(root, t, sels, ovr).Ok? && f in Fields(root) && LastSelection(sels, f).None?
    requires Fields(root)[f].annotation == TypeRef(c) && IsConfigClass(c)
    requires k in Fields(c) && LastWrite(ovr, i, [f, k])
    ensures var slot := Build(root, t, sels, ovr).value.fields[f];
      slot.Typed? && slot.instance.cls == c && k in slot.instance.values && slot.instance.values[k] == ovr[i].1
  {
    PlainSlot(root, t, sels, ovr, f);
    var w := Selected(root, t, sels).value;
    OverridesLastWrite(w.dict, ovr, i, [f, k]);
    ConstructAt(ApplyOverrides(w.dict, ovr).value, f, k, c, ovr[i].1);
  }

  /** The same nested field keeps, for each of its keys no override touches, the value
      the root class's default gave it. */
  lemma NestedKeepsDefault(root: PyClass, t: Tables, sels: seq<(string, string)>, ovr: seq<(string, Value)>,
                           f: string, k: string, c: PyClass)
    requires Build(root, t, sels, ovr).Ok? && f in Fields(root) && LastSelection(sels, f).None?
    requires Fields(root)[f].annotation == TypeRef(c) && IsConfigClass(c)
    requires Fields(root)[f].default.Dict? && k in Fields(root)[f].default.entries
    requires k in Fields(c) && Untouched(ovr, [f, k])
    ensures var slot := Build(root, t, sels, ovr).value.fields[f];
      slot.Typed? && slot.instance.cls == c && k in slot.instance.values && slot.instance.values[k] == Fields(root)[f].default.entries[k]
  {
    PlainSlot(root, t, sels, ovr, f);
    var w := Selected(root, t, sels).value;
    SelectedState(root, t, sels, f);
    OverridesUntouched(w.dict, ovr, [f, k]);
    GetTwo(w.dict, f, k);
    ConstructAt(ApplyOverrides(w.dict, ovr).value, f, k, c, Fields(root)[f].default.entries[k]);
  }

  lemma {:induction false} OverridesKeepKeys(d: map<string, Value>, ovr: seq<(string, Value)>)
    requires ApplyOverrides(d, ovr).Ok?
    ensures d.Keys <= ApplyOverrides(d, ovr).value.Keys
    decreases |ovr|
  {
    if ovr != [] {
      var init := ovr[..|ovr| - 1];
      OverridesKeepKeys(d, init);
      SetKeepsKeys(ApplyOverrides(d, init).value, SplitDots(ovr[|ovr| - 1].0), ovr[|ovr| - 1].1);
    }
  }

  lemma SetKeepsKeys(m: map<string, Value>, p: seq<string>, v: Value)
    requires Set(m, p, v).Ok?
    ensures m.Keys <= Set(m, p, v).value.Keys
  {
  }
}
