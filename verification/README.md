# pydraconf configuration engine, modelled in Dafny

pydraconf turns a pydantic model class into a configurable entry point. It has
three layers:

- **Discovery.** It scans one or more configuration directories. Every config
  class that is a member of a module under a sub-directory, defined there or
  imported, becomes a *group* entry: the group is the directory name and the
  entry name is the file stem. Every config class that is a member of any
  scanned module, in the root or under a sub-directory, and whose direct base
  is a config class becomes a *variant*, named by its class name in kebab case.
- **Choice of the root class.** A variant chosen on the command line replaces
  the base class.
- **Building the configuration object.** The object is built from:
  - the root class's defaults;
  - the *group selections*, which swap a whole sub-configuration for a class of
    the group;
  - the *field overrides*, dotted paths such as `model.hidden_dim` written into
    the nested dict.

The priority is base defaults < group selections < field overrides.

The project models:

- the path and name helpers of `utils.py` (module `Utils`);
- the pydantic notions the engine relies on: model classes, instances,
  `model_dump` and construction from keywords (module `Schema`);
- the registry class, its lookups and its discovery loop (module `Registry`);
- `_build_config`, multi-directory discovery and the variant/base choice of
  `decorators.py` (module `Decorators`);
- the precedence guarantees of `_build_config` (module `Precedence`).

Python dicts become Dafny maps. A nested dict is a `Value` (a leaf or a dict).
Classes are records (`PyClass`) holding their direct bases and field tables.
Every exception the source can raise outside pydantic validation becomes the
`Err` case of a `Result`:

- `KeyError`, `TypeError`, `AttributeError` (`setdefault` on a non-dict) and
  `IndexError` (an empty path) from the path helpers become `PathError`;
- `KeyError` from the registry becomes `LookupError`;
- the `**` of a non-dict becomes `BuildError.NotAMapping`.

The registry and the five loops of `_build_config` are imperative in the
source, so they are modelled as a class and as methods with loop invariants.
Each of those methods is proved equal to a specification function, and the
properties are proved about those functions.

## Model

| member | source | states |
|---|---|---|
| Utils.GetNestedValue | src/pydraconf/utils.py:44-47 | the loop returns the value found by indexing one key after another (`Get`); a missing key is `KeyNotFound`, indexing a non-dict is `NotAMap` |
| Utils.GetAppend | src/pydraconf/utils.py:44-47 | looking up `p + q` is looking up `p`, then `q` inside what was found; a failure on `p` is the failure of the whole |
| Utils.GetFailsAt | src/pydraconf/utils.py:45-46 | the lookup fails at the first key that is missing from the dict reached (`KeyNotFound`) or that indexes a non-dict (`NotAMap`) |
| Utils.SetNestedValue | src/pydraconf/utils.py:21-23 | the loop (`setdefault` down the path, then assignment) leaves the dict that `Set` describes, or fails as `Set` does |
| Utils.SetIntoEmpty | src/pydraconf/utils.py:21-23 | writing into an empty dict creates every intermediate dict along the path |
| Utils.SetThenGetBelow | src/pydraconf/utils.py:21-23 | after the write, every path at or below the written one reads from the written value |
| Utils.SetThenGet | src/pydraconf/utils.py:21-23 | round trip: after `set_nested_value(d, p, v)`, `get_nested_value(d, p)` returns `v` |
| Utils.SetMakesDictsAbove | src/pydraconf/utils.py:21-22 | every nonempty path strictly above the written one now leads to a dict |
| Utils.SetFrame | src/pydraconf/utils.py:21-23 | every path apart from the written one finds what it found before, so siblings along a partially existing path survive |
| Utils.SetFailsIff | src/pydraconf/utils.py:21-23 | the write fails exactly when the path is empty (`path[-1]` raises) or some strict prefix already holds a non-dict |
| Utils.LowerRun | src/pydraconf/utils.py:66 | the length of the `[a-z]+` run at the front: all lowercase, and maximal |
| Utils.Lower | src/pydraconf/utils.py:69 | `str.lower` restricted to ASCII: same length, each of `A`-`Z` lowered, every other character kept |
| Utils.CamelToKebab | src/pydraconf/utils.py:66-69 | the result has no ASCII uppercase letter |
| Utils.HyphenateWords | src/pydraconf/utils.py:66 | the first substitution never shortens the name and keeps its first character, since every match needs a character before the capitalised word |
| Utils.HyphenateCaps | src/pydraconf/utils.py:68 | the second substitution never shortens the text and keeps its first character, since every match starts with a lowercase letter or digit that stays |
| Utils.HyphenateWordsOnlyInserts | src/pydraconf/utils.py:66 | the first substitution only inserts hyphens |
| Utils.HyphenateCapsOnlyInserts | src/pydraconf/utils.py:68 | the second substitution only inserts hyphens |
| Utils.CamelToKebabOnlyInsertsHyphens | src/pydraconf/utils.py:66-69 | with hyphens removed, the result is the input with its ASCII capitals lowered |
| Utils.CamelToKebabKeepsLowercase | src/pydraconf/utils.py:66-69 | a name with no ASCII uppercase letter is returned unchanged (tests/test_utils.py:27) |
| Utils.WordsSkip | src/pydraconf/utils.py:66 | a prefix in which no match of `(.)([A-Z][a-z]+)` starts is copied unchanged by the first substitution |
| Utils.MatchAfter | src/pydraconf/utils.py:66 | a character (not a newline) followed by a capitalised word: the first substitution puts one hyphen between them and resumes after the word |
| Utils.TwoWords | src/pydraconf/utils.py:66 | two capitalised words in a row are separated by one hyphen |
| Utils.AcronymWord | src/pydraconf/utils.py:66 | a run of capitals followed by a capitalised word: the hyphen goes between the run and the word |
| Utils.LoneWord | src/pydraconf/utils.py:66 | a single capitalised word is left alone by the first substitution |
| Utils.CapsKeep | src/pydraconf/utils.py:68 | text with no lower-or-digit/upper pair, inside it or across its end, is copied unchanged by the second substitution |
| Utils.CapsSplit | src/pydraconf/utils.py:68 | where a text without such pairs ends in a lowercase letter or digit and the next character is a capital, the second substitution inserts exactly one hyphen there |
| Utils.CamelToKebabOneWord | src/pydraconf/utils.py:66-69 | a capitalised word is only lowercased (tests/test_utils.py:23) |
| Utils.CamelToKebabTwoWords | src/pydraconf/utils.py:66-69 | two capitalised words become both lowercased, joined by one hyphen (tests/test_utils.py:13-14) |
| Utils.CamelToKebabAcronymWord | src/pydraconf/utils.py:66-69 | a run of capitals then a capitalised word: the run stays whole, both lowercased and joined by one hyphen (tests/test_utils.py:19) |
| Utils.CamelToKebabAcronymTwoWords | src/pydraconf/utils.py:66-69 | a run of capitals then two capitalised words: three lowercased parts joined by hyphens (tests/test_utils.py:18) |
| Utils.CamelToKebabQuickTest | tests/test_utils.py:13 | `QuickTest` becomes `quick-test` |
| Utils.CamelToKebabConfig | tests/test_utils.py:23 | `Config` becomes `config` |
| Utils.KebabToSnake | src/pydraconf/utils.py:85 | same length, no hyphen left, every hyphen becomes `_` and every other character is kept |
| Utils.KebabToSnakeHiddenDim | tests/test_utils.py:35 | `hidden-dim` becomes `hidden_dim` |
| Utils.KebabToSnakeNoHyphens | tests/test_utils.py:40 | a name without hyphens is unchanged |
| Schema.Construct | src/pydraconf/decorators.py:66 | `cls(**m)`: an instance of `cls` with exactly its declared fields, each from `m` when given and its default otherwise |
| Schema.Instantiate | src/pydraconf/decorators.py:53 | `cls()`: an instance with every field at its default |
| Schema.Dump | src/pydraconf/decorators.py:54 | `model_dump()`: a dict holding the instance's field values; this definition is the model's specification of the library call, and what it means for reconstruction is stated by `Schema.ConstructDump` |
| Schema.ConstructDump | src/pydraconf/decorators.py:66 | reconstructing an instance from its own dump gives it back |
| Schema.ConstructDefaults | src/pydraconf/decorators.py:53-54 | a default instance survives a dump and a reconstruction |
| Registry.FindInGroup | src/pydraconf/registry.py:87-105 | `get_group` succeeds exactly when the group and name are registered, returning that class; otherwise group-not-found (listing the groups) or name-not-found (listing the group's names) |
| Registry.FindVariant | src/pydraconf/registry.py:107-121 | `get_variant` succeeds exactly when the name is registered; otherwise variant-not-found, listing the variants |
| Registry.GroupListing | src/pydraconf/registry.py:123-129 | `list_groups` has exactly the registered groups, and a group lists exactly the names `get_group` finds |
| Registry.VariantListing | src/pydraconf/registry.py:131-137 | `list_variants` holds exactly the names `get_variant` finds |
| Registry.FindAfterWithGroup | src/pydraconf/registry.py:74-76 | after `register_group(g, n, c)`, `get_group(g, n)` is `c` and both appear in `list_groups` |
| Registry.WithGroupFrame | src/pydraconf/registry.py:74-76 | `register_group` changes no other (group, name) lookup and no variant |
| Registry.WithGroupOverwrites | src/pydraconf/registry.py:76 | registering the same (group, name) twice keeps the second class |
| Registry.FindAfterWithVariant | src/pydraconf/registry.py:85 | after `register_variant(v, c)`, `get_variant(v)` is `c`; other variants and all groups are unchanged; a second registration overwrites |
| Registry.EmptyHasNothing | src/pydraconf/registry.py:22-25 | a new registry lists nothing and every lookup fails (tests/test_registry.py:24) |
| Registry.ConfigRegistry.constructor | src/pydraconf/registry.py:22-25 | the new registry's tables are empty |
| Registry.ConfigRegistry.RegisterGroup | src/pydraconf/registry.py:66-76 | the tables become `WithGroup` of the old tables (the group is created if missing) |
| Registry.ConfigRegistry.RegisterVariant | src/pydraconf/registry.py:78-85 | the tables become `WithVariant` of the old tables |
| Registry.ConfigRegistry.IsVariant | src/pydraconf/registry.py:179-191 | the loop over `__bases__` answers whether some direct base is a config class |
| Registry.ConfigRegistry.Discover | src/pydraconf/registry.py:37-64 | the registry gains, in scan order, the registrations of every non-private, importable file; a missing directory changes nothing |
| Registry.ConfigRegistry.DiscoverMembers | src/pydraconf/registry.py:51-64 | the members of one module are registered in order |
| Registry.ConfigRegistry.RegisterMember | src/pydraconf/registry.py:52-64 | a config class is registered under its directory and stem when outside the root, and as a kebab-case variant when a base is a config class |
| Registry.ApplyAllAppend | src/pydraconf/registry.py:40-64 | performing two batches of registrations is performing their concatenation |
| Registry.InFilesRegistrations | src/pydraconf/registry.py:40-48 | a registration comes from a scan exactly when it comes from one of its files; private stems and failed imports contribute nothing |
| Registry.GroupClassification | src/pydraconf/registry.py:55-59 | (g, n, c) is a group registration exactly when `c` is a config-class member of a non-skipped file outside the root, with directory `g` and stem `n` |
| Registry.VariantClassification | src/pydraconf/registry.py:61-64 | (v, c) is a variant registration exactly when `c` is a config-class member of a non-skipped file, has a config base and `v` is its kebab-case name |
| Registry.IsConfigObject | src/pydraconf/registry.py:164-177 | only classes other than `BaseModel` pass; any class with `BaseModel` among its direct bases passes |
| Registry.HasConfigBase | src/pydraconf/registry.py:179-191 | a class with a config-class base is itself a config class; a class whose only base is `BaseModel` is not a variant |
| Registry.Skipped | src/pydraconf/registry.py:42-48 | a file is skipped exactly when its stem starts with `_` or importing it fails |
| Registry.OnlyConfigClassesRegistered | src/pydraconf/registry.py:164-177 | only config classes are ever registered, never `BaseModel` itself |
| Registry.FindAfterApplyAll | src/pydraconf/registry.py:74-76 | after a run of registrations `get_group(g, n)` is the last class registered for (g, n); with none, the earlier answer |
| Registry.FindVariantAfterApplyAll | src/pydraconf/registry.py:85 | after a run of registrations `get_variant(v)` is the last class registered for `v`; with none, the earlier answer |
| Registry.LastInGroupAppend | src/pydraconf/registry.py:76 | the last registration of (g, n) in `a + b` is the one in `b` if there is one, else the one in `a` |
| Registry.LastVariantAppend | src/pydraconf/registry.py:85 | the same for variants |
| Registry.LastInGroupFlatten | src/pydraconf/registry.py:76 | in a sequence of batches of registrations, the last registration of (g, n) comes from the last batch that has one |
| Registry.LastVariantFlatten | src/pydraconf/registry.py:85 | the same for variants |
| Registry.FilesStep | src/pydraconf/registry.py:40-48 | scanning one more file performs its registrations after the earlier files'; a skipped file performs none |
| Registry.MemberTakesStem | src/pydraconf/registry.py:56-59 | a config-class member of a file outside the root registers the key (directory, stem) with its own class |
| Registry.GroupFileEntry | src/pydraconf/registry.py:51-59 | every config class of a group file shares the key (directory, stem), so `get_group` returns the file's last config-class member in the name-sorted member list, imported classes included |
| Registry.SameFileSameKey | src/pydraconf/registry.py:56-59 | of two config classes in one group file, the one later in the name-sorted member list is what `get_group` returns |
| Registry.ImportedBaseTakesStem | src/pydraconf/registry.py:51-58 | when the imported base's name sorts last (members AdamConfig, Field, OptimizerConfig, as for examples/ml_training/configs/optimizer/adam.py:3), the file's entry is the imported base |
| Registry.DefinedClassTakesStem | src/pydraconf/registry.py:51-58 | when the defined class's name sorts last (members Field, OptimizerConfig, SGDConfig, as for examples/ml_training/configs/optimizer/sgd.py:7), the file's entry is the defined class |
| Decorators.SplitDots | src/pydraconf/decorators.py:59 | `path.split(".")` has at least one piece and no piece holds a dot |
| Decorators.JoinSplit | src/pydraconf/decorators.py:59 | joining the pieces with dots gives the path back |
| Decorators.SplitJoin | src/pydraconf/decorators.py:59 | splitting dot-free pieces joined by dots gives the pieces back |
| Decorators.DiscoverAll | src/pydraconf/decorators.py:182-186 | a new registry holds the registrations of every directory in the given order (missing ones add nothing) |
| Decorators.DiscoverStep | src/pydraconf/decorators.py:184-186 | discovering one more directory performs its registrations after the earlier directories'; a missing directory performs none |
| Decorators.LaterDirectoryWinsGroup | src/pydraconf/decorators.py:183-186 | a group entry is found as registered by the last directory that registers it |
| Decorators.LaterDirectoryWinsVariant | src/pydraconf/decorators.py:183-186 | a variant is found as registered by the last directory that registers it |
| Decorators.SelectConfigClass | src/pydraconf/decorators.py:193 | no variant or an empty name selects the base class; otherwise the variant's lookup decides, failing when it is not registered |
| Decorators.FinalFieldAt | src/pydraconf/decorators.py:70-89 | each field of the result is its swapped group's rebuilt instance, or the value `config_dict` holds (else the default), typed when declared as a config class and holding a dict |
| Decorators.Build | src/pydraconf/decorators.py:17-89 | a built config is of the root class and has exactly its declared fields |
| Decorators.BuildConfig | src/pydraconf/decorators.py:45-89 | the five loops (the last two run by `Finish`) compute `Build` |
| Decorators.SelectGroups | src/pydraconf/decorators.py:46-54 | the selection loop computes `Selected`, stopping at the first failing lookup |
| Decorators.OverrideFields | src/pydraconf/decorators.py:57-60 | the override loop computes `ApplyOverrides`, stopping at the first failing write |
| Decorators.RebuildGroups | src/pydraconf/decorators.py:63-66 | each swapped group present in `config_dict` is reconstructed as its selected class from its entry; a non-dict entry fails |
| Decorators.ReconstructedStep | src/pydraconf/decorators.py:63-66 | reconstructing one more group changes only that group, which still holds its selected instance, into an instance of the same class built from its entry; a group absent from `config_dict` keeps its instance |
| Decorators.Finish | src/pydraconf/decorators.py:70-89 | the result is the root class with `FinalFields` |
| Decorators.PlaceGroups | src/pydraconf/decorators.py:74-75 | every swapped group's entry becomes its instance, everything else is kept |
| Decorators.PlacedStep | src/pydraconf/decorators.py:74-75 | placing one more swapped group sets exactly that key of `final_dict` to its instance |
| Decorators.RebuildFields | src/pydraconf/decorators.py:79-86 | exactly the fields that are declared, not swapped, still raw and typed as a config class are rebuilt when they hold a dict |
| Decorators.RetypedStep | src/pydraconf/decorators.py:79-86 | looking at one more declared field changes at most that field: a raw dict under a config-class annotation becomes an instance; swapped groups, absent keys and other values stay |
| Decorators.SelectedErrStays | src/pydraconf/decorators.py:51-52 | once a lookup has failed, the later selections do not change the error |
| Decorators.OverridesErrStays | src/pydraconf/decorators.py:57-60 | once a write has failed, the later overrides do not change the error |
| Precedence.SelectedState | src/pydraconf/decorators.py:51-54 | after the selections, a selected group holds a default instance of the class its last selection names (instance and dump); any other key keeps its default |
| Precedence.FirstFailingSelection | src/pydraconf/decorators.py:52 | the first selection whose lookup fails is the error of the whole build |
| Precedence.OverridesFrame | src/pydraconf/decorators.py:57-60 | overrides apart from a path leave what is found there unchanged |
| Precedence.OverridesLastWrite | src/pydraconf/decorators.py:57-60 | the value of the last override at a path, with no later override above or below it, is what is found there |
| Precedence.OverridesUntouched | src/pydraconf/decorators.py:57-60 | with no override at, above or below a path, it finds what it found before |
| Precedence.BuildDefaults | src/pydraconf/decorators.py:46-89 | with no selections and no overrides, every field holds its default (nested config fields typed) (tests/test_integration.py:56) |
| Precedence.DefaultFinalFields | src/pydraconf/decorators.py:70-89 | `final_dict` built from the defaults alone holds every field at its default, typed when declared as a config class |
| Precedence.VariantDefaults | src/pydraconf/decorators.py:193-196 | a chosen variant becomes the root class and carries its own defaults (tests/test_integration.py:65) |
| Precedence.GroupSwapReplacesField | src/pydraconf/decorators.py:51-75 | a selected group's field is a default instance of the selected class when no override reaches it (tests/test_integration.py:73) |
| Precedence.SwappedSlot | src/pydraconf/decorators.py:63-75 | a swapped group's field is its selected class constructed from the group's entry after the overrides |
| Precedence.OverrideReachesSwappedGroup | src/pydraconf/decorators.py:57-75 | an override below a swapped group reaches its instance, which keeps the selected class (tests/test_integration.py:118) |
| Precedence.SwappedGroupKeepsDefaults | src/pydraconf/decorators.py:51-75 | a swapped group keeps the selected class's default in every field no override touches (tests/test_integration.py:137) |
| Precedence.PlainSlot | src/pydraconf/decorators.py:70-86 | a field that was not swapped holds what `config_dict` holds after the overrides, typed as declared |
| Precedence.UntouchedFieldKeepsDefault | src/pydraconf/decorators.py:46-89 | a field neither swapped nor overridden keeps the root's default |
| Precedence.FieldOverrideWins | src/pydraconf/decorators.py:57-89 | a field override beats the default (variant or base) (tests/test_integration.py:84) |
| Precedence.NestedOverrideRebuilt | src/pydraconf/decorators.py:57-86 | a nested override lands in a non-swapped config field, which is rebuilt as its declared class (tests/test_integration.py:91) |
| Precedence.NestedKeepsDefault | src/pydraconf/decorators.py:57-86 | that rebuilt field keeps every default key no override touches |
| Precedence.OverridesKeepKeys | src/pydraconf/decorators.py:57-60 | overrides never remove a top-level key |

## Left out

- Filesystem access is left out. `Path.exists` and `rglob` become the `Directory` value, a list of files in scan order. `_import_module` (src/pydraconf/registry.py:139-162) becomes `SourceFile.members`, which is `None` when the import fails. `inspect.getmembers` becomes the member list in its given order. That list holds every member of the module, imported names included, sorted by name, so a group file's entry is its config-class member whose name sorts last (`Registry.GroupFileEntry`).
- A file whose stem starts with `_` is private. The scan's own exclusion of other files (non-`.py` files, for example) is not modelled, since it is part of the `Directory` value.
- Schema.FieldSpec: every field is modelled with a default, so required fields cannot be expressed. The `ValidationError` that pydantic raises at `config_cls()`, `new_cls()`, `type(instance)(**...)` and `field_type(**...)` (src/pydraconf/decorators.py:46, 53, 66, 70, 86), for a missing required field or a value it rejects, has no `Err` case.
- pydantic's validation and coercion are not modelled. A field value is stored as given. Construction from keywords keeps the declared fields and drops any other key. Default factories are folded into the field's dumped default.
- Registry.ConfigRegistry.GetGroup, GetVariant, ListGroups and ListVariants have no contracts of their own. They return the table functions `FindInGroup`, `FindVariant`, `GroupListing` and `VariantListing`, which carry the contracts.
- Registry.GroupListing and Registry.VariantListing return sets. The insertion order of Python's dict keys and lists is not modelled.
- Error payloads keep the offending names and the sets of available names. Message strings are not modelled.
- Decorators.Build takes the group selections and field overrides as sequences of pairs. A Python dict has each key once. The model allows repeats, and the last one wins.
- The command-line parser (`cli.py`) and `config_loader.py` are not part of this model. That includes variable substitution in directory names, root-directory search and the resolution of relative paths. The decorator body around lines 182-196 (parsing, calling the user function) is left out too; only its discovery loop and its class choice are modelled.
- Aliasing is not modelled: the model treats dicts as values. `model_dump` returns fresh dicts, but an override whose value is a dict stores the caller's dict object itself (src/pydraconf/decorators.py:60 with src/pydraconf/utils.py:23), and a later override below that key writes into it through `setdefault` (src/pydraconf/utils.py:22). With `field_overrides = {"a": D, "b": D, "a.x": 1}` for one dict `D`, the source ends with `b.x == 1` and the caller's `D` changed, while the model leaves `b` as `{}`. The model matches the source when no override value is a dict.
- `tests/test_integration.py:75` selects `{"model": "SmallModelConfig"}` by class name. The code registers group entries under the file stem (src/pydraconf/registry.py:58). The docstring in `examples/multi_class_file/configs/model/variants.py` likewise describes registration by class name. The model follows the code: it registers every config class of a group file under the stem, and the member whose name sorts last wins (`Registry.SameFileSameKey`).
- Utils.Lower lowers only `A`-`Z`. Python's `str.lower` at src/pydraconf/utils.py:69 applies the full Unicode case mapping, so a class name with a non-ASCII capital (`ÜberConfig`) keeps that capital in the model (`Über-config`) while the source lowers it (`über-config`). The two regular expressions at lines 66 and 68 use the ASCII ranges `[A-Z]` and `[a-z]`, so only the lowering differs.
- CamelToKebabOnlyInsertsHyphens states the result as the input with its ASCII capitals lowered; for names with non-ASCII capitals this is not Python's result, for the reason above.
- CamelToKebab and CamelToKebabKeepsLowercase speak of ASCII uppercase only; a name whose only capitals are non-ASCII is returned unchanged by the model, while the source lowers them.
