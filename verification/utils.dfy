/** Nested-path and name utilities of utils.py: reading and writing a value at a
    key path inside a nested dict, and the two name conversions. */
module Utils {
  import opened Results

  /** A configuration value as `model_dump` produces it: an opaque scalar, or a
      dict keyed by strings whose values are again configuration values. */
  datatype Value = Leaf(text: string) | Dict(entries: map<string, Value>)

  /** What reading or writing at a key path raises. */
  datatype PathError =
    | KeyNotFound(key: string)  // KeyError: `key` is absent from the dict reached so far
    | NotAMap(key: string)      // TypeError/AttributeError: `key` was applied to a value that is not a dict
    | EmptyPath                 // IndexError: `path[-1]` of an empty path

  // ---------------------------------------------------------------------------
  // Paths

  predicate IsPrefix(q: seq<string>, p: seq<string>) {
    |q| <= |p| && p[..|q|] == q
  }

  lemma EmptyIsPrefix(p: seq<string>)
    ensures IsPrefix([], p)
  {
    assert p[..0] == [];
  }

  lemma PrefixStep(q: seq<string>, p: seq<string>)
    requires q != [] && p != [] && q[0] == p[0]
    ensures IsPrefix(q, p) <==> IsPrefix(q[1..], p[1..])
  {
    if IsPrefix(q[1..], p[1..]) {
      assert p[..|q|] == [p[0]] + p[1..][..|q| - 1];
      assert q == [q[0]] + q[1..];
    }
    if IsPrefix(q, p) {
      assert p[1..][..|q| - 1] == p[..|q|][1..];
    }
  }

  /** Neither path lies on the other: they part ways at some segment. */
  predicate Apart(p: seq<string>, q: seq<string>) {
    !IsPrefix(p, q) && !IsPrefix(q, p)
  }

  /** Two lookups find the same thing: both fail, or both succeed with equal values. */
  predicate SameFind(r1: Result<Value, PathError>, r2: Result<Value, PathError>) {
    r1.Ok? == r2.Ok? && (r1.Ok? ==> r1.value == r2.value)
  }

  // ---------------------------------------------------------------------------
  // get_nested_value

  /** The value `result[k1][k2]...` that get_nested_value computes, starting from `v`. */
  function Get(v: Value, path: seq<string>): Result<Value, PathError>
    decreases |path|
  {
    if path == [] then Ok(v)
    else match v
      case Leaf(_) => Err(NotAMap(path[0]))
      case Dict(m) => if path[0] in m then Get(m[path[0]], path[1..]) else Err(KeyNotFound(path[0]))
  }

  /** get_nested_value: the loop that indexes one segment at a time. */
  method GetNestedValue(d: map<string, Value>, path: seq<string>) returns (r: Result<Value, PathError>)
    ensures r == Get(Dict(d), path)
  {
    var result := Dict(d);
    var i := 0;
    while i < |path|
      invariant 0 <= i <= |path|
      invariant Get(Dict(d), path) == Get(result, path[i..])
    {
      assert path[i..][1..] == path[i + 1..];
      match result {
        case Leaf(_) =>
          return Err(NotAMap(path[i]));
        case Dict(m) =>
          if path[i] !in m {
            return Err(KeyNotFound(path[i]));
          }
          result := m[path[i]];
      }
      i := i + 1;
    }
    return Ok(result);
  }

  /** Reading along `p + q` is reading `p`, then reading `q` from what was found. */
  lemma {:induction false} GetAppend(v: Value, p: seq<string>, q: seq<string>)
    ensures Get(v, p + q) == match Get(v, p) case Ok(w) => Get(w, q) case Err(e) => Err(e)
    decreases |p|
  {
    if p == [] {
      assert p + q == q;
    } else {
      assert (p + q)[0] == p[0] && (p + q)[1..] == p[1..] + q;
      match v
      case Leaf(_) =>
      case Dict(m) =>
        if p[0] in m {
          GetAppend(m[p[0]], p[1..], q);
        }
    }
  }

  /** The two failures of get_nested_value: a segment absent from the dict reached
      so far raises KeyError, a segment applied to a non-dict raises TypeError. */
  lemma GetFailsAt(v: Value, path: seq<string>, i: nat)
    requires i < |path| && Get(v, path[..i]).Ok?
    ensures var w := Get(v, path[..i]).value;
      && (w.Dict? && path[i] !in w.entries ==> Get(v, path) == Err(KeyNotFound(path[i])))
      && (w.Leaf? ==> Get(v, path) == Err(NotAMap(path[i])))
  {
    assert path == path[..i] + path[i..];
    GetAppend(v, path[..i], path[i..]);
  }

  // ---------------------------------------------------------------------------
  // set_nested_value

  /** The dict that set_nested_value leaves behind: each segment but the last is
      taken with `setdefault(key, {})`, and the last is assigned. */
  function Set(m: map<string, Value>, path: seq<string>, v: Value): Result<map<string, Value>, PathError>
    decreases |path|
  {
    if path == [] then Err(EmptyPath)
    else if |path| == 1 then Ok(m[path[0] := v])
    else
      var child := if path[0] in m then m[path[0]] else Dict(map[]);
      match child
      case Leaf(_) => Err(NotAMap(path[1]))
      case Dict(c) =>
        match Set(c, path[1..], v)
        case Ok(c') => Ok(m[path[0] := Dict(c')])
        case Err(e) => Err(e)
  }

  /** One dict on the way down together with the key the walk took out of it. */
  datatype Frame = Frame(outer: map<string, Value>, key: string)

  /** Puts `inner` back at the bottom of the stack of dicts `frames`. */
  function Plug(frames: seq<Frame>, inner: map<string, Value>): map<string, Value>
    decreases |frames|
  {
    if frames == [] then inner
    else
      var f := frames[|frames| - 1];
      Plug(frames[..|frames| - 1], f.outer[f.key := Dict(inner)])
  }

  function PlugResult(frames: seq<Frame>, r: Result<map<string, Value>, PathError>): Result<map<string, Value>, PathError> {
    match r
    case Ok(inner) => Ok(Plug(frames, inner))
    case Err(e) => Err(e)
  }

  /** set_nested_value. The source rebinds `d` to ever deeper dicts and writes into the
      innermost one in place; here dicts are values, so the walk keeps the dicts it
      passed through and, once the innermost one is written, stores each updated dict
      back into its parent. */
  method SetNestedValue(d: map<string, Value>, path: seq<string>, value: Value)
    returns (r: Result<map<string, Value>, PathError>)
    ensures r == Set(d, path, value)
  {
    if path == [] {
      return Err(EmptyPath);
    }
    var frames: seq<Frame> := [];
    var cur := d;
    var i := 0;
    while i < |path| - 1
      invariant 0 <= i <= |path| - 1
      invariant Set(d, path, value) == PlugResult(frames, Set(cur, path[i..], value))
    {
      assert path[i..][0] == path[i] && path[i..][1] == path[i + 1] && path[i..][1..] == path[i + 1..];
      var key := path[i];
      var child := if key in cur then cur[key] else Dict(map[]);
      match child {
        case Leaf(_) =>
          return Err(NotAMap(path[i + 1]));
        case Dict(c) =>
          assert (frames + [Frame(cur, key)])[..|frames|] == frames;
          frames := frames + [Frame(cur, key)];
          cur := c;
      }
      i := i + 1;
    }
    cur := cur[path[i] := value];
    ghost var bottom := cur;
    var j := |frames|;
    assert frames[..j] == frames;
    while j > 0
      invariant 0 <= j <= |frames|
      invariant Plug(frames[..j], cur) == Plug(frames, bottom)
    {
      assert frames[..j][..j - 1] == frames[..j - 1];
      j := j - 1;
      cur := frames[j].outer[frames[j].key := Dict(cur)];
    }
    return Ok(cur);
  }

  /** The nested dict `{p0: {p1: ... {pn: v}}}` that a path spells out. */
  function Spelled(path: seq<string>, v: Value): map<string, Value>
    requires path != []
    decreases |path|
  {
    if |path| == 1 then map[path[0] := v] else map[path[0] := Dict(Spelled(path[1..], v))]
  }

  /** Writing into an empty dict creates every missing intermediate dict. */
  lemma {:induction false} SetIntoEmpty(path: seq<string>, v: Value)
    requires path != []
    ensures Set(map[], path, v) == Ok(Spelled(path, v))
    decreases |path|
  {
    if |path| > 1 {
      SetIntoEmpty(path[1..], v);
    }
  }

  /** Round trip: after set_nested_value(d, p, v), get_nested_value(d, p) returns v. */
  lemma {:induction false} SetThenGet(m: map<string, Value>, p: seq<string>, v: Value)
    requires Set(m, p, v).Ok?
    ensures Get(Dict(Set(m, p, v).value), p) == Ok(v)
    decreases |p|
  {
    var m' := Set(m, p, v).value;
    GetStep(m', p);
    if |p| == 1 {
      assert m'[p[0]] == v;
      assert p[1..] == [];
    } else {
      var c := if p[0] in m then m[p[0]].entries else map[];
      SetStep(m, p, v);
      SetThenGet(c, p[1..], v);
    }
  }

  /** get_nested_value, one step down from a dict holding the first segment. */
  lemma GetStep(m: map<string, Value>, q: seq<string>)
    requires q != [] && q[0] in m
    ensures Get(Dict(m), q) == Get(m[q[0]], q[1..])
  {
  }

  /** set_nested_value, one step down a path of two or more segments. */
  lemma SetStep(m: map<string, Value>, p: seq<string>, v: Value)
    requires |p| >= 2 && Set(m, p, v).Ok?
    ensures p[0] !in m || m[p[0]].Dict?
    ensures var c := if p[0] in m then m[p[0]].entries else map[];
      Set(c, p[1..], v).Ok? && Set(m, p, v).value == m[p[0] := Dict(Set(c, p[1..], v).value)]
  {
  }

  /** When set_nested_value succeeds, reading any path at or below the written one
      finds what lies below in the written value. */
  lemma SetThenGetBelow(m: map<string, Value>, p: seq<string>, v: Value, q: seq<string>)
    requires Set(m, p, v).Ok? && IsPrefix(p, q)
    ensures Get(Dict(Set(m, p, v).value), q) == Get(v, q[|p|..])
  {
    assert q == p + q[|p|..];
    GetAppend(Dict(Set(m, p, v).value), p, q[|p|..]);
    SetThenGet(m, p, v);
  }

  /** Every nonempty path strictly above the written one now leads to a dict. */
  lemma {:induction false} SetMakesDictsAbove(m: map<string, Value>, p: seq<string>, v: Value, q: seq<string>)
    requires Set(m, p, v).Ok? && IsPrefix(q, p) && 0 < |q| < |p|
    ensures Get(Dict(Set(m, p, v).value), q).Ok?
    ensures Get(Dict(Set(m, p, v).value), q).value.Dict?
    decreases |p|
  {
    var c := if p[0] in m then m[p[0]].entries else map[];
    assert q[0] == p[0];
    if |q| > 1 {
      assert q[1..] == p[1..][..|q| - 1];
      SetMakesDictsAbove(c, p[1..], v, q[1..]);
    }
  }

  /** Frame: every path apart from the written one finds what it found before. In
      particular the siblings along a partially existing path survive, since the
      existing intermediate dicts are reused rather than replaced. */
  lemma {:induction false} SetFrame(m: map<string, Value>, p: seq<string>, v: Value, q: seq<string>)
    requires Set(m, p, v).Ok? && Apart(p, q)
    ensures SameFind(Get(Dict(Set(m, p, v).value), q), Get(Dict(m), q))
    decreases |p|
  {
    EmptyIsPrefix(p);
    if q[0] != p[0] {
      return;
    }
    PrefixStep(q, p);
    PrefixStep(p, q);
    EmptyIsPrefix(p[1..]);
    EmptyIsPrefix(q[1..]);
    var c := if p[0] in m then m[p[0]].entries else map[];
    SetFrame(c, p[1..], v, q[1..]);
  }

  /** set_nested_value fails exactly when the path is empty or some strict prefix of
      it already holds a non-dict value; it never fails on an empty dict. */
  lemma {:induction false} SetFailsIff(m: map<string, Value>, p: seq<string>, v: Value)
    ensures Set(m, p, v).Err? <==>
      p == [] || exists i :: 0 < i < |p| && Get(Dict(m), p[..i]).Ok? && Get(Dict(m), p[..i]).value.Leaf?
    decreases |p|
  {
    if |p| <= 1 {
      return;
    }
    var k := p[0];
    if k !in m {
      SetIntoEmpty(p[1..], v);
      forall i | 0 < i < |p|
        ensures !Get(Dict(m), p[..i]).Ok?
      {
        assert p[..i][0] == k;
      }
    } else if m[k].Leaf? {
      assert p[..1] == [k];
      assert Get(Dict(m), p[..1]) == Get(m[k], []);
    } else {
      var c := m[k].entries;
      SetFailsIff(c, p[1..], v);
      forall i | 0 < i < |p|
        ensures Get(Dict(m), p[..i]) == Get(Dict(c), p[1..][..i - 1])
      {
        assert p[..i][0] == k && p[..i][1..] == p[1..][..i - 1];
      }
      if exists i :: 0 < i < |p[1..]| && Get(Dict(c), p[1..][..i]).Ok? && Get(Dict(c), p[1..][..i]).value.Leaf? {
        var i :| 0 < i < |p[1..]| && Get(Dict(c), p[1..][..i]).Ok? && Get(Dict(c), p[1..][..i]).value.Leaf?;
        assert Get(Dict(m), p[..i + 1]) == Get(Dict(c), p[1..][..i]);
      }
    }
  }

  // ---------------------------------------------------------------------------
  // camel_to_kebab and kebab_to_snake

  predicate IsUpper(c: char) { 'A' <= c <= 'Z' }
  predicate IsLower(c: char) { 'a' <= c <= 'z' }
  predicate IsDigit(c: char) { '0' <= c <= '9' }

  /** Length of the greedy `[a-z]+` run at the start of `s` (0 when there is none). */
  function LowerRun(s: string): (n: nat)
    ensures n <= |s|
    ensures forall i :: 0 <= i < n ==> IsLower(s[i])
    ensures n < |s| ==> !IsLower(s[n])
    ensures s != [] && IsLower(s[0]) ==> n >= 1
  {
    if s != [] && IsLower(s[0]) then 1 + LowerRun(s[1..]) else 0
  }

  /** `re.sub('(.)([A-Z][a-z]+)', r'\1-\2', s)`: scanning left to right without
      overlap, a hyphen goes between any character other than a newline and a
      following capitalised word; the scan resumes after the word's lowercase run. */
  function HyphenateWords(s: string): (r: string)
    ensures |s| <= |r|
    ensures s != [] ==> r[0] == s[0]
    decreases |s|
  {
    if |s| >= 3 && s[0] != '\n' && IsUpper(s[1]) && IsLower(s[2]) then
      var end := 2 + LowerRun(s[2..]);
      [s[0], '-'] + s[1..end] + HyphenateWords(s[end..])
    else if s == [] then []
    else [s[0]] + HyphenateWords(s[1..])
  }

  /** `re.sub('([a-z0-9])([A-Z])', r'\1-\2', s)`: a hyphen between a lowercase
      letter or digit and a following capital, scanning left to right without overlap. */
  function HyphenateCaps(s: string): (r: string)
    ensures |s| <= |r|
    ensures s != [] ==> r[0] == s[0]
    decreases |s|
  {
    if |s| >= 2 && (IsLower(s[0]) || IsDigit(s[0])) && IsUpper(s[1]) then
      [s[0], '-', s[1]] + HyphenateCaps(s[2..])
    else if s == [] then []
    else [s[0]] + HyphenateCaps(s[1..])
  }

  function LowerChar(c: char): char {
    if IsUpper(c) then (c as int - 'A' as int + 'a' as int) as char else c
  }

  /** `str.lower`, restricted to ASCII: only `A`-`Z` are lowered. */
  function Lower(s: string): (r: string)
    ensures |r| == |s|
    ensures forall i :: 0 <= i < |s| ==> r[i] == LowerChar(s[i])
  {
    if s == [] then [] else [LowerChar(s[0])] + Lower(s[1..])
  }

  /** camel_to_kebab: the two substitutions, then lowercasing. */
  function CamelToKebab(name: string): (r: string)
    ensures forall i :: 0 <= i < |r| ==> !IsUpper(r[i])
  {
    Lower(HyphenateCaps(HyphenateWords(name)))
  }

  /** kebab_to_snake: every hyphen becomes an underscore. */
  function KebabToSnake(name: string): (r: string)
    ensures |r| == |name|
    ensures '-' !in r
    ensures forall i :: 0 <= i < |name| && name[i] != '-' ==> r[i] == name[i]
    ensures forall i :: 0 <= i < |name| && name[i] == '-' ==> r[i] == '_'
  {
    if name == [] then [] else [if name[0] == '-' then '_' else name[0]] + KebabToSnake(name[1..])
  }

  /** `s` with every hyphen deleted. */
  function Unhyphenated(s: string): string {
    if s == [] then [] else (if s[0] == '-' then [] else [s[0]]) + Unhyphenated(s[1..])
  }

  lemma {:induction false} UnhyphenatedAppend(a: string, b: string)
    ensures Unhyphenated(a + b) == Unhyphenated(a) + Unhyphenated(b)
  {
    if a == [] {
      assert a + b == b;
    } else {
      assert (a + b)[0] == a[0] && (a + b)[1..] == a[1..] + b;
      UnhyphenatedAppend(a[1..], b);
    }
  }

  lemma {:induction false} HyphenateWordsOnlyInserts(s: string)
    ensures Unhyphenated(HyphenateWords(s)) == Unhyphenated(s)
    decreases |s|
  {
    if |s| >= 3 && s[0] != '\n' && IsUpper(s[1]) && IsLower(s[2]) {
      var end := 2 + LowerRun(s[2..]);
      HyphenateWordsOnlyInserts(s[end..]);
      UnhyphenatedAppend([s[0], '-'] + s[1..end], HyphenateWords(s[end..]));
      UnhyphenatedAppend([s[0], '-'], s[1..end]);
      UnhyphenatedAppend([s[0]], ['-']);
      assert s == [s[0]] + s[1..end] + s[end..];
      UnhyphenatedAppend([s[0]] + s[1..end], s[end..]);
      UnhyphenatedAppend([s[0]], s[1..end]);
    } else if s != [] {
      HyphenateWordsOnlyInserts(s[1..]);
      UnhyphenatedAppend([s[0]], HyphenateWords(s[1..]));
      assert s == [s[0]] + s[1..];
      UnhyphenatedAppend([s[0]], s[1..]);
    }
  }

  lemma {:induction false} HyphenateCapsOnlyInserts(s: string)
    ensures Unhyphenated(HyphenateCaps(s)) == Unhyphenated(s)
    decreases |s|
  {
    if |s| >= 2 && (IsLower(s[0]) || IsDigit(s[0])) && IsUpper(s[1]) {
      HyphenateCapsOnlyInserts(s[2..]);
      UnhyphenatedAppend([s[0], '-', s[1]], HyphenateCaps(s[2..]));
      assert s == [s[0], s[1]] + s[2..];
      UnhyphenatedAppend([s[0], s[1]], s[2..]);
    } else if s != [] {
      HyphenateCapsOnlyInserts(s[1..]);
      UnhyphenatedAppend([s[0]], HyphenateCaps(s[1..]));
      assert s == [s[0]] + s[1..];
      UnhyphenatedAppend([s[0]], s[1..]);
    }
  }

  lemma {:induction false} LowerUnhyphenated(s: string)
    ensures Unhyphenated(Lower(s)) == Lower(Unhyphenated(s))
  {
    if s != [] {
      LowerUnhyphenated(s[1..]);
      assert Lower(s)[1..] == Lower(s[1..]);
    }
  }

  /** camel_to_kebab changes a name only by inserting hyphens and lowering its ASCII
      capitals. */
  lemma CamelToKebabOnlyInsertsHyphens(name: string)
    ensures Unhyphenated(CamelToKebab(name)) == Lower(Unhyphenated(name))
  {
    HyphenateWordsOnlyInserts(name);
    HyphenateCapsOnlyInserts(HyphenateWords(name));
    LowerUnhyphenated(HyphenateCaps(HyphenateWords(name)));
  }

  predicate NoUpper(s: string) {
    forall i :: 0 <= i < |s| ==> !IsUpper(s[i])
  }

  lemma {:induction false} HyphenateWordsNoUpper(s: string)
    requires NoUpper(s)
    ensures HyphenateWords(s) == s
  {
    if s != [] {
      HyphenateWordsNoUpper(s[1..]);
      if |s| >= 2 {
        assert !IsUpper(s[1]);
      }
    }
  }

  lemma {:induction false} HyphenateCapsNoUpper(s: string)
    requires NoUpper(s)
    ensures HyphenateCaps(s) == s
  {
    if s != [] {
      HyphenateCapsNoUpper(s[1..]);
      if |s| >= 2 {
        assert !IsUpper(s[1]);
      }
    }
  }

  /** A name without ASCII capitals comes back from camel_to_kebab unchanged. */
  lemma CamelToKebabKeepsLowercase(name: string)
    requires NoUpper(name)
    ensures CamelToKebab(name) == name
  {
    HyphenateWordsNoUpper(name);
    HyphenateCapsNoUpper(name);
    assert Lower(name) == name;
  }

  // ---------------------------------------------------------------------------
  // camel_to_kebab on capitalised words and acronyms

  /** The first pattern, `(.)([A-Z][a-z]+)`, can match at index `i` of `s`. */
  predicate WordStart(s: string, i: nat) {
    i + 2 < |s| && s[i] != '\n' && IsUpper(s[i + 1]) && IsLower(s[i + 2])
  }

  /** The second pattern, `([a-z0-9])([A-Z])`, matches the pair `c`, `d`. */
  predicate CapPair(c: char, d: char) {
    (IsLower(c) || IsDigit(c)) && IsUpper(d)
  }

  /** No adjacent pair inside `w` matches the second pattern. */
  predicate NoCapPair(w: string) {
    forall i :: 0 <= i < |w| - 1 ==> !CapPair(w[i], w[i + 1])
  }

  /** A capitalised word: a capital followed by at least one lowercase letter. */
  predicate CapWord(w: string) {
    |w| >= 2 && IsUpper(w[0]) && forall i :: 1 <= i < |w| ==> IsLower(w[i])
  }

  /** An acronym: capitals only. */
  predicate Acronym(a: string) {
    forall i :: 0 <= i < |a| ==> IsUpper(a[i])
  }

  /** What may follow a word without extending its lowercase run. */
  predicate EndsWord(t: string) {
    t == [] || !IsLower(t[0])
  }

  /** The first substitution, one step: no match at the front. */
  lemma WordsCons(c: char, t: string)
    requires !WordStart([c] + t, 0)
    ensures HyphenateWords([c] + t) == [c] + HyphenateWords(t)
  {
    assert ([c] + t)[1..] == t;
  }

  /** No match of the first pattern starts in the first `n` characters: the first
      substitution copies them. */
  lemma {:induction false} WordsSkip(s: string, n: nat)
    requires n <= |s|
    requires forall i :: 0 <= i < n ==> !WordStart(s, i)
    ensures HyphenateWords(s) == s[..n] + HyphenateWords(s[n..])
    decreases n
  {
    if n > 0 {
      assert !WordStart(s, 0);
      assert s == [s[0]] + s[1..];
      WordsCons(s[0], s[1..]);
      forall i | 0 <= i < n - 1
        ensures !WordStart(s[1..], i)
      {
        assert !WordStart(s, i + 1);
      }
      WordsSkip(s[1..], n - 1);
      SkipSlices(s, n, HyphenateWords(s[n..]));
    } else {
      assert s[..0] + HyphenateWords(s[0..]) == HyphenateWords(s);
    }
  }

  lemma SkipSlices(s: string, n: nat, x: string)
    requires 0 < n <= |s|
    ensures s[..n] + x == [s[0]] + (s[1..][..n - 1] + x)
    ensures s[1..][n - 1..] == s[n..]
  {
    assert s[..n] == [s[0]] + s[1..][..n - 1];
  }

  lemma {:induction false} LowerRunExact(s: string, n: nat)
    requires n <= |s| && (n == |s| || !IsLower(s[n]))
    requires forall i :: 0 <= i < n ==> IsLower(s[i])
    ensures LowerRun(s) == n
    decreases n
  {
    if n > 0 {
      assert IsLower(s[0]);
      LowerRunExact(s[1..], n - 1);
    }
  }

  /** The first substitution, one step: a match at the front, of the character `c`
      and the capitalised word `w`; the scan resumes after the word. */
  lemma WordsConsMatch(c: char, w: string, t: string)
    requires c != '\n' && CapWord(w) && EndsWord(t)
    ensures HyphenateWords([c] + w + t) == [c, '-'] + w + HyphenateWords(t)
  {
    var s := [c] + w + t;
    MatchSlices(c, w, t);
    LowerRunExact(s[2..], |w| - 1);
  }

  lemma MatchSlices(c: char, w: string, t: string)
    requires |w| >= 2
    ensures var s := [c] + w + t;
      s[0] == c && s[1] == w[0] && s[2] == w[1] && s[1..1 + |w|] == w && s[1 + |w|..] == t &&
      (forall i :: 0 <= i < |w| - 1 ==> s[2..][i] == w[i + 1]) &&
      (|w| - 1 < |s[2..]| ==> s[2..][|w| - 1] == t[0])
  {
  }

  /** A match of the first pattern right after `p`, at the character `c` followed by a
      capitalised word: the hyphen goes between `c` and the word, and the scan resumes
      after the word. */
  lemma MatchAfter(p: string, c: char, w: string, t: string)
    requires c != '\n' && CapWord(w) && EndsWord(t)
    requires forall i :: 0 <= i < |p| ==> !WordStart(p + [c] + w + t, i)
    ensures HyphenateWords(p + [c] + w + t) == p + [c, '-'] + w + HyphenateWords(t)
  {
    Regroup(p, [c], w, t);
    SkipPrefix(p, [c] + w + t);
    WordsConsMatch(c, w, t);
    Regroup(p, [c, '-'], w, HyphenateWords(t));
  }

  lemma Regroup(p: string, a: string, b: string, d: string)
    ensures p + a + b + d == p + (a + b + d)
  {
  }

  /** `WordsSkip` at the boundary between `p` and `r`. */
  lemma SkipPrefix(p: string, r: string)
    requires forall i :: 0 <= i < |p| ==> !WordStart(p + r, i)
    ensures HyphenateWords(p + r) == p + HyphenateWords(r)
  {
    WordsSkip(p + r, |p|);
    AfterSlices(p, r);
  }

  lemma AfterSlices(p: string, r: string)
    ensures (p + r)[..|p|] == p && (p + r)[|p|..] == r
  {
  }

  /** Inside a capitalised word no match of the first pattern starts, except at its
      last character. */
  lemma NoStartInWord(w: string, x: string, y: string)
    requires CapWord(w)
    ensures forall i :: 0 <= i < |w| - 1 ==> !WordStart(w + x + y, i)
  {
    forall i | 0 <= i < |w| - 1
      ensures !WordStart(w + x + y, i)
    {
      assert (w + x + y)[i + 1] == w[i + 1];
    }
  }

  /** Inside an acronym followed by a capitalised word no match of the first pattern
      starts, except at the acronym's last capital. */
  lemma NoStartInAcronym(a: string, w: string, y: string)
    requires Acronym(a) && CapWord(w)
    ensures forall i :: 0 <= i < |a| - 1 ==> !WordStart(a + w + y, i)
  {
    forall i | 0 <= i < |a| - 1
      ensures !WordStart(a + w + y, i)
    {
      if i + 2 < |a| {
        assert (a + w + y)[i + 2] == a[i + 2];
      } else {
        assert (a + w + y)[i + 2] == w[0];
      }
    }
  }

  /** Two capitalised words in a row: the first substitution separates them. */
  lemma TwoWords(w1: string, w2: string, t: string)
    requires CapWord(w1) && CapWord(w2) && EndsWord(t)
    ensures HyphenateWords(w1 + w2 + t) == w1 + ['-'] + w2 + HyphenateWords(t)
  {
    var k := |w1| - 1;
    var p := w1[..k];
    assert w1 == p + [w1[k]];
    NoStartInWord(w1, w2, t);
    MatchAfter(p, w1[k], w2, t);
  }

  /** An acronym followed by a capitalised word: the first substitution splits the
      acronym's last capital off as the word's predecessor. */
  lemma AcronymWord(a: string, w: string, t: string)
    requires a != [] && Acronym(a) && CapWord(w) && EndsWord(t)
    ensures HyphenateWords(a + w + t) == a + ['-'] + w + HyphenateWords(t)
  {
    var k := |a| - 1;
    var p := a[..k];
    assert a == p + [a[k]];
    NoStartInAcronym(a, w, t);
    MatchAfter(p, a[k], w, t);
  }

  /** A capitalised word on its own is left alone by the first substitution. */
  lemma LoneWord(w: string)
    requires CapWord(w)
    ensures HyphenateWords(w) == w
  {
    forall i | 0 <= i < |w|
      ensures !WordStart(w, i)
    {
      if i + 2 < |w| {
        assert IsLower(w[i + 1]);
      }
    }
    WordsSkip(w, |w|);
    assert w[..|w|] == w;
  }

  /** The second substitution, one step: no pair at the front. */
  lemma CapsCons(c: char, t: string)
    requires t == [] || !CapPair(c, t[0])
    ensures HyphenateCaps([c] + t) == [c] + HyphenateCaps(t)
  {
    assert ([c] + t)[1..] == t;
  }

  /** The second substitution, one step: a pair at the front. */
  lemma CapsConsPair(c: char, d: char, t: string)
    requires CapPair(c, d)
    ensures HyphenateCaps([c, d] + t) == [c, '-', d] + HyphenateCaps(t)
  {
    assert ([c, d] + t)[2..] == t;
  }

  /** No pair inside `w` and none across its end: the second substitution copies `w`. */
  lemma {:induction false} CapsKeep(w: string, t: string)
    requires NoCapPair(w) && (w == [] || t == [] || !CapPair(w[|w| - 1], t[0]))
    ensures HyphenateCaps(w + t) == w + HyphenateCaps(t)
    decreases |w|
  {
    if w != [] {
      var rest := w[1..] + t;
      assert w + t == [w[0]] + rest;
      if |w| >= 2 {
        assert !CapPair(w[0], w[1]) && rest[0] == w[1];
      } else {
        assert rest == t;
      }
      CapsCons(w[0], rest);
      forall i | 0 <= i < |w[1..]| - 1
        ensures !CapPair(w[1..][i], w[1..][i + 1])
      {
        assert !CapPair(w[i + 1], w[i + 2]);
      }
      CapsKeep(w[1..], t);
      assert w + HyphenateCaps(t) == [w[0]] + (w[1..] + HyphenateCaps(t));
    } else {
      assert w + t == t;
    }
  }

  /** A pair across the end of `w`: the second substitution puts one hyphen there. */
  lemma CapsSplit(w: string, t: string)
    requires NoCapPair(w) && w != [] && t != [] && CapPair(w[|w| - 1], t[0])
    ensures HyphenateCaps(w + t) == w + ['-'] + HyphenateCaps(t)
  {
    var k := |w| - 1;
    var p := w[..k];
    PrefixNoCapPair(w, k);
    var u := t[1..];
    var tail := [w[k], t[0]] + u;
    CapsKeep(p, tail);
    CapsConsPair(w[k], t[0], u);
    CapsCons(t[0], u);
    SplitLast(w, t);
  }

  lemma PrefixNoCapPair(w: string, k: nat)
    requires NoCapPair(w) && 0 < k + 1 == |w|
    ensures NoCapPair(w[..k]) && (w[..k] == [] || !CapPair(w[..k][k - 1], w[k]))
  {
    var p := w[..k];
    forall i | 0 <= i < |p| - 1
      ensures !CapPair(p[i], p[i + 1])
    {
      assert !CapPair(w[i], w[i + 1]);
    }
    if k > 0 {
      assert !CapPair(w[k - 1], w[k]);
    }
  }

  lemma SplitLast(w: string, t: string)
    requires w != [] && t != []
    ensures w + t == w[..|w| - 1] + ([w[|w| - 1], t[0]] + t[1..])
    ensures forall x: string :: w + ['-'] + ([t[0]] + x) == w[..|w| - 1] + ([w[|w| - 1], '-', t[0]] + x)
    ensures t == [t[0]] + t[1..]
  {
    assert w == w[..|w| - 1] + [w[|w| - 1]];
  }

  lemma CapWordNoCapPair(w: string)
    requires CapWord(w)
    ensures NoCapPair(w)
  {
    forall i | 0 <= i < |w| - 1
      ensures !CapPair(w[i], w[i + 1])
    {
      assert IsLower(w[i + 1]);
    }
  }

  lemma LowerAppend(a: string, b: string)
    ensures Lower(a + b) == Lower(a) + Lower(b)
  {
    assert forall i :: 0 <= i < |a + b| ==> Lower(a + b)[i] == (Lower(a) + Lower(b))[i];
  }

  /** Lowercasing keeps a joining hyphen. */
  lemma LowerJoin(a: string, b: string)
    ensures Lower(a + ['-'] + b) == Lower(a) + ['-'] + Lower(b)
  {
    LowerAppend(a + ['-'], b);
    LowerAppend(a, ['-']);
    assert Lower(['-']) == ['-'];
  }

  /** Between a run without a pair and a capitalised word, a hyphen of its own is kept
      and nothing is added. */
  lemma CapsAroundHyphen(a: string, w: string)
    requires NoCapPair(a) && CapWord(w)
    ensures HyphenateCaps(a + ['-'] + w) == a + ['-'] + w
  {
    CapsKeep(a, ['-'] + w);
    assert a + ['-'] + w == a + (['-'] + w);
    CapsKeep(['-'], w);
    CapWordNoCapPair(w);
    CapsKeep(w, []);
    assert w + [] == w;
  }

  /** camel_to_kebab on one capitalised word only lowercases it. */
  lemma CamelToKebabOneWord(w: string)
    requires CapWord(w)
    ensures CamelToKebab(w) == Lower(w)
  {
    LoneWord(w);
    CapWordNoCapPair(w);
    CapsKeep(w, []);
    assert w + [] == w;
  }

  /** camel_to_kebab on two capitalised words: both lowercased, joined by one hyphen. */
  lemma CamelToKebabTwoWords(w1: string, w2: string)
    requires CapWord(w1) && CapWord(w2)
    ensures CamelToKebab(w1 + w2) == Lower(w1) + ['-'] + Lower(w2)
  {
    TwoWords(w1, w2, []);
    assert w1 + w2 + [] == w1 + w2;
    assert HyphenateWords([]) == [];
    var h := w1 + ['-'] + w2;
    assert HyphenateWords(w1 + w2) == h;
    CapWordNoCapPair(w1);
    CapsAroundHyphen(w1, w2);
    LowerJoin(w1, w2);
  }

  /** camel_to_kebab on an acronym and a capitalised word: the acronym stays whole. */
  lemma CamelToKebabAcronymWord(a: string, w: string)
    requires a != [] && Acronym(a) && CapWord(w)
    ensures CamelToKebab(a + w) == Lower(a) + ['-'] + Lower(w)
  {
    AcronymWord(a, w, []);
    assert a + w + [] == a + w;
    assert HyphenateWords([]) == [];
    var h := a + ['-'] + w;
    assert HyphenateWords(a + w) == h;
    AcronymNoCapPair(a);
    CapsAroundHyphen(a, w);
    LowerJoin(a, w);
  }

  lemma AcronymNoCapPair(a: string)
    requires Acronym(a)
    ensures NoCapPair(a)
  {
    forall i | 0 <= i < |a| - 1
      ensures !CapPair(a[i], a[i + 1])
    {
      assert IsUpper(a[i]);
    }
  }

  /** camel_to_kebab on an acronym and two capitalised words: the first substitution
      splits off the acronym, the second separates the words. */
  lemma CamelToKebabAcronymTwoWords(a: string, w1: string, w2: string)
    requires a != [] && Acronym(a) && CapWord(w1) && CapWord(w2)
    ensures CamelToKebab(a + w1 + w2) == Lower(a) + ['-'] + Lower(w1) + ['-'] + Lower(w2)
  {
    AcronymWord(a, w1, w2);
    LoneWord(w2);
    CapsSecondPass(a, w1, w2);
    LowerJoin(a, w1 + ['-'] + w2);
    LowerJoin(w1, w2);
    Regroup(Lower(a) + ['-'], Lower(w1), ['-'], Lower(w2));
  }

  /** The second substitution on `ACRONYM-WordWord`: one hyphen between the words. */
  lemma CapsSecondPass(a: string, w1: string, w2: string)
    requires Acronym(a) && CapWord(w1) && CapWord(w2)
    ensures HyphenateCaps(a + ['-'] + w1 + w2) == a + ['-'] + (w1 + ['-'] + w2)
  {
    AcronymNoCapPair(a);
    CapWordNoCapPair(w1);
    CapWordNoCapPair(w2);
    Regroup(a, ['-'], w1, w2);
    Assoc(['-'], w1, w2);
    CapsKeep(a, ['-'] + (w1 + w2));
    CapsKeep(['-'], w1 + w2);
    CapsSplit(w1, w2);
    CapsKeep(w2, []);
    assert w2 + [] == w2;
    Assoc(a, ['-'], w1 + ['-'] + w2);
  }

  lemma Assoc(x: string, y: string, z: string)
    ensures x + y + z == x + (y + z)
  {
  }

  // Documented conversions of camel_to_kebab, as instances of the lemmas above.

  lemma CamelToKebabQuickTest(name: string)
    requires name == "QuickTest"
    ensures CamelToKebab(name) == "quick-test"
  {
    var w1, w2 := "Quick", "Test";
    WordFacts(w1, "quick");
    WordFacts(w2, "test");
    assert name == w1 + w2;
    CamelToKebabTwoWords(w1, w2);
  }

  lemma CamelToKebabConfig(name: string)
    requires name == "Config"
    ensures CamelToKebab(name) == "config"
  {
    WordFacts(name, "config");
    CamelToKebabOneWord(name);
  }

  /** A capitalised word `w` whose lowercase form is `l`. */
  lemma WordFacts(w: string, l: string)
    requires CapWord(w) && |l| == |w|
    requires forall i :: 0 <= i < |w| ==> l[i] == LowerChar(w[i])
    ensures Lower(w) == l
  {
  }

  /** kebab_to_snake("hidden-dim") is "hidden_dim". */
  lemma KebabToSnakeHiddenDim(name: string)
    requires name == "hidden-dim"
    ensures KebabToSnake(name) == "hidden_dim"
  {
    assert KebabToSnake(name)[6] == '_';
  }

  /** A name without hyphens is left as it is. */
  lemma KebabToSnakeNoHyphens(name: string)
    requires '-' !in name
    ensures KebabToSnake(name) == name
  {
  }
}
