/**
 * The effect script: the registry of effect codes built from the script's
 * global namespace, the `list` line format, the effects-path formatter and
 * the output file name shared by `apply` and `delete`.
 */
module Effect {
  import opened Results
  import opened PyStr
  import opened PosixPath

  /** A value bound in the script's global namespace, as far as `==` against an int code can tell. */
  datatype Value = IntValue(i: int) | BoolValue(b: bool) | OtherValue

  /** `globals().items()` in iteration order. */
  type Namespace = seq<(string, Value)>

  /** The rebound global `shaders`: `(code, name)` pairs. */
  type Registry = seq<(int, string)>

  /** The uncaught exceptions of the script, one constructor per raising site. */
  datatype Error =
    | NoConstantFor(code: int)       // IndexError: `[...][0]` on an empty match list
    | EffectOutOfRange(effect: int)  // IndexError: `shaders[effect]` past either end
    | FileNotFound(path: string)     // Image.open on a path that is not there

  /** Python's `value == code`; a bool compares as 0 or 1. */
  predicate PyEquals(v: Value, code: int)
  {
    match v
    case IntValue(i) => i == code
    case BoolValue(b) => (if b then 1 else 0) == code
    case OtherValue => false
  }

  // ---------------------------------------------------------------------------
  // Registry (get_constants)
  // ---------------------------------------------------------------------------

  /** `[name for name, value in globals().items() if value == code]` */
  function MatchingNames(ns: Namespace, code: int): (names: seq<string>)
    ensures |names| <= |ns|
    ensures names == [] <==> forall k :: 0 <= k < |ns| ==> !PyEquals(ns[k].1, code)
  {
    if ns == [] then []
    else if PyEquals(ns[0].1, code) then [ns[0].0] + MatchingNames(ns[1..], code)
    else MatchingNames(ns[1..], code)
  }

  /** The name `[...][0]` picks is that of the first global, in iteration order, equal to the code. */
  lemma {:induction false} FirstMatchingName(ns: Namespace, code: int)
    requires MatchingNames(ns, code) != []
    ensures exists k :: 0 <= k < |ns| && ns[k].0 == MatchingNames(ns, code)[0] && PyEquals(ns[k].1, code)
                     && forall j :: 0 <= j < k ==> !PyEquals(ns[j].1, code)
  {
    if !PyEquals(ns[0].1, code) {
      FirstMatchingName(ns[1..], code);
      var k :| 0 <= k < |ns[1..]| && ns[1..][k].0 == MatchingNames(ns[1..], code)[0] && PyEquals(ns[1..][k].1, code)
             && forall j :: 0 <= j < k ==> !PyEquals(ns[1..][j].1, code);
      assert forall j :: 0 < j <= k ==> ns[j] == ns[1..][j - 1];
      assert ns[k + 1].0 == MatchingNames(ns, code)[0] && PyEquals(ns[k + 1].1, code);
    } else {
      assert ns[0].0 == MatchingNames(ns, code)[0];
    }
  }

  predicate StrictlyAscending(r: Registry)
  {
    forall i, j :: 0 <= i < j < |r| ==> r[i].0 < r[j].0
  }

  /**
   * `r` is what `get_constants` leaves in `shaders`: sorted by code without
   * repeats, one entry per distinct code of `codes`, each named by the first
   * matching global.
   */
  ghost predicate IsRegistryOf(r: Registry, ns: Namespace, codes: seq<int>)
  {
    && StrictlyAscending(r)
    && (forall e :: e in r ==> e.0 in codes && MatchingNames(ns, e.0) != [] && e.1 == MatchingNames(ns, e.0)[0])
    && (forall c :: c in codes ==> exists e :: e in r && e.0 == c)
  }

  /** `k` is the first position in `codes` whose code no global equals. */
  ghost predicate FirstUnbound(ns: Namespace, codes: seq<int>, k: int)
  {
    && 0 <= k < |codes|
    && MatchingNames(ns, codes[k]) == []
    && forall j :: 0 <= j < k ==> MatchingNames(ns, codes[j]) != []
  }

  /** No two entries share a code, as in a dict's items. */
  predicate DistinctCodes(r: Registry)
  {
    forall i, j :: 0 <= i < j < |r| ==> r[i].0 != r[j].0
  }

  /** Inserts one entry into a registry kept in ascending code order. */
  function InsertByCode(r: Registry, e: (int, string)): (s: Registry)
    requires StrictlyAscending(r)
    requires forall x :: x in r ==> x.0 != e.0
    ensures StrictlyAscending(s)
    ensures multiset(s) == multiset(r) + multiset{e}
  {
    if r == [] || e.0 < r[0].0 then
      AscendingCons(e, r);
      [e] + r
    else
      var rest := InsertByCode(r[1..], e);
      assert r == [r[0]] + r[1..];
      InsertedAbove(r, e, rest);
      AscendingCons(r[0], rest);
      [r[0]] + rest
  }

  lemma AscendingCons(x: (int, string), r: Registry)
    requires StrictlyAscending(r)
    requires forall y :: y in r ==> x.0 < y.0
    ensures StrictlyAscending([x] + r)
  {
    forall i, j | 0 <= i < j < |[x] + r| ensures ([x] + r)[i].0 < ([x] + r)[j].0 {
      assert ([x] + r)[j] == r[j - 1];
      if i > 0 {
        assert ([x] + r)[i] == r[i - 1];
      }
    }
  }

  lemma InsertedAbove(r: Registry, e: (int, string), rest: Registry)
    requires r != [] && StrictlyAscending(r) && r[0].0 < e.0
    requires multiset(rest) == multiset(r[1..]) + multiset{e}
    ensures forall y :: y in rest ==> r[0].0 < y.0
  {
    forall y | y in rest ensures r[0].0 < y.0 {
      assert y in multiset(rest);
      if y != e {
        assert y in r[1..];
        var k :| 0 <= k < |r[1..]| && r[1..][k] == y;
        assert r[k + 1] == y;
      }
    }
  }

  /** `sorted(items, key=lambda x: x[0])` on the items of a dict: ascending by code, a permutation of the items. */
  method SortByCode(items: Registry) returns (r: Registry)
    requires DistinctCodes(items)
    ensures StrictlyAscending(r)
    ensures multiset(r) == multiset(items)
  {
    r := [];
    for i := 0 to |items|
      invariant StrictlyAscending(r)
      invariant multiset(r) == multiset(items[..i])
    {
      forall x | x in r ensures x.0 != items[i].0 {
        assert x in multiset(items[..i]);
        var j :| 0 <= j < i && items[j] == x;
      }
      assert items[..i + 1] == items[..i] + [items[i]];
      r := InsertByCode(r, items[i]);
    }
    assert items[..|items|] == items;
  }

  /** `d.items()` for a dict whose keys, in insertion order, are `keys`. */
  function DictItems(d: map<int, string>, keys: seq<int>): (r: Registry)
    requires forall j :: 0 <= j < |keys| ==> keys[j] in d
    ensures |r| == |keys| && forall j :: 0 <= j < |r| ==> r[j].0 == keys[j]
    ensures forall e :: e in r ==> e.0 in d && e.1 == d[e.0]
    ensures (forall a, b :: 0 <= a < b < |keys| ==> keys[a] != keys[b]) ==> DistinctCodes(r)
  {
    seq(|keys|, j requires 0 <= j < |keys| && keys[j] in d => (keys[j], d[keys[j]]))
  }

  /**
   * `get_constants`: fills the dict `shaders` code -> first matching global
   * name one code at a time (a repeated code keeps its place and its name),
   * then rebinds it to the list of its items sorted by code.
   */
  method GetConstants(ns: Namespace, codes: seq<int>) returns (result: Result<Registry, Error>)
    ensures result.Success? ==> IsRegistryOf(result.value, ns, codes)
    ensures result.Failure? <==> exists c :: c in codes && MatchingNames(ns, c) == []
    ensures result.Failure? ==> exists k :: FirstUnbound(ns, codes, k) && result.error == NoConstantFor(codes[k])
  {
    var shaders: map<int, string> := map[];
    var keys: seq<int> := [];  // the dict's keys in insertion order
    for i := 0 to |codes|
      invariant forall c :: c in shaders <==> c in codes[..i]
      invariant forall c :: c in shaders <==> c in keys
      invariant forall j :: 0 <= j < |keys| ==> keys[j] in shaders
      invariant forall a, b :: 0 <= a < b < |keys| ==> keys[a] != keys[b]
      invariant forall c :: c in shaders ==> MatchingNames(ns, c) != [] && shaders[c] == MatchingNames(ns, c)[0]
      invariant forall j :: 0 <= j < i ==> MatchingNames(ns, codes[j]) != []
    {
      var names := MatchingNames(ns, codes[i]);
      if names == [] {
        assert FirstUnbound(ns, codes, i) && codes[i] in codes;
        return Failure(NoConstantFor(codes[i]));
      }
      assert codes[..i + 1] == codes[..i] + [codes[i]];
      if codes[i] !in shaders {
        keys := keys + [codes[i]];
      }
      shaders := shaders[codes[i] := names[0]];
    }
    assert codes[..|codes|] == codes;
    var items := DictItems(shaders, keys);
    var sorted := SortByCode(items);
    forall e | e in sorted
      ensures e.0 in codes && MatchingNames(ns, e.0) != [] && e.1 == MatchingNames(ns, e.0)[0]
    {
      assert e in multiset(items);
    }
    forall c | c in codes ensures exists e :: e in sorted && e.0 == c {
      var j :| 0 <= j < |keys| && keys[j] == c;
      assert items[j] in multiset(sorted);
    }
    return Success(sorted);
  }

  /** Two ascending registries holding the same entries are the same sequence. */
  lemma {:induction false} AscendingSameEntries(a: Registry, b: Registry)
    requires StrictlyAscending(a) && StrictlyAscending(b)
    requires forall e :: e in a <==> e in b
    ensures a == b
  {
    if a != [] {
      assert a[0] in b;
    }
    if b != [] {
      assert b[0] in a;
    }
    if a != [] && b != [] {
      HeadsEqual(a, b);
      TailsSameEntries(a, b);
      AscendingSameEntries(a[1..], b[1..]);
      assert a == [a[0]] + a[1..] && b == [b[0]] + b[1..];
    }
  }

  /** The smallest entries of two ascending registries with the same entries agree. */
  lemma HeadsEqual(a: Registry, b: Registry)
    requires StrictlyAscending(a) && StrictlyAscending(b)
    requires a != [] && b != [] && a[0] in b && b[0] in a
    ensures a[0] == b[0]
  {
    var i :| 0 <= i < |b| && b[i] == a[0];
    var j :| 0 <= j < |a| && a[j] == b[0];
    assert a[0].0 <= a[j].0;
    assert b[0].0 <= b[i].0;
  }

  /** Dropping a common smallest entry keeps the remaining entries equal. */
  lemma TailsSameEntries(a: Registry, b: Registry)
    requires StrictlyAscending(a) && StrictlyAscending(b)
    requires a != [] && b != [] && a[0] == b[0]
    requires forall e :: e in a <==> e in b
    ensures forall e :: e in a[1..] <==> e in b[1..]
  {
    forall e ensures e in a[1..] ==> e in b[1..] {
      if e in a[1..] {
        var k :| 1 <= k < |a| && a[k] == e;
        assert e in b && e != b[0];
      }
    }
    forall e ensures e in b[1..] ==> e in a[1..] {
      if e in b[1..] {
        var k :| 1 <= k < |b| && b[k] == e;
        assert e in a && e != a[0];
      }
    }
  }

  /** The registry is fully determined by the namespace and the codes. */
  lemma RegistryUnique(r1: Registry, r2: Registry, ns: Namespace, codes: seq<int>)
    requires IsRegistryOf(r1, ns, codes) && IsRegistryOf(r2, ns, codes)
    ensures r1 == r2
  {
    forall e ensures e in r1 <==> e in r2 {
      if e in r1 {
        var e' :| e' in r2 && e'.0 == e.0;
      }
      if e in r2 {
        var e' :| e' in r1 && e'.0 == e.0;
      }
    }
    AscendingSameEntries(r1, r2);
  }

  // ---------------------------------------------------------------------------
  // list_effects
  // ---------------------------------------------------------------------------

  /** One `list` line: `f"{code:2}: {constant_name}"`. */
  function FormatLine(code: int, name: string): string
  {
    PadLeft(IntToStr(code), 2) + ": " + name
  }

  /** A `list` line is the code right-aligned in a field of width 2, then ": ", then the name. */
  lemma FormatLineShape(code: int, name: string)
    ensures var r := FormatLine(code, name);
      && |r| >= |name| + 4
      && RightAligned(r[..|r| - |name| - 2], IntToStr(code), 2)
      && r[|r| - |name| - 2..] == ": " + name
  {
    var field := PadLeft(IntToStr(code), 2);
    PadLeftShape(IntToStr(code), 2);
    var r := field + (": " + name);
    assert FormatLine(code, name) == r;
    assert r[..|field|] == field;
    assert r[|field|..] == ": " + name;
  }

  /** Reads a `list` line back into its `(code, name)` pair. */
  function ParseLine(line: string): Option<(int, string)>
  {
    var t := TrimLeft(line);
    var k := Find(t, ':');
    if k < 0 || k + 1 >= |t| || t[k + 1] != ' ' then None
    else match ParseInt(t[..k])
      case None => None
      case Some(c) => Some((c, t[k + 2..]))
  }

  /** Every `list` line names its entry unambiguously, whatever the name holds. */
  lemma FormatLineRoundTrip(code: int, name: string)
    ensures ParseLine(FormatLine(code, name)) == Some((code, name))
  {
    var s := IntToStr(code);
    var pad := if |s| >= 2 then "" else Spaces(2 - |s|);
    assert PadLeft(s, 2) == pad + s;
    assert FormatLine(code, name) == pad + (s + (": " + name));
    IntToStrRoundTrip(code);
    ParsePaddedLine(pad, s, name, code);
  }

  lemma ParsePaddedLine(pad: string, s: string, name: string, code: int)
    requires forall i :: 0 <= i < |pad| ==> pad[i] == ' '
    requires s != [] && s[0] != ' ' && ':' !in s
    requires ParseInt(s) == Some(code)
    ensures ParseLine(pad + (s + (": " + name))) == Some((code, name))
  {
    var t := s + (": " + name);
    TrimLeftPadding(pad, t);
    FindAfter(s, ": " + name, ':');
    assert t[..|s|] == s;
    assert t[|s| + 2..] == name;
  }

  /** `list_effects`: one line per registry entry, in registry order. */
  method ListEffects(shaders: Registry) returns (lines: seq<string>)
    ensures |lines| == |shaders|
    ensures forall i :: 0 <= i < |shaders| ==> lines[i] == FormatLine(shaders[i].0, shaders[i].1)
  {
    lines := [];
    for i := 0 to |shaders|
      invariant |lines| == i
      invariant forall j :: 0 <= j < i ==> lines[j] == FormatLine(shaders[j].0, shaders[j].1)
    {
      lines := lines + [FormatLine(shaders[i].0, shaders[i].1)];
    }
  }

  /** The printed lines read back to the registry, so for a sorted registry their codes ascend. */
  lemma ListedLinesReadBack(shaders: Registry, lines: seq<string>)
    requires |lines| == |shaders|
    requires forall i :: 0 <= i < |shaders| ==> lines[i] == FormatLine(shaders[i].0, shaders[i].1)
    ensures forall i :: 0 <= i < |lines| ==> ParseLine(lines[i]) == Some(shaders[i])
    ensures StrictlyAscending(shaders) ==>
      forall i, j :: 0 <= i < j < |lines| ==> ParseLine(lines[i]).value.0 < ParseLine(lines[j]).value.0
  {
    forall i | 0 <= i < |lines| ensures ParseLine(lines[i]) == Some(shaders[i]) {
      FormatLineRoundTrip(shaders[i].0, shaders[i].1);
    }
  }

  // ---------------------------------------------------------------------------
  // effects_path
  // ---------------------------------------------------------------------------

  /** Python list indexing accepts `-n <= i < n`. */
  predicate InRange(n: nat, i: int) { -(n as int) <= i < n }

  predicate AllInRange(n: nat, effects: seq<int>)
  {
    forall i :: 0 <= i < |effects| ==> InRange(n, effects[i])
  }

  /** `k` is the first position of `effects` that does not index a list of length `n`. */
  predicate FirstOutOfRange(n: nat, effects: seq<int>, k: int)
  {
    0 <= k < |effects| && !InRange(n, effects[k]) && forall j :: 0 <= j < k ==> InRange(n, effects[j])
  }

  /** The element Python's `xs[i]` reaches: a negative index counts from the end. */
  function PyIndex(n: nat, i: int): (k: nat)
    requires InRange(n, i)
    ensures k < n && k == i % n
  {
    if i < 0 then n + i else i
  }

  /** `shaders[effect][1]`: the name at a position in the sorted registry (not the entry with that code). */
  function NameAt(shaders: Registry, effect: int): (name: string)
    requires InRange(|shaders|, effect)
    ensures effect >= 0 ==> name == shaders[effect].1
    ensures effect < 0 ==> name == shaders[|shaders| + effect].1
  {
    shaders[PyIndex(|shaders|, effect)].1
  }

  /** `[shaders[effect][1] for effect in effects]`; the first bad index raises. */
  function ConstantNames(shaders: Registry, effects: seq<int>): (r: Result<seq<string>, Error>)
    ensures r.Success? <==> AllInRange(|shaders|, effects)
    ensures r.Success? ==>
      (|r.value| == |effects| && forall i :: 0 <= i < |effects| ==> r.value[i] == NameAt(shaders, effects[i]))
    ensures r.Failure? ==> exists k :: FirstOutOfRange(|shaders|, effects, k) && r.error == EffectOutOfRange(effects[k])
  {
    if effects == [] then Success([])
    else if !InRange(|shaders|, effects[0]) then
      assert FirstOutOfRange(|shaders|, effects, 0);
      Failure(EffectOutOfRange(effects[0]))
    else match ConstantNames(shaders, effects[1..])
      case Failure(err) =>
        var k :| FirstOutOfRange(|shaders|, effects[1..], k) && err == EffectOutOfRange(effects[1..][k]);
        assert FirstOutOfRange(|shaders|, effects, k + 1);
        Failure(err)
      case Success(rest) => Success([NameAt(shaders, effects[0])] + rest)
  }

  /** The names of the requested positions, each lowered first. */
  function LoweredNames(shaders: Registry, effects: seq<int>): seq<string>
    requires AllInRange(|shaders|, effects)
  {
    seq(|effects|, i requires 0 <= i < |effects| => Lower(NameAt(shaders, effects[i])))
  }

  /**
   * `effects_path`: fails on the first effect that is not a valid list index;
   * otherwise the lowered names joined by '_', in input order, with no
   * upper-case letter left.
   */
  function EffectsPath(shaders: Registry, effects: seq<int>): (r: Result<string, Error>)
    ensures r.Success? <==> AllInRange(|shaders|, effects)
    ensures r.Success? ==> r.value == Join("_", LoweredNames(shaders, effects))
    ensures r.Success? ==> forall i :: 0 <= i < |r.value| ==> !IsUpper(r.value[i])
    ensures r.Failure? ==> exists k :: FirstOutOfRange(|shaders|, effects, k) && r.error == EffectOutOfRange(effects[k])
  {
    match ConstantNames(shaders, effects)
    case Failure(err) => Failure(err)
    case Success(names) =>
      LowerJoin("_", names);
      assert Lower("_") == "_";
      assert LowerEach(names) == LoweredNames(shaders, effects);
      Success(Lower(Join("_", names)))
  }

  /** The lookup `list` suggests to its reader: the entry whose code is `code`. */
  function NameByCode(shaders: Registry, code: int): Option<string>
  {
    if shaders == [] then None
    else if shaders[0].0 == code then Some(shaders[0].1)
    else NameByCode(shaders[1..], code)
  }

  /** When the codes are exactly `base, base + 1, ...`, position `e` holds code `base + e`. */
  lemma {:induction false} PositionMatchesCode(shaders: Registry, base: int, e: nat)
    requires forall i :: 0 <= i < |shaders| ==> shaders[i].0 == base + i
    requires e < |shaders|
    ensures NameByCode(shaders, base + e) == Some(shaders[e].1)
  {
    if e > 0 {
      PositionMatchesCode(shaders[1..], base + 1, e - 1);
    }
  }

  /** When the codes are 0, 1, ..., n - 1, position lookup and code lookup agree on the effects 0 .. n - 1. */
  lemma PositionIsCodeWhenDense(shaders: Registry, effect: int)
    requires forall i :: 0 <= i < |shaders| ==> shaders[i].0 == i
    requires 0 <= effect < |shaders|
    ensures NameByCode(shaders, effect) == Some(NameAt(shaders, effect))
  {
    PositionMatchesCode(shaders, 0, effect);
  }

  /** No entry answers a code that none of its entries carries. */
  lemma {:induction false} NameByCodeAbsent(shaders: Registry, code: int)
    requires forall i :: 0 <= i < |shaders| ==> shaders[i].0 != code
    ensures NameByCode(shaders, code) == None
  {
    if shaders != [] {
      NameByCodeAbsent(shaders[1..], code);
    }
  }

  /**
   * Even with codes 0, 1, ..., n - 1 the readings part on negative effects:
   * the position reading counts from the end, while no entry has that code.
   */
  lemma NegativeEffectIsNotCode(shaders: Registry, effect: int)
    requires forall i :: 0 <= i < |shaders| ==> shaders[i].0 == i
    requires -|shaders| <= effect < 0
    ensures NameByCode(shaders, effect) == None
    ensures InRange(|shaders|, effect) && NameAt(shaders, effect) == shaders[|shaders| + effect].1
  {
    NameByCodeAbsent(shaders, effect);
  }

  /** With codes 1 and 3, asking for code 3 (as `list` shows it) fails, and code 1 yields the name of code 3. */
  lemma PositionIsNotCode()
    ensures var shaders := [(1, "SEPIA"), (3, "INVERT")];
      && NameByCode(shaders, 3) == Some("INVERT")
      && EffectsPath(shaders, [3]) == Failure(EffectOutOfRange(3))
      && NameByCode(shaders, 1) == Some("SEPIA")
      && EffectsPath(shaders, [1]) == Success("invert")
  {
    var shaders := [(1, "SEPIA"), (3, "INVERT")];
    assert NameAt(shaders, 1) == "INVERT";
    assert Lower("INVERT") == "invert";
    assert LoweredNames(shaders, [1]) == ["invert"];
  }

  // ---------------------------------------------------------------------------
  // Output name (apply_effect, delete_image)
  // ---------------------------------------------------------------------------

  /** A raster image as the script sees it: only its colour mode and size matter here. */
  datatype Mode = RGB | RGBA | OtherMode(name: string)
  datatype Picture = Picture(mode: Mode, width: nat, height: nat)

  /** The files an image path can name. */
  type Files = map<string, Picture>

  /** `pil_img.convert("RGB")` when the mode is RGBA: the alpha band is dropped. */
  function DropAlpha(img: Picture): (r: Picture)
    ensures r.mode != RGBA && r.width == img.width && r.height == img.height
    ensures img.mode == RGBA ==> r.mode == RGB
    ensures img.mode != RGBA ==> r == img
  {
    if img.mode == RGBA then img.(mode := RGB) else img
  }

  /**
   * The name both `apply_effect` and `delete_image` derive:
   * `f"{filename}_{effect_names}{file_extension}"` with
   * `(filename, file_extension) = os.path.splitext(image_path)`.
   */
  function OutputName(imagePath: string, effectNames: string): (out: string)
    ensures |out| == |imagePath| + 1 + |effectNames| && out != imagePath
  {
    var (filename, fileExtension) := SplitExt(imagePath);
    filename + "_" + effectNames + fileExtension
  }

  /** The derived name reads, left to right: the source's stem, '_' and the names, the source's extension. */
  lemma OutputNameShape(imagePath: string, effectNames: string)
    ensures var out := OutputName(imagePath, effectNames);
      var (stem, ext) := SplitExt(imagePath);
      && |out| == |stem| + 1 + |effectNames| + |ext|
      && out[..|stem|] == stem
      && out[|stem|..|out| - |ext|] == "_" + effectNames
      && out[|out| - |ext|..] == ext
  {
    var (stem, ext) := SplitExt(imagePath);
    var mid := "_" + effectNames;
    var out := stem + mid + ext;
    assert OutputName(imagePath, effectNames) == out;
    assert out[..|stem|] == stem;
    assert out[|stem|..|out| - |ext|] == mid;
    assert out[|out| - |ext|..] == ext;
  }

  /**
   * `apply_effect`: the effects path first, then the image; `run` stands for
   * `Process(*effects).run(image).toImage()`. The picture, without alpha, is
   * saved under the derived name, which is returned.
   */
  function ApplyEffect(shaders: Registry, files: Files, run: (seq<int>, Picture) -> Picture,
                       imagePath: string, effects: seq<int>): (r: Result<(string, Files), Error>)
    ensures r.Success? <==> AllInRange(|shaders|, effects) && imagePath in files
    ensures !AllInRange(|shaders|, effects) ==>
      exists k :: FirstOutOfRange(|shaders|, effects, k) && r == Failure(EffectOutOfRange(effects[k]))
    ensures AllInRange(|shaders|, effects) && imagePath !in files ==> r == Failure(FileNotFound(imagePath))
    ensures r.Success? ==>
      var (out, files') := r.value;
      && out == OutputName(imagePath, EffectsPath(shaders, effects).value)
      && out != imagePath
      && files'.Keys == files.Keys + {out}
      && (forall f :: f in files && f != out ==> files'[f] == files[f])
      && files'[imagePath] == files[imagePath]
      && files'[out].mode != RGBA
      && files'[out].mode == (if run(effects, files[imagePath]).mode == RGBA then RGB else run(effects, files[imagePath]).mode)
      && files'[out].width == run(effects, files[imagePath]).width
      && files'[out].height == run(effects, files[imagePath]).height
  {
    match EffectsPath(shaders, effects)
    case Failure(err) => Failure(err)
    case Success(effectNames) =>
      if imagePath !in files then Failure(FileNotFound(imagePath))
      else
        var pic := DropAlpha(run(effects, files[imagePath]));
        var out := OutputName(imagePath, effectNames);
        Success((out, files[out := pic]))
  }

  /** `delete_image`: names the file `apply_effect` would write, and touches no file. */
  function DeleteImage(shaders: Registry, imagePath: string, effects: seq<int>): (r: Result<string, Error>)
    ensures r.Success? <==> AllInRange(|shaders|, effects)
    ensures r.Failure? ==>
      exists k :: FirstOutOfRange(|shaders|, effects, k) && r.error == EffectOutOfRange(effects[k])
    ensures r.Success? ==> r.value == OutputName(imagePath, EffectsPath(shaders, effects).value)
    ensures r.Success? ==> |r.value| > |imagePath| && r.value[..|SplitExt(imagePath).0|] == SplitExt(imagePath).0
    ensures r.Success? && '.' !in EffectsPath(shaders, effects).value && '/' !in EffectsPath(shaders, effects).value ==>
      SplitExt(r.value) == (SplitExt(imagePath).0 + "_" + EffectsPath(shaders, effects).value, SplitExt(imagePath).1)
  {
    match EffectsPath(shaders, effects)
    case Failure(err) => Failure(err)
    case Success(effectNames) =>
      if '.' !in effectNames && '/' !in effectNames then
        OutputKeepsExtension(imagePath, effectNames);
        Success(OutputName(imagePath, effectNames))
      else
        Success(OutputName(imagePath, effectNames))
  }

  /** `delete` names exactly the file `apply` writes, and fails with the same error where `apply` fails on the effects. */
  lemma ApplyDeleteAgree(shaders: Registry, files: Files, run: (seq<int>, Picture) -> Picture,
                         imagePath: string, effects: seq<int>)
    ensures ApplyEffect(shaders, files, run, imagePath, effects).Success? ==>
      DeleteImage(shaders, imagePath, effects) == Success(ApplyEffect(shaders, files, run, imagePath, effects).value.0)
    ensures DeleteImage(shaders, imagePath, effects).Failure? ==>
      ApplyEffect(shaders, files, run, imagePath, effects) == Failure(DeleteImage(shaders, imagePath, effects).error)
  {
  }

  /**
   * When the effect names hold no '.' and no '/', the derived name splits
   * into the derived stem and the very same extension: the saved file keeps
   * the source's extension, and so the format the extension selects.
   */
  lemma OutputKeepsExtension(imagePath: string, effectNames: string)
    requires '.' !in effectNames && '/' !in effectNames
    ensures SplitExt(OutputName(imagePath, effectNames)) ==
      (SplitExt(imagePath).0 + "_" + effectNames, SplitExt(imagePath).1)
  {
    var stem, ext := SplitExt(imagePath).0, SplitExt(imagePath).1;
    var mid := "_" + effectNames;
    assert OutputName(imagePath, effectNames) == stem + mid + ext;
    if ext == [] {
      assert stem == imagePath;
      assert stem + mid + ext == imagePath + mid;
      SplitExtAppendPlain(imagePath, mid);
      assert SplitExt(imagePath + mid) == (imagePath + mid, []);
      assert stem + "_" + effectNames == imagePath + mid;
    } else {
      SplitExtInsertBeforeExtension(imagePath, mid);
    }
  }

  /** When the effect names hold no '/', the derived file sits in the source's directory. */
  lemma OutputSameDirectory(imagePath: string, effectNames: string)
    requires '/' !in effectNames
    ensures var out := OutputName(imagePath, effectNames);
      RFind(out, '/') == RFind(imagePath, '/') && out[..BaseStart(out)] == imagePath[..BaseStart(imagePath)]
  {
    var stem, ext := SplitExt(imagePath).0, SplitExt(imagePath).1;
    var tail := "_" + effectNames + ext;
    OutputNameSplit(imagePath, effectNames);
    StemKeepsDirectory(imagePath);
    SameDirectoryAfterStem(OutputName(imagePath, effectNames), imagePath, stem, ext, tail);
  }

  /** The derived name is the stem followed by everything after it. */
  lemma OutputNameSplit(imagePath: string, effectNames: string)
    ensures OutputName(imagePath, effectNames) == SplitExt(imagePath).0 + ("_" + effectNames + SplitExt(imagePath).1)
    ensures imagePath == SplitExt(imagePath).0 + SplitExt(imagePath).1
  {
  }

  /** Two names that share a stem and continue without '/' share the directory part. */
  lemma SameDirectoryAfterStem(out: string, p: string, stem: string, ext: string, tail: string)
    requires out == stem + tail && p == stem + ext
    requires '/' !in ext && '/' !in tail
    ensures RFind(out, '/') == RFind(p, '/')
    ensures out[..BaseStart(out)] == p[..BaseStart(p)]
  {
    AppendKeepsUpToLast(stem, ext, '/');
    AppendKeepsUpToLast(stem, tail, '/');
  }
}
