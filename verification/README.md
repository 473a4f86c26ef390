# GLSL shader effects front end — Dafny model

The script `images/glsl-shader-effects/effect.py` lists, applies or "deletes" named
shader effects on one image. The effects themselves run in an external image
library. The script's own logic is string and path work, and that is what this
project models and proves:

- **The effect registry** (`get_constants`). Each effect code the library exports
  is named after the first global symbol, in namespace order, whose value equals
  it (Python `==`, so `True == 1`). These names go into a dict keyed by code. The
  dict is then rebound to its items sorted by code. If a code has no matching
  symbol, `[...][0]` raises `IndexError`.
- **The `list` line format**: `f"{code:2}: {name}"`, one line per registry entry,
  in registry order.
- **The effects path** (`effects_path`). Each requested effect number is used as a
  Python list index into the sorted registry. Negative numbers count from the
  end, and anything outside `-n <= e < n` raises `IndexError`. The chosen names
  are joined with `_` and lowercased.
- **The output name** that `apply_effect` and `delete_image` both derive:
  `stem + "_" + effects_path + ext`, with `(stem, ext) = os.path.splitext(path)`
  under POSIX rules. `apply_effect` saves the processed picture there, after
  converting RGBA to RGB. `delete_image` only returns the name; it removes nothing.

Files:

- `results.dfy`: `Option` and `Result`. They stand in for the exceptions the script lets escape.
- `pystr.dfy`: models of the Python built-ins the script uses: `str.lower`,
  `str.join`, `str.rfind`, `str(int)` and width formatting. It also has the
  readers used as their inverses.
- `posixpath.dfy`: `os.path.splitext` as defined in Python's `posixpath`/`genericpath`.
- `effect.dfy`: the script itself.

The global `shaders` is rebound once by `get_constants` and only read afterwards.
The model therefore returns it from `Effect.GetConstants` and passes it explicitly
to `ListEffects`, `EffectsPath`, `ApplyEffect` and `DeleteImage`.
`globals().items()` and the library's `codes` become explicit input sequences.

Position versus code: the `apply`/`delete` help text asks for the numbers that
`list` prints, and those are codes. `effects_path`, however, indexes the sorted
registry by position (line 82). The model follows the code.
`Effect.PositionIsCodeWhenDense` shows that, when the codes are `0 .. n-1`, the two
readings agree on the effects `0 .. n-1`. `Effect.NegativeEffectIsNotCode` shows that
even then they part on negative effects, which line 82 accepts: the position reading
counts from the end, while no entry has a negative code. `Effect.PositionIsNotCode`
shows that they disagree for codes `{1, 3}`: `3` raises, and `1` names the effect
whose code is 3.

## Model

| member | source | states |
|---|---|---|
| `PyStr.Lower` | images/glsl-shader-effects/effect.py:85 | `.lower()` keeps the length and maps every character on its own |
| `PyStr.LowerAppend` | images/glsl-shader-effects/effect.py:85 | lowering a concatenation is the concatenation of the lowered parts |
| `PyStr.LowerJoin` | images/glsl-shader-effects/effect.py:85 | lowering after `sep.join` equals joining the lowered pieces with the lowered separator |
| `PyStr.RFind` | images/glsl-shader-effects/effect.py:56 | `rfind` returns the last index holding the character, or -1 when there is none |
| `PyStr.RFindAppendWithout` | images/glsl-shader-effects/effect.py:56 | appending text without the character does not move its last occurrence |
| `PyStr.NatToStr` | images/glsl-shader-effects/effect.py:36 | the decimal text of a natural number is non-empty, all digits, with no leading zero |
| `PyStr.IntToStr` | images/glsl-shader-effects/effect.py:36 | `str(n)` is an optional '-' followed by digits |
| `PyStr.IntToStrRoundTrip` | images/glsl-shader-effects/effect.py:36 | reading `str(n)` back yields `n`, for every int |
| `PyStr.JoinShape` | images/glsl-shader-effects/effect.py:85 | `sep.join(xs)` is as long as the pieces plus one separator between each two, starts with the first piece and ends with the last |
| `PyStr.PadLeftShape` | images/glsl-shader-effects/effect.py:36 | width formatting right-aligns the text: at least `width` long, spaces on the left, the text kept whole as the suffix |
| `PosixPath.SplitExt` | images/glsl-shader-effects/effect.py:56 | `root + ext == path` |
| `PosixPath.SplitExtShape` | images/glsl-shader-effects/effect.py:56 | `ext` is empty, or one '.' followed by text with no '.' and no '/' |
| `PosixPath.SplitExtHasExtension` | images/glsl-shader-effects/effect.py:56 | an extension exists exactly when the last path component has a '.' after some character that is not '.' (leading dots never start one) |
| `PosixPath.SplitExtAppendPlain` | images/glsl-shader-effects/effect.py:57 | appending text without '.' or '/' to a path with no extension gives a path that still has none |
| `PosixPath.SplitExtInsertBeforeExtension` | images/glsl-shader-effects/effect.py:57 | inserting non-empty text without '.' or '/' between root and extension keeps the extension |
| `Effect.MatchingNames` | images/glsl-shader-effects/effect.py:25 | the match list is empty exactly when no global equals the code |
| `Effect.FirstMatchingName` | images/glsl-shader-effects/effect.py:25 | `[...][0]` is the name of the first global, in namespace order, that equals the code |
| `Effect.InsertByCode` | images/glsl-shader-effects/effect.py:28 | inserting into an ascending registry keeps it strictly ascending and adds exactly that entry |
| `Effect.DictItems` | images/glsl-shader-effects/effect.py:28 | `shaders.items()` lists the dict's keys in insertion order, each with its own value; distinct keys give distinct codes |
| `Effect.SortByCode` | images/glsl-shader-effects/effect.py:28 | `sorted(items, key=code)` on dict items is strictly ascending by code and a permutation of the items |
| `Effect.GetConstants` | images/glsl-shader-effects/effect.py:21-28 | success gives a registry strictly ascending by code, with one entry per distinct code, each named by the first matching global; it fails exactly when some code has no matching global, and then reports the first such code |
| `Effect.AscendingSameEntries` | images/glsl-shader-effects/effect.py:28 | two strictly ascending registries with the same entries are equal |
| `Effect.RegistryUnique` | images/glsl-shader-effects/effect.py:24-28 | the registry is fully determined by the namespace and the codes |
| `Effect.FormatLineShape` | images/glsl-shader-effects/effect.py:36 | a `list` line is the code's decimal text right-aligned in a field of width 2, then `": "`, then the name |
| `Effect.ListEffects` | images/glsl-shader-effects/effect.py:32-36 | one line per registry entry, in registry order, each `f"{code:2}: {name}"` |
| `Effect.FormatLineRoundTrip` | images/glsl-shader-effects/effect.py:36 | a `list` line reads back to exactly its code and name, whatever the name holds |
| `Effect.ListedLinesReadBack` | images/glsl-shader-effects/effect.py:35-36 | the listed lines read back to the registry entries in order; for a strictly ascending registry the read-back codes strictly ascend |
| `Effect.PyIndex` | images/glsl-shader-effects/effect.py:82 | a Python list index `-n <= i < n` reaches element `i mod n` |
| `Effect.NameAt` | images/glsl-shader-effects/effect.py:82 | `shaders[effect][1]` is the name at position `effect`, or at `n + effect` for a negative effect |
| `Effect.ConstantNames` | images/glsl-shader-effects/effect.py:82 | succeeds exactly when every effect is a valid list index (negative ones included), giving the name at each position in input order; otherwise reports the first bad effect |
| `Effect.EffectsPath` | images/glsl-shader-effects/effect.py:79-87 | succeeds exactly when every effect is a valid index; the result is the individually lowered names joined by `_` in input order and has no upper-case letter; the failure names the first bad effect, so no effect is skipped |
| `Effect.PositionMatchesCode` | images/glsl-shader-effects/effect.py:82 | when the codes run `base, base+1, ...`, the entry at position `e` has code `base + e` |
| `Effect.PositionIsCodeWhenDense` | images/glsl-shader-effects/effect.py:82 | with codes `0..n-1`, indexing by position gives the same name as looking up by code, for the effects `0..n-1` |
| `Effect.NegativeEffectIsNotCode` | images/glsl-shader-effects/effect.py:82 | with codes `0..n-1`, a negative effect is a valid index naming the entry `n + effect`, while no entry has that code |
| `Effect.PositionIsNotCode` | images/glsl-shader-effects/effect.py:82 | with codes 1 and 3, effect 3 raises and effect 1 yields the name of code 3 |
| `Effect.DropAlpha` | images/glsl-shader-effects/effect.py:52-53 | an RGBA picture becomes RGB, any other picture is kept as it is, and the size never changes |
| `Effect.OutputName` | images/glsl-shader-effects/effect.py:56-57 | the derived name (also lines 71-72) is one character plus the effect names longer than the source path, so it is never the source |
| `Effect.OutputNameShape` | images/glsl-shader-effects/effect.py:56-57 | the derived name is the source's stem, then `_` and the effect names, then the source's extension |
| `Effect.ApplyEffect` | images/glsl-shader-effects/effect.py:40-63 | an effect error comes first, then a missing image; on success the picture is written under the derived name, which is never the source; the source and every other file are unchanged; the saved picture is RGB when the processed one is RGBA and otherwise has the processed mode, and keeps the processed size |
| `Effect.DeleteImage` | images/glsl-shader-effects/effect.py:67-76 | succeeds exactly when every effect is a valid index, otherwise reports the first bad effect; the name is the derived output name, and when the effects path holds no '.' or '/' it splits back into `stem + "_" + path` and the source's extension; no file system is read or changed |
| `Effect.ApplyDeleteAgree` | images/glsl-shader-effects/effect.py:40-76 | `delete` returns exactly the name `apply` writes, and fails with the same error whenever the effects are bad |
| `Effect.OutputKeepsExtension` | images/glsl-shader-effects/effect.py:56-57 | when the effect names hold no '.' or '/', the derived name splits into `stem + "_" + names` and the source's own extension |
| `Effect.OutputSameDirectory` | images/glsl-shader-effects/effect.py:56-57 | when the effect names hold no '/', the derived file lies in the source's directory |

## Left out

- Image I/O (`Image.open`, `save`) and the foreign image library. The file system is a map from path to a picture that has only a colour mode and a size. Pixel data, format detection from the extension and save errors are not modelled.
- The external processing library (`Process(*effects)`, `run`, `toImage`). It is the parameter `run` of `Effect.ApplyEffect` and is assumed total, so the library's own failures are not modelled.
- Argument parsing and dispatch in `main`, the help output, and the warnings filter. The `print` calls outside `list` ("Saving image to", "deleting image to") are also left out. `ListEffects` returns its lines instead of printing them.
- Real `globals()` reflection and the library's `codes`. They are explicit inputs. Global values are ints, bools or "anything else". Float equality (`1.0 == 1`) and user-defined `__eq__` are not modelled.
- PyStr.Lower: changes only ASCII `A`–`Z`. Python's full Unicode case mapping, which also changes the length of some strings, is not modelled.
- `os.path.splitext` on bytes paths and path-like objects is not modelled. Only `str` paths are.
