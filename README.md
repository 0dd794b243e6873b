# SkyKamodo transform registration, modelled in Dafny

This project models the frame-validation and transform-registration logic of
`docs/kamodo-tutorial/sunpy_kamodo/transforms.py` in the kamodo-sunpy
tutorial bundle. `SkyKamodo` is a Kamodo object. When it is built, it
registers functions that convert sky coordinates between sunpy frames.
Frames are named by their full name (`HeliographicStonyhurst`,
`Helioprojective`, `HeliographicCarrington`) or by their abbreviation
(`HGS`, `HPC`, `HGC`).

- `frames.dfy`, module `Frames`: the frame tables, the frame-argument type
  (one name, or any nesting of collections of names) and `check_frames`.
  `CheckFrames` is a recursive method with a loop over the collection's
  elements. It is proved equal to `FrameCheck`, which validates the
  flattened list of names and reports the first unsupported one.
- `registration.dfy`, module `Registration`: pure specifications.
  `TransformFor` gives the registry entry that `register_frame` would write,
  or the exception it raises first. That entry has the key
  `xvec_<TO>__<FROM>`, the arguments `alpha_<FROM>`, `delta_<FROM>` and
  `t_unix` with their units, the output unit `km` and the docstring.
  `Calls` gives the sequence of `register_frame` calls that
  `register_frames` makes. `RegisterPairs` folds the calls over the
  registry and stops at the first exception.
- `transforms.dfy`, module `Transforms`: class `SkyKamodo`. It keeps the six
  settings as fields and the Kamodo registry as a `map` field. Its methods
  `RegisterFrame` and `RegisterFrames` change the registry in place, as the
  source does. Each is proved against the specification functions.

Two defects of the source are modelled as written, as error outcomes:

- When `from_frame` is a single name and `to_frame` is a collection,
  `register_frames` iterates over `to_frame`. That name is not defined in
  the method (transforms.py:60). The call therefore fails with
  `UndefinedName("to_frame")` after validation and before any registration,
  even when the collection is empty.
- `check_frames` accepts abbreviations (transforms.py:15), but
  `register_frame` indexes `_frame_abbrev` by full name only
  (transforms.py:74, 116). An abbreviated frame therefore passes validation
  and then fails in `register_frame`, so nothing is registered for that
  pair. As a source it fails the lookup at line 74. As a target it already
  fails the frame-class lookup at line 86, because sunpy defines frame
  classes under the full names only.

The docstring names `self._to_frame`, the whole target argument, rather than
the target of the pair (transforms.py:121). When the target is a collection,
every registered function's docstring therefore ends with the printed
list. This is modelled as written, in `Registration.Docstring`.

Every registered entry is stored under its own function name, because
`register_frame` sets the function's `__name__` to its registry key before it
inserts the function (transforms.py:117-118, 127). This is the class
invariant `Valid()`, and every method preserves it.

## Model

| member | source | states |
|---|---|---|
| `Frames.TablesAgree` | docs/kamodo-tutorial/sunpy_kamodo/transforms.py:9-15 | The lists of full names and abbreviations are the keys and the values of the abbreviation table, position by position. The accepted names are exactly those keys and values. |
| `Frames.ValidateNames` | docs/kamodo-tutorial/sunpy_kamodo/transforms.py:19-24 | A list of names passes exactly when every name is in the six-entry table. Otherwise it fails with NotSupported, naming the first unsupported name, and every earlier name is supported. |
| `Frames.CheckFrames` | docs/kamodo-tutorial/sunpy_kamodo/transforms.py:17-24 | check_frames: the recursive walk with its loop gives the same result as validating the flattened names in visiting order. So it raises on the first unsupported name. |
| `Frames.NameCheck` | docs/kamodo-tutorial/sunpy_kamodo/transforms.py:9-21 | A single name passes exactly when it is one of HeliographicStonyhurst, Helioprojective, HeliographicCarrington, HGS, HPC or HGC. Otherwise it raises NotSupported with that name. |
| `Frames.CollectionCheck` | docs/kamodo-tutorial/sunpy_kamodo/transforms.py:22-24 | A collection passes exactly when every element passes, recursively. So an empty collection passes. |
| `Frames.ValidateAppend` | docs/kamodo-tutorial/sunpy_kamodo/transforms.py:23-24 | Validating a concatenation validates the first part and reaches the second part only if the first part passes. This is the short-circuit of the loop. |
| `Registration.Capitalize` | docs/kamodo-tutorial/sunpy_kamodo/transforms.py:120-121 | str.capitalize keeps the length, upper-cases the first character and lower-cases every other character. |
| `Registration.TransformForSucceeds` | docs/kamodo-tutorial/sunpy_kamodo/transforms.py:71-127 | register_frame produces an entry exactly when both frames are full frame names and the representation is 'cartesian'. In every other case it raises. |
| `Registration.RegisteredMetadata` | docs/kamodo-tutorial/sunpy_kamodo/transforms.py:74-122 | For a pair of full names, the key is `"xvec_" + abbrev(to) + "__" + abbrev(from)` and the function's name equals the key. The arguments are alpha_/delta_ plus abbrev(from), both in from_units, and t_unix in s. Every argument has a unit, the output unit is km, and the entry records the docstring and the transform's captured settings. |
| `Registration.PairKeyInjective` | docs/kamodo-tutorial/sunpy_kamodo/transforms.py:116-117 | Distinct (from, to) pairs of full names get distinct registry keys. `FullNameCalls` and the entry lemmas use this to show that no registration overwrites the entry of another pair. |
| `Registration.AbbreviationRejected` | docs/kamodo-tutorial/sunpy_kamodo/transforms.py:71-87 | An abbreviation passes check_frames. As a source it fails the abbreviation lookup. As a target of a full-name source it fails the frame-class lookup. So nothing is registered for that pair. |
| `Registration.NonCartesianRegistersNothing` | docs/kamodo-tutorial/sunpy_kamodo/transforms.py:89-127 | When the representation is not 'cartesian', every full-name pair raises UnsupportedRepresentation and never reaches the insert. A sequence of calls leaves the registry unchanged, and a non-empty sequence fails. |
| `Registration.StopsAtFirstFailure` | docs/kamodo-tutorial/sunpy_kamodo/transforms.py:64-69 | When call k is the first to raise, the result is the registry after calls 0..k-1, together with call k's exception. Registrations made earlier in the loop stay in place. |
| `Registration.RegisterPairsCons` | docs/kamodo-tutorial/sunpy_kamodo/transforms.py:67-69 | One loop step: a call that raises ends the sequence with the registry unchanged. A call that succeeds writes its entry and the loop continues. |
| `Registration.RegisterPairsKeys` | docs/kamodo-tutorial/sunpy_kamodo/transforms.py:66-69 | When every call succeeds, the outcome is normal. The registry's keys are the old keys plus the calls' keys, and entries under other keys are untouched. |
| `Registration.RegisterPairsGrows` | docs/kamodo-tutorial/sunpy_kamodo/transforms.py:117-127 | Registering never removes a key. It keeps every entry stored under its own function name. |
| `Registration.FullNameCalls` | docs/kamodo-tutorial/sunpy_kamodo/transforms.py:74-127 | Under 'cartesian', every call between two full frame names succeeds. Two such calls write the same key only when they are the same pair. |
| `Registration.RegisterPairsEntries` | docs/kamodo-tutorial/sunpy_kamodo/transforms.py:64-69 | When every call succeeds, and calls that write the same key write the same function, each call's function is stored under its key at the end. A later call never replaces it with something else. |
| `Registration.RowIndex` | docs/kamodo-tutorial/sunpy_kamodo/transforms.py:68-69 | The inner loop calls (from, to[j]) for each target j, in order. |
| `Registration.ColumnIndex` | docs/kamodo-tutorial/sunpy_kamodo/transforms.py:63-65 | With a collection of sources and a single target, there is exactly one call per source, in order. |
| `Registration.ProductIndex` | docs/kamodo-tutorial/sunpy_kamodo/transforms.py:66-69 | With two collections there are exactly len(from)·len(to) calls. Call i·len(to)+j is (from[i], to[j]), so the source is the outer loop. |
| `Registration.ProductCalls` | docs/kamodo-tutorial/sunpy_kamodo/transforms.py:66-69 | Every call in the nested loops pairs some source with some target. |
| `Registration.ProductKeys` | docs/kamodo-tutorial/sunpy_kamodo/transforms.py:66-69 | For collections of full names with a cartesian representation, every product call succeeds. The keys written are exactly the keys of all (from, to) pairs. |
| `Registration.ProductCallKey` | docs/kamodo-tutorial/sunpy_kamodo/transforms.py:66-69 | Call k of the nested loops is some pair (from[i], to[j]). For full names under 'cartesian', it writes that pair's key. |
| `Registration.ProductFullNames` | docs/kamodo-tutorial/sunpy_kamodo/transforms.py:66-69 | When both collections hold only full names, every call of the nested loops is between two full names. |
| `Registration.ProductEntry` | docs/kamodo-tutorial/sunpy_kamodo/transforms.py:66-69 | After the nested loops over full names, the key of source i and target j holds exactly the function register_frame builds for that pair. |
| `Registration.ColumnEntry` | docs/kamodo-tutorial/sunpy_kamodo/transforms.py:63-65 | After the loop over full-name sources with one full-name target, the key of source i holds exactly the function register_frame builds for that source. |
| `Registration.ValidationFirst` | docs/kamodo-tutorial/sunpy_kamodo/transforms.py:52-54 | Both arguments are validated before any registration. An unsupported frame in either leaves the registry unchanged. If both are unsupported, the target's error is reported. |
| `Registration.SingleNames` | docs/kamodo-tutorial/sunpy_kamodo/transforms.py:56-58 | Two single full names register exactly one entry, under their pair key. |
| `Registration.UndefinedTargetName` | docs/kamodo-tutorial/sunpy_kamodo/transforms.py:59-61 | A single source with a collection of targets passes validation and then raises NameError for `to_frame` without registering anything. |
| `Registration.SourcesRegisterAll` | docs/kamodo-tutorial/sunpy_kamodo/transforms.py:52-65 | For a collection of full-name sources, a single full-name target and a cartesian representation, register_frames succeeds. It adds exactly one key per source, the key of that source with the target. Under each such key it stores the function register_frame builds for that source and the target. |
| `Registration.CollectionTargetText` | docs/kamodo-tutorial/sunpy_kamodo/transforms.py:121 | str() of a nested collection target is the list display with quoted names, for example `['Helioprojective', ['HGS']]`. |
| `Registration.DocstringOfCollectionTarget` | docs/kamodo-tutorial/sunpy_kamodo/transforms.py:120-121 | With the default observers and representation and a collection target, every docstring reads "Converts from Earth <from> to Earth Cartesian" followed by the printed target list. |
| `Registration.ProductRegistersAll` | docs/kamodo-tutorial/sunpy_kamodo/transforms.py:52-69 | For two collections of full names with a cartesian representation, register_frames succeeds. It adds exactly the keys of every pair in from × to. Under each pair's key it stores the function register_frame builds for that pair. |
| `Transforms.SkyKamodo.constructor` | docs/kamodo-tutorial/sunpy_kamodo/transforms.py:29-48 | Stores the six settings, with the source's defaults arcsec, cartesian and earth. The registry starts empty and satisfies the invariant. |
| `Transforms.SkyKamodo.Create` | docs/kamodo-tutorial/sunpy_kamodo/transforms.py:29-50 | Building a SkyKamodo leaves it in the state register_frames produces from an empty registry, with the same outcome. |
| `Transforms.SkyKamodo.RegisterFrame` | docs/kamodo-tutorial/sunpy_kamodo/transforms.py:71-127 | register_frame either writes exactly TransformFor's entry into the registry or raises TransformFor's exception with the registry unchanged. It keeps the invariant. |
| `Transforms.SkyKamodo.RegisterFrames` | docs/kamodo-tutorial/sunpy_kamodo/transforms.py:52-69 | register_frames leaves the registry and outcome that RegisterFramesSpec gives from the old registry: validate, dispatch, then register in order until the first exception. |
| `Transforms.SkyKamodo.RegisterSources` | docs/kamodo-tutorial/sunpy_kamodo/transforms.py:63-65 | The loop over sources with a single target has the effect of registering Column(sources, target) in order. |
| `Transforms.SkyKamodo.RegisterProduct` | docs/kamodo-tutorial/sunpy_kamodo/transforms.py:66-69 | The nested loops have the effect of registering Product(sources, targets) in order, with the source outermost. |

## Left out

- The body of the registered `transform` function (transforms.py:92-114) is left out. It builds astropy `SkyCoord` objects and numpy arrays, which is external floating-point numerics. That includes the branch on `_earth_observers` (transforms.py:103-107). The model keeps the transform as the values it closes over.
- Kamodo's `__setitem__` and `kamodofy` (transforms.py:90, 127) parse symbols and keep a unit registry inside the external library. The model writes the registry as a plain map update, with the argument units and the output unit stored beside the entry.
- `forge.sign` (transforms.py:81-83, 91) is reduced to the list of argument names.
- `getattr(sunpy.coordinates.frames, ...)` (transforms.py:86-87) is a lookup into a foreign library. The model assumes it succeeds for the three full frame names only, so an abbreviated or nested target fails there.
- Observers are modelled as strings. The AttributeError that `.capitalize()` raises on a non-string observer (transforms.py:120-121) is not modelled. Nor is the observer's use by astropy inside the transform body (transforms.py:100, 107).
- The `verbose` flag and its `print` (transforms.py:72-73) are I/O and are left out.
- The `**kwargs` passed to Kamodo's constructor (transforms.py:37, 40) are left out. They can register further functions, so the model's registry starts empty.
- A frame argument that is neither a string nor iterable, such as a number, makes check_frames raise TypeError. The frame-argument type cannot express it. Collections are ordered sequences, so the arbitrary order of a Python set and the single pass of a generator are not modelled.
- The exceptions carry the offending value, not Python's message text. A list used as a dictionary key (TypeError) and a tuple missing from it (KeyError) are both `AbbrevLookupFailed`.
- `Registration.Capitalize`: models str.capitalize on ASCII letters only, not Unicode case mapping.
- `Registration.Docstring`: prints any collection as a list display, so a tuple or set target's own printed form is not modelled.
- `Transforms.SkyKamodo.Create`: returns the object together with the outcome. In Python, an exception during construction means the caller never receives the object.
- Notebooks, Dockerfiles and compose files are packaging and documentation and are not modelled.
