/**
  What registering one coordinate transform produces (its registry key,
  argument names and units, output unit and docstring), and the order in
  which registering a set of frames makes those registrations: dispatch on
  whether each argument is a single name or a collection, then a left-to-right
  sequence of single registrations that stops at the first exception.
 */
module Registration {
  import opened Frames

  datatype Result<T> = Ok(value: T) | Err(error: Error)

  /** The settings a SkyKamodo object keeps in its fields. */
  datatype Config = Config(
    fromUnits: string,
    toFrame: FrameArg,
    fromFrame: FrameArg,
    fromObserver: string,
    toObserver: string,
    representationType: string)

  /** The registered transform function, kept as the values it closes over;
      the coordinate computation itself is not modelled. */
  datatype Transform = Transform(
    fromFrame: string,
    toFrame: string,
    fromUnits: string,
    fromObserver: string,
    toObserver: string)

  /** What a registration records about a transform: its function name,
      argument names in signature order, argument units, output unit and
      docstring, along with the transform itself. */
  datatype TransformInfo = TransformInfo(
    name: string,
    args: seq<string>,
    argUnits: map<string, string>,
    units: string,
    doc: string,
    body: Transform)

  /** One entry to be written into the registry. */
  datatype Registration = Registration(key: string, info: TransformInfo)

  /** The registry after a sequence of registrations, and how it ended. */
  datatype Effect = Effect(registry: map<string, TransformInfo>, outcome: Outcome)

  type Call = (FrameArg, FrameArg)

  /** Indexing FrameAbbrev: defined only for a full frame name. */
  function AbbrevOf(f: FrameArg): (r: Result<string>)
    ensures r.Ok? <==> f.Name? && f.name in FrameAbbrev
    ensures r.Ok? ==> r.value == FrameAbbrev[f.name]
    ensures r.Err? ==> r.error == AbbrevLookupFailed(f)
  {
    if f.Name? && f.name in FrameAbbrev then Ok(FrameAbbrev[f.name]) else Err(AbbrevLookupFailed(f))
  }

  /** Looking up a sunpy frame class by name. Classes are known here only
      under the three full frame names. */
  predicate HasFrameClass(f: FrameArg) {
    f.Name? && f.name in FrameAbbrev
  }

  function RegKey(toAbbrev: string, fromAbbrev: string): string {
    "xvec_" + toAbbrev + "__" + fromAbbrev
  }

  function ArgNames(fromAbbrev: string): seq<string> {
    ["alpha_" + fromAbbrev, "delta_" + fromAbbrev, "t_unix"]
  }

  function ArgUnits(fromAbbrev: string, fromUnits: string): map<string, string> {
    map["alpha_" + fromAbbrev := fromUnits, "delta_" + fromAbbrev := fromUnits, "t_unix" := "s"]
  }

  function Upper(ch: char): char {
    if 'a' <= ch <= 'z' then (ch as int - 32) as char else ch
  }

  function Lower(ch: char): char {
    if 'A' <= ch <= 'Z' then (ch as int + 32) as char else ch
  }

  /** Python's str.capitalize on ASCII text: the first character upper case,
      every other character lower case. */
  function Capitalize(s: string): (r: string)
    ensures |r| == |s|
    ensures forall i :: 0 <= i < |s| ==> r[i] == if i == 0 then Upper(s[i]) else Lower(s[i])
  {
    if s == [] then [] else [Upper(s[0])] + seq(|s| - 1, i requires 0 <= i < |s| - 1 => Lower(s[i + 1]))
  }

  /** str() of a frame argument: a name as it is, a collection as a list
      display of the quoted names. */
  function FrameText(f: FrameArg): string {
    match f
    case Name(s) => s
    case Many(items) => "[" + ItemsText(items) + "]"
  }

  function ItemsText(items: seq<FrameArg>): string {
    if items == [] then ""
    else
      var first := match items[0]
        case Name(s) => "'" + s + "'"
        case Many(sub) => "[" + ItemsText(sub) + "]";
      if |items| == 1 then first else first + ", " + ItemsText(items[1..])
  }

  function Docstring(c: Config, fromName: string): string {
    "Converts from " + Capitalize(c.fromObserver) + " " + fromName
    + " to " + Capitalize(c.toObserver) + " " + Capitalize(c.representationType) + " " + FrameText(c.toFrame)
  }

  /** register_frame, without the registry write: the entry it would insert,
      or the exception it raises first. */
  function TransformFor(c: Config, from: FrameArg, to: FrameArg): Result<Registration> {
    match AbbrevOf(from)
    case Err(e) => Err(e)
    case Ok(fromAbbrev) =>
      if !HasFrameClass(to) then Err(NoFrameClass(to))
      else if c.representationType != "cartesian" then Err(UnsupportedRepresentation(c.representationType))
      else
        match AbbrevOf(to)
        case Err(e) => Err(e)
        case Ok(toAbbrev) =>
          var key := RegKey(toAbbrev, fromAbbrev);
          var body := Transform(from.name, to.name, c.fromUnits, c.fromObserver, c.toObserver);
          Ok(Registration(key, TransformInfo(key, ArgNames(fromAbbrev), ArgUnits(fromAbbrev, c.fromUnits),
                                             "km", Docstring(c, from.name), body)))
  }

  /** Registers each call in turn; the first exception ends the sequence and
      leaves the registrations made before it in place. */
  function RegisterPairs(reg: map<string, TransformInfo>, c: Config, calls: seq<Call>): Effect
    decreases calls
  {
    if calls == [] then Effect(reg, Pass)
    else
      match TransformFor(c, calls[0].0, calls[0].1)
      case Err(e) => Effect(reg, Fail(e))
      case Ok(r) => RegisterPairs(reg[r.key := r.info], c, calls[1..])
  }

  /** One source frame against each target frame, in order. */
  function Row(f: FrameArg, ts: seq<FrameArg>): seq<Call> {
    if ts == [] then [] else [(f, ts[0])] + Row(f, ts[1..])
  }

  /** Each source frame against one target frame, in order. */
  function Column(fs: seq<FrameArg>, t: FrameArg): seq<Call> {
    if fs == [] then [] else [(fs[0], t)] + Column(fs[1..], t)
  }

  /** Every source against every target, the source in the outer loop. */
  function Product(fs: seq<FrameArg>, ts: seq<FrameArg>): seq<Call> {
    if fs == [] then [] else Row(fs[0], ts) + Product(fs[1..], ts)
  }

  /** The register_frame calls that register_frames makes after validation,
      by whether each argument is a single name. A single source name with a
      collection of targets refers to the undefined identifier `to_frame`. */
  function Calls(from: FrameArg, to: FrameArg): Result<seq<Call>> {
    match from
    case Name(_) =>
      (match to
       case Name(_) => Ok([(from, to)])
       case Many(_) => Err(UndefinedName("to_frame")))
    case Many(fs) =>
      (match to
       case Name(_) => Ok(Column(fs, to))
       case Many(ts) => Ok(Product(fs, ts)))
  }

  /** register_frames: validate the target, then the source, then make the calls. */
  function RegisterFramesSpec(reg: map<string, TransformInfo>, c: Config): Effect {
    if FrameCheck(c.toFrame) != Pass then Effect(reg, FrameCheck(c.toFrame))
    else if FrameCheck(c.fromFrame) != Pass then Effect(reg, FrameCheck(c.fromFrame))
    else
      match Calls(c.fromFrame, c.toFrame)
      case Err(e) => Effect(reg, Fail(e))
      case Ok(calls) => RegisterPairs(reg, c, calls)
  }

  /** The registry key of a pair of full frame names. */
  function PairKey(from: string, to: string): string
    requires from in FrameAbbrev && to in FrameAbbrev
  {
    RegKey(FrameAbbrev[to], FrameAbbrev[from])
  }

  /** Every entry of the registry is stored under its own function name. */
  ghost predicate WellNamed(reg: map<string, TransformInfo>) {
    forall k :: k in reg ==> reg[k].name == k
  }

  // ---------------------------------------------------------------------------
  // register_frame

  /** A registration is produced exactly when both frames are full frame
      names and the representation is cartesian. */
  lemma TransformForSucceeds(c: Config, from: FrameArg, to: FrameArg)
    ensures TransformFor(c, from, to).Ok? <==>
      from.Name? && from.name in FullNames && to.Name? && to.name in FullNames
      && c.representationType == "cartesian"
  {
  }

  /** The metadata registered for a pair of full frame names. */
  lemma RegisteredMetadata(c: Config, from: string, to: string)
    requires from in FrameAbbrev && to in FrameAbbrev && c.representationType == "cartesian"
    ensures TransformFor(c, Name(from), Name(to)).Ok?
    ensures var r := TransformFor(c, Name(from), Name(to)).value;
      && r.key == PairKey(from, to)
      && r.key == "xvec_" + FrameAbbrev[to] + "__" + FrameAbbrev[from]
      && r.info.name == r.key
      && r.info.args == ["alpha_" + FrameAbbrev[from], "delta_" + FrameAbbrev[from], "t_unix"]
      && r.info.argUnits.Keys == set a | a in r.info.args
      && r.info.argUnits[r.info.args[0]] == c.fromUnits
      && r.info.argUnits[r.info.args[1]] == c.fromUnits
      && r.info.argUnits["t_unix"] == "s"
      && r.info.units == "km"
      && r.info.doc == Docstring(c, from)
      && r.info.body == Transform(from, to, c.fromUnits, c.fromObserver, c.toObserver)
  {
  }

  /** A key built from two parts splits back into them when the length of
      the first part is known. */
  lemma {:induction false} RegKeySplit(a: string, b: string, a': string, b': string)
    requires |a| == |a'| && RegKey(a, b) == RegKey(a', b')
    ensures a == a' && b == b'
  {
    var k := RegKey(a, b);
    assert a == k[5..5 + |a|];
    assert a' == RegKey(a', b')[5..5 + |a'|];
    assert b == k[7 + |a|..];
    assert b' == RegKey(a', b')[7 + |a'|..];
  }

  /** Distinct pairs of full frame names are registered under distinct keys. */
  lemma {:induction false} PairKeyInjective(from: string, to: string, from': string, to': string)
    requires from in FrameAbbrev && to in FrameAbbrev && from' in FrameAbbrev && to' in FrameAbbrev
    requires PairKey(from, to) == PairKey(from', to')
    ensures from == from' && to == to'
  {
    assert forall x :: x in FrameAbbrev ==> |FrameAbbrev[x]| == 3;
    RegKeySplit(FrameAbbrev[to], FrameAbbrev[from], FrameAbbrev[to'], FrameAbbrev[from']);
  }

  /** An abbreviation passes validation but never yields a registration: as a
      source it is not a key of FrameAbbrev, and as a target it names no frame
      class. */
  lemma AbbreviationRejected(c: Config, abbrev: string, other: FrameArg)
    requires abbrev in Abbreviations
    ensures FrameCheck(Name(abbrev)) == Pass
    ensures TransformFor(c, Name(abbrev), other) == Err(AbbrevLookupFailed(Name(abbrev)))
    ensures AbbrevOf(other).Ok? ==> TransformFor(c, other, Name(abbrev)) == Err(NoFrameClass(Name(abbrev)))
  {
  }

  /** With any representation other than cartesian, no pair of full frame
      names is registered, and a sequence of calls changes nothing. */
  lemma NonCartesianRegistersNothing(reg: map<string, TransformInfo>, c: Config, calls: seq<Call>)
    requires c.representationType != "cartesian"
    ensures forall f, t :: f in FrameAbbrev && t in FrameAbbrev ==>
      TransformFor(c, Name(f), Name(t)) == Err(UnsupportedRepresentation(c.representationType))
    ensures RegisterPairs(reg, c, calls).registry == reg
    ensures calls != [] ==> RegisterPairs(reg, c, calls).outcome.Fail?
  {
  }

  // ---------------------------------------------------------------------------
  // Sequences of registrations

  /** The first failing call ends the sequence: the registrations before it
      stay, and its exception is the outcome. */
  lemma {:induction false} StopsAtFirstFailure(reg: map<string, TransformInfo>, c: Config, calls: seq<Call>, k: nat, e: Error)
    requires k < |calls|
    requires forall j :: 0 <= j < k ==> TransformFor(c, calls[j].0, calls[j].1).Ok?
    requires TransformFor(c, calls[k].0, calls[k].1) == Err(e)
    ensures RegisterPairs(reg, c, calls) == Effect(RegisterPairs(reg, c, calls[..k]).registry, Fail(e))
    decreases calls
  {
    if k > 0 {
      var r := TransformFor(c, calls[0].0, calls[0].1).value;
      assert calls[..k][1..] == calls[1..][..k - 1];
      StopsAtFirstFailure(reg[r.key := r.info], c, calls[1..], k - 1, e);
    }
  }

  /** One call, then the rest. */
  lemma RegisterPairsCons(reg: map<string, TransformInfo>, c: Config, call: Call, rest: seq<Call>)
    ensures TransformFor(c, call.0, call.1).Err? ==>
      RegisterPairs(reg, c, [call] + rest) == Effect(reg, Fail(TransformFor(c, call.0, call.1).error))
    ensures TransformFor(c, call.0, call.1).Ok? ==>
      var r := TransformFor(c, call.0, call.1).value;
      RegisterPairs(reg, c, [call] + rest) == RegisterPairs(reg[r.key := r.info], c, rest)
  {
    assert ([call] + rest)[1..] == rest;
  }

  /** When every call succeeds, the outcome is normal, the new keys are
      exactly those of the calls, and other entries are untouched. */
  lemma {:induction false} RegisterPairsKeys(reg: map<string, TransformInfo>, c: Config, calls: seq<Call>)
    requires forall j :: 0 <= j < |calls| ==> TransformFor(c, calls[j].0, calls[j].1).Ok?
    ensures RegisterPairs(reg, c, calls).outcome == Pass
    ensures RegisterPairs(reg, c, calls).registry.Keys ==
      reg.Keys + set j | 0 <= j < |calls| :: TransformFor(c, calls[j].0, calls[j].1).value.key
    ensures forall x :: (x in reg && x !in (set j | 0 <= j < |calls| :: TransformFor(c, calls[j].0, calls[j].1).value.key)
      ==> RegisterPairs(reg, c, calls).registry[x] == reg[x])
    decreases calls
  {
    var keys := set j | 0 <= j < |calls| :: TransformFor(c, calls[j].0, calls[j].1).value.key;
    if calls != [] {
      var r := TransformFor(c, calls[0].0, calls[0].1).value;
      var rest := set j | 0 <= j < |calls[1..]| :: TransformFor(c, calls[1..][j].0, calls[1..][j].1).value.key;
      RegisterPairsKeys(reg[r.key := r.info], c, calls[1..]);
      assert keys == {r.key} + rest by {
        forall x | x in keys ensures x in {r.key} + rest {
          var j :| 0 <= j < |calls| && x == TransformFor(c, calls[j].0, calls[j].1).value.key;
          if j > 0 { assert calls[1..][j - 1] == calls[j]; }
        }
        forall x | x in rest ensures x in keys {
          var j :| 0 <= j < |calls[1..]| && x == TransformFor(c, calls[1..][j].0, calls[1..][j].1).value.key;
          assert calls[1..][j] == calls[j + 1];
        }
      }
    } else {
      assert keys == {};
    }
  }

  /** Every call is between two full frame names. */
  ghost predicate FullNamePairs(calls: seq<Call>) {
    forall k :: 0 <= k < |calls| ==>
      calls[k].0.Name? && calls[k].0.name in FrameAbbrev && calls[k].1.Name? && calls[k].1.name in FrameAbbrev
  }

  /** Between full frame names under 'cartesian', every call succeeds, and two
      calls write the same key only when they are the same pair. */
  lemma FullNameCalls(c: Config, calls: seq<Call>)
    requires FullNamePairs(calls) && c.representationType == "cartesian"
    ensures forall k :: 0 <= k < |calls| ==> TransformFor(c, calls[k].0, calls[k].1).Ok?
    ensures forall k, l :: (0 <= k < |calls| && 0 <= l < |calls| &&
      TransformFor(c, calls[k].0, calls[k].1).value.key == TransformFor(c, calls[l].0, calls[l].1).value.key) ==>
      calls[k] == calls[l]
  {
    forall k | 0 <= k < |calls|
      ensures TransformFor(c, calls[k].0, calls[k].1).Ok?
      ensures TransformFor(c, calls[k].0, calls[k].1).value.key == PairKey(calls[k].0.name, calls[k].1.name)
    {
      RegisteredMetadata(c, calls[k].0.name, calls[k].1.name);
    }
    forall k, l | 0 <= k < |calls| && 0 <= l < |calls| &&
      TransformFor(c, calls[k].0, calls[k].1).value.key == TransformFor(c, calls[l].0, calls[l].1).value.key
      ensures calls[k] == calls[l]
    {
      PairKeyInjective(calls[k].0.name, calls[k].1.name, calls[l].0.name, calls[l].1.name);
    }
  }

  /** When every call succeeds and calls that write the same key write the
      same function, each call's function is under its key at the end: no
      later call overwrites it with something else. */
  lemma {:induction false} RegisterPairsEntries(reg: map<string, TransformInfo>, c: Config, calls: seq<Call>, k: nat)
    requires forall j :: 0 <= j < |calls| ==> TransformFor(c, calls[j].0, calls[j].1).Ok?
    requires forall j, l :: (0 <= j < |calls| && 0 <= l < |calls| &&
      TransformFor(c, calls[j].0, calls[j].1).value.key == TransformFor(c, calls[l].0, calls[l].1).value.key) ==>
      TransformFor(c, calls[j].0, calls[j].1).value.info == TransformFor(c, calls[l].0, calls[l].1).value.info
    requires k < |calls|
    ensures TransformFor(c, calls[k].0, calls[k].1).value.key in RegisterPairs(reg, c, calls).registry
    ensures RegisterPairs(reg, c, calls).registry[TransformFor(c, calls[k].0, calls[k].1).value.key]
         == TransformFor(c, calls[k].0, calls[k].1).value.info
    decreases calls
  {
    var r0 := TransformFor(c, calls[0].0, calls[0].1).value;
    var rest := calls[1..];
    var reg' := reg[r0.key := r0.info];
    assert RegisterPairs(reg, c, calls) == RegisterPairs(reg', c, rest);
    assert forall j :: 0 <= j < |rest| ==> rest[j] == calls[j + 1];
    if k > 0 {
      RegisterPairsEntries(reg', c, rest, k - 1);
    } else if l :| 0 <= l < |rest| && TransformFor(c, rest[l].0, rest[l].1).value.key == r0.key {
      RegisterPairsEntries(reg', c, rest, l);
    } else {
      RegisterPairsKeys(reg', c, rest);
    }
  }

  /** Registration never removes a key, and keeps every entry stored under
      its own name. */
  lemma {:induction false} RegisterPairsGrows(reg: map<string, TransformInfo>, c: Config, calls: seq<Call>)
    requires WellNamed(reg)
    ensures reg.Keys <= RegisterPairs(reg, c, calls).registry.Keys
    ensures WellNamed(RegisterPairs(reg, c, calls).registry)
    decreases calls
  {
    if calls != [] {
      match TransformFor(c, calls[0].0, calls[0].1)
      case Err(e) =>
      case Ok(r) =>
        RegisterPairsGrows(reg[r.key := r.info], c, calls[1..]);
    }
  }

  // ---------------------------------------------------------------------------
  // Call order

  lemma {:induction false} RowIndex(f: FrameArg, ts: seq<FrameArg>)
    ensures |Row(f, ts)| == |ts|
    ensures forall j :: 0 <= j < |ts| ==> Row(f, ts)[j] == (f, ts[j])
  {
    if ts != [] {
      RowIndex(f, ts[1..]);
    }
  }

  /** A collection of sources against a single target: one call per source,
      in order. */
  lemma {:induction false} ColumnIndex(fs: seq<FrameArg>, t: FrameArg)
    ensures |Column(fs, t)| == |fs|
    ensures forall i :: 0 <= i < |fs| ==> Column(fs, t)[i] == (fs[i], t)
  {
    if fs != [] {
      ColumnIndex(fs[1..], t);
    }
  }

  /** Two collections make |fs| * |ts| calls. */
  lemma {:induction false} ProductLength(fs: seq<FrameArg>, ts: seq<FrameArg>)
    ensures |Product(fs, ts)| == |fs| * |ts|
  {
    if fs != [] {
      RowIndex(fs[0], ts);
      ProductLength(fs[1..], ts);
      MulStep(|fs|, |ts|);
    }
  }

  lemma MulStep(m: nat, n: nat)
    requires m > 0
    ensures m * n == n + (m - 1) * n
  {
  }

  /** Call i * |ts| + j registers source i with target j: every pair once,
      sources in the outer loop. */
  lemma {:induction false} ProductIndex(fs: seq<FrameArg>, ts: seq<FrameArg>, i: nat, j: nat)
    requires i < |fs| && j < |ts|
    ensures |Product(fs, ts)| == |fs| * |ts|
    ensures i * |ts| + j < |Product(fs, ts)|
    ensures Product(fs, ts)[i * |ts| + j] == (fs[i], ts[j])
  {
    var n := |ts|;
    ProductLength(fs, ts);
    RowIndex(fs[0], ts);
    if i > 0 {
      ProductIndex(fs[1..], ts, i - 1, j);
      assert fs[1..][i - 1] == fs[i];
      var k := (i - 1) * n + j;
      MulStep(i, n);
      assert i * n + j == n + k;
      assert Product(fs, ts)[n + k] == Product(fs[1..], ts)[k];
    }
  }

  // ---------------------------------------------------------------------------
  // register_frames

  /** Both arguments are validated before any registration: an unsupported
      frame in either leaves the registry unchanged, the target reported first. */
  lemma ValidationFirst(reg: map<string, TransformInfo>, c: Config)
    requires FrameCheck(c.toFrame) != Pass || FrameCheck(c.fromFrame) != Pass
    ensures RegisterFramesSpec(reg, c).registry == reg
    ensures RegisterFramesSpec(reg, c).outcome ==
      if FrameCheck(c.toFrame) != Pass then FrameCheck(c.toFrame) else FrameCheck(c.fromFrame)
  {
  }

  /** Two single full frame names register exactly one entry. */
  lemma SingleNames(reg: map<string, TransformInfo>, c: Config)
    requires c.fromFrame.Name? && c.fromFrame.name in FrameAbbrev
    requires c.toFrame.Name? && c.toFrame.name in FrameAbbrev
    requires c.representationType == "cartesian"
    ensures var r := TransformFor(c, c.fromFrame, c.toFrame).value;
      && r.key == PairKey(c.fromFrame.name, c.toFrame.name)
      && RegisterFramesSpec(reg, c) == Effect(reg[r.key := r.info], Pass)
  {
    NameCheck(c.fromFrame.name);
    NameCheck(c.toFrame.name);
    var r := TransformFor(c, c.fromFrame, c.toFrame).value;
    var calls := [(c.fromFrame, c.toFrame)];
    assert RegisterPairs(reg, c, calls) == RegisterPairs(reg[r.key := r.info], c, calls[1..]);
  }

  /** A single source name with a collection of targets raises NameError
      once validation passes, before registering anything, even for an
      empty collection. */
  lemma UndefinedTargetName(reg: map<string, TransformInfo>, c: Config)
    requires c.fromFrame.Name? && c.toFrame.Many?
    requires FrameCheck(c.toFrame) == Pass && FrameCheck(c.fromFrame) == Pass
    ensures RegisterFramesSpec(reg, c) == Effect(reg, Fail(UndefinedName("to_frame")))
  {
  }

  /** Collections of full frame names on both sides, cartesian: every pair
      is registered, each under its own key, and nothing else is added. */
  lemma ProductRegistersAll(reg: map<string, TransformInfo>, c: Config, from: seq<FrameArg>, to: seq<FrameArg>)
    requires forall i :: 0 <= i < |from| ==> from[i].Name? && from[i].name in FrameAbbrev
    requires forall j :: 0 <= j < |to| ==> to[j].Name? && to[j].name in FrameAbbrev
    requires c.representationType == "cartesian"
    requires c.fromFrame == Many(from) && c.toFrame == Many(to)
    ensures RegisterFramesSpec(reg, c).outcome == Pass
    ensures RegisterFramesSpec(reg, c).registry.Keys ==
      reg.Keys + set i, j | 0 <= i < |from| && 0 <= j < |to| :: PairKey(from[i].name, to[j].name)
    ensures forall i, j :: 0 <= i < |from| && 0 <= j < |to| ==>
      (TransformFor(c, from[i], to[j]) == Ok(Registration(PairKey(from[i].name, to[j].name),
         RegisterFramesSpec(reg, c).registry[PairKey(from[i].name, to[j].name)])))
  {
    forall i | 0 <= i < |from| ensures FrameCheck(from[i]) == Pass { NameCheck(from[i].name); }
    forall j | 0 <= j < |to| ensures FrameCheck(to[j]) == Pass { NameCheck(to[j].name); }
    CollectionCheck(from);
    CollectionCheck(to);
    ProductKeys(c, from, to);
    RegisterPairsKeys(reg, c, Product(from, to));
    forall i, j | 0 <= i < |from| && 0 <= j < |to|
      ensures TransformFor(c, from[i], to[j]) == Ok(Registration(PairKey(from[i].name, to[j].name),
        RegisterFramesSpec(reg, c).registry[PairKey(from[i].name, to[j].name)]))
    {
      ProductEntry(reg, c, from, to, i, j);
    }
  }

  /** The keys registered by the product calls are the keys of all pairs. */
  lemma ProductKeys(c: Config, from: seq<FrameArg>, to: seq<FrameArg>)
    requires forall i :: 0 <= i < |from| ==> from[i].Name? && from[i].name in FrameAbbrev
    requires forall j :: 0 <= j < |to| ==> to[j].Name? && to[j].name in FrameAbbrev
    requires c.representationType == "cartesian"
    ensures forall k :: 0 <= k < |Product(from, to)| ==>
      TransformFor(c, Product(from, to)[k].0, Product(from, to)[k].1).Ok?
    ensures (set k | 0 <= k < |Product(from, to)| :: TransformFor(c, Product(from, to)[k].0, Product(from, to)[k].1).value.key)
         == (set i, j | 0 <= i < |from| && 0 <= j < |to| :: PairKey(from[i].name, to[j].name))
  {
    var calls := Product(from, to);
    var want := set i, j | 0 <= i < |from| && 0 <= j < |to| :: PairKey(from[i].name, to[j].name);
    forall k | 0 <= k < |calls|
      ensures TransformFor(c, calls[k].0, calls[k].1).Ok?
      ensures TransformFor(c, calls[k].0, calls[k].1).value.key in want
    {
      var i, j := ProductCallKey(c, from, to, k);
    }
    var got := set k | 0 <= k < |calls| :: TransformFor(c, calls[k].0, calls[k].1).value.key;
    forall x | x in want ensures x in got {
      var i, j :| 0 <= i < |from| && 0 <= j < |to| && x == PairKey(from[i].name, to[j].name);
      ProductIndex(from, to, i, j);
      RegisteredMetadata(c, from[i].name, to[j].name);
    }
  }

  /** Call k of the product is some pair (from[i], to[j]) and writes its key. */
  lemma ProductCallKey(c: Config, from: seq<FrameArg>, to: seq<FrameArg>, k: nat) returns (i: nat, j: nat)
    requires forall i :: 0 <= i < |from| ==> from[i].Name? && from[i].name in FrameAbbrev
    requires forall j :: 0 <= j < |to| ==> to[j].Name? && to[j].name in FrameAbbrev
    requires c.representationType == "cartesian"
    requires k < |Product(from, to)|
    ensures i < |from| && j < |to| && Product(from, to)[k] == (from[i], to[j])
    ensures TransformFor(c, Product(from, to)[k].0, Product(from, to)[k].1)
         == Ok(Registration(PairKey(from[i].name, to[j].name), TransformFor(c, from[i], to[j]).value.info))
  {
    ProductLength(from, to);
    i, j := CallPosition(k, |to|, |from|);
    ProductIndex(from, to, i, j);
    RegisteredMetadata(c, from[i].name, to[j].name);
  }

  /** Every product call pairs some source with some target. */
  lemma ProductCalls(from: seq<FrameArg>, to: seq<FrameArg>)
    ensures forall k :: 0 <= k < |Product(from, to)| ==>
      exists i, j :: 0 <= i < |from| && 0 <= j < |to| && Product(from, to)[k] == (from[i], to[j])
  {
    var calls := Product(from, to);
    var n := |to|;
    ProductLength(from, to);
    forall k | 0 <= k < |calls|
      ensures exists i, j :: 0 <= i < |from| && 0 <= j < |to| && calls[k] == (from[i], to[j])
    {
      var i, j := CallPosition(k, n, |from|);
      ProductIndex(from, to, i, j);
    }
  }

  /** The product of two collections of full names calls only full-name pairs. */
  lemma ProductFullNames(from: seq<FrameArg>, to: seq<FrameArg>)
    requires forall i :: 0 <= i < |from| ==> from[i].Name? && from[i].name in FrameAbbrev
    requires forall j :: 0 <= j < |to| ==> to[j].Name? && to[j].name in FrameAbbrev
    ensures FullNamePairs(Product(from, to))
  {
    var calls := Product(from, to);
    ProductCalls(from, to);
    forall k | 0 <= k < |calls|
      ensures calls[k].0.Name? && calls[k].0.name in FrameAbbrev && calls[k].1.Name? && calls[k].1.name in FrameAbbrev
    {
      var i, j :| 0 <= i < |from| && 0 <= j < |to| && calls[k] == (from[i], to[j]);
    }
  }

  /** After the nested loops over full names, the key of source i and
      target j holds exactly the function register_frame builds for them. */
  lemma ProductEntry(reg: map<string, TransformInfo>, c: Config, from: seq<FrameArg>, to: seq<FrameArg>, i: nat, j: nat)
    requires forall i :: 0 <= i < |from| ==> from[i].Name? && from[i].name in FrameAbbrev
    requires forall j :: 0 <= j < |to| ==> to[j].Name? && to[j].name in FrameAbbrev
    requires c.representationType == "cartesian"
    requires i < |from| && j < |to|
    ensures PairKey(from[i].name, to[j].name) in RegisterPairs(reg, c, Product(from, to)).registry
    ensures TransformFor(c, from[i], to[j]) == Ok(Registration(PairKey(from[i].name, to[j].name),
      RegisterPairs(reg, c, Product(from, to)).registry[PairKey(from[i].name, to[j].name)]))
  {
    var calls := Product(from, to);
    ProductFullNames(from, to);
    FullNameCalls(c, calls);
    ProductIndex(from, to, i, j);
    RegisterPairsEntries(reg, c, calls, i * |to| + j);
    RegisteredMetadata(c, from[i].name, to[j].name);
  }

  /** After the loop over full-name sources with one full-name target, the key
      of source i holds exactly the function register_frame builds for it. */
  lemma ColumnEntry(reg: map<string, TransformInfo>, c: Config, from: seq<FrameArg>, to: string, i: nat)
    requires forall i :: 0 <= i < |from| ==> from[i].Name? && from[i].name in FrameAbbrev
    requires to in FrameAbbrev
    requires c.representationType == "cartesian"
    requires i < |from|
    ensures PairKey(from[i].name, to) in RegisterPairs(reg, c, Column(from, Name(to))).registry
    ensures TransformFor(c, from[i], Name(to)) == Ok(Registration(PairKey(from[i].name, to),
      RegisterPairs(reg, c, Column(from, Name(to))).registry[PairKey(from[i].name, to)]))
  {
    var calls := Column(from, Name(to));
    ColumnIndex(from, Name(to));
    FullNameCalls(c, calls);
    RegisterPairsEntries(reg, c, calls, i);
    RegisteredMetadata(c, from[i].name, to);
  }

  /** A collection of full-name sources with one full-name target, cartesian:
      one entry per source is registered, under its key with that target. */
  lemma SourcesRegisterAll(reg: map<string, TransformInfo>, c: Config, from: seq<FrameArg>, to: string)
    requires forall i :: 0 <= i < |from| ==> from[i].Name? && from[i].name in FrameAbbrev
    requires to in FrameAbbrev
    requires c.representationType == "cartesian"
    requires c.fromFrame == Many(from) && c.toFrame == Name(to)
    ensures RegisterFramesSpec(reg, c).outcome == Pass
    ensures RegisterFramesSpec(reg, c).registry.Keys ==
      reg.Keys + set i | 0 <= i < |from| :: PairKey(from[i].name, to)
    ensures forall i :: 0 <= i < |from| ==>
      (TransformFor(c, from[i], Name(to)) == Ok(Registration(PairKey(from[i].name, to),
         RegisterFramesSpec(reg, c).registry[PairKey(from[i].name, to)])))
  {
    forall i | 0 <= i < |from| ensures FrameCheck(from[i]) == Pass { NameCheck(from[i].name); }
    CollectionCheck(from);
    NameCheck(to);
    var calls := Column(from, Name(to));
    ColumnIndex(from, Name(to));
    forall k | 0 <= k < |calls|
      ensures TransformFor(c, calls[k].0, calls[k].1).Ok?
      ensures TransformFor(c, calls[k].0, calls[k].1).value.key == PairKey(from[k].name, to)
    {
      RegisteredMetadata(c, from[k].name, to);
    }
    RegisterPairsKeys(reg, c, calls);
    var got := set k | 0 <= k < |calls| :: TransformFor(c, calls[k].0, calls[k].1).value.key;
    var want := set i | 0 <= i < |from| :: PairKey(from[i].name, to);
    assert got == want;
    forall i | 0 <= i < |from|
      ensures TransformFor(c, from[i], Name(to)) == Ok(Registration(PairKey(from[i].name, to),
        RegisterFramesSpec(reg, c).registry[PairKey(from[i].name, to)]))
    {
      ColumnEntry(reg, c, from, to, i);
    }
  }

  /** The docstring ends with str() of the whole target argument: a nested
      collection target prints as a Python list display. */
  lemma DocstringOfCollectionTarget(c: Config)
    requires c.fromObserver == "earth" && c.toObserver == "earth" && c.representationType == "cartesian"
    requires c.toFrame == Many([Name("Helioprojective"), Many([Name("HGS")])])
    ensures FrameText(c.toFrame) == "['Helioprojective', ['HGS']]"
    ensures forall from ::
      (Docstring(c, from) == "Converts from Earth " + from + " to Earth Cartesian " + "['Helioprojective', ['HGS']]")
  {
    CollectionTargetText();
    CapitalizeWord("earth", "Earth");
    CapitalizeWord("cartesian", "Cartesian");
    assert "Converts from " + "Earth" + " " == "Converts from Earth ";
    assert " to " + "Earth" + " " + "Cartesian" + " " == " to Earth Cartesian ";
  }

  lemma CollectionTargetText()
    ensures FrameText(Many([Name("Helioprojective"), Many([Name("HGS")])])) == "['Helioprojective', ['HGS']]"
  {
    var inner := ItemsText([Many([Name("HGS")])]);
    assert ItemsText([Name("HGS")]) == "'HGS'";
    assert inner == "['HGS']" by {
      assert inner == "[" + "'HGS'" + "]";
    }
    var items := [Name("Helioprojective"), Many([Name("HGS")])];
    assert items[1..] == [Many([Name("HGS")])];
    assert ItemsText(items) == "'Helioprojective'" + ", " + "['HGS']";
    assert "[" + ("'Helioprojective'" + ", " + "['HGS']") + "]" == "['Helioprojective', ['HGS']]";
  }

  /** Capitalize agrees with a word written out in capitalized form. */
  lemma CapitalizeWord(w: string, cap: string)
    requires |w| == |cap| && |w| > 0
    requires Upper(w[0]) == cap[0]
    requires forall i :: 1 <= i < |w| ==> Lower(w[i]) == cap[i]
    ensures Capitalize(w) == cap
  {
  }

  /** Every position in the call sequence is some source row and target column. */
  lemma CallPosition(k: nat, n: nat, m: nat) returns (i: nat, j: nat)
    requires k < m * n
    ensures i < m && j < n && k == i * n + j
  {
    i, j := k / n, k % n;
  }
}
