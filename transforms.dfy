/**
  SkyKamodo: a Kamodo object that, when built, registers coordinate
  transforms between sunpy frames. The Kamodo registry is a map from
  function name to the registered transform; each method is proved against
  the specification functions of module Registration.
 */
module Transforms {
  import opened Frames
  import opened Registration

  class SkyKamodo {
    var fromUnits: string
    var toFrame: FrameArg
    var fromFrame: FrameArg
    var fromObserver: string
    var toObserver: string
    var representationType: string
    /** The Kamodo registry: function name to registered function. */
    var registry: map<string, TransformInfo>

    /** The settings held in the object's fields. */
    function Settings(): Config
      reads this`fromUnits, this`toFrame, this`fromFrame, this`fromObserver, this`toObserver,
            this`representationType
    {
      Config(fromUnits, toFrame, fromFrame, fromObserver, toObserver, representationType)
    }

    /** Every registered function is stored under its own name, as register_frame
        sets the function's __name__ to its registry key before inserting it.
        The methods' postconditions give the whole new registry; this invariant
        is kept as a documented property of every reachable registry. */
    ghost predicate Valid()
      reads this`registry
    {
      WellNamed(registry)
    }

    /** Stores the settings; the registry starts empty. */
    constructor (toFrame: FrameArg, fromFrame: FrameArg, fromUnits: string := "arcsec",
                 representationType: string := "cartesian", toObserver: string := "earth",
                 fromObserver: string := "earth")
      ensures Valid() && registry == map[]
      ensures Settings() == Config(fromUnits, toFrame, fromFrame, fromObserver, toObserver, representationType)
    {
      registry := map[];
      this.fromUnits := fromUnits;
      this.toFrame := toFrame;
      this.fromFrame := fromFrame;
      this.fromObserver := fromObserver;
      this.toObserver := toObserver;
      this.representationType := representationType;
    }

    /** Builds a SkyKamodo and registers its transforms. A failed outcome is
        the exception raised during construction; the registrations made
        before it are in the registry. */
    static method Create(toFrame: FrameArg, fromFrame: FrameArg, fromUnits: string := "arcsec",
                         representationType: string := "cartesian", toObserver: string := "earth",
                         fromObserver: string := "earth")
      returns (k: SkyKamodo, o: Outcome)
      ensures fresh(k) && k.Valid()
      ensures k.Settings() == Config(fromUnits, toFrame, fromFrame, fromObserver, toObserver, representationType)
      ensures Effect(k.registry, o) == RegisterFramesSpec(map[], k.Settings())
    {
      k := new SkyKamodo(toFrame, fromFrame, fromUnits, representationType, toObserver, fromObserver);
      o := k.RegisterFrames();
    }

    /** register_frame: inserts the transform from `from` to `to`, or raises
        without touching the registry. */
    method RegisterFrame(from: FrameArg, to: FrameArg) returns (o: Outcome)
      requires Valid()
      modifies this`registry
      ensures Valid()
      ensures match TransformFor(Settings(), from, to)
        case Ok(r) => o == Pass && registry == old(registry)[r.key := r.info]
        case Err(e) => o == Fail(e) && registry == old(registry)
    {
      if !(from.Name? && from.name in FrameAbbrev) {
        return Fail(AbbrevLookupFailed(from));
      }
      var fromAbbrev := FrameAbbrev[from.name];
      var alphaVar := "alpha_" + fromAbbrev;
      var deltaVar := "delta_" + fromAbbrev;
      var argUnits := map[alphaVar := fromUnits, deltaVar := fromUnits, "t_unix" := "s"];
      var signature := [alphaVar, deltaVar, "t_unix"];
      if !HasFrameClass(to) {
        return Fail(NoFrameClass(to));
      }
      if representationType != "cartesian" {
        return Fail(UnsupportedRepresentation(representationType));
      }
      var transform := Transform(from.name, to.name, fromUnits, fromObserver, toObserver);
      var toAbbrev := FrameAbbrev[to.name];
      var regVar := "xvec_" + toAbbrev + "__" + fromAbbrev;
      var doc := Docstring(Settings(), from.name);
      registry := registry[regVar := TransformInfo(regVar, signature, argUnits, "km", doc, transform)];
      o := Pass;
    }

    /** register_frames: validates the target and source frames, then calls
        RegisterFrame for each pair; the first exception ends the loops. */
    method RegisterFrames() returns (o: Outcome)
      requires Valid()
      modifies this`registry
      ensures Valid()
      ensures Effect(registry, o) == RegisterFramesSpec(old(registry), Settings())
    {
      o := CheckFrames(toFrame);
      if o != Pass {
        return;
      }
      o := CheckFrames(fromFrame);
      if o != Pass {
        return;
      }
      match fromFrame
      case Name(_) =>
        match toFrame {
          case Name(_) =>
            o := RegisterFrame(fromFrame, toFrame);
          case Many(_) =>
            o := Fail(UndefinedName("to_frame"));
        }
      case Many(fs) =>
        match toFrame
        case Name(_) =>
          o := RegisterSources(fs, toFrame);
        case Many(ts) =>
          o := RegisterProduct(fs, ts);
    }

    /** The loop over a collection of sources with a single target. */
    method RegisterSources(fs: seq<FrameArg>, to: FrameArg) returns (o: Outcome)
      requires Valid()
      modifies this`registry
      ensures Valid()
      ensures Effect(registry, o) == RegisterPairs(old(registry), Settings(), Column(fs, to))
    {
      ghost var c := Settings();
      for i := 0 to |fs|
        invariant Valid()
        invariant RegisterPairs(old(registry), c, Column(fs, to)) == RegisterPairs(registry, c, Column(fs[i..], to))
      {
        assert fs[i..][1..] == fs[i + 1..];
        RegisterPairsCons(registry, c, (fs[i], to), Column(fs[i + 1..], to));
        o := RegisterFrame(fs[i], to);
        if o != Pass {
          return;
        }
      }
      o := Pass;
    }

    /** The nested loops over collections of sources and targets, the
        sources outermost. */
    method RegisterProduct(fs: seq<FrameArg>, ts: seq<FrameArg>) returns (o: Outcome)
      requires Valid()
      modifies this`registry
      ensures Valid()
      ensures Effect(registry, o) == RegisterPairs(old(registry), Settings(), Product(fs, ts))
    {
      ghost var c := Settings();
      for i := 0 to |fs|
        invariant Valid()
        invariant RegisterPairs(old(registry), c, Product(fs, ts)) == RegisterPairs(registry, c, Product(fs[i..], ts))
      {
        assert fs[i..][1..] == fs[i + 1..];
        assert ts[0..] == ts;
        assert Product(fs[i..], ts) == Row(fs[i], ts[0..]) + Product(fs[i + 1..], ts);
        for j := 0 to |ts|
          invariant Valid()
          invariant RegisterPairs(old(registry), c, Product(fs, ts)) ==
                    RegisterPairs(registry, c, Row(fs[i], ts[j..]) + Product(fs[i + 1..], ts))
        {
          assert ts[j..][1..] == ts[j + 1..];
          ghost var rest := Row(fs[i], ts[j + 1..]) + Product(fs[i + 1..], ts);
          assert Row(fs[i], ts[j..]) + Product(fs[i + 1..], ts) == [(fs[i], ts[j])] + rest;
          RegisterPairsCons(registry, c, (fs[i], ts[j]), rest);
          o := RegisterFrame(fs[i], ts[j]);
          if o != Pass {
            return;
          }
        }
        assert Row(fs[i], ts[|ts|..]) + Product(fs[i + 1..], ts) == Product(fs[i + 1..], ts);
      }
      o := Pass;
    }
  }
}
