/**
  The frame tables of the sunpy/Kamodo transform glue and the recursive
  validator `check_frames`, which accepts one frame name or any nesting of
  collections of names and raises on the first name that is not supported.
 */
module Frames {

  /** The table of supported frames: each full sunpy frame name and the
      abbreviation used in registered function names. */
  const FrameAbbrev: map<string, string> :=
    map["HeliographicStonyhurst" := "HGS",
        "Helioprojective" := "HPC",
        "HeliographicCarrington" := "HGC"]

  /** The keys of FrameAbbrev, in the dictionary's insertion order. */
  const FullNames: seq<string> :=
    ["HeliographicStonyhurst", "Helioprojective", "HeliographicCarrington"]

  /** The values of FrameAbbrev, in the same order. */
  const Abbreviations: seq<string> := ["HGS", "HPC", "HGC"]

  /** Every name the validator accepts: the keys, then the values of FrameAbbrev. */
  const AvailableFrames: seq<string> := FullNames + Abbreviations

  /** FullNames and Abbreviations list the keys and values of FrameAbbrev,
      position by position, and the accepted names are exactly the six of them. */
  lemma TablesAgree()
    ensures FrameAbbrev.Keys == set n | n in FullNames
    ensures |FullNames| == |Abbreviations| == 3
    ensures forall i :: 0 <= i < |FullNames| ==> FrameAbbrev[FullNames[i]] == Abbreviations[i]
    ensures FrameAbbrev.Values == set a | a in Abbreviations
    ensures forall s :: s in AvailableFrames <==> s in FrameAbbrev.Keys || s in FrameAbbrev.Values
  {
    assert FrameAbbrev.Values == {"HGS", "HPC", "HGC"} by {
      assert FrameAbbrev["HeliographicStonyhurst"] == "HGS";
      assert FrameAbbrev["Helioprojective"] == "HPC";
      assert FrameAbbrev["HeliographicCarrington"] == "HGC";
    }
  }

  /** A frame argument: a single name (a Python `str`) or a collection whose
      elements are frame arguments again. Collections are iterated in order. */
  datatype FrameArg = Name(name: string) | Many(items: seq<FrameArg>)

  /** The exceptions the component raises. */
  datatype Error =
    | NotSupported(frame: string)            // NotImplementedError from check_frames
    | UndefinedName(identifier: string)      // NameError in register_frames
    | AbbrevLookupFailed(key: FrameArg)      // indexing FrameAbbrev with a key it lacks
    | NoFrameClass(target: FrameArg)        // no sunpy frame class by that name
    | UnsupportedRepresentation(rep: string) // NotImplementedError from register_frame

  /** Normal completion, or the exception that ended the call. */
  datatype Outcome = Pass | Fail(error: Error)

  predicate Supported(s: string) {
    s in AvailableFrames
  }

  /** The names in a frame argument, in the order the validator visits them. */
  function Names(f: FrameArg): seq<string> {
    match f
    case Name(s) => [s]
    case Many(items) => NamesOf(items)
  }

  function NamesOf(items: seq<FrameArg>): seq<string> {
    if items == [] then [] else Names(items[0]) + NamesOf(items[1..])
  }

  /** The verdict on a list of names: it fails, naming the first unsupported
      name, exactly when some name is unsupported. */
  function ValidateNames(names: seq<string>): (o: Outcome)
    ensures o == Pass <==> forall k :: 0 <= k < |names| ==> Supported(names[k])
    ensures o != Pass ==>
      exists k :: 0 <= k < |names| && !Supported(names[k]) && o == Fail(NotSupported(names[k]))
               && forall j :: 0 <= j < k ==> Supported(names[j])
  {
    if names == [] then Pass
    else if !Supported(names[0]) then Fail(NotSupported(names[0]))
    else
      var rest := ValidateNames(names[1..]);
      assert rest != Pass ==>
        exists k :: 0 <= k < |names| && !Supported(names[k]) && rest == Fail(NotSupported(names[k]))
                 && forall j :: 0 <= j < k ==> Supported(names[j])
      by {
        if rest != Pass {
          var k :| 0 <= k < |names[1..]| && !Supported(names[1..][k]) && rest == Fail(NotSupported(names[1..][k]))
                   && forall j :: 0 <= j < k ==> Supported(names[1..][j]);
          assert names[1..][k] == names[k + 1];
          assert forall j :: 1 <= j < k + 1 ==> names[j] == names[1..][j - 1];
        }
      }
      rest
  }

  /** What check_frames does with a frame argument. */
  function FrameCheck(f: FrameArg): Outcome {
    ValidateNames(Names(f))
  }

  /** Validation of a concatenation is validation of the first part, then of the second. */
  lemma {:induction false} ValidateAppend(a: seq<string>, b: seq<string>)
    ensures ValidateNames(a + b) == if ValidateNames(a) == Pass then ValidateNames(b) else ValidateNames(a)
  {
    if a != [] {
      assert (a + b)[0] == a[0];
      assert (a + b)[1..] == a[1..] + b;
      ValidateAppend(a[1..], b);
      if Supported(a[0]) {
        assert ValidateNames(a) == ValidateNames(a[1..]);
        assert ValidateNames(a + b) == ValidateNames(a[1..] + b);
      }
    } else {
      assert a + b == b;
    }
  }

  /** The names of a collection split at any element. */
  lemma {:induction false} NamesOfSplit(items: seq<FrameArg>, i: nat)
    requires i < |items|
    ensures NamesOf(items[..i + 1]) == NamesOf(items[..i]) + Names(items[i])
    ensures NamesOf(items) == NamesOf(items[..i]) + Names(items[i]) + NamesOf(items[i + 1..])
  {
    if i == 0 {
      assert items[..1][1..] == [];
      assert items[..0] == [];
      assert items[1..] == items[i + 1..];
    } else {
      NamesOfSplit(items[1..], i - 1);
      assert items[..i + 1][1..] == items[1..][..i];
      assert items[..i][1..] == items[1..][..i - 1];
      assert items[1..][i..] == items[i + 1..];
      assert items[1..][i - 1] == items[i];
    }
  }

  /** A name is among the names of a collection exactly when it is among the
      names of one of its elements. */
  lemma {:induction false} InNamesOf(items: seq<FrameArg>, n: string)
    ensures n in NamesOf(items) <==> exists i :: 0 <= i < |items| && n in Names(items[i])
  {
    if items != [] {
      InNamesOf(items[1..], n);
      if n in NamesOf(items[1..]) {
        var i :| 0 <= i < |items[1..]| && n in Names(items[1..][i]);
        assert items[1..][i] == items[i + 1];
      }
      forall i | 1 <= i < |items| && n in Names(items[i])
        ensures n in NamesOf(items[1..])
      {
        assert items[1..][i - 1] == items[i];
      }
    }
  }

  /** A single name passes exactly when it is one of the six table entries. */
  lemma NameCheck(s: string)
    ensures FrameCheck(Name(s)) == Pass <==>
      s in {"HeliographicStonyhurst", "Helioprojective", "HeliographicCarrington", "HGS", "HPC", "HGC"}
    ensures FrameCheck(Name(s)) != Pass ==> FrameCheck(Name(s)) == Fail(NotSupported(s))
  {
  }

  /** A collection passes exactly when every element passes, so an empty
      collection passes. */
  lemma {:induction false} CollectionCheck(items: seq<FrameArg>)
    ensures FrameCheck(Many(items)) == Pass <==> forall i :: 0 <= i < |items| ==> FrameCheck(items[i]) == Pass
  {
    var names := NamesOf(items);
    if FrameCheck(Many(items)) == Pass {
      forall i, k | 0 <= i < |items| && 0 <= k < |Names(items[i])|
        ensures Supported(Names(items[i])[k])
      {
        InNamesOf(items, Names(items[i])[k]);
      }
    } else {
      var k :| 0 <= k < |names| && !Supported(names[k]);
      InNamesOf(items, names[k]);
      var i :| 0 <= i < |items| && names[k] in Names(items[i]);
      assert FrameCheck(items[i]) != Pass;
    }
  }

  /** check_frames: returns normally when every name in `frame` is supported,
      otherwise fails on the first unsupported name in visiting order. */
  method CheckFrames(frame: FrameArg) returns (o: Outcome)
    ensures o == FrameCheck(frame)
    decreases frame
  {
    match frame
    case Name(s) =>
      if s !in AvailableFrames {
        return Fail(NotSupported(s));
      }
      o := Pass;
    case Many(items) =>
      for i := 0 to |items|
        invariant ValidateNames(NamesOf(items[..i])) == Pass
      {
        o := CheckFrames(items[i]);
        NamesOfSplit(items, i);
        ValidateAppend(NamesOf(items[..i]), Names(items[i]));
        if o != Pass {
          ValidateAppend(NamesOf(items[..i]) + Names(items[i]), NamesOf(items[i + 1..]));
          return;
        }
      }
      assert items[..|items|] == items;
      o := Pass;
  }
}
