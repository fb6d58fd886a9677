/** The registry of feature types (micro, pico, outline and character-norm
    features), the lookup of a type by its short name, and the textual form of
    a character description: a count of the non-empty feature sets followed by
    each set, introduced by its type's short name.  The text is modelled as a
    sequence of tokens; the content of one feature set is an opaque value `S`
    that its own writer and reader (not part of this model) carry unchanged. */
module FeatDefs {
  import opened Wrappers

  /** Error number raised for an unreadable or out-of-range set count. */
  const ILLEGAL_NUM_SETS: int := 3001

  const PICO_FEATURE_LENGTH: real := 0.05
  const MAX_OUTLINE_FEATURES: nat := 100
  const MAX_UINT8: nat := 255

  /** One parameter of a feature: circular or linear, essential or not, and its range. */
  datatype ParamDesc = ParamDesc(circular: bool, nonEssential: bool, min: real, max: real)

  datatype FeatureDesc = FeatureDesc(
    numLinear: nat, numCircular: nat,
    minFeaturesPerChar: nat, maxFeaturesPerChar: nat,
    longName: string, shortName: string,
    params: seq<ParamDesc>)

  const MicroFeatureDesc: FeatureDesc := FeatureDesc(5, 1, 4, 50, "Micro", "mf", [
    ParamDesc(false, false, -0.5, 0.5),
    ParamDesc(false, false, -0.25, 0.75),
    ParamDesc(false, true, 0.0, 1.0),
    ParamDesc(true, false, 0.0, 1.0),
    ParamDesc(false, true, -0.5, 0.5),
    ParamDesc(false, true, -0.5, 0.5)])

  const PicoFeatDesc: FeatureDesc := FeatureDesc(2, 1, 1, MAX_UINT8, "Pico", "pf", [
    ParamDesc(false, false, -0.25, 0.75),
    ParamDesc(true, false, 0.0, 1.0),
    ParamDesc(false, false, -0.5, 0.5)])

  const CharNormDesc: FeatureDesc := FeatureDesc(4, 0, 1, 1, "CharNorm", "cn", [
    ParamDesc(false, false, -0.25, 0.75),
    ParamDesc(false, true, 0.0, 1.0),
    ParamDesc(false, true, 0.0, 1.0),
    ParamDesc(false, true, 0.0, 1.0)])

  const OutlineFeatDesc: FeatureDesc := FeatureDesc(3, 1, 1, MAX_OUTLINE_FEATURES, "Outline", "of", [
    ParamDesc(false, false, -0.5, 0.5),
    ParamDesc(false, false, -0.25, 0.75),
    ParamDesc(false, false, 0.0, 1.0),
    ParamDesc(true, false, 0.0, 1.0)])

  /** The registry, indexed by feature type. */
  const FeatureDefs: seq<FeatureDesc> := [MicroFeatureDesc, PicoFeatDesc, OutlineFeatDesc, CharNormDesc]

  function NumFeaturesDefined(): nat { |FeatureDefs| }

  const MICRO_FEATURE_TYPE: nat := 0
  const PICO_FEATURE_TYPE: nat := 1
  const OUTLINE_FEATURE_TYPE: nat := 2
  const CHAR_NORM_FEATURE_TYPE: nat := 3

  function CountCircular(ps: seq<ParamDesc>): nat {
    if ps == [] then 0 else (if ps[0].circular then 1 else 0) + CountCircular(ps[1..])
  }

  /** Every registered type has as many parameters as linear plus circular ones,
      and exactly its number of circular ones is marked circular. */
  lemma RegistryConsistent()
    ensures NumFeaturesDefined() == 4
    ensures forall t :: 0 <= t < |FeatureDefs| ==>
      |FeatureDefs[t].params| == FeatureDefs[t].numLinear + FeatureDefs[t].numCircular
    ensures forall t :: 0 <= t < |FeatureDefs| ==>
      CountCircular(FeatureDefs[t].params) == FeatureDefs[t].numCircular
    ensures forall t :: 0 <= t < |FeatureDefs| ==>
      FeatureDefs[t].minFeaturesPerChar <= FeatureDefs[t].maxFeaturesPerChar
  {
  }

  /** The short names are pairwise distinct. */
  lemma ShortNamesDistinct()
    ensures forall t, u :: 0 <= t < u < |FeatureDefs| ==> FeatureDefs[t].shortName != FeatureDefs[u].shortName
  {
    assert FeatureDefs[0].shortName[0] == 'm';
    assert FeatureDefs[1].shortName[0] == 'p';
    assert FeatureDefs[2].shortName[0] == 'o';
    assert FeatureDefs[3].shortName[0] == 'c';
  }

  // ---------------------------------------------------------------------------
  // Lookup by short name

  datatype FeatError = IllegalShortName | IllegalNumSets | Truncated

  /** Search the registry from type `from` onwards. */
  function FindShortName(name: string, from: nat): (r: Result<nat, FeatError>)
    decreases |FeatureDefs| - from
    ensures r.Ok? ==> from <= r.value < |FeatureDefs| && FeatureDefs[r.value].shortName == name
    ensures r.Ok? ==> forall u :: from <= u < r.value ==> FeatureDefs[u].shortName != name
    ensures r.Err? ==> r.error == IllegalShortName
    ensures r.Err? <==> forall u :: from <= u < |FeatureDefs| ==> FeatureDefs[u].shortName != name
  {
    if from >= |FeatureDefs| then Err(IllegalShortName)
    else if FeatureDefs[from].shortName == name then Ok(from)
    else FindShortName(name, from + 1)
  }

  /** The feature type with the given short name, or the ILLEGAL_SHORT_NAME error. */
  function ShortNameToFeatureType(name: string): (r: Result<nat, FeatError>)
    ensures r.Ok? ==> r.value < NumFeaturesDefined() && FeatureDefs[r.value].shortName == name
    ensures r.Err? <==> forall u :: 0 <= u < |FeatureDefs| ==> FeatureDefs[u].shortName != name
    ensures r.Err? ==> r.error == IllegalShortName
  {
    FindShortName(name, 0)
  }

  /** Looking up a registered type's short name gives that type back. */
  lemma ShortNameRoundTrip(t: nat)
    requires t < NumFeaturesDefined()
    ensures ShortNameToFeatureType(FeatureDefs[t].shortName) == Ok(t)
  {
    ShortNamesDistinct();
    var r := ShortNameToFeatureType(FeatureDefs[t].shortName);
    assert r.Ok?;
  }

  // ---------------------------------------------------------------------------
  // Character descriptions

  /** One optional feature set per registered type; `None` is an empty slot. */
  type CharDesc<S> = seq<Option<S>>

  predicate WellSized<S>(d: CharDesc<S>) {
    |d| == NumFeaturesDefined()
  }

  function NewCharDescription<S>(): (d: CharDesc<S>)
    ensures WellSized(d)
    ensures forall t :: 0 <= t < |d| ==> d[t].None?
  {
    seq(NumFeaturesDefined(), _ => None)
  }

  /** Tokens of the textual form: a count, a short name, or one feature set. */
  datatype Token<S> = Count(n: int) | Name(name: string) | Set(features: S)

  /** Number of non-empty slots from type `t` onwards. */
  function CountFrom<S>(d: CharDesc<S>, t: nat): nat
    decreases |d| - t
  {
    if t >= |d| then 0 else (if d[t].Some? then 1 else 0) + CountFrom(d, t + 1)
  }

  /** The non-empty slots from type `t` onwards, each as a short name and its set. */
  function WriteSetsFrom<S>(d: CharDesc<S>, t: nat): (out: seq<Token<S>>)
    requires WellSized(d)
    decreases |d| - t
    ensures |out| == 2 * CountFrom(d, t)
  {
    if t >= |d| then []
    else if d[t].Some? then [Name(FeatureDefs[t].shortName), Set(d[t].value)] + WriteSetsFrom(d, t + 1)
    else WriteSetsFrom(d, t + 1)
  }

  /** `WriteCharDescription`: the count of non-empty sets, then the sets in type order. */
  function WriteCharDescription<S>(d: CharDesc<S>): (out: seq<Token<S>>)
    requires WellSized(d)
    ensures |out| == 1 + 2 * CountFrom(d, 0)
    ensures out[0] == Count(CountFrom(d, 0))
    ensures 0 <= CountFrom(d, 0) <= NumFeaturesDefined()
  {
    CountFromBound(d, 0);
    [Count(CountFrom(d, 0))] + WriteSetsFrom(d, 0)
  }

  lemma {:induction false} CountFromBound<S>(d: CharDesc<S>, t: nat)
    ensures CountFrom(d, t) <= |d| - t || (t >= |d| && CountFrom(d, t) == 0)
    decreases |d| - t
  {
    if t < |d| {
      CountFromBound(d, t + 1);
    }
  }

  /** Read `n` sets into `acc`, each named by its short name. */
  function ReadSets<S>(acc: CharDesc<S>, n: nat, tokens: seq<Token<S>>): (r: Result<CharDesc<S>, FeatError>)
    requires WellSized(acc)
    decreases n
    ensures r.Ok? ==> WellSized(r.value)
  {
    if n == 0 then Ok(acc)
    else if |tokens| < 2 || !tokens[0].Name? || !tokens[1].Set? then Err(Truncated)
    else
      match ShortNameToFeatureType(tokens[0].name)
      case Err(e) => Err(e)
      case Ok(t) => ReadSets(acc[t := Some(tokens[1].features)], n - 1, tokens[2..])
  }

  /** Short names present among the tokens. */
  predicate Named<S>(tokens: seq<Token<S>>, t: nat)
    requires t < NumFeaturesDefined()
  {
    exists k :: 0 <= k < |tokens| && tokens[k] == Name(FeatureDefs[t].shortName)
  }

  /** A slot filled by reading was empty before or is named among the tokens. */
  lemma {:induction false} ReadSetsOnlyFillsNamed<S>(acc: CharDesc<S>, n: nat, tokens: seq<Token<S>>, t: nat)
    requires WellSized(acc) && t < NumFeaturesDefined()
    requires ReadSets(acc, n, tokens).Ok?
    requires ReadSets(acc, n, tokens).value[t].Some?
    ensures acc[t].Some? || Named(tokens, t)
    decreases n
  {
    if n > 0 {
      var u := ShortNameToFeatureType(tokens[0].name).value;
      if u == t {
        assert tokens[0] == Name(FeatureDefs[t].shortName);
      } else {
        ReadSetsOnlyFillsNamed(acc[u := Some(tokens[1].features)], n - 1, tokens[2..], t);
        if Named(tokens[2..], t) {
          var k :| 0 <= k < |tokens[2..]| && tokens[2..][k] == Name(FeatureDefs[t].shortName);
          assert tokens[k + 2] == Name(FeatureDefs[t].shortName);
        }
      }
    }
  }

  /** `ReadCharDescription`: an unreadable, negative or too large count raises
      ILLEGAL_NUM_SETS; otherwise that many sets are read into a new description. */
  function ReadCharDescription<S>(tokens: seq<Token<S>>): (r: Result<CharDesc<S>, FeatError>)
    ensures (|tokens| == 0 || !tokens[0].Count? || tokens[0].n < 0 || tokens[0].n > NumFeaturesDefined())
      <==> r == Err(IllegalNumSets)
    ensures r.Ok? ==> WellSized(r.value)
    ensures r.Ok? ==> forall t :: 0 <= t < NumFeaturesDefined() && r.value[t].Some? ==> Named(tokens, t)
  {
    if |tokens| == 0 || !tokens[0].Count? || tokens[0].n < 0 || tokens[0].n > NumFeaturesDefined() then
      Err(IllegalNumSets)
    else
      var r := ReadSets(NewCharDescription(), tokens[0].n, tokens[1..]);
      ReadSetsNeverIllegalCount(NewCharDescription(), tokens[0].n, tokens[1..]);
      if r.Ok? then
        forall t | 0 <= t < NumFeaturesDefined() && r.value[t].Some? ensures Named(tokens, t) {
          ReadSetsOnlyFillsNamed(NewCharDescription(), tokens[0].n, tokens[1..], t);
          var k :| 0 <= k < |tokens[1..]| && tokens[1..][k] == Name(FeatureDefs[t].shortName);
          assert tokens[k + 1] == Name(FeatureDefs[t].shortName);
        }
        r
      else r
  }

  lemma {:induction false} ReadSetsNeverIllegalCount<S>(acc: CharDesc<S>, n: nat, tokens: seq<Token<S>>)
    requires WellSized(acc)
    ensures ReadSets(acc, n, tokens) != Err(IllegalNumSets)
    decreases n
  {
    if n > 0 && |tokens| >= 2 && tokens[0].Name? && tokens[1].Set? {
      var t := ShortNameToFeatureType(tokens[0].name);
      if t.Ok? {
        ReadSetsNeverIllegalCount(acc[t.value := Some(tokens[1].features)], n - 1, tokens[2..]);
      }
    }
  }

  /** A set under a registered short name lands in that type's slot. */
  lemma ReadNamedSet<S>(acc: CharDesc<S>, n: nat, t: nat, v: S, tail: seq<Token<S>>)
    requires WellSized(acc) && t < NumFeaturesDefined()
    ensures ReadSets(acc, n + 1, [Name(FeatureDefs[t].shortName), Set(v)] + tail)
      == ReadSets(acc[t := Some(v)], n, tail)
  {
    ShortNameRoundTrip(t);
    var tokens := [Name(FeatureDefs[t].shortName), Set(v)] + tail;
    assert tokens[2..] == tail;
  }

  lemma AppendAssoc<T>(a: seq<T>, b: seq<T>, c: seq<T>)
    ensures (a + b) + c == a + (b + c)
  {
  }

  /** Reading the set written for a non-empty slot `t` fills that slot and
      leaves the tokens written after it. */
  lemma ReadWrittenSet<S>(d: CharDesc<S>, acc: CharDesc<S>, t: nat, rest: seq<Token<S>>)
    requires WellSized(d) && WellSized(acc) && t < |d| && d[t].Some?
    ensures ReadSets(acc, CountFrom(d, t), WriteSetsFrom(d, t) + rest)
      == ReadSets(acc[t := d[t]], CountFrom(d, t + 1), WriteSetsFrom(d, t + 1) + rest)
  {
    var tail := WriteSetsFrom(d, t + 1) + rest;
    var head := [Name(FeatureDefs[t].shortName), Set(d[t].value)];
    assert WriteSetsFrom(d, t) == head + WriteSetsFrom(d, t + 1);
    AppendAssoc(head, WriteSetsFrom(d, t + 1), rest);
    ReadNamedSet(acc, CountFrom(d, t + 1), t, d[t].value, tail);
  }

  /** Reading back the sets written from type `t` onwards, into a description
      that already holds the slots before `t`, restores the whole description. */
  lemma {:induction false} ReadWriteSetsFrom<S>(d: CharDesc<S>, acc: CharDesc<S>, t: nat, rest: seq<Token<S>>)
    requires WellSized(d) && WellSized(acc) && t <= |d|
    requires forall u :: 0 <= u < t ==> acc[u] == d[u]
    requires forall u :: t <= u < |acc| ==> acc[u].None?
    ensures ReadSets(acc, CountFrom(d, t), WriteSetsFrom(d, t) + rest) == Ok(d)
    decreases |d| - t
  {
    if t == |d| {
      assert acc == d;
    } else if d[t].Some? {
      ReadWriteSetsFrom(d, acc[t := d[t]], t + 1, rest);
      ReadWrittenSet(d, acc, t, rest);
    } else {
      ReadWriteSetsFrom(d, acc, t + 1, rest);
    }
  }

  /** A written description reads back as the same description. */
  lemma WriteReadRoundTrip<S>(d: CharDesc<S>)
    requires WellSized(d)
    ensures ReadCharDescription(WriteCharDescription(d)) == Ok(d)
  {
    var tokens := WriteCharDescription(d);
    assert tokens[1..] == WriteSetsFrom(d, 0) + [];
    ReadWriteSetsFrom(d, NewCharDescription(), 0, []);
  }

  /** The empty description is written as a zero count alone. */
  lemma WriteEmpty<S>()
    ensures WriteCharDescription<S>(NewCharDescription()) == [Count(0)]
  {
    var d: CharDesc<S> := NewCharDescription();
    assert forall t: nat :: CountFrom(d, t) == 0 by {
      forall t: nat ensures CountFrom(d, t) == 0 { CountFromEmpty(d, t); }
    }
  }

  lemma {:induction false} CountFromEmpty<S>(d: CharDesc<S>, t: nat)
    requires forall u :: 0 <= u < |d| ==> d[u].None?
    ensures CountFrom(d, t) == 0
    decreases |d| - t
  {
    if t < |d| {
      CountFromEmpty(d, t + 1);
    }
  }
}
