/**
 The table-driven enumeration mapping of the binding.

 One `impl_enum!` declaration lists arms `RAW_CONSTANT => Variant`, each
 optionally preceded by attributes such as `#[cfg(feature = "...")]`. From
 that one list the macros generate three `match` expressions: `Display`
 (the variant's identifier in lower case), `from_raw` (first matching
 constant, else `None`) and `to_raw` (the variant's constant). Here a
 declaration is a sequence of `Arm`s, a variant is its identifier, and the
 build configuration is the set of enabled features; each generated
 function walks the arms in declaration order and, as each macro copies
 the arm's attributes onto its own match arm, skips an arm whose guard is
 not met.
 */
module EnumUtil {
  import opened Wrappers

  /** A Rust identifier, such as the name of an enum variant. */
  type Ident = string

  /** A build feature that a `#[cfg]` attribute can test. */
  type Feature = string

  /** One arm `raw => variant` of a declaration; `guard` holds the features
      its conditional attributes demand (empty for an unconditional arm). */
  datatype Arm = Arm(guard: set<Feature>, raw: int, variant: Ident)

  /** Whether conditional compilation keeps the arm under `features`. */
  predicate Enabled(a: Arm, features: set<Feature>)
  {
    a.guard <= features
  }

  /** The variants of the enum type built under `features`: `to_raw` and
      `Display` are matches over exactly these. */
  function Variants(arms: seq<Arm>, features: set<Feature>): set<Ident>
  {
    set a | a in arms && Enabled(a, features) :: a.variant
  }

  /** The native library's contract: the enabled arms have pairwise
      distinct raw constants. */
  predicate DistinctRaws(arms: seq<Arm>, features: set<Feature>)
  {
    forall i, j :: 0 <= i < j < |arms| && Enabled(arms[i], features) && Enabled(arms[j], features) ==>
      arms[i].raw != arms[j].raw
  }

  /** The enabled arms name pairwise distinct variants (one arm per variant). */
  predicate DistinctVariants(arms: seq<Arm>, features: set<Feature>)
  {
    forall i, j :: 0 <= i < j < |arms| && Enabled(arms[i], features) && Enabled(arms[j], features) ==>
      arms[i].variant != arms[j].variant
  }

  predicate WellFormed(arms: seq<Arm>, features: set<Feature>)
  {
    DistinctRaws(arms, features) && DistinctVariants(arms, features)
  }

  /** Lower-cases one ASCII letter; every other character is kept. */
  function LowerChar(c: char): (d: char)
    ensures !('A' <= d <= 'Z')
    ensures 'A' <= c <= 'Z' ==> d as int == c as int + 32
    ensures !('A' <= c <= 'Z') ==> d == c
  {
    if 'A' <= c <= 'Z' then (c as int + 32) as char else c
  }

  /** `to_lowercase` on an identifier, taken as ASCII. */
  function Lower(s: string): (r: string)
    ensures |r| == |s|
    ensures forall i :: 0 <= i < |s| ==> r[i] == LowerChar(s[i])
  {
    if s == [] then [] else [LowerChar(s[0])] + Lower(s[1..])
  }

  /** The generated `from_raw`: the arms are tried in declaration order and
      the first enabled arm whose constant equals `raw` gives its variant;
      when every arm fails the final `_ => None` applies. */
  function FromRaw(arms: seq<Arm>, features: set<Feature>, raw: int): (r: Option<Ident>)
    ensures r.Some? ==> exists i :: 0 <= i < |arms| && Enabled(arms[i], features) &&
                                    arms[i].raw == raw && arms[i].variant == r.value
    ensures r.None? <==> forall i :: 0 <= i < |arms| && Enabled(arms[i], features) ==> arms[i].raw != raw
  {
    if arms == [] then None
    else if Enabled(arms[0], features) && arms[0].raw == raw then Some(arms[0].variant)
    else
      FromRaw(arms[1..], features, raw)
  }

  /** The generated `to_raw`: total over the variants of the enum, it gives
      the constant of the first enabled arm naming `v`. */
  function ToRaw(arms: seq<Arm>, features: set<Feature>, v: Ident): (r: int)
    requires v in Variants(arms, features)
    ensures exists i :: 0 <= i < |arms| && Enabled(arms[i], features) &&
                        arms[i].variant == v && arms[i].raw == r
  {
    if Enabled(arms[0], features) && arms[0].variant == v then arms[0].raw
    else
      assert v in Variants(arms[1..], features) by {
        var a :| a in arms && Enabled(a, features) && a.variant == v;
        assert a in arms[1..];
      }
      ToRaw(arms[1..], features, v)
  }

  /** The generated `Display`: a variant renders as its own identifier in
      lower case. */
  function Display(arms: seq<Arm>, features: set<Feature>, v: Ident): (s: string)
    requires v in Variants(arms, features)
    ensures s == Lower(v)
  {
    if Enabled(arms[0], features) && arms[0].variant == v then Lower(arms[0].variant)
    else
      assert v in Variants(arms[1..], features) by {
        var a :| a in arms && Enabled(a, features) && a.variant == v;
        assert a in arms[1..];
      }
      Display(arms[1..], features, v)
  }

  /** `from_raw` returns the first enabled arm carrying `raw`, whatever
      the later arms hold. */
  lemma {:induction false} FromRawFirstMatch(arms: seq<Arm>, features: set<Feature>, raw: int, i: nat)
    requires i < |arms| && Enabled(arms[i], features) && arms[i].raw == raw
    requires forall j :: 0 <= j < i && Enabled(arms[j], features) ==> arms[j].raw != raw
    ensures FromRaw(arms, features, raw) == Some(arms[i].variant)
  {
    if i > 0 {
      FromRawFirstMatch(arms[1..], features, raw, i - 1);
    }
  }

  /** `to_raw` returns the constant of the first enabled arm naming `v`,
      whatever the later arms hold. */
  lemma {:induction false} ToRawFirstMatch(arms: seq<Arm>, features: set<Feature>, v: Ident, i: nat)
    requires i < |arms| && Enabled(arms[i], features) && arms[i].variant == v
    requires forall j :: 0 <= j < i && Enabled(arms[j], features) ==> arms[j].variant != v
    ensures v in Variants(arms, features)
    ensures ToRaw(arms, features, v) == arms[i].raw
  {
    assert arms[i] in arms;
    if i > 0 {
      ToRawFirstMatch(arms[1..], features, v, i - 1);
    }
  }

  /** Every declared arm that survives the build resolves: `from_raw` of
      its constant is its variant. */
  lemma FromRawDeclared(arms: seq<Arm>, features: set<Feature>, i: nat)
    requires DistinctRaws(arms, features)
    requires i < |arms| && Enabled(arms[i], features)
    ensures FromRaw(arms, features, arms[i].raw) == Some(arms[i].variant)
  {
  }

  /** `to_raw` of a declared variant is the constant of its arm. */
  lemma ToRawDeclared(arms: seq<Arm>, features: set<Feature>, i: nat)
    requires DistinctVariants(arms, features)
    requires i < |arms| && Enabled(arms[i], features)
    ensures arms[i].variant in Variants(arms, features)
    ensures ToRaw(arms, features, arms[i].variant) == arms[i].raw
  {
  }

  /** Round trip for the known values: `from_raw(v.to_raw()) == Some(v)`. */
  lemma FromRawToRaw(arms: seq<Arm>, features: set<Feature>, v: Ident)
    requires DistinctRaws(arms, features)
    requires v in Variants(arms, features)
    ensures FromRaw(arms, features, ToRaw(arms, features, v)) == Some(v)
  {
  }

  /** The other direction: a variant `from_raw` gives back converts to the
      very constant it came from. */
  lemma ToRawFromRaw(arms: seq<Arm>, features: set<Feature>, raw: int, v: Ident)
    requires DistinctVariants(arms, features)
    requires FromRaw(arms, features, raw) == Some(v)
    ensures v in Variants(arms, features)
    ensures ToRaw(arms, features, v) == raw
  {
  }

  /** The two generated conversions are mutually inverse on the declared
      table: the contract of the `RawEnum` trait. */
  ghost predicate RawEnumLaws(arms: seq<Arm>, features: set<Feature>)
  {
    && (forall v :: v in Variants(arms, features) ==> FromRaw(arms, features, ToRaw(arms, features, v)) == Some(v))
    && (forall raw, v :: FromRaw(arms, features, raw) == Some(v) ==>
          v in Variants(arms, features) && ToRaw(arms, features, v) == raw)
  }

  lemma GeneratedRawEnumLaws(arms: seq<Arm>, features: set<Feature>)
    requires WellFormed(arms, features)
    ensures RawEnumLaws(arms, features)
  {
  }

  /** A conditional attribute keeps or drops its arm in all three generated
      matches together: the variant exists (so `to_raw` and `Display` are
      defined on it) and its constant resolves exactly when the arm is
      enabled, and then `to_raw` gives that constant back. */
  lemma CfgFiltersAllThree(arms: seq<Arm>, features: set<Feature>, i: nat)
    requires WellFormed(arms, features)
    requires i < |arms|
    requires forall j :: 0 <= j < |arms| && j != i ==> arms[j].variant != arms[i].variant
    ensures Enabled(arms[i], features) <==> arms[i].variant in Variants(arms, features)
    ensures Enabled(arms[i], features) <==> FromRaw(arms, features, arms[i].raw) == Some(arms[i].variant)
    ensures Enabled(arms[i], features) ==> ToRaw(arms, features, arms[i].variant) == arms[i].raw
  {
  }

  /** The rendering contains no upper-case letter and differs from the
      identifier only in the case of its letters. */
  lemma DisplayIsLowerCase(arms: seq<Arm>, features: set<Feature>, v: Ident)
    requires v in Variants(arms, features)
    ensures |Display(arms, features, v)| == |v|
    ensures forall k :: 0 <= k < |v| ==>
              var c := Display(arms, features, v)[k];
              && !('A' <= c <= 'Z')
              && ('A' <= v[k] <= 'Z' ==> c as int == v[k] as int + 32)
              && (!('A' <= v[k] <= 'Z') ==> c == v[k])
  {
  }

  /** Without distinct constants the tie-break is observable: the later of
      two arms sharing a constant is shadowed and its round trip fails. */
  lemma DuplicateRawShadows()
    ensures var arms := [Arm({}, 0, "Old"), Arm({}, 0, "New")];
            ToRaw(arms, {}, "New") == 0 && FromRaw(arms, {}, 0) == Some("Old")
  {
  }
}
