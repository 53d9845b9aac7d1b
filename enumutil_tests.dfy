/**
 The `Example` fixture of the enumeration macros' tests: three variants
 `Foo`, `Bar`, `Baz` over the `u32` constants 0, 1 and 2, and one arm
 added under a build feature to show conditional compilation.
 */
module EnumUtilTests {
  import opened Wrappers
  import opened EnumUtil

  const FOO: int := 0
  const BAR: int := 1
  const BAZ: int := 2

  const ExampleArms: seq<Arm> := [Arm({}, FOO, "Foo"), Arm({}, BAR, "Bar"), Arm({}, BAZ, "Baz")]

  /** The table of `test_enum_from_raw`: each constant resolves to its
      variant and 10, which no arm declares, to `None`. */
  lemma EnumFromRaw()
    ensures FromRaw(ExampleArms, {}, FOO) == Some("Foo")
    ensures FromRaw(ExampleArms, {}, BAR) == Some("Bar")
    ensures FromRaw(ExampleArms, {}, BAZ) == Some("Baz")
    ensures FromRaw(ExampleArms, {}, 10) == None
  {
    FromRawDeclared(ExampleArms, {}, 2);
  }

  /** The table of `test_enum_to_raw`: each variant converts to its
      constant and renders as its lower-cased name. */
  lemma EnumToRaw()
    ensures Variants(ExampleArms, {}) == {"Foo", "Bar", "Baz"}
    ensures ToRaw(ExampleArms, {}, "Foo") == FOO && Display(ExampleArms, {}, "Foo") == "foo"
    ensures ToRaw(ExampleArms, {}, "Bar") == BAR && Display(ExampleArms, {}, "Bar") == "bar"
    ensures ToRaw(ExampleArms, {}, "Baz") == BAZ && Display(ExampleArms, {}, "Baz") == "baz"
  {
  }

  /** The fixture satisfies the `RawEnum` laws. */
  lemma ExampleIsRawEnum()
    ensures RawEnumLaws(ExampleArms, {})
  {
  }

  /** A `Qux` arm guarded by feature "v2": without the feature its constant
      is unknown and the variant does not exist; with it, both directions
      see it. */
  lemma GuardedArm()
    ensures var arms := ExampleArms + [Arm({"v2"}, 3, "Qux")];
            && FromRaw(arms, {}, 3) == None
            && "Qux" !in Variants(arms, {})
            && FromRaw(arms, {"v2"}, 3) == Some("Qux")
            && "Qux" in Variants(arms, {"v2"})
            && ToRaw(arms, {"v2"}, "Qux") == 3
  {
    FromRawFirstMatch(ExampleArms + [Arm({"v2"}, 3, "Qux")], {"v2"}, 3, 3);
  }
}
