# Table-driven enumeration mapping of the libvirt Rust binding

The binding turns the native library's integer enumeration constants into
Rust enums with the `impl_enum!` macro family (`src/enumutil.rs`). Each
enumeration has one declaration: a list of arms `RAW_CONSTANT => Variant`,
and an arm may carry conditional-compilation attributes. From that single
list the macros generate three `match` expressions:

- `Display`, which renders a variant as its identifier in lower case;
- `RawEnum::from_raw`, which is partial: it returns the first arm whose constant matches, and `_ => None` otherwise;
- `RawEnum::to_raw`, which is total: it returns the constant of the variant's arm.

All three come from one table, so the two conversion directions cannot drift
apart. This model states that as lemmas. The two conversions are mutually
inverse whenever the enabled arms have distinct constants and distinct
variants. The model also covers the three return-code classifiers and the
`c_ulong` widening of `src/util.rs`.

Files:

- `wrappers.dfy` holds `Option` and `Result`.
- `enumutil.dfy` (module `EnumUtil`) holds the following:
  - the declaration, as a sequence of `Arm(guard, raw, variant)`;
  - the generated functions `FromRaw`, `ToRaw` and `Display`;
  - the lemmas about those functions.
- `enumutil_tests.dfy` (module `EnumUtilTests`) holds the `Example` fixture of the source's tests.
- `util.dfy` (module `Util`) holds `CheckNull`, `CheckNeg`, `CheckZero` and `CULongToU64`.

Modelling choices:

- A variant is modelled by its identifier.
- The build configuration is the set of enabled features. An arm is kept when its guard (the features its `#[cfg]` demands) is a subset of that set.
- Each generated function re-tests the guard of every arm, just as each macro copies the arm's attributes onto its own match arm.
- `to_raw` and `Display` require a variant of the enum as built. That is the exhaustive `match` over the enum type.
- Raw constants are unbounded integers.
- The native library's last error, which the `check_*` macros read on failure, is a parameter.

The macros check neither distinct constants nor distinct variants. Rust reports a repeated pattern only as an unreachable arm, and the earlier arm wins. `FromRawFirstMatch` and `ToRawFirstMatch` state this first-arm rule in general. `DuplicateRawShadows` shows its effect for a repeated constant in a two-arm example. The round-trip lemmas take distinctness as a precondition.

## Model

| member | source | states |
|---|---|---|
| EnumUtil.FromRaw | src/enumutil.rs:43-56 | `from_raw` returns a variant only if some enabled arm pairs it with the given constant; it returns `None` exactly when no enabled arm carries the constant |
| EnumUtil.ToRaw | src/enumutil.rs:58-71 | `to_raw` is defined for every variant of the enum as built, and its result is the constant of an enabled arm naming that variant |
| EnumUtil.Display | src/enumutil.rs:28-41 | every variant renders as its own identifier lower-cased |
| EnumUtil.Lower | src/enumutil.rs:30 | lower-casing keeps the length and lower-cases each ASCII letter, leaving other characters alone |
| EnumUtil.LowerChar | src/enumutil.rs:30 | an upper-case ASCII letter moves to its lower-case letter; the result is never upper-case; other characters are unchanged |
| EnumUtil.FromRawFirstMatch | src/enumutil.rs:43-56 | arms are tried in declaration order: the first enabled arm with the constant decides, whatever later arms say |
| EnumUtil.ToRawFirstMatch | src/enumutil.rs:58-71 | arms are tried in declaration order: `to_raw` of a variant is the constant of the first enabled arm naming it, whatever later arms say |
| EnumUtil.FromRawDeclared | src/enumutil.rs:44-48 | with distinct constants, every enabled declared arm `raw => V` gives `from_raw(raw) == Some(V)` |
| EnumUtil.ToRawDeclared | src/enumutil.rs:59-66 | with distinct variants, every enabled declared arm `raw => V` gives `to_raw(V) == raw`, and `V` is a variant of the enum |
| EnumUtil.FromRawToRaw | src/enumutil.rs:14-23 | round trip for known values: `from_raw(to_raw(v)) == Some(v)` for every variant, given distinct constants |
| EnumUtil.ToRawFromRaw | src/enumutil.rs:43-66 | inverse direction: if `from_raw(r) == Some(v)` then `v` is a variant and `to_raw(v) == r`, given distinct variants |
| EnumUtil.GeneratedRawEnumLaws | src/enumutil.rs:1-26 | the generated `RawEnum` impl of a well-formed declaration satisfies both inverse laws for all variants and all raw values |
| EnumUtil.CfgFiltersAllThree | src/enumutil.rs:29-66 | an arm's conditional attribute keeps or drops it in all three matches together: enabled iff its variant exists, iff its constant resolves to it; when enabled, `to_raw` gives its constant |
| EnumUtil.DisplayIsLowerCase | src/enumutil.rs:28-41 | the rendering has the identifier's length, contains no upper-case letter, turns each upper-case ASCII letter into its lower-case letter and keeps every other character |
| EnumUtil.DuplicateRawShadows | src/enumutil.rs:43-56 | in a two-arm example sharing constant 0, the later variant's `to_raw` is 0 but `from_raw(0)` returns the earlier variant (the general rule is `FromRawFirstMatch`) |
| EnumUtilTests.EnumFromRaw | src/enumutil.rs:103-115 | in the fixture, 0, 1 and 2 resolve to `Foo`, `Bar`, `Baz`, and 10 resolves to `None` |
| EnumUtilTests.EnumToRaw | src/enumutil.rs:117-129 | in the fixture, the variants are exactly `Foo`, `Bar`, `Baz`, converting to 0, 1, 2 and rendering as "foo", "bar", "baz" |
| EnumUtilTests.ExampleIsRawEnum | src/enumutil.rs:93-101 | the fixture's declaration satisfies the `RawEnum` inverse laws |
| EnumUtilTests.GuardedArm | src/enumutil.rs:44-63 | a `Qux` arm added to the fixture under feature `v2` (not one of the source's test rows) is absent from `from_raw` and from the variants without the feature, and with it `from_raw` and `to_raw` both see it |
| Util.CULongToU64 | src/util.rs:1-9 | on every target the widening preserves the value, and the result fits in a `u64` |
| Util.CheckNull | src/util.rs:11-21 | `Err` with the last error exactly when the pointer is null; otherwise `Ok` with the same pointer |
| Util.CheckNeg | src/util.rs:23-33 | `Err` with the last error exactly when the value is -1; every other value, including other negatives, is `Ok` unchanged |
| Util.CheckZero | src/util.rs:35-45 | `Err` with the last error exactly when the value is 0; otherwise `Ok` with the same value |

## Left out

- Macro-expansion mechanics are not modelled: the `@acc` token accumulation, `stringify!` and the `Formatter` plumbing of `Display`. The model covers the resulting tables and functions. A formatter write error is not modelled.
- Declarations that Rust rejects at compile time are not modelled. Examples are a non-exhaustive `to_raw` match, or an arm naming a variant the enum lacks. `ToRaw` and `Display` instead require a variant of the table.
- Conditional attributes are modelled as a set of required features, all of which must be enabled. General `cfg(any(...))` or `cfg(not(...))` predicates are not modelled. Attributes that do not filter, such as doc comments, count as an empty guard.
- Raw constants are unbounded integers. The declared raw type (`u32`, `i32`, ...) only restricts which values a caller can pass, and it never changes the lookup.
- `Lower`: Unicode `to_lowercase` is modelled as ASCII lower-casing, because variant identifiers are ASCII.
- `Error::last_error()` is not modelled. It is a foreign call reading the native library's thread-local error state, so it becomes the `lastError` parameter of the checks.
- The per-resource wrappers are not modelled: storage volumes and pools, networks, node devices, secrets, interfaces and network filters. They only forward single native calls, with reference counting and C string and UUID marshalling, which cannot be stated without the native library.
- The FFI string conversions `c_chars_to_string!` and `some_string_to_cstring!` are not part of this model.
- Target selection is not modelled beyond the width of `c_ulong`. That width is 64 bits on 64-bit non-Windows targets and 32 bits elsewhere.
