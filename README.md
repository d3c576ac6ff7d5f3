# Drawable objects and their attribute values

This project models `DrawableObjectAndValues` from TextLayoutSampler. That is
the record an interactive canvas editor keeps for each visual element: a
drawable object, a fixed array of attribute values with one slot per attribute
kind, a label, cached geometry and a flag word whose one named bit tracks
selection. The model covers the multi-selection editing layer over a sequence
of these records:

- batch `Set` writes one text into one attribute slot of every selected object;
- batch `Update` refreshes exactly the selected objects;
- `GetStringValue` resolves what a shared property editor shows: the common
  value when the selected objects agree, the caller's default when they do not;
- the `Flags` type with its named bits and bitwise operators.

The header gives declarations and comments, not bodies. The model is therefore
built from the data layout and the comments' stated behaviour.

Files:

- `flags.dfy`, module `DrawableObjectFlags`: `Flags` as a 32-bit word, the
  constants `FlagsNone`, `FlagsSelected` and `FlagsInitialDefaults`, and the
  operators `|`, `&`, `~` and `^` that `DEFINE_ENUM_FLAG_OPERATORS` supplies.
- `drawable_objects.dfy`, module `DrawableObjects`:
  - the aggregate is a datatype. A C++ array of these structs holds distinct
    structs, so their attribute values, labels and flags never alias. Two
    copies may still share one drawable object through `ComPtr` (see
    "## Left out").
  - `values_` has the subset type `AttributeArray`, a sequence of exactly
    `AttributeTotal` slots. Every update is checked against that type, so no
    operation can change an object's slot count. The array's length is fixed,
    so no operation can change how many objects there are.
  - batch `Set` and batch `Update` are methods over an `array`. Each loops over
    the index list and is proved against a specification function
    (`SetSelected`, `UpdateSelected`) that follows the same visiting order.
  - `GetStringValue` is a function over the object sequence. It is read-only
    by construction.

Modelling choices:

- The data layout comes from `DrawableObjectAndValues.h:22-31`.
- An attribute value is its Unicode text (`std::u16string`, here
  `seq<char>`). The empty text stands for the unset value.
- Several fields are not interpreted: the shared drawable object, the label
  and object rectangles, the layout and content bounds, the transform and the
  origin. Together they are the type parameter `G` (field `derived`).
- Single-object `Update` recomputes that state from the record through a
  caller-supplied function `refresh`. `refresh` stands for the drawable
  object's own `Update`, whose code is not part of this model.
- `GetStringValue` resolves an empty selection to `defaultStringIfMixedValues`,
  the blank-when-mixed convention of a property panel. This is the model's own
  choice; the header does not say. Values are compared by exact equality of
  their text.
- The default constructor is modelled with every slot unset and the flags at
  `FlagsInitialDefaults`. The constructor's body is not in the header; the flag value
  is inferred from the constant's name.
- `AttributeTotal` stands for `DrawableObjectAttributeTotal`. The enumeration
  that defines it is not part of this model, and the model fixes it at 48. No
  proof depends on the value.
- All indices are in range and `attributeIndex < AttributeTotal`, as
  preconditions. The header does not say what happens otherwise.

## Model

| member | source | states |
|---|---|---|
| `DrawableObjectFlags.Or` | DrawableObjectAndValues.h:128 | the combined flag word holds every bit of both operands |
| `DrawableObjectFlags.And` | DrawableObjectAndValues.h:128 | the masked word holds only bits that both operands hold |
| `DrawableObjectFlags.Not` | DrawableObjectAndValues.h:128 | the complement shares no bit with its operand, and the two together cover all 32 bits |
| `DrawableObjectFlags.Xor` | DrawableObjectAndValues.h:128 | toggling the same bits twice restores the original word |
| `DrawableObjectFlags.OrIsLeast` | DrawableObjectAndValues.h:128 | any word holding both operands holds their combination (least upper bound) |
| `DrawableObjectFlags.AndIsGreatest` | DrawableObjectAndValues.h:128 | any word within both operands is within their intersection (greatest lower bound) |
| `DrawableObjectFlags.NamedFlags` | DrawableObjectAndValues.h:14-19 | FlagsInitialDefaults equals FlagsSelected, so a word at the initial defaults holds the selected flag, and FlagsNone holds no flag |
| `DrawableObjectFlags.OrCombines` | DrawableObjectAndValues.h:128 | combining a flag in sets it and keeps the flags already held; FlagsNone is the unit; combining is commutative and idempotent |
| `DrawableObjectFlags.ClearFlag` | DrawableObjectAndValues.h:128 | `f & ~flag` no longer holds `flag` and keeps every flag disjoint from it |
| `DrawableObjects.Default` | DrawableObjectAndValues.h:34 | a default-constructed object has every slot unset, an empty label and flags FlagsInitialDefaults, so it starts selected |
| `DrawableObjects.DrawableObjectAndValues.Set` | DrawableObjectAndValues.h:49 | single-object Set puts the text in the named slot; every other slot, the label, the flags and the cached state are unchanged |
| `DrawableObjects.DrawableObjectAndValues.Update` | DrawableObjectAndValues.h:53-56 | single-object Update replaces only the drawable and cached state, computed from the current record; values, label and flags are unchanged |
| `DrawableObjects.SetSelected` | DrawableObjectAndValues.h:77-83 | batch Set over the index list in order never changes the number of objects |
| `DrawableObjects.SetSelectedAt` | DrawableObjectAndValues.h:77-83 | after batch Set, an object named in the list equals itself with the slot set to the new text; any other object is unchanged; for the stored values, duplicates in the list do not matter |
| `DrawableObjects.Set` | DrawableObjectAndValues.h:77-83 | the array afterwards equals `SetSelected` of the old array: each listed object's slot holds newText; every other slot of every object is unchanged; unlisted objects are unchanged; label, flags and cached state are unchanged |
| `DrawableObjects.SetSelectedIdempotent` | DrawableObjectAndValues.h:77-83 | repeating batch Set with the same selection, slot and text leaves the stored values as they were |
| `DrawableObjects.UpdateSelected` | DrawableObjectAndValues.h:95-100 | batch Update keeps the object count, leaves every unlisted object unchanged, and never changes any object's values, label or flags |
| `DrawableObjects.UpdateSelectedAt` | DrawableObjectAndValues.h:95-100 | when single-object Update is idempotent, each listed object ends as exactly one Update of itself, however often it is listed |
| `DrawableObjects.UpdateSelectedDistinctAt` | DrawableObjectAndValues.h:95-100 | over a selection without repeated entries, each listed object ends as exactly one single-object Update of itself, and every other object is unchanged, with no assumption about the refresh |
| `DrawableObjects.UpdateSelectedTwice` | DrawableObjectAndValues.h:95-100 | when single-object Update is idempotent, repeating batch Update on the same selection changes nothing more |
| `DrawableObjects.Update` | DrawableObjectAndValues.h:95-100 | the array afterwards equals `UpdateSelected` of the old array: unlisted objects are unchanged and no object's attribute values change |
| `DrawableObjects.AllHold` | DrawableObjectAndValues.h:102-104 | the scan over the selection is true exactly when every selected object holds the given value in the slot |
| `DrawableObjects.GetStringValue` | DrawableObjectAndValues.h:102-110 | the result is the value of every selected object if they all agree, is defaultStringIfMixedValues if any two disagree, and is the default for an empty selection |
| `DrawableObjects.GetStringValueMixed` | DrawableObjectAndValues.h:102-110 | two selected objects with different slot values force the default |
| `DrawableObjects.GetStringValueNotDefault` | DrawableObjectAndValues.h:102-110 | a result other than the default means the selection is non-empty and consistent, and every selected object holds that result |
| `DrawableObjects.GetStringValueOrderIrrelevant` | DrawableObjectAndValues.h:102-110 | two index lists naming the same objects, in any order and with any repetition, resolve to the same value |
| `DrawableObjects.SetThenGetStringValue` | DrawableObjectAndValues.h:77-110 | after batch Set, the shared editor over any non-empty part of that selection shows the text just set |
| `DrawableObjects.UpdateKeepsStringValue` | DrawableObjectAndValues.h:95-110 | batch Update never changes what GetStringValue resolves for any selection |

## Left out

- `Arrange` and `Draw` (lines 72-75, 89-93) are left out. They are layout and
  rendering in floating-point Direct2D geometry through a canvas whose flow
  rule is not in the header.
- `IsPointInside` (line 61) is left out. It is a floating-point hit test
  against the cached object rectangle.
- `IsVisible` (line 47) and `Invalidate` (line 59) are left out. Their effects
  live in the uninterpreted drawable and cached state `G`, and the encoding of
  the visibility attribute is not in the header.
- `Load` and `Store` (lines 112-115, 122-125) are left out. They depend on the
  `TextTree` reader and writer and on a name-to-attribute table, none of which
  is part of this model.
- `Merge` (lines 117-120) is left out. The header gives no rule for combining
  the overriding object's values with the targets.
- `GetString`, `GetValueData` and `GetCookie` (lines 38-43) are left out. They
  depend on the internals of `AttributeValue` and `IAttributeSource` and on
  COM `HRESULT` conventions, none of which is in the header.
- The `uint32_t` overload of single-object `Set` (line 51) is left out. How a
  number is stored in a slot is not in the header.
- `ComPtr` sharing of the drawable object on copy (lines 22, 35) is left out.
  It is COM reference counting in a foreign library.
- `DrawableObjects.DrawableObjectAndValues.Set` does not model the `HRESULT`
  it returns. No failure condition is in the header; the model always stores the text.
- `DrawableObjects.Update` leaves the single-object refresh abstract (the
  `refresh` parameter). Lazy creation of the drawable object and the
  recomputation of bounds are not modelled.
- `DrawableObjects.SetSelectedAt` and `DrawableObjects.SetSelectedIdempotent`
  claim duplicate-insensitivity and idempotence for the stored values only. The
  per-attribute change cookie read by `GetCookie` (line 43) is not modelled. In
  the program, a duplicate index or a repeated batch Set may advance that
  counter again.
- `DrawableObjects.UpdateSelected` and `DrawableObjects.Update` promise that
  an unlisted entry is unchanged only for the entry's own fields. The
  defaulted copy constructor (line 35) shares one `ComPtr<DrawableObject>`
  (line 22) between copies, and single-object Update forwards to that shared
  drawable (lines 53-55). So updating entry i can change the drawable that an
  unlisted copy j holds. The model gives each entry its own `derived` state
  and does not capture this aliasing.
- Texts are assumed to contain no U+0000. Single-object Set and
  `GetStringValue` pass zero-terminated `char16_t` strings (lines 49, 105,
  109), so in the program a text ends at its first U+0000. The model stores
  and returns the whole Dafny string. Whether batch Set's `std::u16string`
  (line 82) is cut at an embedded U+0000 is not in the header.
- Attribute values are Dafny strings, which hold Unicode scalar values. A
  `std::u16string` holding a lone surrogate has no counterpart in the model.
- Attribute values are modelled as text, with no typed slots. The read-side
  `NotFound` and `TypeMismatch` errors therefore do not arise.
