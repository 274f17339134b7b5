# HoloPy utility helpers in Dafny

This project models the small container and coordinate helpers of HoloPy's
`holopy/core/tools/utilities.py`, the utility layer the hologram and Mie
scattering code uses to normalise its arguments:

- the scalar-versus-sequence coercions `_ensure_array`, `ensure_listlike` and
  `_ensure_pair`;
- `ensure_3d`, which turns a 2- or 3-element coordinate into a 3-element one;
- `dict_without` and `updated`, the non-mutating "remove these keys" and
  "overlay the non-None values" operations on dictionaries;
- the index selection inside `squeeze`: which dimensions are kept, and the
  spacing restricted to them.

Module `PyValues` (`py_values.dfy`) holds the Python-side values: `Option` for
values that may be None, `Result` for a return value or the exception raised
instead, `ScalarOrSeq` for an argument that is None, a scalar or a sequence,
`NdArray` for what `np.array` builds from it, and `Error` for the exceptions.
Module `Utilities` (`utilities.dfy`) holds the helpers.

The coercions, `ensure_3d` and the `keep` list comprehension are pure code, so
they are functions. `dict_without` and `updated` copy a dictionary and change
the copy in a loop, so they are methods with `while` loops. Each such method is
proved against a function on maps: `Without` for `dict_without`, and `Overlay`
applied twice for `updated`. Dictionaries are Dafny `map` values, so the
caller's dictionary can never be changed by either method. This is the same
promise the source keeps by calling `copy` first.

Where the code and its documentation differ, the model follows the code:

- `updated` takes a `filter_none` parameter but never reads it. None values are
  skipped whatever it is set to. `Updated` has the parameter, and its result
  does not depend on it.
- `ensure_3d` raises a plain `Exception` whose message keeps its `{0}`
  placeholder, because `.format` is never called. `CoordinateMessage` holds that
  literal text.
- `dict_without(d, None)` raises. `_ensure_array(None)` is `np.array(None)`, a
  zero-dimensional array, and iterating over it raises numpy's TypeError.
  `DictWithout` returns `Failure(ZeroDimIteration)` in that case.

## Model

| member | source | states |
|---|---|---|
| Utilities.EnsureArray | holopy/core/tools/utilities.py:33-37 | on the modelled inputs (None, `np.isscalar` scalars, and lists, tuples or 1-D arrays), a scalar becomes a one-element array, a list, tuple or array keeps its entries, and None gives the zero-dimensional array |
| Utilities.EnsureListlike | holopy/core/tools/utilities.py:39-46 | None gives the empty list, a list, tuple or 1-D array is returned unchanged, and a scalar is wrapped as a one-element list |
| Utilities.EnsurePair | holopy/core/tools/utilities.py:48-55 | the result is None exactly for None; otherwise it has at least two entries; a sequence with an entry at index 1 is returned as is, and any other input x becomes [x, x] |
| Utilities.EnsureArrayMatchesListlike | holopy/core/tools/utilities.py:33-46 | on scalars and on lists, tuples or 1-D arrays, `_ensure_array` and `ensure_listlike` give the same entries; on None the list is empty and the array cannot be iterated |
| Utilities.EnsureListlikeIdempotent | holopy/core/tools/utilities.py:39-46 | applying `ensure_listlike` to its own result changes nothing |
| Utilities.EnsurePairIdempotent | holopy/core/tools/utilities.py:48-55 | `_ensure_pair` applied to one of its own results returns that result's entries as they are, because every result has an entry at index 1 |
| Utilities.Ensure3d | holopy/core/tools/utilities.py:73-78 | succeeds exactly when the length is 2 or 3, and otherwise fails with the coordinate error; a result always has 3 elements, starting with the input; a 2-element input gets z = 0 |
| Utilities.Ensure3dIdempotent | holopy/core/tools/utilities.py:73-78 | applying `ensure_3d` to a coordinate it has already returned gives the same coordinate |
| Utilities.DictWithout | holopy/core/tools/utilities.py:120-144 | among None, a scalar key and a list, tuple or 1-D array of keys, fails only for None; otherwise the result is `Without(d, keys)`: it holds exactly the keys of d that are not listed, each with its value from d; listed keys absent from d raise nothing; a single scalar key counts as a one-key list |
| Utilities.WithoutStep | holopy/core/tools/utilities.py:140-143 | deleting one more key adds one more removal, and a key already gone leaves the dictionary as it is (the ignored KeyError) |
| Utilities.WithoutIgnoresAbsent | holopy/core/tools/utilities.py:124-126 | listing a key that d does not hold changes nothing |
| Utilities.WithoutIdempotent | holopy/core/tools/utilities.py:138-144 | removing the same keys twice gives the same result as removing them once |
| Utilities.WithoutDependsOnKeySet | holopy/core/tools/utilities.py:139-143 | the result depends only on which keys are listed, not on their order or on repeats |
| Utilities.Updated | holopy/core/tools/utilities.py:161-180 | the result is d overlaid with update, then with kwargs. Every key given a non-None value in kwargs maps to that value. A key given a non-None value only in update maps to that value. Any other key keeps its value from d, or stays absent. None values are never written, whatever filterNone says |
| Utilities.OverlayStep | holopy/core/tools/utilities.py:176-178 | one more item of the loop writes its key when the value is not None and changes nothing otherwise, whatever order the items come in |
| Utilities.OverlayIdempotent | holopy/core/tools/utilities.py:175-180 | overlaying the same dictionary twice gives the same result as once |
| Utilities.OverlayOfNones | holopy/core/tools/utilities.py:176-178 | an update whose values are all None leaves d unchanged |
| Utilities.Keep | holopy/core/tools/utilities.py:188 | `keep` lists exactly the indices of the dimensions not equal to 1, in strictly increasing order |
| Utilities.SqueezedShape | holopy/core/tools/utilities.py:183-193 | the squeezed shape has one dimension per kept index; that dimension is the original one at that index, and none of them is 1 |
| Utilities.Take | holopy/core/tools/utilities.py:192 | `np.take` succeeds exactly when every index is within the spacing; it then returns one entry per index, each the spacing entry at that index |
| Utilities.SqueezeSpacing | holopy/core/tools/utilities.py:189-192 | no spacing gives no spacing. With a spacing, the call fails, with the IndexError of `np.take`, exactly when some dimension not equal to 1 has no spacing entry. Otherwise the new spacing has one entry per kept dimension, each the old entry at that dimension |
| Utilities.KeepAll | holopy/core/tools/utilities.py:188 | when no dimension is 1, every index is kept, in order |
| Utilities.SqueezeIdempotent | holopy/core/tools/utilities.py:183-194 | squeezing an already squeezed array keeps both its shape and its spacing |

## Left out

- `mkdir_p`: it creates directories on the filesystem.
- `coord_grid`: it is a thin wrapper over `np.mgrid`, whose spacing may be a float or, as a complex number, a point count.
- `arr_like`, `copy_metadata`, `get_values`, `flat`, `from_flat`: they move xarray metadata around, chosen by `hasattr` tests and library `stack`, `unstack` and `rename` calls.
- `squeeze`: the `np.squeeze` call and the `arr_like` wrapping of its result are library code. Only the `keep` selection and the new spacing are modelled. `SqueezedShape` gives the shape that call leaves.
- `squeeze`: a missing `spacing` attribute and a `spacing` of None are both modelled as `None`. A scalar spacing is not modelled.
- `make_subset_data`: it draws a random sample with `np.random.choice`.
- `is_none`: it is a type test. The model uses `Option` instead.
- Coercions: Python strings are iterable and indexable, yet `np.isscalar` counts them as scalars. The scalar type of `ScalarOrSeq` is taken to be neither iterable nor indexable, so `ensure_listlike` and `_ensure_pair` applied to strings are not modelled.
- Coercions: sets, dicts, dict views (such as `d.keys()`) and generators are not modelled. `np.isscalar` is False for them, and `np.array` wraps each in a zero-dimensional object array. So `_ensure_array` gives that 0-d array, and `dict_without(d, {'a', 'b'})` or `dict_without(d, other.keys())` raises the same TypeError at line 139 as None does. `ensure_listlike` returns these inputs unchanged, because `iter` succeeds on them.
- Coercions: sequences are modelled one level deep. `np.array` of nested or mixed-type lists is not modelled. For example, `np.array([1, 'a'])` turns the number into a string.
- `DictWithout`: the keys are one Dafny type. numpy's conversion of a mixed list of keys to a common type is not modelled (see the previous line).
- `Ensure3d`: coordinates are sequences of reals. `np.append` on an integer coordinate keeps an integer dtype, and that is not modelled. A scalar argument, on which `len` raises TypeError, is not modelled either.
- `Updated`: Python iterates a dictionary in insertion order. The model's loops take the keys in any order, and the proof shows the result does not depend on that order. Python keyword-argument keys are strings; the model lets them have the same type as the keys of `update`.
- The Mie scattering engine, the reconstruction routines and their tests are not part of this model. They compute floating-point fields and holograms from numerical libraries.
