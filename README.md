# get_module: resolving an index path in a module tree

This project models `get_module` from `fast_impl/core.py`. The function takes
the root of a tree of neural-network modules and an index path, and returns
the sub-module found at that path. The root is either a built module or an
architecture factory: a plain function or a `functools.partial`, which is
called with `False` (no pretrained weights) to build the module. The path is
either one integer or a list whose elements are themselves paths.

- An integer is checked against the number of children by an assertion. If
  the check passes, the integer selects a child in declaration order.
- A list resolves its head first, then resolves the rest of the list against
  the result. A one-element list is its only element.

The project also models the label that `arch_summary` prints in front of each
child (line 31 of `fast_impl/core.py`).

Files:

- `core.dfy`, module `Core`. It holds the tree (`Module`), the two kinds of
  root (`Root`: `Built` or `Factory`), nested index paths (`Index`), the
  failures (`Failure`), `GetModule` itself, a flat reference walk (`Walk`)
  and the lemmas that relate them.
- `summary.dfy`, module `Summary`. It holds the label rule (`Label`), Python's
  `<` padding (`PadRight`), decimal rendering (`Decimal`) and the lemma that
  a label identifies its child.

How the code's behaviour is rendered:

- Negative integers follow Python. The assertion only checks `i < len`, so an
  `i` with `-len <= i < 0` passes and selects the child `len + i`, counting
  from the end. An `i < -len` passes the assertion too, and the list
  indexing then raises Python's own `IndexError`. These are two different
  failures, `OutOfBounds(i)` and `ListIndexError`. Only the assertion's
  message names `i`; the list's error says only that the index is out of
  range, so `ListIndexError` carries no index.
- An empty list fails with `EmptyPath`, because `i[0]` raises on it. This is
  modelled as a failure rather than forbidden by a precondition.
- Lists may be nested, as in `[[2], 1]`, because the head is resolved by
  `get_module` itself. `FlattenAgrees` shows that nesting does not matter
  when no list is empty.
- The factory test `_is_fn` is the `Built`/`Factory` variant of `Root`. A
  factory is a total function `bool -> Module`, and it is applied to `false`.
- A sub-module is returned as a value. "The same reference as the parent
  holds" becomes equality with the child value.

## Model

| member | source | states |
|---|---|---|
| `Core.Child` | fast_impl/core.py:20-21 | An integer succeeds exactly when Python's list accepts it (`-len <= i < len`), giving the child at the position Python selects. Otherwise it fails the assertion when `i >= len`, or with the list's own error below `-len`. |
| `Core.GetModule` | fast_impl/core.py:13-21 | A successful resolution met no empty list anywhere in the path. A failure of the bounds assertion names one of the path's integers. |
| `Core.ScalarInRange` | fast_impl/core.py:20-21 | An integer `0 <= i < len(children)` returns exactly the `i`-th child in declaration order. |
| `Core.ScalarOutOfBounds` | fast_impl/core.py:20 | An integer `i >= len(children)` fails the assertion, with a failure naming `i`. No module is returned. |
| `Core.NegativeCountsFromEnd` | fast_impl/core.py:20-21 | An integer with `-len <= i < 0` passes the assertion. It succeeds and resolves as `len + i` does. |
| `Core.NegativeOutOfRange` | fast_impl/core.py:21 | An integer `i < -len` passes the assertion and fails with the list's own IndexError, which does not name `i`. |
| `Core.FactoryAsBuilt` | fast_impl/core.py:10-15 | A factory root resolves every path exactly as the module the factory builds when called with `False`. `Materialize` is the `_is_fn` dispatch of line 15; this lemma states its effect on every resolution. |
| `Core.SingletonPath` | fast_impl/core.py:16-18 | A one-element list gives the same result or the same failure as its element. |
| `Core.HeadThenTail` | fast_impl/core.py:16-19 | `[x] + rest` with a non-empty `rest` resolves `x`, then resolves `rest` against the result. If `x` fails, the whole path fails with that failure. |
| `Core.PathAppend` | fast_impl/core.py:16-19 | A list split anywhere into two non-empty parts resolves as the first part, then the second part against its result. |
| `Core.WalkAppend` | fast_impl/core.py:17-21 | The flat reference walk over `a + b` is the walk over `a`, continued with `b`. |
| `Core.FlattenAgrees` | fast_impl/core.py:13-21 | On a path with no empty list, `get_module` equals the flat walk over the path's integers read left to right. |
| `Core.WalkSucceedsIff` | fast_impl/core.py:17-21 | A walk succeeds if and only if every integer is accepted by the node the integers before it reach. |
| `Core.PrefixAccepted` | fast_impl/core.py:17-21 | When the first `j` integers resolve, each of them was accepted by the node reached before it. |
| `Core.WalkFailsAtFirstBad` | fast_impl/core.py:17-21 | A failing walk fails at the first rejected integer: every integer before it was accepted, it is rejected by the node reached so far, and the failure is the one the code raises for it (the assertion's, naming it, or the list's). |
| `Core.WalkDepth` | fast_impl/core.py:16-21 | A successful walk over `k` integers ends exactly `k` levels below its start. |
| `Core.GetModuleSucceedsIff` | fast_impl/core.py:16-21 | A path with no empty list resolves if and only if each of its integers is in range at its depth. |
| `Core.GetModuleDepth` | fast_impl/core.py:16-21 | A successful resolution returns a module exactly as many levels below the root as the path has integers. |
| `Core.GetModuleFailsAtFirstBad` | fast_impl/core.py:16-21 | A failing path with no empty list fails at the first integer, scanning left to right, that is out of range at its depth: every earlier integer was accepted. The failure is the assertion's, naming that integer, or the list's own error. |
| `Core.SampleResolutions` | fast_impl/core.py:13-21 | Worked cases on children `[A, B, D]` with `D = [X, Y]`: `2` gives `D`, `[2, 1]` and `[[2], 1]` give `Y`, `3` fails naming 3, `-1` gives `D`, `-4` fails in the list, `[]` fails. |
| `Summary.PadRight` | fast_impl/core.py:31 | `f'{s:<w}'` keeps `s` at the front and fills with spaces up to width `w`; it never truncates. |
| `Summary.Decimal` | fast_impl/core.py:31 | `str(i)` is a non-empty string of decimal digits with no leading zero (unless it is `0`). |
| `Summary.DecimalRoundTrip` | fast_impl/core.py:31 | Reading the rendered digits back gives the position. |
| `Summary.Label` | fast_impl/core.py:31 | A label starts with `[` and is at least four characters long. It ends in `]` exactly when the child's name is a number. |
| `Summary.LabelOfNumericName` | fast_impl/core.py:31 | A numeric child name is labelled `[name]`, with the name padded to two characters. |
| `Summary.LabelOfOtherName` | fast_impl/core.py:31 | Any other name is labelled with the bracketed position padded to two, then `(name)` padded to ten, followed only by spaces. |
| `Summary.LabelIdentifiesChild` | fast_impl/core.py:31 | Equal labels come from equal names. For a non-numeric name they also come from the same position. |

## Left out

- The `o[i] if is_listy(o)` branch of line 21 is not modelled. Indexing always goes through the list of children, which line 20 has already built.
- The failures `EmptyPath` and `ListIndexError` are finer than what the code reports. Python raises the same `IndexError` ("list index out of range") for an empty list (`i[0]`, line 17) and for an integer below `-len` (line 21); the model keeps the two causes apart.
- Resolution is not modelled with `python -O`, which strips the assertion on line 20. Under it, `i >= len` would fail in the list indexing instead.
- Indices other than integers and lists are not modelled: slices, booleans, generators and other `is_listy` kinds. A tuple or `L` behaves as a list and is covered by `Path`.
- The factory's own work (building and allocating the module) is not modelled. A factory is the module it returns for `False`.
- Object identity is not modelled. The result is a module value equal to the child.
- Purity has no lemma. `GetModule` is a function of immutable values, so it cannot change its input, and equal arguments give equal results.
- `arch_summary`'s printing (lines 29-36) is not modelled: the layer count, which depends on fastai's `flatten_model` and on `_is_sequential`, and the verbose listing of grandchildren. It writes to standard output and calls code that is not part of this model. Only the label rule of line 31 is modelled. Lines 26-28 of `arch_summary` resolve the summarised module with the factory test and `get_module`, which `GetModule` covers.
- `Summary.IsDigits` uses ASCII digits. Python's `str.isdigit` also accepts other Unicode digits, such as superscripts.
- `min_max_scale` and `norm` (lines 39-45) are not modelled. They are floating-point tensor arithmetic.
- `fast_impl/transforms.py` is not part of this model. It holds floating-point tensor transforms built on fastai and kornia.
