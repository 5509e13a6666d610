# PySerials `NestedDict` in Dafny

A model of `NestedDict`, the dotted-path accessor of PySerials
(`src/pyserials/nested_dict.py`). The object holds one root value, a mapping
unless `fill("")` replaced it. Each accessor turns its key into a list of keys
with `key.split(".")` and walks the tree one key at a time:

- `d[key]` reads a path. It gives `None` when a mapping on the way lacks the key. It raises `KeyError` when the walk has to go on from a value that is not a mapping.
- `d.get(key, default)` reads a path and gives `default` on any failure.
- `key in d` tests whether a path exists and never raises.
- `d[key] = v` writes a path and inserts `{}` for every absent intermediate key.
- `d.setdefault(key, v)` stores `v` only if the last key is absent, and returns the stored value.
- `d.update(other)` merges at the top level.
- `bool(d)` is the truthiness of the root.
- `d.fill(path)` passes the value at a path through the template filler and writes the result back.

Files:

- `paths.dfy` (module `Paths`): `Split` is `str.split(".")`, keeping empty segments (`"a..b"` gives `["a", "", "b"]`). `Join` is its inverse.
- `tree.dfy` (module `Tree`): `Node` is a Python value: a mapping, a list, a string, an int, a bool or `None`. `Walk` is the shared walk. `Get`, `Contains`, `GetItem`, `Put`, `SetDefault` and `Merge` state what each accessor computes.
- `tree_facts.dfy` (module `TreeFacts`): the properties of those functions. They cover agreement between `get`, `in` and `d[key]`, read-after-write, the frame of a write, "last write wins", and what `setdefault` returns and changes.
- `nested_dict.dfy` (module `NestedDicts`): class `NestedDict` with a `root` field. Its methods run the source's loops and are proved against the functions of `Tree`.

Nested mappings are values. The source changes a nested `dict` in place. Here `Descend` follows the keys down and records the mappings it passes, inserting `{}` where a key is absent. `Rebuild` then stores the value and rebuilds those mappings on the way back up. The result is proved equal to `Put`.

The error cases follow Python's behaviour for string keys:

- A write that meets a string, list or scalar before the last key raises `TypeError`. This applies to both `d[key] = v` and `setdefault`, whether the failure comes from `k not in data`, `data[k]` or `data[k] = {}`.
- `d[key] = v` raises `TypeError` when the last container is not a mapping.
- `setdefault` raises `AttributeError` when the last container is not a mapping.
- `update` on a root that is not a mapping raises `AttributeError`.

None of these failures changes anything. A `{}` inserted at some level makes every later level a mapping, so a write fails only on a path that already existed up to the failing point. Lemma `PutFailsIffNotMapping` states this: a write fails exactly when a read of the same path would meet a non-mapping. Existing intermediates therefore do not have to be mappings; that case is modelled as an error instead.

## Model

| member | source | states |
|---|---|---|
| Paths.Split | src/pyserials/nested_dict.py:42 | the key list is never empty, no key contains ".", and joining the keys with "." gives back the dotted path |
| Paths.SplitJoin | src/pyserials/nested_dict.py:57 | splitting a path joined from dot-free keys gives back exactly those keys, so a dotted path names one key list |
| Paths.SplitKeepsEmptySegments | src/pyserials/nested_dict.py:67 | `"a..b"` splits into `"a"`, `""`, `"b"`, and `""` into the single key `""` |
| Tree.Walk | src/pyserials/nested_dict.py:44-49 | a walk stopped by a non-mapping reports how many keys (at least one, at most all) were still to be followed |
| Tree.Put | src/pyserials/nested_dict.py:56-63 | a successful write leaves a mapping at the root; its only failure is `TypeError` |
| Tree.SetDefault | src/pyserials/nested_dict.py:78-85 | a successful setdefault leaves a mapping at the root; it never fails with `KeyError` |
| Tree.Merge | src/pyserials/nested_dict.py:105-107 | the merged keys are the union; keys of `other` take `other`'s values; the other keys keep their own |
| TreeFacts.WalkAppend | src/pyserials/nested_dict.py:44-49 | walking a path is walking a prefix of it and then the rest from where the prefix led |
| TreeFacts.ContainsIffEveryStep | src/pyserials/nested_dict.py:66-73 | `key in d` holds exactly when every step of the walk meets a mapping that holds the next key |
| TreeFacts.FailedStep | src/pyserials/nested_dict.py:87-94 | when some step meets a non-mapping or a missing key, `get` returns its default and `in` is false; `d[key]` raises `KeyError` for the non-mapping and gives `None` for the missing key |
| TreeFacts.FoundOccurs | src/pyserials/nested_dict.py:90-94 | whatever `get` finds lies inside the root tree |
| TreeFacts.ContainsIffGetNotSentinel | src/pyserials/nested_dict.py:66-73 | `key in d` holds exactly when `d.get(key, sentinel)` is not the sentinel, for any sentinel that does not occur in the tree |
| TreeFacts.GetItemAgreesWithGet | src/pyserials/nested_dict.py:44-49 | `d[key]` raises exactly when the walk meets a non-mapping, and it raises `KeyError`; otherwise it equals `d.get(key)` with default `None` |
| TreeFacts.PutFailsIffNotMapping | src/pyserials/nested_dict.py:59-63 | `d[key] = v` fails exactly when reading the same path would meet a non-mapping |
| TreeFacts.ReadAfterPut | src/pyserials/nested_dict.py:56-63 | after a successful `d[key] = v` the path holds `v`, and every proper prefix of it holds a mapping, including prefixes that were missing |
| TreeFacts.PutFrame | src/pyserials/nested_dict.py:59-63 | `d[p] = v` leaves the walk along `q` exactly as it was whenever neither of `p`, `q` is a prefix of the other |
| TreeFacts.PutTwice | src/pyserials/nested_dict.py:63 | writing `w` over a freshly written `v` on the same path gives the same tree as writing `w` alone |
| TreeFacts.SetDefaultFound | src/pyserials/nested_dict.py:78-85 | on an existing path setdefault returns the stored value and leaves the tree unchanged |
| TreeFacts.SetDefaultMissing | src/pyserials/nested_dict.py:78-85 | on a path whose walk stops at a missing key, setdefault writes like `d[key] = v` and returns `v` |
| TreeFacts.SetDefaultNotMapping | src/pyserials/nested_dict.py:81-85 | setdefault raises `AttributeError` if the last container is not a mapping and `TypeError` if an earlier one is not |
| TreeFacts.SetDefaultTwice | src/pyserials/nested_dict.py:78-85 | a second setdefault on the same path returns the first call's value and changes nothing, whatever its default |
| TreeFacts.MergeWalk | src/pyserials/nested_dict.py:105-107 | after `update(other)`, a path whose first key is in `other` reads inside `other`'s value; every other path reads as before |
| NestedDicts.Descend | src/pyserials/nested_dict.py:59-62 | the descent stops early only at a non-mapping; unless it inserted `{}`, the rest of the walk continues from where it stopped; if it inserted `{}`, it stands at the empty mapping and the walk ends at a missing key |
| NestedDicts.Rebuild | src/pyserials/nested_dict.py:61-63 | storing the value in the mapping the descent reached and rebuilding the recorded mappings gives the tree `Put` describes |
| NestedDicts.NestedDict.constructor | src/pyserials/nested_dict.py:6-7 | the root is the given mapping, or an empty mapping for `None` |
| NestedDicts.NestedDict.GetItem | src/pyserials/nested_dict.py:41-54 | the loop returns `Tree.GetItem` of the root and the split key |
| NestedDicts.NestedDict.Get | src/pyserials/nested_dict.py:87-94 | the loop returns `Tree.Get` of the root, the split key and the default |
| NestedDicts.NestedDict.Contains | src/pyserials/nested_dict.py:66-73 | the loop returns `Tree.Contains` of the root and the split key |
| NestedDicts.NestedDict.IsTruthy | src/pyserials/nested_dict.py:75-76 | the result is the root's truthiness; for a mapping root it is false exactly when the mapping is empty |
| NestedDicts.NestedDict.SetItem | src/pyserials/nested_dict.py:56-64 | the new root is `Put`'s result and the path then reads `value`; on `TypeError` the root is unchanged |
| NestedDicts.NestedDict.SetDefault | src/pyserials/nested_dict.py:78-85 | the result and new root are `Tree.SetDefault`'s; on an existing path the stored value is returned and the root is unchanged |
| NestedDicts.NestedDict.Update | src/pyserials/nested_dict.py:105-107 | a mapping root becomes its merge with `other`; any other root raises `AttributeError` and stays as it was |
| NestedDicts.NestedDict.Fill | src/pyserials/nested_dict.py:15-27 | a falsy value at the path gives `None` and changes nothing; a `KeyError` from reading the path propagates; otherwise the filler's result replaces the root (empty path) or is written at the path, is returned, and reads back at the path |

## Left out

- The template filler (`TemplateFiller`, reached through `fill_data`) is not part of this model; `Fill` takes it as a total function parameter. Errors raised by the filler, and its markers and prefix, are not modelled. The model also assumes the filler does not change the live root it is handed as `source_data` (nor the subtree it fills): `Fill` writes the result back into the root as it was before the call, which is what makes that write-back certain to succeed.
- Aliasing: the root is a value. A `dict` passed to the constructor is shared with the caller in Python, and a nested `dict` can appear at two places in the tree. Writes through one reference that show up through another are not captured.
- In-place update order: a nested write is modelled as a descent that records the mappings, followed by a rebuild. The final tree is the same.
- Python values other than mappings with string keys, lists, strings, ints, bools and `None` (floats, non-string keys, `dict` subclasses) are not modelled; so neither is the truthiness of a float.
- Key order: the model's mappings are unordered Dafny maps, while Python dicts keep insertion order. The order in which `d[key] = v`, the `{}` inserts on the way down and `setdefault` append new keys, and the order in which `update` keeps existing keys and appends `other`'s new ones, is not captured.
- `__call__`, `items`, `keys` and `values` hand out the root or ordered views of it; beyond the `root` field they would only expose that key order, which is not modelled.
- `src/pyserials/write.py` (serialisation and file writing), `src/pyserials/exception/validate.py` (exception formatting) and `src/pyserials/_test.py` (a script calling the filler) are not part of this model.
