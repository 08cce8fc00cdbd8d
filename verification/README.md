# Object base-label encoder of the IT-data utilities

The utilities for the inferotemporal-cortex (IT) dataset include one routine whose
behaviour can be stated exactly: `encode_object_base_labels`. It takes the list of
object names attached to the stimuli (`"car1"`, `"banana4"`, `"dog2"`, ...) and returns

- `label_dict`: each distinct *base name* mapped to a dense integer code
  `0..K-1`, assigned in ascending string order;
- `object_labels`: for each sample, in order, the code of its base name.

This project models that routine as pure Dafny functions and proves what it promises.

- `py_builtins.dfy`, module `PyBuiltins`: the two pieces of Python built-in
  behaviour the encoder depends on.
  - `Less` is `str < str`: lexicographic by code point, with a proper prefix first.
    It is proved equal to the textbook definition `LexLess` and proved to be a
    strict total order.
  - `SortedSet` is `sorted(set(xs))`. It builds a strictly ascending,
    duplicate-free sequence by insertion. A strictly sorted sequence is determined
    by its elements (`StrictlySortedUnique`). So the result does not depend on how
    it is built, and it equals what Python's `sorted` returns.
- `utils.dfy`, module `Utils`: the encoder itself.
  - `BaseName` is `re.match(r'[a-zA-Z]+', obj).group()`.
  - `BaseNames` is the list comprehension over the input.
  - `LabelDict` is the `enumerate` dictionary comprehension.
  - `ObjectLabels` is the final lookup.
  - `EncodeObjectBaseLabels` composes these four.
  - Lemmas state the properties of the result.

How the code differs from its own comment: the docstring describes the base name
as the "alphabetic base name (e.g., 'car1', 'car2' → 'car')"
(src/utils.py:151), which the code honours. The comment above the regex
(src/utils.py:161) says "strip digits from end", and the code does something
else. It takes the longest run of ASCII letters at the *start* of the name, so
`"car_2"` gives `"car"`, `"a1b"` gives `"a"`, and a name that does not start
with a letter makes `re.match` return `None`. `.group()` then raises. The model
follows the code. `StripTrailingDigits` models what the comment describes.
`BaseNameMatchesComment` proves that the two agree on names of the shape the
docstring shows (letters, then digits), and `BaseNameDiffersFromComment` shows
inputs where they differ. The raised
exception is modelled as `Failure(NoMatch(i))`, where `i` is the first position
whose name has no leading letter. The list comprehension evaluates left to right,
so that position is the one that raises.

Matching is case-sensitive and limited to ASCII letters, as `[a-zA-Z]` without
flags is in Python 3. `"Car"` and `"car"` are distinct base names, and
upper-case letters sort before lower-case ones because comparison is by code
point (`LabelDictOrder` together with `Less`; `BaseNameDiffersFromComment`
proves `"Car" < "car"`). The regex class `[a-zA-Z]` is `Utils.IsAsciiLetter`
(src/utils.py:162), Python's `set(...)` of a list is `PyBuiltins.Elems` and
`str <` is `PyBuiltins.Less` (src/utils.py:165). These carry no contract of
their own; the rows below state their properties.

## Model

| member | source | states |
|---|---|---|
| `PyBuiltins.LessIsLexLess` | src/utils.py:165 | The string order used by `sorted` is exactly lexicographic code-point order: `a` is a proper prefix of `b`, or `a` has the smaller code point at the first position where the two differ |
| `PyBuiltins.LessIrreflexive` | src/utils.py:165 | No string sorts before itself |
| `PyBuiltins.LessTransitive` | src/utils.py:165 | The string order is transitive |
| `PyBuiltins.LessAsymmetric` | src/utils.py:165 | If `a < b` then not `b < a` |
| `PyBuiltins.LessTotal` | src/utils.py:165 | Any two distinct strings are ordered one way or the other, so sorting is well defined |
| `PyBuiltins.StrictlySortedDistinct` | src/utils.py:165 | A strictly ascending sequence has no repeated element |
| `PyBuiltins.StrictlySortedCard` | src/utils.py:165 | A strictly ascending sequence has as many elements as its set |
| `PyBuiltins.StrictlySortedUnique` | src/utils.py:165 | Two strictly ascending sequences with the same elements are equal, so `sorted(set(xs))` is determined by the set of `xs` |
| `PyBuiltins.Insert` | src/utils.py:165 | Inserting into a strictly ascending sequence keeps it strictly ascending and adds exactly the inserted element, which is not duplicated if already present |
| `PyBuiltins.SortedSet` | src/utils.py:165 | `sorted(set(xs))` is strictly ascending, holds exactly the elements of `xs`, and has length equal to the number of distinct elements |
| `Utils.LeadingLetters` | src/utils.py:162 | The greedy match of `[a-zA-Z]` anchored at the start is a prefix of the name, consists of ASCII letters only, and is followed by the end of the name or a non-letter |
| `Utils.LeadingLetterRunUnique` | src/utils.py:162 | There is only one such maximal leading letter run, so the match is determined |
| `Utils.BaseName` | src/utils.py:162 | The match fails exactly when the name is empty or starts with a non-letter; otherwise the base name is the non-empty maximal leading letter run |
| `Utils.BaseNameOfLettersThenRest` | src/utils.py:162 | A name made of letters followed by text that does not start with a letter has exactly those letters as its base name (`"car1"` gives `"car"`, `"car_2"` gives `"car"`) |
| `Utils.BaseNames` | src/utils.py:162 | `base_names` is produced exactly when every name matches; then it has one entry per name, each that name's base name; otherwise the error names the first non-matching position |
| `Utils.LabelDict` | src/utils.py:168 | The keys are exactly the sorted distinct base names, and each is mapped to its position in that order, as `enumerate` gives |
| `Utils.ObjectLabels` | src/utils.py:171 | One label per base name, in order, each the dictionary's code for that base name |
| `Utils.EncodeObjectBaseLabels` | src/utils.py:149-173 | The encoder succeeds exactly when every object name starts with an ASCII letter; on failure it reports the first name that does not, having matched all those before it |
| `Utils.LabelDictKeys` | src/utils.py:165-168 | A string is a key of `label_dict` if and only if it is the base name of some input object |
| `Utils.LabelDictDense` | src/utils.py:165-168 | The codes are exactly `0..K-1`, where K is the number of keys |
| `Utils.LabelDictInjective` | src/utils.py:165-168 | Distinct base names get distinct codes, so with `LabelDictDense` the mapping is a bijection onto `0..K-1` |
| `Utils.LabelDictOrder` | src/utils.py:165-168 | For keys `a` and `b`, `a < b` in Python string order if and only if `label_dict[a] < label_dict[b]` |
| `Utils.ObjectLabelsPerSample` | src/utils.py:162-171 | `object_labels` has the length of the input, and entry `i` is `label_dict[base name of objects[i]]`, which lies in `[0, K)` |
| `Utils.SameLabelIffSameBase` | src/utils.py:168-171 | Two samples receive the same label if and only if their base names are equal |
| `Utils.LabelDictDependsOnlyOnBases` | src/utils.py:165-168 | Two inputs with the same set of base names get the same `label_dict`, whatever the order and repetition of the names |
| `Utils.ExampleCarDog` | src/utils.py:150-173 | A worked example extending the docstring's `'car1', 'car2' → 'car'`: `["car1", "car2", "dog1"]` gives `{"car": 0, "dog": 1}` and `[0, 0, 1]` |
| `Utils.StripTrailingDigits` | src/utils.py:161 | The behaviour the comment describes: the longest prefix whose remainder is all decimal digits and which does not itself end in a digit |
| `Utils.StripDigitsAfterLetters` | src/utils.py:161 | Stripping trailing digits from a name that ends in digits after a non-digit removes exactly those digits |
| `Utils.BaseNameMatchesComment` | src/utils.py:150-162 | On names made of letters followed by digits, the regex base name and the digit stripping the comment describes both give the letters |
| `Utils.BaseNameDiffersFromComment` | src/utils.py:161-165 | `"car_2"` gives `"car"` (digit stripping gives `"car_"`), `"a1b"` gives `"a"`, `"Car3"` and `"car3"` have different base names with `"Car"` sorting before `"car"`, and `""`, `"1car"` and `"_car"` have none |

## Left out

- Everything in `src/utils.py` other than `encode_object_base_labels` is out of scope, for these reasons:
  - loading the HDF5 dataset and decoding its byte-string labels is I/O through a foreign library;
  - the dataset download is a network fetch;
  - `print_data_info` only prints;
  - image display is floating-point de-normalisation plus plotting;
  - the PCA helpers wrap a library behind a file cache (keyed by a fixed path that ignores the requested component count);
  - the regression metrics are floating-point library calls;
  - the plotting routines draw figures and write one file.
- The exception raised for an unmatched name is an `AttributeError` that carries no position. The model's `NoMatch(index)` adds the position of the name that raises.
- `object_labels` is a NumPy array in the source and a `seq<int>` here. For an empty input NumPy builds an empty floating-point array; element types of empty arrays are not modelled.
- The input may be a NumPy array of strings as well as a list. Only its sequence of string values is modelled.
- `label_dict` is a Python dict, whose keys iterate in insertion order, here ascending. A Dafny `map` has no order. Nothing is lost: by `LabelDictDense` and `LabelDictOrder`, iterating by ascending code visits the keys in ascending string order.
