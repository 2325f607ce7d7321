# Custom URL path converters

A Flask demo registers two custom path converters with its router:

- `list` (`ListConverter`) turns one path segment such as `ana+bia+caio`
  into the list `["ana", "bia", "caio"]`, and turns a list back into a
  `+`-joined segment when a URL is built. Given a single string instead of
  a list, it only encodes that string. It does not split it or join it.
- `regex` (`RegexConverter`) keeps the pattern given in the route
  (`<regex("a.*"):name>`) so that the router only dispatches segments
  matching it.

The model has three modules:

- `Strings` (`strings.dfy`) defines Python's `str.split(sep)` and
  `sep.join(pieces)` for a one-character separator. Splitting keeps empty
  pieces, and `"".split("+")` is `[""]`. The module proves how many pieces
  a split yields, and that no piece holds the separator. It proves that
  join undoes split for every string, and that split undoes join for a
  non-empty list of separator-free pieces.
- `ListConverter` (`list_converter.dfy`) defines `to_python` as
  `ToPython`. It defines `to_url` as `ToUrl` over the sum type
  `UrlValue = Single(string) | Many(seq<string>)`, which stands for the
  `isinstance(values, str)` test. The routing library's per-item
  encoding (`BaseConverter.to_url`) is not visible, so it is a parameter
  `enc: string -> string`.
- `RegexConverter` (`regex_converter.dfy`) is a class whose read-only
  field `regex` is set by its constructor from the first extra route
  argument. `Construct` models the failing case: with no extra argument,
  `items[0]` raises `IndexError`.

## Model

| member | source | states |
|---|---|---|
| Strings.Split | converters.py:17 | `str.split` always returns at least one piece. |
| Strings.SplitCount | converters.py:17 | A split has exactly one more piece than there are separators in the string. |
| Strings.SplitDelimiterFree | converters.py:17 | No piece of a split contains the separator. |
| Strings.JoinSplit | converters.py:17 | Joining the pieces of a split with the separator gives back the original string. Nothing is dropped or reordered. |
| Strings.Join | converters.py:25 | `'+'.join` output starts with the first piece. `JoinCount` counts its separators. `JoinSplit` shows that it undoes `Split` for every string, and `SplitJoin` shows the converse for a non-empty list of separator-free pieces. |
| Strings.JoinCount | converters.py:25 | Joining a non-empty list of separator-free pieces gives exactly one separator per pair of neighbours. |
| Strings.SplitJoin | converters.py:25-26 | For a non-empty list of separator-free pieces, splitting their join gives back the same list. |
| ListConverter.ToPython | converters.py:13-17 | Decoding a segment gives `count('+') + 1` items, so never an empty list. No item contains `+`. Rejoining the items with `+` reproduces the segment. |
| ListConverter.EncodeEach | converters.py:26 | The generator yields one encoded item per input item, with item k encoded as `enc(items[k])`, in the original order. |
| ListConverter.ToUrl | converters.py:20-27 | A string is only encoded. A non-empty list's segment starts with its first encoded item. When no encoded item holds `+`, the segment has one `+` per pair of neighbours and decodes to exactly the encoded items, in order. `ListRoundTrip` and `SegmentRoundTrip` carry the round trips, and `SingleIsOneItemList` covers the string branch. |
| ListConverter.EmptyListEncoding | converters.py:25-26 | The empty list encodes to `""`, and `""` decodes to `[""]`, so the empty list does not round-trip. |
| ListConverter.ListRoundTrip | converters.py:13-27 | A non-empty list of `+`-free items that `enc` leaves unchanged encodes and then decodes to itself. |
| ListConverter.SegmentRoundTrip | converters.py:13-27 | If `enc` leaves each decoded piece unchanged, then the segment decodes and re-encodes to itself. This includes segments with empty pieces. |
| ListConverter.SingleIsOneItemList | converters.py:20-27 | A single string `v` encodes to `enc(v)`, which is also what the one-item list `[v]` encodes to. |
| ListConverter.StringNotIteratedByCharacter | converters.py:20-27 | The string test is needed. Take a string of two or more characters that `enc` leaves unchanged, as it does each of its characters. As a single value it stays unchanged. Iterated character by character as a list, it would come out different. |
| ListConverter.DecodeExamples | converters.py:17 | `"a+b+c"` decodes to `["a","b","c"]`, `""` decodes to `[""]`, and `"a++"` decodes to `["a","",""]`. |
| ListConverter.EncodeExamples | converters.py:25-27 | Under the identity encoding, `["a","b"]` encodes to `"a+b"` and the string `"solo"` encodes to `"solo"`. |
| RegexConverter.Converter.constructor | converters.py:5-7 | Given at least one extra argument, the converter's `regex` is the first one. |
| RegexConverter.Construct | converters.py:5-7 | Construction fails with `IndexError` exactly when there are no extra arguments. Otherwise it gives a new converter whose `regex` is `items[0]`. |

## Left out

- Werkzeug's `BaseConverter` is not part of this model. Its `__init__(url_map)` and the `url_map` argument are omitted. Its `to_url` quoting is the abstract parameter `enc`. Its identity `to_python`, which `RegexConverter` inherits, is omitted. Its default segment pattern `[^/]+`, which `ListConverter` inherits, is also omitted.
- The router's matching of a segment against `RegexConverter.regex` is omitted. This is regular-expression semantics inside the routing library.
- `to_url` sends every iterable that is not a `str` down the join branch, including a set, dict keys and a generator. The model covers such a value as `Many` of its items in iteration order. It does not cover a non-iterable value, such as an `int`, for which iterating at converters.py:26 raises `TypeError`. It also does not cover an iterable holding non-string items.
- `app.py` is omitted: route registration, HTML building, `url_for`, `abort` and the user directory module. This is framework glue and I/O. The `set(usernames)` deduplication in the `profile` handler is a policy of that handler, not of the converter.
