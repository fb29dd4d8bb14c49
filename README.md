# Variable bindings as query parameters

This project models the function of the ESPv2 API proxy's path matcher that
turns the variable bindings it extracted from a request path into a flat
query-parameter string. It is `VariableBindingsToQueryParameters` in
`src/api_proxy/path_matcher/variable_binding_utils.cc`. A binding has a
field path, which is a list of field names, and a captured value. The function
joins each binding's field path with `.`. It then appends `=` and the value,
and it joins successive bindings with `&`. For example,
`{"foo","bar"}:"42"` and `{"a","b","c"}:"xyz"` give `foo.bar=42&a.b.c=xyz`.

Layout:

- `path_matcher.dfy`, module `PathMatcher`, holds the `VariableBinding` datatype.
  The source takes it from `path_matcher.h`, which is not part of this model.
- `strings.dfy`, module `Strings`, holds `Join`, the inverse `Split` and their lemmas.
  The lemmas cover concatenation, positions and the two round trips.
- `variable_binding_utils.dfy`, module `VariableBindingUtils`, holds the pure
  specification (`Render`, `Serialise`) and the imperative method
  `VariableBindingsToQueryParameters`. The method mirrors the source's nested
  append loops and is proved equal to `Serialise`. The module also holds the lemmas
  about `Serialise` and a reader `Parse`, which is the inverse used to state the round trips.
- `wrappers.dfy`, module `Wrappers`, has the `Option` type.

The code copies segments and values verbatim. It does no percent-encoding and no
escaping, and the conversion to JSON names is only a TODO (`variable_binding_utils.cc:27-28`).
`NoEscaping` shows what follows from this: two different binding lists can produce
the same string.

## Model

| member | source | states |
|---|---|---|
| VariableBindingUtils.VariableBindingsToQueryParameters | src/api_proxy/path_matcher/variable_binding_utils.cc:21-43 | The string the outer loop (over bindings) and the inner loop (over field-path segments) build equals `Serialise` of the input, including the conditional `.` and `&` separators |
| VariableBindingUtils.Serialise | src/api_proxy/path_matcher/variable_binding_utils.cc:23-42 | The result is empty exactly when the binding list is empty. For no bindings the loop never runs; otherwise at least one `=` is appended |
| Strings.Join | src/api_proxy/path_matcher/variable_binding_utils.cc:26-34 | The length of the join is the parts' total length plus one separator per gap between neighbours; where the parts and separators sit is stated by `Strings.JoinAt` |
| Strings.JoinConcat | src/api_proxy/path_matcher/variable_binding_utils.cc:24-41 | Joining two non-empty lists one after the other puts exactly one separator between the two joins |
| Strings.JoinAt | src/api_proxy/path_matcher/variable_binding_utils.cc:29-33 | Every part occurs verbatim at its offset in the join, followed by the separator unless it is the last |
| VariableBindingUtils.RenderAll | src/api_proxy/path_matcher/variable_binding_utils.cc:24-37 | One rendering per binding, in input order: element i is `Render` of binding i (its field path joined with `.`, then `=`, then its value) |
| VariableBindingUtils.SerialiseConcat | src/api_proxy/path_matcher/variable_binding_utils.cc:24-41 | Output order follows input order: two non-empty lists serialise to their serialisations joined by one `&` |
| VariableBindingUtils.SerialiseAppend | src/api_proxy/path_matcher/variable_binding_utils.cc:36-40 | A binding after a non-empty list is rendered after exactly one `&` |
| VariableBindingUtils.SerialiseSingle | src/api_proxy/path_matcher/variable_binding_utils.cc:38-40 | A single binding gets no `&` at all, neither leading nor trailing |
| VariableBindingUtils.RenderEmptyPath | src/api_proxy/path_matcher/variable_binding_utils.cc:26-37 | A binding with an empty field path renders as `=` followed by its value; the inner loop adds nothing |
| VariableBindingUtils.DocumentedExample | src/api_proxy/path_matcher/variable_binding_utils.h:27-31 | The documented example `[{["foo","bar"],"42"}, {["a","b","c"],"xyz"}]` gives `foo.bar=42&a.b.c=xyz` |
| VariableBindingUtils.NoEscaping | src/api_proxy/path_matcher/variable_binding_utils.cc:27-37 | Values are not escaped: one binding whose value holds `&` and `=` serialises like two bindings |
| VariableBindingUtils.EmptyPathLikeEmptySegment | src/api_proxy/path_matcher/variable_binding_utils.cc:26-37 | An empty field path and the one-segment path `[""]` render identically, as `=` followed by the value, for every value |
| VariableBindingUtils.SerialiseLength | src/api_proxy/path_matcher/variable_binding_utils.cc:24-41 | Output length is the sum over bindings of (segment lengths + dots between segments + 1 + value length), plus one `&` between each two bindings |
| VariableBindingUtils.RenderParts | src/api_proxy/path_matcher/variable_binding_utils.cc:26-37 | In one rendering each segment occurs verbatim at its offset before the `=`, and the value follows that `=` to the end |
| VariableBindingUtils.BindingInOutput | src/api_proxy/path_matcher/variable_binding_utils.cc:24-41 | The rendering of the i-th binding occurs verbatim after those of the bindings before it, followed by `&` unless it is the last |
| VariableBindingUtils.SegmentInOutput | src/api_proxy/path_matcher/variable_binding_utils.cc:29-30 | The j-th segment of the i-th binding occurs verbatim in the output at its computed offset |
| VariableBindingUtils.ValueInOutput | src/api_proxy/path_matcher/variable_binding_utils.cc:36-37 | The value of the i-th binding occurs verbatim in the output right after its `=` |
| VariableBindingUtils.ParseRender | src/api_proxy/path_matcher/variable_binding_utils.cc:26-37 | A binding with a non-empty field path whose segments hold neither `.` nor `=` is read back exactly from its rendering; the value may hold anything |
| VariableBindingUtils.RenderParse | src/api_proxy/path_matcher/variable_binding_utils.cc:26-37 | Every piece that reads as a binding is exactly the rendering of that binding |
| VariableBindingUtils.ParseSerialise | src/api_proxy/path_matcher/variable_binding_utils.cc:21-43 | Round trip: such plain bindings are read back exactly from the serialised string |
| VariableBindingUtils.SerialiseParse | src/api_proxy/path_matcher/variable_binding_utils.cc:21-43 | Other direction: every string that reads as a binding list is exactly that list's serialisation |
| Strings.SplitJoin | src/api_proxy/path_matcher/variable_binding_utils.cc:29-33 | Splitting the join of a non-empty list of parts gives back the parts when no part holds the separator |
| Strings.JoinSplit | src/api_proxy/path_matcher/variable_binding_utils.cc:29-33 | Joining the pieces of a split gives back the string |

## Left out

- VariableBindingsToQueryParameters: sizes are unbounded integers, not `size_t`. The
  unsigned `size() - 1` in both separator guards is only evaluated inside a loop whose
  bound is that size, so the size is at least 1 there and the subtraction cannot wrap.
  The model uses plain integer subtraction.
- Strings are Dafny `string`s, sequences of characters; each character of the model stands
  for one byte of the source's `std::string`. `SerialiseLength` therefore counts bytes of the
  source's result. The operations are plain concatenation with ASCII separators, so nothing
  else depends on the encoding.
- The conversion of snake-case field names to JSON names is a TODO in the source and
  does nothing, so the model does nothing either.
- `std::string` memory management and the const return value are not modelled; the
  result is a Dafny string, returned by value.
- `Parse`, `PlainPath` and `Plain` are not in the source. They are the inverse of the serialiser, used
  to state the round trips. Round-tripping needs the separator restrictions in `PlainPath` and `Plain`
  because the source escapes nothing. `PlainPath` also requires a non-empty field path, for a
  different reason: an empty field path and the path `[""]` both render as `=` followed by the
  value (`EmptyPathLikeEmptySegment`), so no reader can tell them apart.
- The matcher trie, the template parser and the lookup that produce the bindings are not
  part of this model; only the `VariableBinding` value they export is.
