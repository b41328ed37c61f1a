# Updatable fields: a Dafny model

This project models `updateable.js`, a small jQuery plug-in for editing form fields in place.
An *updatable* entity holds named attributes, an update endpoint (`update_url`) and a registry of
*field bindings*. Each binding ties one attribute name to the DOM element that shows it.

- `set_field` is a local write.
- `update` commits a value. A non-empty value is sent to the endpoint as one PUT. An empty
  value puts the stored value back on display.
- When the PUT succeeds, the server's value is written into the attribute and onto the first
  element bound to that name, and that element is re-sized.
- Re-sizing (`update_size`) works from the element's text. A textarea is 8 pixels wide per
  character of its longest trimmed line and 17 pixels high per line. A text input is 8 pixels
  wide per character. Other elements keep their box.

Modules:

- `AutoSize` (`autosize.dfy`): the pure size rule. It holds `Trim`, `Split` on newlines,
  `MaxOf` and `Resize`, and lemmas about them. `Join` is the inverse of `Split`.
- `Fields` (`fields.dfy`): the `Binding` class (`updatable_field`) and the `FieldRegistry`
  class (`updatable_fields`). A binding owns a constant field name and the mutable state of its
  element (kind, text, box). The registry owns a `seq<Binding>` that `Push` grows.
- `Editing` (`editing.dfy`): the `Updatable` class. Its attributes are a `map<string, string>`,
  its endpoint an `Option<string>`, and its `outbox: seq<Request>` lists every PUT sent. The
  outbox stands in for `$.ajax`. The asynchronous success callback is the separate method
  `OnSuccess`.
- `Wrappers` (`wrappers.dfy`): `Option`.

Modelling decisions:

- A name is manageable exactly when it is a key of `attributes`. This is the `hasOwnProperty`
  test.
- `updateUrl == None` stands for an `update_url` that is `undefined` or `null`. `init` sets it
  to `Some("")`.
- `init` sets `update_url` to `''` (updateable.js:20), and `update` tests
  `update_url != undefined` (updateable.js:62), a test the empty string passes. So an empty
  endpoint does **not** switch off remote sync: the PUT goes to `""`.
- `field_updated` uses the result of `find_by_field` without checking it. When no binding has
  the name, updateable.js throws a TypeError after `update_field` has already written the
  attribute. The model treats the display step as a no-op in that case. The resulting state is
  the same as updateable.js leaves: attribute written, no element changed. The exception is not
  modelled.
- A `Request` (`Put(url, fieldToUpdate, valueToSet)`) is the `out_data` payload and URL of one
  `$.ajax` PUT (updateable.js:64-71).
- `OnSuccess` takes any request found in the outbox. Responses can therefore be applied in any
  order, and more than once.
- `create_fields` is modelled as a loop over a given sequence of candidates, in document order.
  Each candidate is an attribute name plus an element state.

## Model

| member | source | states |
|---|---|---|
| `AutoSize.TrimStart` | updateable.js:193 | the leading-white-space half of `line.trim()`: the result is no longer than the line and does not start with white space (completed by `TrimStartSpec`) |
| `AutoSize.TrimEnd` | updateable.js:193 | the trailing-white-space half of `line.trim()`: the result is no longer than the line and does not end with white space (completed by `TrimEndSpec`) |
| `AutoSize.Trim` | updateable.js:193 | `line.trim()`, here `TrimEnd` after `TrimStart`: never longer than the line (fully characterised by `TrimSlice`) |
| `AutoSize.TrimStartSpec` | updateable.js:193 | the result of `TrimStart` is a suffix of the line that does not start with white space; everything removed is white space |
| `AutoSize.TrimEndSpec` | updateable.js:193 | the result of `TrimEnd` is a prefix of the line that does not end with white space; everything removed is white space |
| `AutoSize.TrimSlice` | updateable.js:193 | `line.trim()` is a contiguous slice of the line that neither starts nor ends with white space, and everything cut at either end is white space |
| `AutoSize.TrimEmpty` | updateable.js:193-194 | a line trims to length 0 exactly when every character in it is white space |
| `AutoSize.Split` | updateable.js:188 | `val.split('\n')` yields at least one line, and no line contains a newline |
| `AutoSize.SplitCount` | updateable.js:188 | the split yields one more line than the text has newlines |
| `AutoSize.JoinSplit` | updateable.js:188 | joining the split lines with newlines gives the text back |
| `AutoSize.SplitJoin` | updateable.js:188 | splitting the join of a non-empty list of newline-free lines (which may be empty) gives those lines back, so `Split` is determined by the two round trips |
| `AutoSize.TrimmedLengths` | updateable.js:192-195 | the `lines.map` of trimmed lengths: one length per line, each between 0 and the length of its line |
| `AutoSize.MaxOf` | updateable.js:197 | `Math.max` of the non-empty list of lengths is one of the lengths and at least every other one |
| `AutoSize.Resize` | updateable.js:183-205 | the box `update_size` gives: a textarea is at least one line (17 pixels) high and never of negative width; a text input keeps its height and is never of negative width; any other element keeps its box |
| `AutoSize.TextareaSize` | updateable.js:185-200 | textarea height is 17 × (newlines + 1), so at least 17; width is 8 × the trimmed length of some line and at least 8 × the trimmed length of every line |
| `AutoSize.LongestLine` | updateable.js:192-197 | the maximum of the trimmed line lengths is the trimmed length of some line and at least that of every line |
| `AutoSize.LongestLineZero` | updateable.js:192-197 | the longest trimmed line has length 0 exactly when every line is white space |
| `AutoSize.BlankLines` | updateable.js:188 | a text is all white space exactly when each of its lines is |
| `AutoSize.TextareaWidthZero` | updateable.js:185-200 | a textarea gets width 0 exactly when its whole text is white space |
| `AutoSize.TextInputSize` | updateable.js:202-204 | a text input gets width 8 × its text length and keeps its height |
| `AutoSize.FiveCharacterInput` | updateable.js:202-204 | a text input showing "abcde" is 40 pixels wide |
| `AutoSize.TwoLineTextarea` | updateable.js:185-200 | a textarea showing "ab\ncde" is 24 × 34 pixels |
| `AutoSize.EmptyTextarea` | updateable.js:185-200 | an empty textarea is 0 × 17 pixels |
| `Fields.Sized` | updateable.js:183-205 | `update_size` on an element's state keeps its kind and its text and recomputes only the box |
| `Fields.SizedIdempotent` | updateable.js:183-205 | sizing an element that is already sized changes nothing, so the `keyup keydown` re-runs of `update_size` are harmless when the text is unchanged |
| `Fields.Shown` | updateable.js:51-52 | `.val(new_value)` followed by `update_size`: the element keeps its kind and shows exactly the new value |
| `Fields.Binding.constructor` | updateable.js:171-176 | a new binding has the given name and element, and has run `update_size` exactly once |
| `Fields.Binding.UpdateSize` | updateable.js:183-205 | the element keeps its text and kind; its box becomes `Resize` of its kind, its text and its old box |
| `Fields.SnapshotAt` | updateable.js:125-127 | the registry's snapshot has one entry per binding, holding that binding's name and element state at the same index |
| `Fields.SnapshotPush` | updateable.js:125-127 | appending a binding appends exactly its name and element to the registry's snapshot |
| `Fields.Grep` | updateable.js:135-137 | the grep keeps exactly the bindings with the wanted name; its head is the lowest-index binding with that name |
| `Fields.FieldRegistry.constructor` | updateable.js:116-118 | a new registry is empty |
| `Fields.FieldRegistry.Push` | updateable.js:125-127 | the binding is appended at the end; the existing bindings keep their order |
| `Fields.FieldRegistry.Add` | updateable.js:31 | `push(new updatable_field(...))`: the registry gains one new binding at the end, a different object from every binding already there, whose snapshot entry is the name and the sized element |
| `Fields.FieldRegistry.FindByField` | updateable.js:134-138 | returns nothing exactly when no binding has the name; otherwise returns the lowest-index binding with the name, also when names repeat |
| `Fields.FieldRegistry.Each` | updateable.js:153-159 | the results are the callback applied to each index and its binding, one per binding, in index order (the callback is a pure function, so its side effects are not modelled) |
| `Editing.Discovered` | updateable.js:27-34 | the `create_fields` filter: never more bindings than candidates, and every binding carries a name the entity owns |
| `Editing.DiscoveredAppend` | updateable.js:28-31 | the filter keeps document order: the bindings for two runs of candidates are those of the first run followed by those of the second |
| `Editing.DiscoveredOne` | updateable.js:29-31 | one candidate yields exactly one sized binding when its name is owned and none otherwise; with `DiscoveredAppend`, each owned candidate gets exactly one binding, in its document position |
| `Editing.DiscoveredIsOwnedCandidates` | updateable.js:27-34 | discovery binds only owned names, each to the sized element of a candidate with that name, and binds every candidate whose name is owned |
| `Editing.Updatable.Init` | updateable.js:19-25 | after init the endpoint is the empty string, the registry is new and empty, and no request has been sent |
| `Editing.Updatable.CreateFields` | updateable.js:27-34 | the existing bindings are kept; after them come fresh, pairwise distinct bindings (one new object per candidate, as `new Updatable.updatable_field` gives) for the owned candidates, in document order, each sized once |
| `Editing.Updatable.SetField` | updateable.js:102-106 | an owned attribute becomes the new value and nothing else changes; an unowned name changes nothing; no request is sent and no element changes |
| `Editing.Updatable.FieldUpdated` | updateable.js:50-53 | the first binding with the name shows the value and is re-sized for it; every other binding and the registry are unchanged; with no such binding nothing changes |
| `Editing.Updatable.UpdateField` | updateable.js:89-94 | for an owned name, only that attribute becomes the value and the display is reconciled; an unowned name changes nothing; no request is sent |
| `Editing.Updatable.Update` | updateable.js:61-81 | with an unowned name or no endpoint, nothing changes; a non-empty value appends exactly one PUT carrying the URL, the name and the value, and changes no attribute and no element; an empty value sends nothing, leaves the attributes as they were and puts the stored value back on the first binding with that name |
| `Editing.Updatable.OnSuccess` | updateable.js:72-74 | the server's value for the requested name becomes the attribute (even when it differs from what was sent) and is shown and sized on the first binding with that name; nothing is sent |

## Left out

- DOM event wiring is not modelled. This covers `bind_fields` (updateable.js:36-42), the
  `keyup keydown` handler in the binding constructor (updateable.js:175), the
  `update_field`/`set_field` wrappers (updateable.js:207-217) and `$.proxy`/`bind`. These only
  route events to the operations above.
- `events_conditions`, `get_elements` and `clean_selector_to_attribute` are called but not
  defined in updateable.js. The DOM query, and the `selectors` object it uses, become the
  `candidates` parameter of `CreateFields`.
- The AJAX transport, JSON decoding and HTTP are not modelled. A sent PUT is an outbox entry;
  the reply is a call to `OnSuccess`. The source has no failure handler, so none is modelled.
- Ordering of several PUTs in flight is not modelled as a concurrency question. Each response
  is applied as a single step.
- Pixel application is not modelled: jQuery's `.width()`/`.height()` become the element's box,
  and the `.is(...)` selector tests become the `ElementKind` enum.
- Text is `seq<char>`, and a Dafny `char` is a Unicode scalar value. JavaScript lengths count
  UTF-16 code units, so a character outside the Basic Multilingual Plane counts 2 there and 1
  here. White space for `trim` is the finite ECMAScript WhiteSpace and LineTerminator list.
- After `init`, `hasOwnProperty` also holds for `update_url`, `selectors` and
  `updatable_fields`. The model's `attributes` map holds only the host's data attributes, so a
  field binding that names one of those three properties is not modelled.
- Attribute values are strings. The source stores whatever the JSON reply carries, which may
  be a number.
- Editing.Updatable.OnSuccess: requires the reply to contain the requested name. With the key
  missing, updateable.js writes `undefined` into the attribute (updateable.js:91), while jQuery's
  `.val(undefined)` stores `""` on the element, which is then sized for `""`; the model does not
  cover that case.
- `AutoSize.MaxOf` requires a non-empty list. `Math.max` of an empty list is `-Infinity`, but
  `split` never returns an empty list (`AutoSize.Split`), so that case cannot arise.
- Each binding owns its element's state, so the model assumes every DOM node is bound at most
  once. In the source, running `create_fields` twice over the same or overlapping roots binds
  one node twice (updateable.js:28-31); `.val(new_value)` and `update_size` (updateable.js:51-52)
  then change what both bindings show. `Editing.Updatable.Reconciled`'s "every other binding is
  unchanged" does not hold of the source in that case.
- `.val()` is taken as the identity on the stored text. jQuery's getter strips `'\r'`, and the
  DOM removes line breaks from a text input's value; neither is modelled.
- `Editing.Updatable.Init` merges `new Updatable()` with `init()` (updateable.js:17-25). Calling
  `init` again on a live entity, which resets `update_url` to `''` and replaces the registry, is
  not modelled.
- `field_updated` calls `find_by_field` twice. The model looks once: the registry and the
  names do not change between the two calls, so both calls return the same binding.
