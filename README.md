# HTTP routing and wire encoding, modelled in Dafny

This project models four sequential pieces of the HTTP layer of the xoom-http
server:

- **`DynamicResource`** (module `Routing`). Registered request handlers are
  stable-sorted by descending count of `/` in their path. Handler `i` of the
  sorted list gets an action with id `i`. A request resolves to the first action,
  in table order, whose match succeeds, or else to the shared unmatched result.
  Dispatch looks the action id up in the handler list. An id outside the list,
  or a failure while invoking the handler, becomes the "Action mismatch"
  `IllegalArgumentException`.
- **`ChunkedBody`** (module `Chunked`). An append-only text buffer, modelled as
  a class. `appendChunk` adds `hex(length) CRLF data CRLF`. `end` adds `0 CRLF`.
  A ghost list of the appended pieces stays in step with the buffer. A decoder
  reads the buffer back to exactly that list.
- **`MediaTypeDescriptor`** and its `Builder` (module `MediaType`). The
  descriptor is a value: type, subtype and parameter map. It renders as
  `type/subtype(;name=value)*`, the media-type shape of section 3.1.1.1 of
  RFC 7231, and has value equality. The builder is a mutable class whose
  `build` passes its fields to a supplied factory.
- **`Properties`** (module `ResourceProperties`). Keys are composed as
  `resource.<name>.<key>` and looked up in a string map, with a default.
  Typed getters parse booleans and `int`s.

Two shared modules support them. `Wrappers` holds `Option` and `Result`.
`Decimal` holds Java's `int`, `Integer.toString` and `Integer.parseInt`.

Behaviour of the code that the model keeps:

- A chunk's length prefix counts characters, as `String.length()` does. It is
  not the octet count that section 4.1 of RFC 7230 asks for. Dafny characters
  are Unicode scalar values, so the model counts a character above U+FFFF
  once where Java counts two UTF-16 code units.
- No CRLF follows the last chunk.
- An empty chunk is framed `0 CRLF CRLF`. So one empty chunk followed by
  `end()` gives `"0\r\n\r\n0\r\n"` (lemma `Chunked.FramingExamples`).
- The label of action `i` is `dynamic<i+1>(signature)`. The counter is
  incremented before the label is built.
- Parameters are rendered in the key-set order of a `HashMap`. That order is
  not fixed, so the rendering is stated for every enumeration of the key set.
- Store keys are not namespaced unambiguously: `resource.a.b.c` is key `c` of
  resource `a.b` and key `b.c` of resource `a` (lemma
  `ResourceProperties.KeysCollideAcrossNames`).

External collaborators are parameters of the model:

- `Routing.Matcher` stands for `Action.matchWith`, whose path-template
  matching is not part of this model.
- `Routing.Invocation` stands for the pooled handler's `handleFor`. It may
  complete or throw.
- `MediaType.FieldsHash` stands for `Objects.hash`.
- `MediaType.Supplier` is the builder's factory.

## Model

| member | source | states |
|---|---|---|
| `Routing.SortBySlashes` | src/main/java/io/vlingo/http/resource/DynamicResource.java:76-87 | The sorted handlers are a permutation of the input (multiset equality). Slash counts never increase along them. For every slash count, the handlers with that count appear in their registration order (stability). |
| `Routing.SortBySlashesIsTheStableSort` | src/main/java/io/vlingo/http/resource/DynamicResource.java:77-86 | Any ordering that is deepest-first and keeps registration order within each depth equals `SortBySlashes(hs)`. The stable-sort specification has exactly one answer, and the model computes it. |
| `Routing.BuildActions` | src/main/java/io/vlingo/http/resource/DynamicResource.java:28-36 | There is one action per sorted handler. Action `i` has id `i`, the method name and path of handler `i`, and the label `"dynamic" + (i+1) + "(" + actionSignature + ")"` from the already-incremented counter. |
| `Routing.DynamicResource.constructor` | src/main/java/io/vlingo/http/resource/DynamicResource.java:25-37 | The handler list is `SortBySlashes` of the registered handlers. The action table is built from that same list, so ids and handler indices agree (`Valid`). |
| `Routing.DynamicResource.MatchWith` | src/main/java/io/vlingo/http/resource/DynamicResource.java:50-58 | The result is the match of the lowest-indexed action whose match succeeds, and every earlier action failed. The result is unmatched iff no action matches, and then it is the shared `UnmatchedResults`. On a resource built by the constructor (`Valid`), a request that only action `i` matches resolves to action id `i`, with the path of handler `i`. |
| `Routing.FirstMatchIsLowest` | src/main/java/io/vlingo/http/resource/DynamicResource.java:51-56 | If action `i` matches and no earlier one does, the first-match result is action `i`'s result. Later actions are never consulted. |
| `Routing.UniqueMatchResolvesToItsId` | src/main/java/io/vlingo/http/resource/DynamicResource.java:27-57 | In a built table, if only action `i` matches and the matcher reports the action it was asked about, the request resolves to action id `i`. |
| `Routing.DynamicResource.DispatchToHandlerWith` | src/main/java/io/vlingo/http/resource/DynamicResource.java:40-47 | A handler is invoked iff `0 <= actionId` and `actionId` is below the handler count, and it is `handlers[actionId]`. The result is the action-mismatch error, carrying the request and the parameters, iff the id is out of range or the invocation threw. |
| `Chunked.ToHex` | src/main/java/io/vlingo/http/ChunkedBody.java:35 | The length prefix is lower-case hex, has no leading zero, and is exactly `"0"` for zero. |
| `Chunked.HexValueOfToHex` | src/main/java/io/vlingo/http/ChunkedBody.java:35 | The hex prefix denotes the chunk's length. |
| `Chunked.ChunkedBody.constructor` | src/main/java/io/vlingo/http/ChunkedBody.java:97-99 | A fresh body has empty content and no pieces. |
| `Chunked.ChunkedBody.AppendChunk` | src/main/java/io/vlingo/http/ChunkedBody.java:33-41 | The old content stays a prefix. Exactly `hex(length of chunk) CRLF chunk CRLF` is appended. The piece list grows by `Data(chunk)`. The content is non-empty afterwards. The method answers the body itself. |
| `Chunked.ChunkedBody.AppendBody` | src/main/java/io/vlingo/http/ChunkedBody.java:24-26 | Same effect as `AppendChunk` of the body's content. |
| `Chunked.ChunkedBody.End` | src/main/java/io/vlingo/http/ChunkedBody.java:72-76 | Appends exactly `"0" CRLF` and changes nothing else. The piece list grows by `End`. The content is non-empty afterwards. |
| `Chunked.DecodeRender` | src/main/java/io/vlingo/http/ChunkedBody.java:33-76 | Round trip. Reading "hex length, CRLF, that many characters, CRLF" over the content recovers every appended chunk in order. After `end()` the next length read is 0 with no CRLF after it. |
| `Chunked.ChunkedBody.Content` | src/main/java/io/vlingo/http/ChunkedBody.java:55-58 | Answers the accumulated content. Decoding it gives back the appended pieces. |
| `Chunked.ChunkedBody.ToString` | src/main/java/io/vlingo/http/ChunkedBody.java:89-92 | Answers the same accumulated content as `Content`. |
| `Chunked.ChunkedBody.AsPlainBody` | src/main/java/io/vlingo/http/ChunkedBody.java:47-49 | The plain body carries the same accumulated text. |
| `Chunked.ChunkedBody.HasContent` | src/main/java/io/vlingo/http/ChunkedBody.java:81-84 | True iff the content is non-empty, and iff anything was appended. It is false for a fresh body and true after any `appendChunk` or `end`. |
| `Chunked.ChunkedBody.IsComplex` | src/main/java/io/vlingo/http/ChunkedBody.java:63-66 | Always true. |
| `Chunked.FramingExamples` | src/main/java/io/vlingo/http/ChunkedBody.java:33-76 | `"hello"` then end gives `"5\r\nhello\r\n0\r\n"`. An empty chunk then end gives `"0\r\n\r\n0\r\n"`. |
| `MediaType.Create` | src/main/java/io/vlingo/xoom/http/media/MediaTypeDescriptor.java:24-28 | The descriptor holds the given type, subtype and parameter map. The map is a value, so later changes to the caller's map (the builder's) cannot reach it. |
| `MediaType.CreateWithoutParameters` | src/main/java/io/vlingo/xoom/http/media/MediaTypeDescriptor.java:30-34 | The parameter map is empty. The result is the three-argument form with an empty map. |
| `MediaType.ToString` | src/main/java/io/vlingo/xoom/http/media/MediaTypeDescriptor.java:37-50 | Returns `type/subtype` followed by `;name=value` for each name of an enumeration `order` of the key set. `order` lists each key exactly once. The returned text always begins with `type/subtype`, and it is exactly that head when and only when there are no parameters. |
| `MediaType.RenderingStartsWithHead` | src/main/java/io/vlingo/xoom/http/media/MediaTypeDescriptor.java:38-41 | Every rendering starts with `mimeType + "/" + mimeSubType`. |
| `MediaType.RenderingIsHeadIffNoParameters` | src/main/java/io/vlingo/xoom/http/media/MediaTypeDescriptor.java:38-49 | A rendering equals `type/subtype` exactly when the parameter map is empty. |
| `MediaType.EnumerationsArePermutations` | src/main/java/io/vlingo/xoom/http/media/MediaTypeDescriptor.java:43-48 | Any two enumerations of the key set are permutations of each other with the same length. Each rendering is the head followed by the concatenation of its `;name=value` segments (`Segments`), and the two segment lists hold the same segments with the same multiplicities. So two renderings differ only in the order of their segments. |
| `MediaType.Equals` | src/main/java/io/vlingo/xoom/http/media/MediaTypeDescriptor.java:53-62 | `equals` holds iff the other object is non-null, of the same concrete class, and has equal type, subtype and parameter map. This is value identity. |
| `MediaType.EqualsReflexiveSymmetric` | src/main/java/io/vlingo/xoom/http/media/MediaTypeDescriptor.java:53-58 | `equals` is reflexive and symmetric, and false for null. |
| `MediaType.EqualsIgnoresInsertionOrder` | src/main/java/io/vlingo/xoom/http/media/MediaTypeDescriptor.java:59-61 | Two distinct parameters put in either order give equal descriptors. |
| `MediaType.EqualsImpliesEqualHashCode` | src/main/java/io/vlingo/xoom/http/media/MediaTypeDescriptor.java:64-67 | `HashCode`, which models `hashCode` as `Objects.hash` of type, subtype and map, gives equal values for equal descriptors. |
| `MediaType.Builder.constructor` | src/main/java/io/vlingo/xoom/http/media/MediaTypeDescriptor.java:80-85 | A new builder holds the supplier, `""`, `""` and an empty map. |
| `MediaType.Builder.WithMimeType` | src/main/java/io/vlingo/xoom/http/media/MediaTypeDescriptor.java:87-90 | Sets the type only and answers the builder. |
| `MediaType.Builder.WithMimeSubType` | src/main/java/io/vlingo/xoom/http/media/MediaTypeDescriptor.java:92-95 | Sets the subtype only and answers the builder. |
| `MediaType.Builder.WithParameter` | src/main/java/io/vlingo/xoom/http/media/MediaTypeDescriptor.java:97-100 | Puts `name := value`, so the last value for a name wins. Every other entry and both type fields are unchanged. |
| `MediaType.Builder.Build` | src/main/java/io/vlingo/xoom/http/media/MediaTypeDescriptor.java:102-104 | The result is the supplier applied to the builder's current type, subtype and map, unchanged. |
| `ResourceProperties.Key` | src/main/java/io/vlingo/http/resource/Properties.java:38-40 | The key is `"resource."`, then the name, then `"."`, then the key, with exactly that length. |
| `ResourceProperties.KeyInjective` | src/main/java/io/vlingo/http/resource/Properties.java:38-40 | Two keys of one resource share a store key iff they are equal. |
| `ResourceProperties.GetStringAfterPut` | src/main/java/io/vlingo/http/resource/Properties.java:34-40 | `GetString` models `getString`. After `v` is stored under the composed key of `k`, `getString(k)` answers `v`. Storing under another key of the same resource leaves `getString(k)` unchanged. |
| `ResourceProperties.KeysCollideAcrossNames` | src/main/java/io/vlingo/http/resource/Properties.java:38-40 | Key `c` of resource `a.b` and key `b.c` of resource `a` are the same store key. |
| `ResourceProperties.GetBooleanSpec` | src/main/java/io/vlingo/http/resource/Properties.java:19-22 | `GetBoolean` models `getBoolean`. An absent key gives the default. A present key gives true iff its value is `"true"` in any mix of cases. |
| `ResourceProperties.GetIntegerSpec` | src/main/java/io/vlingo/http/resource/Properties.java:29-32 | `GetInteger` models `getInteger`. An absent key gives the default. A present key gives the decimal value of a valid `int` text. Otherwise it fails with `NumberFormatException`. |
| `Decimal.ParseInt` | src/main/java/io/vlingo/http/resource/Properties.java:31 | `Integer.parseInt` succeeds iff the text is an optional sign followed by digits and its value fits in an `int`. It then answers that value, and otherwise `NumberFormatException`. |
| `Decimal.ParseIntOfDecimal` | src/main/java/io/vlingo/http/resource/Properties.java:29-31 | Parsing the default's `toString()` gives the default back, for every `int`. |

## Left out

- The actor runtime: `Stage`, the handler pool, `pooledHandler()`, `PooledDynamicResourceHandler` and `resourceHandlerInstance`. Handler invocation is the `Invocation` parameter, which may complete or throw. The pool size is stored and not used.
- `Action.matchWith`'s path-template matching. `Action.java` is not part of this model, so matching is the `Matcher` parameter.
- `Routing.DynamicResource.DispatchToHandlerWith`: the exception's message text is not built. The error value carries the request and the parameters that the message concatenates, because `Request.toString` and `MappedParameters.toString` are not part of this model.
- `Routing.BuildActions`: the action's `mapper` argument (always `null`) is not modelled. The `int` counter's wrap-around past 2^31 - 1 handlers is not modelled either.
- `Routing.MethodName`: it assumes `Method.toString()` answers the enum constant's name. `Method.java` is not part of this model.
- `Chunked.ChunkedBody.AppendBody`: the `Body` interface is represented by its plain implementation only. A chunked body passed as a `Body` is covered through its `AsPlainBody`.
- `MediaType.HashCode`: the concrete `Objects.hash` value is a parameter. Only its consistency with `equals` is proved.
- `MediaType.Equals`: the `this == o` shortcut is covered by reflexivity. Object identity is not modelled separately, because descriptors are values.
- `HashMap` iteration order: the rendering is stated for every enumeration of the key set.
- Aliasing between a builder's map and the descriptors it builds cannot arise in the model. Maps are values here, which is the copy the Java constructor makes.
- `Properties.getFloat`: floating-point parsing.
- The `java.util.Properties` defaults chain and non-string values: the store is a plain `map<string, string>`.
- `null` arguments (a `null` default raises `NullPointerException` in Java): Dafny values are never null.
- `Decimal.ParseInt`: digits are ASCII `0`-`9` only. Java's `Integer.parseInt` also accepts other Unicode decimal digits (through `Character.digit`), which the model reports as `NumberFormatException`.
- `ResourceProperties.GetIntegerSpec`: inherits the ASCII-only digits of `Decimal.ParseInt`.
- `Chunked.ChunkedBody.AppendChunk`: a character above U+FFFF counts once in the length prefix here and twice (two UTF-16 code units) in Java.
- `MediaType.Equals`: the other object is an optional descriptor, so `equals` given an object of an unrelated type, which Java answers false through the `getClass()` test, is not expressible.
- `DefaultMapper` (a singleton wrapper over JSON serialization) and the test channel mock: they have no logic of their own to model.
