# swagger-client-generator, modelled in Dafny

The generator reads a Swagger 2.0 document and produces the Java sources of a
REST client: one model class per schema definition, and one Spring
`@Component` controller per controller tag. This project models the
generator's decision logic, and two runtime validators it ships, as Dafny
values, classes and methods, and proves what that logic promises.

- **PathsGenerator** (`paths_generator.dfy`, `paths_tree.dfy`, `paths_node.dfy`):
  - `parsePath` and `splitPath` tokenize path templates.
  - `PathsNode.fromDefinition` builds the chain of nodes for one path.
  - `generateParameterized` types a `{p}` slot as Integer or Long.
  - `merge`/`mergeInto` combine two node trees into a fresh node.
  - `getControllerName` derives a controller name from the operation tags.
  - `generatePaths` collects operations by controller name.
  - `createController` and `createMethods` name each controller and method and pick the method's return type.

  `PathsNode` is a class with map fields, and its methods are proved against the value model `PathsTree.Tree`.
- **ModelGenerator** (`model_generator.dfy`): the `(type, format)` dispatch to
  Integer, Long, String, Date, Boolean or `Map<String, Object>`, with its typed
  exceptions, plus `generateField`, `generateFields`, `generateModel` and `generateModels`.
- **UniqueItemsValidator** (`unique_items.dfy`) and **MultipleOfValidator**
  (`multiple_of.dfy`): each is a class whose `initialize` sets a field and
  whose `isValid` is proved against a specification. For UniqueItems that is
  pairwise distinctness. For MultipleOf it is being an exact integer multiple
  of the divisor, with decimals read as exact real numbers.
- Support modules:
  - `java_strings.dfy` models the `java.lang.String`, Commons `StringUtils` and Guava `CaseFormat` behaviour the generator relies on: `split` dropping trailing empty pieces, `replace`, `lastIndexOf` and `isBlank`.
  - `swagger.dfy` models the input document. A JSON object is a sequence of key/value pairs in key order, and an absent key is `None`.
  - `wrappers.dfy` holds `Option` and `Result`. An exception the source throws is an `Err` value.

Points where the source's behaviour is easy to misread:

- A definition without `"type"` fails: `getString` throws before the `null == type` check is reached. It is not treated as an object.
- A controller tag is one ending in `controller`, not necessarily `-controller`. A matching tag without any `-` fails in `substring(0, -1)`.
- The return type comes from the first response with any schema. A schema without `$ref` gives `Void`; the code does not go on to the next response with a `$ref`.
- `generatePaths` builds no path tree: it groups the operations by controller name directly. `parsePath` and `PathsNode.fromDefinition(String, …)` are never called, and `merge` is called only from `mergeInto`, which `merge` itself calls. The tree operations are still modelled as written. Merge takes the left tree's label and never checks that the labels agree, and because it merges children as `merge(bChild, aChild)` the priority swaps at every level.

## Model

Paths below are relative to the repository root.

| member | source | states |
|---|---|---|
| PathsGenerator.ParsePath | src/main/java/com/navent/swagger/client/generator/PathsGenerator.java:71-81 | the StringBuilder steps and `split("/")` give exactly `ParsedPath(path)`: the rooted text, trailing "/" trimmed, cut at every "/" |
| PathsGenerator.ParsedPathRoot | src/main/java/com/navent/swagger/client/generator/PathsGenerator.java:71-81 | the first segment is always exactly "root" |
| PathsGenerator.ParsedPathLast | src/main/java/com/navent/swagger/client/generator/PathsGenerator.java:74-80 | a trailing "/" leaves no empty last segment behind |
| PathsGenerator.ParsedPathOfWords | src/main/java/com/navent/swagger/client/generator/PathsGenerator.java:71-81 | "/w1/…/wn", with or without a trailing "/", and "w1/…/wn" parse to `["root", w1, …, wn]` |
| JavaStrings.JavaSplitTrimmed | src/main/java/com/navent/swagger/client/generator/PathsGenerator.java:80 | `split` of a string not starting with the separator is the pieces of the string with trailing separators trimmed; the last piece is non-empty, and the pieces join back to the trimmed string |
| PathsGenerator.SplitPath | src/main/java/com/navent/swagger/client/generator/PathsGenerator.java:104-108 | no segment of splitPath is blank or contains "/" |
| JavaStrings.JavaSplit | src/main/java/com/navent/swagger/client/generator/PathsGenerator.java:105 | no piece of `split(c)` contains the separator |
| JavaStrings.IsBlankAppend | src/main/java/com/navent/swagger/client/generator/PathsGenerator.java:106 | a concatenation is blank iff both parts are |
| JavaStrings.NoBreakSpaceNotBlank | src/main/java/com/navent/swagger/client/generator/PathsGenerator.java:106 | as in `Character.isWhitespace`, a string holding a no-break space (U+00A0, U+2007, U+202F) is never blank, while a string of spaces, tabs and line breaks is |
| PathsGenerator.SplitPathPieces | src/main/java/com/navent/swagger/client/generator/PathsGenerator.java:104-108 | splitPath is exactly the non-blank "/"-pieces in order; a string is kept iff it is such a piece and is not blank |
| PathsGenerator.SplitPathOfWords | src/main/java/com/navent/swagger/client/generator/PathsGenerator.java:104-108 | "/w1/…/wn" with non-blank words splits into exactly `[w1, …, wn]` |
| PathsGenerator.FromPath | src/main/java/com/navent/swagger/client/generator/PathsGenerator.java:176-178 | the node built from a path string is the value-model chain of its splitPath segments, or the same error |
| PathsTree.GenerateParameterized | src/main/java/com/navent/swagger/client/generator/PathsGenerator.java:215-249 | a typed slot is labelled by the stripped parameter name, has a class, and has no children or methods |
| PathsTree.GenerateParameterizedErrors | src/main/java/com/navent/swagger/client/generator/PathsGenerator.java:218-248 | each failure, both ways: no operation gives NoSuchElement; no "parameters", or a slot parameter without "type", or an integer one without "format" gives that MissingKey; an integer format other than int32/int64 gives "nop"; no parameter of that name, or one of a type other than integer, gives "nop2"; nothing else fails |
| PathsTree.FindParameterReads | src/main/java/com/navent/swagger/client/generator/PathsGenerator.java:218-225 | the filtered stream's findFirst returns p iff p is the first parameter of the first operation whose name equals the slot's |
| PathsTree.GenerateParameterizedClass | src/main/java/com/navent/swagger/client/generator/PathsGenerator.java:215-249 | the class is Integer iff the first parameter so named is integer/int32, and Long iff it is integer/int64 |
| PathsTree.FindParameter | src/main/java/com/navent/swagger/client/generator/PathsGenerator.java:222-225 | finds the first parameter whose name is present and equal; None iff there is none |
| PathsTree.StripBraces | src/main/java/com/navent/swagger/client/generator/PathsGenerator.java:191 | the result is no longer than the input, holds no brace and keeps every other character |
| PathsTree.StripBracesAppend | src/main/java/com/navent/swagger/client/generator/PathsGenerator.java:191 | brace removal distributes over concatenation, so it keeps the other characters in order and with their multiplicity |
| PathsTree.StripBracesUnchanged | src/main/java/com/navent/swagger/client/generator/PathsGenerator.java:191 | a string without braces is left as it is |
| PathsTree.StripBracesOfParameter | src/main/java/com/navent/swagger/client/generator/PathsGenerator.java:191 | the segment `{p}`, for a brace-free name p, gives exactly p |
| PathsTree.FromDefinition | src/main/java/com/navent/swagger/client/generator/PathsGenerator.java:186-213 | an empty segment list fails with IndexOutOfBounds (`path.get(0)`) |
| PathsTree.FromDefinitionChain | src/main/java/com/navent/swagger/client/generator/PathsGenerator.java:186-213 | one node per segment. Each non-terminal node holds exactly the next node, keyed by the raw segment, or by the stripped name after a literal followed by `{p}`. Only the terminal node has methods, exactly the path item's. A node has a class iff it is a literal followed by `{p}`, and then the class is the one generateParameterized gives that slot |
| PathsTree.FromDefinitionFails | src/main/java/com/navent/swagger/client/generator/PathsGenerator.java:186-213 | fromDefinition fails iff the list is empty or some literal followed by `{p}` cannot be typed |
| PathsNodes.PathsNode.FromDefinition | src/main/java/com/navent/swagger/client/generator/PathsGenerator.java:186-213 | the imperative construction (new nodes, `nodes.put`, `methods`) yields a fresh, valid node whose tree is `PathsTree.FromDefinition`, or that function's error |
| PathsNodes.PathsNode.Init | src/main/java/com/navent/swagger/client/generator/PathsGenerator.java:171-174 | a new node has empty child and method maps |
| PathsNodes.PathsNode.SetPartialPath | src/main/java/com/navent/swagger/client/generator/PathsGenerator.java:189-200 | `result.partialPath = …` (with the class of a ParameterizedPathsNode): only the label and class change; children and methods stay |
| PathsNodes.PathsNode.PutChild | src/main/java/com/navent/swagger/client/generator/PathsGenerator.java:193 | `nodes.put(key, node)`: only that key changes, and the tree gains the child |
| PathsNodes.PathsNode.PutAllChildren | src/main/java/com/navent/swagger/client/generator/PathsGenerator.java:255 | `nodes.putAll(a.nodes)` on an empty target copies a's children |
| PathsNodes.PathsNode.PutAllMethods | src/main/java/com/navent/swagger/client/generator/PathsGenerator.java:266-267 | `methods.putAll(ms)`: the old methods overwritten by `ms` |
| PathsNodes.PathsNode.Merge | src/main/java/com/navent/swagger/client/generator/PathsGenerator.java:180-184 | merge allocates a fresh node equal to `PathsTree.Merge(a, b)` and changes nothing in either input |
| PathsNodes.PathsNode.MergeInto | src/main/java/com/navent/swagger/client/generator/PathsGenerator.java:252-268 | fills only the target, which ends up as `PathsTree.Merge(a, b)` |
| PathsNodes.PathsNode.PutMergedChildren | src/main/java/com/navent/swagger/client/generator/PathsGenerator.java:256-264 | the forEach over b's children leaves the target's children equal to `MergedChildren(a, b)`; loop invariant: the keys already visited are merged |
| PathsNodes.PathsNode.MergedChild | src/main/java/com/navent/swagger/client/generator/PathsGenerator.java:257-261 | the node put under k is b's child, or `merge(bChild, targetChild)` when the target already holds k |
| PathsTree.Merge | src/main/java/com/navent/swagger/client/generator/PathsGenerator.java:252-268 | the merged label is a's, the class is lost, and the child keys are the union of both inputs' keys |
| PathsTree.MergeLookup | src/main/java/com/navent/swagger/client/generator/PathsGenerator.java:252-268 | a key path exists in the merge iff it exists in either input; where only one input has it, that input's node is kept untouched; where both do, the node is plain, and at an even depth it has a's partial path with a's operations overwritten by b's, at an odd depth b's partial path with b's operations overwritten by a's |
| PathsTree.MergeAssociative | src/main/java/com/navent/swagger/client/generator/PathsGenerator.java:252-268 | `merge(merge(a, b), c) == merge(a, merge(b, c))` |
| PathsTree.MergeCommutes | src/main/java/com/navent/swagger/client/generator/PathsGenerator.java:252-268 | trees with equal labels, no shared HTTP method, and the same at every shared child key merge to the same tree in either order, so folding them in any order gives one result |
| PathsTree.MergeOrderMatters | src/main/java/com/navent/swagger/client/generator/PathsGenerator.java:252-268 | without equal labels the order matters: merging `id` with `uid` keeps the first label |
| PathsTree.MergeSelf | src/main/java/com/navent/swagger/client/generator/PathsGenerator.java:181 | merging a tree with itself keeps everything except the parameter classes |
| PathsGenerator.TagControllerName | src/main/java/com/navent/swagger/client/generator/PathsGenerator.java:52-53 | a tag yields a name iff it contains "-"; otherwise `substring(0, -1)` fails with IndexOutOfBounds |
| PathsGenerator.ControllerName | src/main/java/com/navent/swagger/client/generator/PathsGenerator.java:47-56 | absent "tags" gives MissingKey("tags"); no tag ending in "controller" gives NoSuchElement; the only other failure is IndexOutOfBounds |
| JavaStrings.UpperUnderscoreToUpperCamel | src/main/java/com/navent/swagger/client/generator/PathsGenerator.java:53 | a word without "_" is capitalized: first letter upper case, the rest lower case |
| PathsGenerator.FirstControllerTag | src/main/java/com/navent/swagger/client/generator/PathsGenerator.java:49-54 | the index of the first tag ending in "controller"; None iff no tag does |
| PathsGenerator.ControllerNameDefined | src/main/java/com/navent/swagger/client/generator/PathsGenerator.java:47-56 | getControllerName succeeds iff the tags exist and the first tag ending in "controller" contains a "-" |
| PathsGenerator.TagControllerNameOfWords | src/main/java/com/navent/swagger/client/generator/PathsGenerator.java:52-53 | "w1-…-wn-controller" gives the concatenation of the capitalized words (e.g. users-controller gives Users) |
| PathsGenerator.EndpointsComplete | src/main/java/com/navent/swagger/client/generator/PathsGenerator.java:124-127 | the flattened operations are exactly the (path, method, operation) entries of the paths object |
| PathsGenerator.Group | src/main/java/com/navent/swagger/client/generator/PathsGenerator.java:124-128 | a successful grouping has no empty group |
| PathsGenerator.GroupSucceeds | src/main/java/com/navent/swagger/client/generator/PathsGenerator.java:58-69 | `toMap(getControllerName, createList, mergeLists)` succeeds iff every operation has a name |
| PathsGenerator.GroupFailsFirst | src/main/java/com/navent/swagger/client/generator/PathsGenerator.java:128 | a failed grouping reports the error of the first operation without a name |
| PathsGenerator.GroupKeys | src/main/java/com/navent/swagger/client/generator/PathsGenerator.java:128 | there is one group per name that occurs, and no other |
| PathsGenerator.GroupValues | src/main/java/com/navent/swagger/client/generator/PathsGenerator.java:58-69 | each group holds that name's operations in encounter order; mergeLists concatenates old before new |
| PathsGenerator.GroupOfPlacement | src/main/java/com/navent/swagger/client/generator/PathsGenerator.java:128 | every operation is in the group of its own name and in no other |
| PathsGenerator.MethodName | src/main/java/com/navent/swagger/client/generator/PathsGenerator.java:150 | the method name is no longer than the operationId, uses only its characters, and is the operationId itself when "Using" + METHOD does not occur |
| JavaStrings.RemoveAll | src/main/java/com/navent/swagger/client/generator/PathsGenerator.java:150 | `replace(p, "")` never lengthens the string nor adds a character |
| PathsGenerator.MethodNameDropsSuffix | src/main/java/com/navent/swagger/client/generator/PathsGenerator.java:150 | name + "Using" + METHOD gives back the name (e.g. getUserUsingGET under get gives getUser) |
| PathsGenerator.MethodNameUnchanged | src/main/java/com/navent/swagger/client/generator/PathsGenerator.java:150 | the operationId is kept as is iff "Using" + METHOD does not occur in it |
| JavaStrings.RemoveAllUnchanged | src/main/java/com/navent/swagger/client/generator/PathsGenerator.java:150 | `replace(p, "")` changes nothing iff p does not occur |
| PathsGenerator.ReturnTypeFirstSchema | src/main/java/com/navent/swagger/client/generator/PathsGenerator.java:153-165 | the return type is that of the first response with a schema, whatever it is (its `$ref` model class, or Void); Void when no response has a schema |
| PathsGenerator.ReturnType | src/main/java/com/navent/swagger/client/generator/PathsGenerator.java:153-165 | a model-class return type always lives in the package basePackage + ".model" |
| PathsGenerator.CreateMethods | src/main/java/com/navent/swagger/client/generator/PathsGenerator.java:143-169 | createMethods yields exactly one method, and fails only on a missing "operationId" or "responses" |
| PathsGenerator.CreateController | src/main/java/com/navent/swagger/client/generator/PathsGenerator.java:134-141 | a controller is built iff every operation's method is; it is named name + "Controller" and has one method per operation |
| PathsGenerator.FlatMethodsOnePerEndpoint | src/main/java/com/navent/swagger/client/generator/PathsGenerator.java:134-169 | a controller's methods are built iff every operation's are; then there is exactly one method per operation, in order, with its name and return type |
| PathsGenerator.GeneratePaths | src/main/java/com/navent/swagger/client/generator/PathsGenerator.java:110-131 | every generated controller is named after its key + "Controller" and has at least one method |
| PathsGenerator.GeneratePathsSucceeds | src/main/java/com/navent/swagger/client/generator/PathsGenerator.java:110-141 | generatePaths succeeds iff every operation has a controller name and its method can be built |
| PathsGenerator.GeneratePathsControllers | src/main/java/com/navent/swagger/client/generator/PathsGenerator.java:124-141 | controllers are keyed by the names that occur; name n gives class n + "Controller" holding the methods of n's operations, in encounter order |
| ModelGenerator.ResolveTypeTable | generator/src/main/java/com/navent/swagger/client/generator/ModelGenerator.java:68-130 | a property resolves to a type iff its "type" is that type's keyword and, where the type demands one, its "format" matches: integer/int32 Integer, integer/int64 Long, string with no format String, string/date-time Date with shape STRING and pattern "dd-MM-yyyy hh:mm:ss", boolean Boolean, object `Map<String, Object>` |
| ModelGenerator.ResolveType | generator/src/main/java/com/navent/swagger/client/generator/ModelGenerator.java:68-82 | a resolved type is one declared with the property's "type" keyword, and a Date always carries the fixed shape and pattern |
| ModelGenerator.ResolveTypeErrors | generator/src/main/java/com/navent/swagger/client/generator/ModelGenerator.java:68-126 | every failure is an absent key ("type", or "format" of an integer) or the typed exception carrying the offending type or format |
| ModelGenerator.DescriptionOnlyDocuments | generator/src/main/java/com/navent/swagger/client/generator/ModelGenerator.java:84-88 | the description never changes whether or how a field resolves; it only becomes the javadoc |
| ModelGenerator.GenerateField | generator/src/main/java/com/navent/swagger/client/generator/ModelGenerator.java:68-92 | a field is generated iff its type resolves; it is named by its key, typed with the declared keyword, and its javadoc is the description |
| ModelGenerator.GenerateFields | generator/src/main/java/com/navent/swagger/client/generator/ModelGenerator.java:62-66 | one field per property, named by the property's key, in key order |
| ModelGenerator.MapAllCharacterized | generator/src/main/java/com/navent/swagger/client/generator/ModelGenerator.java:62-66 | the stream map/collect succeeds iff every entry does, giving one result per entry in order; a failure is that of the first failing entry |
| ModelGenerator.GenerateModelCharacterized | generator/src/main/java/com/navent/swagger/client/generator/ModelGenerator.java:35-53 | an "object" model is the class `name` with one field per property, named by its key and typed by the resolver, in key order. An absent type gives MissingKey("type"); any other type gives UnknownModelType carrying it |
| ModelGenerator.GenerateModel | generator/src/main/java/com/navent/swagger/client/generator/ModelGenerator.java:35-53 | a generated model has type "object" and "properties", is named `name`, and has as many fields as properties |
| ModelGenerator.GenerateModels | generator/src/main/java/com/navent/swagger/client/generator/ModelGenerator.java:29-33 | one model per definition, named by its key, in key order |
| ModelGenerator.GenerateModelsOnePerDefinition | generator/src/main/java/com/navent/swagger/client/generator/ModelGenerator.java:29-33 | one model per definition, named by its key, in key order; any failure aborts the whole result |
| UniqueItemsValidation.ElementsCount | implementation/src/main/java/com/navent/swagger/client/implementation/validators/UniqueItemsValidator.java:22 | `new HashSet(source).size()` is at most the list size, and equals it iff no element repeats |
| UniqueItemsValidation.UniqueItemsValidator.constructor | implementation/src/main/java/com/navent/swagger/client/implementation/validators/UniqueItemsValidator.java:12 | `unique` starts false |
| UniqueItemsValidation.UniqueItemsValidator.Initialize | implementation/src/main/java/com/navent/swagger/client/implementation/validators/UniqueItemsValidator.java:14-17 | `unique` becomes the annotation's value; nothing else changes |
| UniqueItemsValidation.UniqueItemsValidator.IsValid | implementation/src/main/java/com/navent/swagger/client/implementation/validators/UniqueItemsValidator.java:19-24 | valid iff the flag is off, or the list is null, or its elements are pairwise distinct (which covers the empty list); it modifies nothing |
| UniqueItemsValidation.FreshValidatorAcceptsAll | implementation/src/main/java/com/navent/swagger/client/implementation/validators/UniqueItemsValidator.java:12-22 | before initialize every list is valid |
| UniqueItemsValidation.DefaultValidatorRejectsRepeats | implementation/src/main/java/com/navent/swagger/client/implementation/validators/UniqueItems.java:12 | with the annotation's default value (true), every list in which some element repeats (s[i] == s[j] for i < j) is invalid |
| MultipleOfValidation.MultipleOfValidator.constructor | implementation/src/main/java/com/navent/swagger/client/implementation/validators/MultipleOfValidator.java:11 | the divisor starts as BigDecimal.ZERO, not null |
| MultipleOfValidation.MultipleOfValidator.Initialize | implementation/src/main/java/com/navent/swagger/client/implementation/validators/MultipleOfValidator.java:14-16 | the divisor becomes the annotation's decimal; nothing else changes |
| MultipleOfValidation.MultipleOfValidator.IsValid | implementation/src/main/java/com/navent/swagger/client/implementation/validators/MultipleOfValidator.java:19-34 | A null divisor rejects everything, checked before the source. Otherwise a null or empty source is valid, and a number is valid iff it is an exact integer multiple of the divisor. Calling with a zero divisor and a number is excluded, because `remainder` throws |
| MultipleOfValidation.MultipleOfAligned | implementation/src/main/java/com/navent/swagger/client/implementation/validators/MultipleOfValidator.java:30 | at a common scale, being an exact multiple is divisibility of the aligned unscaled integers |
| MultipleOfValidation.DividesIff | implementation/src/main/java/com/navent/swagger/client/implementation/validators/MultipleOfValidator.java:30 | the remainder is zero iff the divisor divides exactly |
| MultipleOfValidation.RescaleValue | implementation/src/main/java/com/navent/swagger/client/implementation/validators/MultipleOfValidator.java:28-30 | writing more digits after the point (1 vs 1.00) does not change the number |
| MultipleOfValidation.ScaleIrrelevant | implementation/src/main/java/com/navent/swagger/client/implementation/validators/MultipleOfValidator.java:30 | whether a number is a multiple does not depend on the scale either decimal is written with (`compareTo`, not `equals`) |
| MultipleOfValidation.ZeroIsMultiple | implementation/src/main/java/com/navent/swagger/client/implementation/validators/MultipleOfValidator.java:30 | zero, at any scale, is a multiple of every divisor |
| MultipleOfValidation.MultiplesAccepted | implementation/src/main/java/com/navent/swagger/client/implementation/validators/MultipleOfValidator.java:30 | every integer multiple of the divisor is accepted |
| MultipleOfValidation.FreshValidatorAcceptsEmpty | implementation/src/main/java/com/navent/swagger/client/implementation/validators/MultipleOfValidator.java:11-26 | before initialize a null or empty source is valid |

## Left out

- The `generate` entry points of PathsGenerator and ModelGenerator are left out: they write files through JavaPoet and print stack traces, which is I/O.
- The ClientGenerator mains, ContextGenerator, Controllers, Controller, the exception classes and the Spring/Riptide configuration are left out: they are I/O, templating, HTTP dispatch and wiring. None of them is part of this model.
- `generateFromPathsNode` is left out: nothing calls it, and it only assembles JavaPoet types.
- `ParameterizedPathsNode.merge` is left out: nothing calls it. Merging always builds a plain node, so `Merge` loses the parameter class.
- The order of `JSONObject.keySet()` is taken as given: every JSON object is a key-ordered sequence. Hash order is not modelled.
- PathsGenerator.GeneratePaths returns the controllers as a map keyed by name, because the source collects them from a HashMap. When several controllers fail, the model does not say which failure surfaces; it is a ghost choice.
- `createList`, `mergeLists` and `createMethods` build fresh ArrayLists. They are modelled as sequence values inside `Group` and `CreateMethods`, because no list is ever shared or changed after it is built.
- PathsNodes.PathsNode: children may be shared, as in the source. `PutAllChildren` copies the child references, so the result of `Merge` can hold the same child objects as its inputs, and `Valid` does not ask siblings to be disjoint. What the model does not capture is the effect of changing a shared child later: no modelled operation changes a node after it is merged, and `Merge` is proved to leave both inputs unchanged.
- JavaPoet details are left out: name validation, `$` formatting in javadoc, modifiers (PRIVATE, PUBLIC) and annotations (`@Component`, `@Data`). The generated classes are plain values holding names and types.
- JSON values of the wrong kind are left out (say, a number where `getString` expects a string). Only absent keys are modelled, as `MissingKey`.
- `String.toUpperCase` is modelled on ASCII letters only. Locale-specific case mappings are left out.
- MultipleOfValidation.MultipleOfValidator.Initialize: parsing the annotation's string with `new BigDecimal(annotation.value())` is left out. The annotation arrives holding an already parsed decimal, so a `NumberFormatException` on a non-numeric annotation value is not modelled.
- MultipleOfValidation.MultipleOfValidator.IsValid: parsing the source with `new BigDecimal(source)` is left out. The source arrives as an already parsed decimal, so a `NumberFormatException` on a non-numeric string is not modelled. A zero divisor with a numeric source is a precondition, where the source throws `ArithmeticException`.
- MultipleOfValidation.MultipleOfValidator: a null divisor cannot arise from the constructor or `initialize`. The field is still an `Option`, so the source's null check is modelled.
- UniqueItemsValidation.UniqueItemsValidator.IsValid works on any element type with equality. Java's `equals`/`hashCode` contracts are assumed to agree with that equality.
