# Telo analyzer: verified models

This project models parts of Telo's manifest analyzer, and one documentation generator, in Dafny, and proves what
their comments and callers rely on. The analyzer reads YAML manifests into JavaScript values, so most of what is here
is about printing, walking, copying and indexing such values. Each file holds one module.

| Area | Files |
|---|---|
| Canonical JSON: a printer whose strings are compared for equality | `JsonValue`, `CanonicalJson`, `CanonicalText`, `CanonicalCollision` |
| Accessor fields: found by a walk, judged, and replaced in a copy that shares everything else | `AccessorTree`, `AccessorWriter`, `AccessorBinding`, `AccessorFields` |
| Artifact selectors and the layer index of a published module | `ArtifactSelector`, `SelectorRules`, `ArtifactLayerIndex`, `LayerRules` |
| `x-telo-application-source`: a lenient and a strict reader of one annotation, JSON Pointers, and a walk of cyclic values | `JsonPointer`, `ObjectGraph`, `ApplicationSource`, `ApplicationSourceWalk`, `ApplicationSourceAnnotation`, `ApplicationSourceStrict`, `ApplicationSourceRules` |
| Command-line bindings of an application | `ApplicationArguments`, `ArgumentRules` |
| The bounded chase of extracted declarations | `OriginChase` |
| `!cel` leaves and the slots they are checked against | `CelLeaves`, `CelSlots`, `CelConjuncts`, `CelGroups`, `CelUnions`, `CelCoverage` |
| Shell quoting of generated commands, and fences around code | `ShellCommand`, `ShellRules`, `Fencing`, `FencingRules`, `FenceReading` |
| Shared datatypes and list facts | `Prelude`, `PathText` |

## How the models are made

Code that changes things step by step is a method with loops over a class's fields or local variables, proved equal
to a function; the properties are lemmas about that function. Expressions and recursions are functions. What such a
function means is said again without it, from the values alone: the files named `...Rules`, `CanonicalText` and the
lemmas named `...Exactly` do this, with closed examples beside them.

- **Object graphs.** `AccessorTree.Node` is an array or object on the heap, with sharing. A `Graph` is a ghost
  picture of it (the contents of each node, and a rank that falls along every edge, which is how "no cycles" is
  said); `Depicts` links picture and heap. `AccessorWriter.WithAccessorBindings` has no `modifies` clause: nothing
  reachable from its input changes, and every copy it makes is fresh. Graphs that are only read
  (`ObjectGraph.Heap`) are maps from identities to contents, cycles allowed.
- **Parameters.** What the analyzer asks of code outside these files is a parameter: the accessor field a path text
  names, what an engine says of a tag, how a schema reference is resolved and which union branches fit, the kind
  document a name resolves to, the field a kind is annotated with, loop bindings and the path grammar. Every
  theorem holds for all of them.
- **Errors.** Thrown errors and pushed diagnostics are results or lists of structured problems; their wording is not
  modelled.

## Where the code and its documentation part

- `canonical-json.ts` says its strings "cannot collide". They are equal exactly when the values are the same after
  reading NaN, infinities, functions, symbols and misplaced `undefined` as `null`, and `-0` as `0`
  (`CanonicalDecides`). So they never collide on values JSON can express (`JsonNeverCollides`), and every other value
  has the string of a value it is not equal to (`OthersCollide`).
- `applicationSourceAnnotationProblems` refuses a pointer that "names no property this kind's schema declares". It asks
  with the `in` operator, so a pointer whose last segment is a name every object inherits passes:
  `DeclaresExactly` is the exact condition, `ConstructorPasses` the example `/constructor`.
- Its `targets` map compares pointer texts, meaning to give each block a map of its own. Two blocks of an annotation it
  accepts are fed by one map exactly when their pointers are one text once each `~` that begins no escape is escaped
  (`HonouredFeeds`, `ReadAlikeExactly`): never where both are well escaped, and always for the `/a~b` and `/a~0b` of the
  schema in `OneMapFeedsTwo`, in which nothing is refused.
- A `!cel` leaf is meant to be checked against a slot. The slot walk passes over a key that is no member of a value type,
  where the leaf walk goes on: `SlotsExactly` and `NoLeafEscapes` give the exact condition, `UnknownMemberEscapes` the
  leaves without a slot and `OtherKeyEscapes` one of them. An object that states known members only has a slot for every
  leaf (`StatedHasSlots`).
- `pathText` says it quotes a key that is no identifier; it writes every name as it is. `parseKeys` reads its text back
  exactly when no name is empty or holds a `.`, `[` or `]` (`TextReadExactly`).
- `fenceIndentedBlocks` always writes three backticks, where `fenceFor` beside it counts. A reader of fences alone takes
  what it writes for its parts exactly when no line left as it was opens a fence and no line of a block closes three
  backticks (`OutputReadExactly`); the indented line of three backticks in `BackticksMisread` is read as two empty
  blocks. A text between the fences `fenceFor` chooses is always read back (`SourceReadBack`).
- The address in a generated command is printed as it is, and so are variable names: the line is read back exactly when
  they need no quoting (`ShellReadsBack`; `TildeInsideIsRead` for characters that are special in some places only).
- A memoised selector key is right as long as no keyed selector object changes (`KeyMemo.StaysValid`: exactly then).

## Model

| member | source | states |
|---|---|---|
| CanonicalJson.CanonicalDecides | analyzer/nodejs/src/canonical-json.ts:17-24 | Two canonical strings are equal exactly when the values are structurally equal: `undefined` entries dropped, key order forgotten, parts without a JSON form read as `null` |
| CanonicalJson.ReadCanonical | analyzer/nodejs/src/canonical-json.ts:17-24 | A reader after RFC 8259 (sections 5 to 7), given the canonical string followed by any delimiter-led text, returns the value's normal form and exactly that text |
| CanonicalJson.ReadPrintedNumber | analyzer/nodejs/src/canonical-json.ts:18 | Every finite number is read back from the text ECMAScript prints for it, in each of the four layouts (whole, mixed, small, exponent) |
| JsonValue.NormalDecidesSame | analyzer/nodejs/src/canonical-json.ts:20-22 | The sorted normal form decides the order-free structural equality, in both directions |
| JsonValue.SortedUnique | analyzer/nodejs/src/canonical-json.ts:20-22 | Two lists sorted by key with the same entries are the same list, so sorting forgets the order keys were written in |
| JsonValue.LessExactly | analyzer/nodejs/src/canonical-json.ts:20-22 | One key is less than another exactly when they agree up to a place where the first ends and the other does not, or where both have a code unit and the first's is smaller |
| CanonicalText.KeysAscend | analyzer/nodejs/src/canonical-json.ts:20-23 | In every object of what is read from a canonical string, the keys stand in strictly ascending order of code units |
| CanonicalText.StringExactly | analyzer/nodejs/src/canonical-json.ts:18 | A string is printed between quotes, unit by unit: `"` and `\` behind a backslash, the five controls with a letter by it, other controls and lone surrogates as `\u` with four hexadecimal digits, all else as it is |
| CanonicalText.LayoutExactly | analyzer/nodejs/src/canonical-json.ts:18 | A number is printed with an exponent exactly when its point is beyond 21 digits or more than five zeros before the first; otherwise the point stands where the number has it |
| CanonicalText.KeysByExample | analyzer/nodejs/src/canonical-json.ts:20-23 | By example: the entries `b`, `a`, both null, are printed with `a` first |
| CanonicalText.NumbersByExample | analyzer/nodejs/src/canonical-json.ts:18 | By example: the texts of 1e21, 1.5e-7, -1.5 and -0 |
| CanonicalCollision.JsonNeverCollides | analyzer/nodejs/src/canonical-json.ts:12-15 | On values JSON can express, equal strings mean equal values and nothing less |
| CanonicalCollision.OthersCollide | analyzer/nodejs/src/canonical-json.ts:12-15 | Every value with a part JSON cannot express shares its string with another value |
| AccessorWriter.WithAccessorBindings | analyzer/nodejs/src/accessor-binding.ts:243-268 | With no field the resource itself is returned; otherwise a fresh copy that stands for the resource with exactly its fields replaced. Each container on the way to a field, and no other, is copied once for each place it is found at; nothing of the input changes |
| AccessorWriter.CopyChild | analyzer/nodejs/src/accessor-binding.ts:250-261 | A container already copied is returned as it is; otherwise a fresh copy takes its place in its holder and joins the set, and what is known of every other copy stays true |
| AccessorWriter.FreshCopy | analyzer/nodejs/src/accessor-binding.ts:253-260 | The copy holds what its original holds, and only the holder's one key changes |
| AccessorWriter.WriteFields | analyzer/nodejs/src/accessor-binding.ts:263-267 | After the loop exactly the fields are written and exactly the containers before them are copied, all of them made by the loop |
| AccessorWriter.UnfoldCopy | analyzer/nodejs/src/accessor-binding.ts:238-242 | Each copy stands for its original's tree with the fields beneath its place replaced, though originals may be shared between places |
| AccessorWriter.BindingsIgnoreOrder | analyzer/nodejs/src/accessor-binding.ts:263-267 | For paths none of which begins another, the order of the fields does not change what is written |
| AccessorTree.UnfoldShared | analyzer/nodejs/src/accessor-binding.ts:238-242 | A value shared by identity stands for the same tree in any graph that only adds nodes |
| AccessorFields.FieldsExact | analyzer/nodejs/src/accessor-binding.ts:87-115 | The walk lists exactly the outermost accessor fields that hold a value, each with its site, path, keys and the value found there; none beneath a tag or another field |
| AccessorFields.FieldsApart | analyzer/nodejs/src/accessor-binding.ts:94-112 | The fields listed have distinct paths, none of which begins another |
| AccessorFields.FieldWalker.Walk | analyzer/nodejs/src/accessor-binding.ts:94-112 | The walk appends to its list the fields at and beneath a value, in order |
| AccessorFields.FieldsWritable | analyzer/nodejs/src/accessor-binding.ts:243-268 | What the walk finds is always a set of paths the writer can replace: none empty, none the beginning of another, each at a key there is |
| AccessorFields.Deliver | kernel/nodejs/src/accessor-bindings.ts:20-42 | A resource is refused exactly when some accessor field holds neither a chain of its own nor a literal free of tags; otherwise it is delivered with each outermost accessor field, and nothing else, replaced by its binding, the input untouched |
| AccessorFields.DeliverCompiledChain | kernel/nodejs/src/accessor-bindings.ts:20-41 | By example: a compiled `!cel "row.done"` in a field bound to `row` is delivered as the chain with root `row` and path `done` |
| AccessorFields.RefuseNonChainAccessors | kernel/nodejs/src/accessor-bindings.ts:20-40 | Returns the fields found, and refuses exactly when one of them has a problem |
| AccessorBinding.AcceptedExactly | analyzer/nodejs/src/accessor-binding.ts:128-205 | A value may stay exactly when it is a plain chain rooted at one of the field's bindings, or holds no unresolved tag at any depth |
| AccessorBinding.TagsExact | analyzer/nodejs/src/accessor-binding.ts:181-204 | The problems beneath a literal are exactly the unresolved tags at every depth, each at its own path |
| AccessorBinding.TagWalker.Walk | analyzer/nodejs/src/accessor-binding.ts:181-202 | The walk appends exactly those problems, in order |
| AccessorBinding.DeliveredExactly | analyzer/nodejs/src/accessor-binding.ts:222-236 | An accepted value becomes a chain whose root is a binding of the field and whose identifiers, joined by dots, are the text written, or the value itself with no unresolved tag in it |
| AccessorBinding.ChainParts | templating/nodejs/src/sentinel.ts:79-85 | The chain pattern accepts exactly the texts whose dot-separated parts are all identifiers |
| AccessorBinding.ChainExactly | templating/nodejs/src/sentinel.ts:79-85 | A tag is a chain exactly when it carries a sentinel's marks, compiled or not, its engine is `cel` and its trimmed source is identifiers joined by dots; the chain is then that text |
| AccessorBinding.BindingExactly | analyzer/nodejs/src/accessor-binding.ts:222-236 | A value is delivered as the chain its identifiers write, root and path, where the tag was not resolved earlier, and as itself otherwise |
| AccessorBinding.TagProblemsExactly | analyzer/nodejs/src/accessor-binding.ts:128-170 | An open tag at the field is reported as no chain exactly when no identifiers write it, as unbound exactly when the first is no binding of the field, and else not at all |
| ArtifactSelector.SelectorFromQualifiers | analyzer/nodejs/src/artifact-selector.ts:125-139 | The loop over the axes builds, in a fresh object, the selector of the qualifiers, or fails exactly when a stated value is no token of its axis |
| ArtifactSelector.NormalizeFixes | analyzer/nodejs/src/artifact-selector.ts:97-118 | A value is left as it is by normalisation exactly when it is already normal, so normalising twice is normalising once |
| ArtifactSelector.NormalizeRendered | analyzer/nodejs/src/artifact-selector.ts:150-163 | A normalised selector written out and read again is the same selector |
| ArtifactSelector.KeyInjective | analyzer/nodejs/src/artifact-selector.ts:165-185 | Two normalised selectors have one key exactly when they have the same format and the same value or absence on every axis |
| ArtifactSelector.KeyIgnoresAxisOrder | analyzer/nodejs/src/artifact-selector.ts:176-182 | The key is the same whatever order the vocabulary lists its axes in |
| ArtifactSelector.KeyMemo.SelectorKey | analyzer/nodejs/src/artifact-selector.ts:171-187 | The memo answers with the key of the selector asked for, computed or remembered, and remembers only that |
| ArtifactSelector.KeyMemo.SelectorKeys | analyzer/nodejs/src/artifact-selector.ts:171-187 | Over any run of calls two answers are equal exactly when the selectors are |
| ArtifactSelector.KeyMemo.StaysValid | analyzer/nodejs/src/artifact-selector.ts:172-175 | After any change to the heap the memo is still right exactly when no keyed selector has become another one |
| ArtifactSelector.SelectorMatches | analyzer/nodejs/src/artifact-selector.ts:203-211 | The early-exit loop answers true exactly when the format agrees, where the target states one, and the target has the selector's value on every axis the selector states |
| ArtifactSelector.UndeterminedAxesBlockingMatch | analyzer/nodejs/src/artifact-selector.ts:219-232 | Returns the open axes in order when the target contradicts nothing and leaves some open, and nothing otherwise |
| ArtifactSelector.MatchingTrichotomy | analyzer/nodejs/src/artifact-selector.ts:203-232 | A selector matches; or the blocking axes are what a filling must supply from the selector, no more and no less, to make it match; or no filling of undetermined axes can |
| SelectorRules.NormalizeExactly | analyzer/nodejs/src/artifact-selector.ts:97-118 | A raw value is read as `x` exactly when it is a text that holds `x`, some letters perhaps upper-case, between white space, and `x` is a token, in the form its axis asks for |
| SelectorRules.QualifiersExactly | analyzer/nodejs/src/artifact-selector.ts:125-139 | A selector is read from qualifiers exactly when it has the token its format spells, and on each axis that is stated, and no other, the token spelled there; an axis absent or empty is not stated |
| SelectorRules.PublishedExactly | analyzer/nodejs/src/artifact-selector.ts:150-163 | A published selector is known exactly when it is an object whose format and axes are so read and that has no other key, and for a newer runtime exactly when they are and it has one |
| SelectorRules.KeyExactly | analyzer/nodejs/src/artifact-selector.ts:165-185 | The key is the `name=value` texts of the format and the axes stated, no others, in strictly ascending order, joined by `;` |
| SelectorRules.KeyByExample | analyzer/nodejs/src/artifact-selector.ts:176-182 | By example: the key `arch=x64;format=js;os=linux` |
| ArtifactLayerIndex.ParseLayerIndex | analyzer/nodejs/src/artifact-layer-index.ts:88-159 | Succeeds exactly when no entry is malformed and no two understood entries claim one address, and returns the understood ones in order |
| ArtifactLayerIndex.SeenKeyInjective | analyzer/nodejs/src/artifact-layer-index.ts:127-137 | The text kept in `seenSelectors` stands for one role and one selector |
| ArtifactLayerIndex.ReparseIsIdentity | analyzer/nodejs/src/artifact-layer-index.ts:88-159 | A parsed index, written out, is accepted and parsed to itself |
| ArtifactLayerIndex.ForwardCompatible | analyzer/nodejs/src/artifact-layer-index.ts:110-126 | A well-formed entry of an unknown role, or one whose valid selector states an unknown axis, inserted anywhere, changes neither whether the parse succeeds nor what it returns |
| ArtifactLayerIndex.LookupsFindTheAddress | analyzer/nodejs/src/artifact-layer-index.ts:161-194 | Each lookup finds a layer exactly when that layer is the one at the address asked for |
| ArtifactLayerIndex.LookupsIgnoreOrder | analyzer/nodejs/src/artifact-layer-index.ts:161-194 | Every permutation of a parsed index gives the same answers |
| ArtifactLayerIndex.MatchCodeLayersGrows | analyzer/nodejs/src/artifact-layer-index.ts:196-210 | Determining more of a target only adds layers, in declaration order |
| ArtifactLayerIndex.MatchCodeLayersExactly | analyzer/nodejs/src/artifact-layer-index.ts:196-210 | The result is the index with, of each layer, every occurrence kept or none: kept exactly when the role is controller or library and its selector agrees with the target on the format and on every axis it states; the order is the index's |
| ArtifactLayerIndex.LibraryIsWarmed | analyzer/nodejs/src/artifact-layer-index.ts:196-210 | By example: of a native, a library and a native layer for `js`, a target that leaves the format open gets the library layer |
| LayerRules.UnderstoodExactly | analyzer/nodejs/src/artifact-layer-index.ts:88-126 | An entry is understood as a layer exactly when it states its role, a blob digest of 64 hexadecimal digits and an integrity of 43 base64 characters, and the selector the layer has where the role carries one, and none where it does not |
| LayerRules.SkippedOnly | analyzer/nodejs/src/artifact-layer-index.ts:110-126 | An entry is passed over exactly when it states a role and both digests and the role is unknown, or carries a selector and that is for a newer runtime |
| JsonPointer.UnescapeDecodes | analyzer/nodejs/src/application-source-slot.ts:59-66 | The two global replacements, one after the other, are the one-pass decoder of section 4 of RFC 6901 on every text |
| JsonPointer.PointerRoundTrip | analyzer/nodejs/src/application-source-slot.ts:59-66 | Any non-empty list of non-empty segments, encoded after section 3 of RFC 6901, is read back |
| JsonPointer.EncodesBackExactly | analyzer/nodejs/src/application-source-slot.ts:59-66 | A readable pointer is the encoding of what is read from it exactly when it is well escaped |
| JsonPointer.PointersInjective | analyzer/nodejs/src/application-source-slot.ts:59-66 | Distinct well-escaped pointers are read as distinct lists |
| JsonPointer.ReadAlikeExactly | analyzer/nodejs/src/application-source-slot.ts:59-66 | Two readable pointers are read alike exactly when, with each `~` that begins no escape escaped, they are one text |
| JsonPointer.IllEscapedCollides | analyzer/nodejs/src/application-source-slot.ts:59-66 | Every readable pointer that is not well escaped reads as another, well-escaped one does |
| JsonPointer.SegmentsExactly | analyzer/nodejs/src/application-source-slot.ts:59-66 | A pointer is read as segments exactly when it is a `/` and parts without one, joined by `/`, each of which decodes to its segment, none empty |
| JsonPointer.PointerByExample | analyzer/nodejs/src/application-source-slot.ts:59-66 | By example: `/a~1b/01` is read as `a/b` and `01` |
| ApplicationSource.ReadFeeds | analyzer/nodejs/src/application-source-slot.ts:70-78 | Nothing for a value that is no plain object; otherwise a feed for exactly the blocks whose pointer can be read, each the segments read |
| ApplicationSource.ReadApplicationSourceSlot | analyzer/nodejs/src/application-source-slot.ts:85-93 | The slot is that of the first top-level property with a readable annotation, and there is none exactly when no property has one |
| ApplicationSource.SlotFieldExactly | analyzer/nodejs/src/application-source-slot.ts:85-93 | The field is that of the first entry of `properties` which is a plain object with a plain object as its annotation |
| ApplicationSource.Scope.ParentExactly | analyzer/nodejs/src/application-source-slot.ts:124-131 | A document inherits from another exactly when its schema annotates no field, it has no `base`, and its module knows the other by the name it extends |
| ApplicationSource.ApplicationSourceFieldOf | analyzer/nodejs/src/application-source-slot.ts:115-132 | Answers, on any chain of parents and also a circular one, exactly when some document upward is annotated before the chain ends, with that document's field |
| ApplicationSourceWalk.ApplicationSourceCandidates | analyzer/nodejs/src/application-source-slot.ts:140-163 | Terminates on every finite graph and returns exactly the non-empty texts written at the annotated field of plain objects, with a string kind, that the manifests can reach through items of arrays and entries of plain objects |
| ApplicationSourceWalk.SourceFinder.Visit | analyzer/nodejs/src/application-source-slot.ts:146-160 | What a visit enters is reachable and, cycles or not, entered in full: everything an entered object leads to has been entered too |
| ApplicationSourceWalk.SeenExactly | analyzer/nodejs/src/application-source-slot.ts:144-162 | The final `seen` set is the set of reachable objects |
| ApplicationSourceWalk.InnerExactly | analyzer/nodejs/src/application-source-slot.ts:149-159 | A value is entered from an object exactly when the object is an array that holds it as an item, or a plain object that holds it as an entry |
| ApplicationSourceWalk.FindListedChild | analyzer/nodejs/src/application-source-slot.ts:149-152 | By example: the source of an item of a list is found |
| ObjectGraph.GetExactly | analyzer/nodejs/src/application-source-slot.ts:70-78 | Reading a key gives the first entry with it, else what every object inherits, else nothing |
| ApplicationSourceAnnotation.DeclaresExactly | analyzer/nodejs/src/application-source-slot.ts:194-204 | A pointer is held to name a declared property exactly when the schema declares one there, or only its last key is undeclared and one every object inherits |
| ApplicationSourceAnnotation.ConstructorPasses | analyzer/nodejs/src/application-source-slot.ts:194-204 | A schema that declares nothing and passes `/constructor` |
| ApplicationSourceAnnotation.DeclaresProperty | analyzer/nodejs/src/application-source-slot.ts:195-204 | The loop with its early exit decides `Declares` |
| ApplicationSourceAnnotation.FaultlessExactly | analyzer/nodejs/src/application-source-slot.ts:232-312 | An annotation on a top-level property has no fault exactly when the property is a literal string, the value an object of known blocks, and each block written a pointer of its own to a declared property other than the source |
| ApplicationSourceStrict.AnnotationChecker.Judge | analyzer/nodejs/src/application-source-slot.ts:232-312 | Adds exactly the problems of one annotation, given where it is and whether one was met before |
| ApplicationSourceStrict.AnnotationChecker.VisitNode | analyzer/nodejs/src/application-source-slot.ts:314-331 | A visit keeps the log genuine: each schema once, at a path that leads to it, as a top-level property exactly where it is one that no top-level property before it leads to; and enters each new schema in full |
| ApplicationSourceStrict.ApplicationSourceAnnotationProblems | analyzer/nodejs/src/application-source-slot.ts:215-333 | The problems are the verdict over one visit of each reachable schema |
| ApplicationSourceStrict.JudgedExactly | analyzer/nodejs/src/application-source-slot.ts:228-258 | The verdict is free of problems exactly when no visit meets an annotation, or one does, as a top-level property, and the annotation has no fault |
| ApplicationSourceStrict.StrictImpliesLenient | analyzer/nodejs/src/application-source-slot.ts:80-93 | With no problem, an annotation anywhere in the schema is the only one, sits on a top-level property, is the one the readers return, and can be honoured |
| ApplicationSourceStrict.HonouredFeeds | analyzer/nodejs/src/application-source-slot.ts:68-78 | The readers then return a feed for exactly the blocks written, each its decoded pointer, declared, not the source field; two blocks are fed by one map exactly when their pointers, tidied, are one text |
| ApplicationSourceStrict.OneMapFeedsTwo | analyzer/nodejs/src/application-source-slot.ts:279-312 | A schema whose annotation is honoured and in which nothing is refused, though the pointers `/a~b` and `/a~0b` feed two blocks from one map |
| ApplicationSourceStrict.StrictExactly | analyzer/nodejs/src/application-source-slot.ts:206-333 | For any schema, shared and cyclic nodes included, nothing is refused exactly when no reachable node is annotated, or one is, it is a top-level property that none before it leads to, and its annotation can be honoured |
| ApplicationSourceRules.SubschemasExactly | analyzer/nodejs/src/application-source-slot.ts:175-186 | A schema is visited from another exactly when it stands at one of the keys that hold a schema, a list of schemas or schemas by name; it counts as a top-level property exactly under the root's `properties` |
| ApplicationSourceRules.BlockFaultExactly | analyzer/nodejs/src/application-source-slot.ts:279-312 | Which fault a block's pointer has: none, no pointer, the source itself, undeclared, or the pointer of an earlier block, which is named |
| ApplicationSourceRules.FaultsExactly | analyzer/nodejs/src/application-source-slot.ts:258-312 | Which problems an annotation on a top-level property has, each at its path: the type, `x-telo-eval`, a value that is no object, its unknown keys, and the fault of each block |
| ApplicationSourceRules.AcceptedExactly | analyzer/nodejs/src/application-source-slot.ts:206-333 | `StrictExactly` said from the values alone: no problem is found exactly when nothing within the root is annotated, or one schema is, met first as a top-level property, a written string with an object of known blocks, each given a pointer of its own to a declared property that is not the source |
| ApplicationArguments.ReadApplicationArguments | analyzer/nodejs/src/application-arguments.ts:91-125 | The bindings are the flags in declaration order and then the positions in order; the issues are those of the entries, of repetition and of positions, in that order |
| ApplicationArguments.NoBindingLostSilently | analyzer/nodejs/src/application-arguments.ts:88-125 | The bindings declared minus those returned are as many as the duplicate positions reported, each missing one is reported at its own entry, nothing is invented, and flags keep their order |
| ApplicationArguments.GapsExactly | analyzer/nodejs/src/application-arguments.ts:240-272 | No gap is reported exactly when the positions bound are an initial segment of the naturals |
| ApplicationArguments.RepeatsExactly | analyzer/nodejs/src/application-arguments.ts:212-238 | Nothing is reported as repeated exactly when no two bindings share a flag, a short or a position |
| ApplicationArguments.NoIssuesExactly | analyzer/nodejs/src/application-arguments.ts:88-125 | Nothing is reported exactly when every entry is sound on its own, no two bindings share a flag, a short or a position, and the positions are 0 to n-1 with only the last collecting |
| ArgumentRules.BoundExactly | analyzer/nodejs/src/application-arguments.ts:127-210 | An entry is read as a binding exactly when it has the binding's type, a scalar or an array of them, and its `arg` writes the position, the type being no boolean, or the flag, with its short letter if any, the flag being none that is reserved or begins with `no-` and the type no array of booleans |
| ArgumentRules.WrongExactly | analyzer/nodejs/src/application-arguments.ts:127-210 | An entry is refused as invalid exactly when it has no such type, or writes a position for a boolean, a flag that begins with `no-` or is `help`, or a flag for an array of booleans; each problem for its own case |
| ArgumentRules.EntryIssuesExactly | analyzer/nodejs/src/application-arguments.ts:91-125 | An issue is reported for an entry exactly when the entry is refused with it, or the issue is a missing default and the entry is a variable with a type, no text as `env` and no default |
| ArgumentRules.DeclaredExactly | analyzer/nodejs/src/application-arguments.ts:91-125 | A binding is declared exactly when some entry of a block that is read gives it |
| ArgumentRules.VerboseByExample | analyzer/nodejs/src/application-arguments.ts:127-191 | By example: a boolean with a default and a short flag is bound without an issue |
| ArgumentRules.FilesByExample | analyzer/nodejs/src/application-arguments.ts:127-168 | By example: an array of strings at a position is bound, and reported for having no default |
| ApplicationArguments.Unambiguous | analyzer/nodejs/src/application-arguments.ts:67-125 | With no issue every spelling, `--no-` forms and shorts included, belongs to at most one binding, `--help` to none, and positions are 0 to n-1 in order with only the last collecting |
| ArgumentRules.SpellingsExactly | analyzer/nodejs/src/application-arguments.ts:67-82 | A flag is spelled with two dashes, a boolean's also with `--no-`, and its short with one dash; there are no other spellings |
| ApplicationArguments.ArgumentReader.CheckUniqueness | analyzer/nodejs/src/application-arguments.ts:212-238 | The loop with its three maps reports, for each binding, what it repeats of those before it |
| ApplicationArguments.ArgumentReader.CheckPositions | analyzer/nodejs/src/application-arguments.ts:242-272 | Returns the first binding of each position, sorted, and reports each gap and each array that is not last |
| OriginChase.LoopBindingsAtPath | analyzer/nodejs/src/analyzer.ts:920-942 | The guarded loop answers at once, or as the chase of as many rounds as there are entries and one more |
| OriginChase.RoundExactly | analyzer/nodejs/src/analyzer.ts:928-938 | One round carries a path at an entry exactly to the keys it was written at in the first entry with the name it was extracted from, and stops where there is none |
| OriginChase.RoundByExample | analyzer/nodejs/src/analyzer.ts:928-938 | By example: a path in an entry extracted from `items[3]` of another is carried there, and stops there |
| OriginChase.ChaseFindsNearest | analyzer/nodejs/src/analyzer.ts:927-941 | A chase of some rounds finds exactly the bindings of the nearest ancestor, within them, that has any |
| OriginChase.ExhaustionProvesCycle | analyzer/nodejs/src/analyzer.ts:927-941 | Running out of rounds proves that the origins run in a circle |
| OriginChase.BoundIsComplete | analyzer/nodejs/src/analyzer.ts:927-941 | On acyclic origins the guard is never reached, and more rounds give the same answer |
| OriginChase.AnswersNearest | analyzer/nodejs/src/analyzer.ts:914-942 | On acyclic origins the answer is the bindings of the nearest ancestor that has any, however far up |
| CelLeaves.CelLeavesOf | analyzer/nodejs/src/analyzer.ts:2923-2946 | The walk finds the leaves of the value at the place asked for, and none when there is no such place |
| CelLeaves.LeavesExact | analyzer/nodejs/src/analyzer.ts:2929-2943 | The leaves of a value are the `!cel` sentinels at every depth, and nothing else |
| CelLeaves.LeavesAtExactly | analyzer/nodejs/src/analyzer.ts:2923-2946 | The leaves at or beneath a place are the `!cel` sentinels at every depth of the value that stands there, each key of the place naming an item or an entry of the value before |
| CelSlots.DeclaredCelSlots | analyzer/nodejs/src/analyzer.ts:4015-4131 | The walk of data and schema, with its loops over items, members and map values, collects the declared slots in order |
| CelSlots.UnionSlots | analyzer/nodejs/src/analyzer.ts:4038-4064 | The slots of every fitting branch are gathered by path, one schema once, and joined |
| CelSlots.CollectCelValueSlots | analyzer/nodejs/src/analyzer.ts:3966-3976 | Each declared slot is returned with the shape its declaration names |
| CelConjuncts.ConjunctsExactly | analyzer/nodejs/src/analyzer.ts:3994-4010 | On circular `allOf` too: the node first, then only what `allOf` leads to, each schema once, and of each all of its own conjuncts |
| CelCoverage.SlotsExactly | analyzer/nodejs/src/analyzer.ts:4015-4131 | For any data and schema, a path text has a slot exactly when it is the text of a leaf that some way of the walk reaches: not every way ends at a key that is no member of a value type |
| CelCoverage.SlotsAreLeaves | analyzer/nodejs/src/analyzer.ts:2923-2946 | Every slot is at the path of a leaf the leaf walk finds |
| CelCoverage.LeafEscapes | analyzer/nodejs/src/analyzer.ts:4103-4112 | A leaf whose path text is its own has a slot exactly when it is not stopped at such a key |
| CelCoverage.NoLeafEscapes | analyzer/nodejs/src/analyzer.ts:2923-2946 | Every leaf has a slot exactly when at each leaf's path text some leaf is not stopped; with keys that are not empty and hold no `.` or `]`, exactly when no leaf is |
| CelCoverage.StatedHasSlots | analyzer/nodejs/src/analyzer.ts:4103-4112 | Where each object read as a value type's members holds leaves at known members only, every leaf has a slot |
| CelCoverage.UnknownMemberEscapes | analyzer/nodejs/src/analyzer.ts:4103-4112 | Under any reader with such members, a leaf at a key that is none of them is stopped and has no slot |
| CelCoverage.OtherKeyEscapes | analyzer/nodejs/src/analyzer.ts:4103-4112 | By example: under a value type with the one member `known`, a leaf at `known` has a slot and a leaf at `other` has none |
| PathText.TextInjective | analyzer/nodejs/src/template-expansion.ts:868-875 | Paths whose keys are not empty and hold no `.` or `]` are told apart by their texts |
| PathText.TextReadExactly | analyzer/nodejs/src/template-expansion.ts:868-886 | `parseKeys` reads a path back from its text exactly when no name in it is empty or holds a `.`, `[` or `]` |
| PathText.TextByExample | analyzer/nodejs/src/template-expansion.ts:868-875 | By example: the text `a.b[10][2]` |
| PathText.KeysByExample | analyzer/nodejs/src/template-expansion.ts:877-886 | By example: the keys of `a[].b`, brackets without a number being passed over |
| CelGroups.UnionExactly | analyzer/nodejs/src/analyzer.ts:4033-4062 | Under an ambiguous union there is one slot for each path at which a branch has one, in the order the paths are met; it is the only one held there, or the union of the shapes declared there, each schema once and in order |
| CelUnions.EveryBranchHeld | analyzer/nodejs/src/analyzer.ts:4033-4062 | Under an ambiguous union, whatever a branch declares for a leaf is accepted by the slot at that leaf's path |
| CelUnions.OnlyBranchesHeld | analyzer/nodejs/src/analyzer.ts:4033-4062 | Such a slot accepts nothing but what some branch declares at that path |
| CelUnions.EntriesExactly | analyzer/nodejs/src/analyzer.ts:4082-4131 | The slots of an object are those of each member under each schema that declares it: the schema any conjunct states for the key, each of them; where none does, what the first conjunct with a map value states, or the open schema |
| CelUnions.ItemsExactly | analyzer/nodejs/src/analyzer.ts:4082-4105 | The slots of a list are those of each item under every item schema a conjunct states, or under the open schema where none does |
| CelUnions.MembersExactly | analyzer/nodejs/src/analyzer.ts:4106-4115 | The slots of an object of a value type's members are those of each known member under its own schema |
| CelUnions.SelectsExactly | analyzer/nodejs/src/analyzer.ts:4066-4068 | The conjuncts are those of the schema referred to, or of the one branch that was selected, referred to in its turn |
| CelUnions.BranchesExactly | analyzer/nodejs/src/analyzer.ts:4033-4037 | Branches are joined exactly for arrays and objects that more than one branch fits, and they are those |
| CelUnions.PortHeldTwice | analyzer/nodejs/src/analyzer.ts:3962-3964 | By example: a member that a schema and an `allOf` conjunct of it both declare has a slot for each |
| ShellCommand.ShellReadsBack | pages/lib/generate-examples-index.ts:310-316 | A POSIX shell (Shell Command Language, sections 2.2.1, 2.2.2 and 2.3) reads the rendered line as exactly the assignments and tokens it was printed from, one word each, whatever characters they hold, exactly when every variable is a name and the address needs no quoting |
| ShellCommand.AddressReadExactly | pages/lib/generate-examples-index.ts:314-315 | Whatever tokens follow it, an unquoted address is read as one word that is the address exactly when it has no blank, quote, backslash or special character and does not begin with `#` or `~` |
| ShellCommand.TildeInsideIsRead | pages/lib/generate-examples-index.ts:314-315 | By example: an address is read back with a tilde, braces, `!` and `]` inside it, and is not with a tilde at its beginning |
| ShellCommand.LexQuoted | pages/lib/generate-examples-index.ts:221-224 | A single-quoted value, quotes and newlines in it, is read as one piece of a word |
| ShellCommand.LexArgument | pages/lib/generate-examples-index.ts:174-178 | A token, bare or quoted, empty or not, is read as one word that is that token |
| ShellCommand.LexAssignment | pages/lib/generate-examples-index.ts:226-229 | A binding of the prefix is read as one word |
| ShellRules.ArgQuoteExactly | pages/lib/generate-examples-index.ts:174-178 | A token is printed as it stands exactly when it is not empty and made of letters, digits and `._/:@%+=,-`, and in single quotes otherwise |
| ShellRules.ShellQuoteExactly | pages/lib/generate-examples-index.ts:218-224 | A value is printed as it stands exactly when it is a decimal number or a boolean, and in single quotes otherwise |
| ShellRules.LineByExample | pages/lib/generate-examples-index.ts:310-316 | By example: a line with a quoted and a bare assignment, the address, a bare and a quoted token |
| ShellRules.PlainExactly | pages/lib/generate-examples-index.ts:314-315 | An address needs no quoting exactly when it is not empty, begins neither a comment nor a tilde-prefix, and has none of the blanks, quotes, operators and pattern characters listed |
| ShellRules.NameExactly | pages/lib/generate-examples-index.ts:226-229 | What the shell takes for a variable name: letters, digits and underscores, no digit first |
| ShellRules.QuotedNameIsNoAssignment | pages/lib/generate-examples-index.ts:226-229 | By example: the shell takes a word for no assignment when its name is quoted |
| Fencing.FenceIndentedBlocks | pages/lib/generate-examples-index.ts:270-298 | The loop with its look-ahead writes the text's parts, with a blank line put between a paragraph and a fence that would touch |
| Fencing.OutputKeepsLines | pages/lib/generate-examples-index.ts:273-297 | Of the lines written, some are the text's, each kept once and in order, as written or without its indentation; all others are fences and blank lines |
| Fencing.GapsExactly | pages/lib/generate-examples-index.ts:287-289 | Without the blank lines added the parts are the text's; with them no paragraph touches a fence, and each of them stands between two that would |
| Fencing.NoLineLost | pages/lib/generate-examples-index.ts:275-296 | Every line of the text is kept once and in order, as written or without its indentation; a block starts and ends at an indented line and holds only indented and blank ones |
| FencingRules.FencedExactly | pages/lib/generate-examples-index.ts:275-296 | A line is within a block exactly when it is indented by four spaces and no list item goes on to it, or is blank between a line of the block and an indented one; no block is split in two. An item goes on from a line that opens it, outside a block, through lines that are not blank and begin with white space |
| FencingRules.OpensExactly | pages/lib/generate-examples-index.ts:293 | A line opens a list item exactly when, behind white space, it has a bullet, or digits and a point or parenthesis, and then white space |
| FencingRules.FencePage | pages/lib/generate-examples-index.ts:270-298 | By example: an indented line under a bullet stays, one behind a blank line is fenced, with a blank line before the paragraph after it |
| FenceReading.OutputReadExactly | pages/lib/generate-examples-index.ts:270-298 | A reader of fences alone, after section 4.5 of CommonMark, takes what is written for its parts exactly when no line left as it was opens a fence and no line of a block closes three backticks |
| FenceReading.BackticksMisread | pages/lib/generate-examples-index.ts:288 | The text of one indented line of three backticks is written so that two empty blocks are read |
| FenceReading.FenceReadExactly | pages/lib/generate-examples-index.ts:288 | For a fence of any mark and length, what is read of a block, its closing line and the rest is the block and the rest exactly when no line of the block closes the fence |
| FenceReading.SourceReadBack | pages/lib/generate-examples-index.ts:304-343 | Any text between its fences, in the lines of a page, is read as one block whose lines are the text, and the rest of the page after it |
| FenceReading.FenceHolds | pages/lib/generate-examples-index.ts:304-308 | No run of backticks in the text is as long as its fence |
| FenceReading.FenceShortest | pages/lib/generate-examples-index.ts:304-308 | The fence is three backticks, or one more than some run of them in the text |
| FenceReading.OpenedExactly | pages/lib/generate-examples-index.ts:288 | A line opens a fence, in the reader, exactly when it is up to three spaces, three or more marks and no more, and behind backticks no backtick |
| FenceReading.ClosesExactly | pages/lib/generate-examples-index.ts:288 | A line closes one exactly when it is up to three spaces, at least as many marks, and nothing but spaces and tabs |

## Left out

- Messages, index positions inside messages and every other text meant for people: `describeSelector`,
  `selectorContradictions`, synopses and usage, Markdown layout.
- CanonicalJson.ReadValue: reads texts without white space, which is all the printer writes; `BigInt`, array holes and
  cyclic values are not values of the model, and neither are dates, maps and other class instances. Of these the printer
  writes the entries they own and enumerate, calling no `toJSON`, so any two dates have the string `{}`.
- ArtifactSelector.NormalizeAxisValue: lower-casing is modelled on ASCII and the Kelvin sign, the only characters that
  lower to a character a token may hold; sorting compares code points, which for token characters is JavaScript's order.
- ShellCommand.ShellReadsBack: the reader refuses expansions, operators, double quotes and patterns instead of performing
  them; reserved words, and a tilde at the start of an assignment's value, are not told apart, since none is printed.
- FenceReading.ReadText: reads fences only, in lines that end at a newline; lists, quotes, HTML blocks and indented code
  around them are not read (in `- a` followed by four spaces and three backticks CommonMark opens a fence inside the list
  item), and neither is a carriage return as the end of a line.
- AccessorWriter.WithAccessorBindings: asks for an acyclic graph, as resources parsed from YAML documents are; a
  cyclic one would make the walk that finds the fields run for ever.
- AccessorFields.Deliver: finds the fields in the resource it then writes into; the kernel finds them in `resource` and
  writes them into `expandedResource`, which the evaluation of its other fields made of it (kernel/nodejs/src/kernel.ts,
  lines 3274 and 3368).
- AccessorBinding.Problems: a compiled value that carries no engine or source text, which the loader does not make, would
  be entered as the object it is; here every tag has both.
- CelLeaves.CelLeavesOf: a compiled value without a sentinel's marks, which the loader does not make, is no value of the
  model; the slot walk would enter it and the leaf walk would not.
- CelSlots.DeclaredCelSlots: asks that a union's branches are not again unions around themselves without end (a rank
  that falls from a union to its branches); the original would not return on such a schema either.
- CelSlots.MemberSlots: the members of a value type are a map; a key that every object inherits is not found in it.
  Each member has one schema with one identity. The original makes the members' schemas anew at each call, so two
  branches of a union that come to one value type hold both copies of a schema where `AlreadyHeld` keeps one.
- `valueAtKeys`, and the reads the annotation reports to other passes.
- The unreadable-module filter of `analyzer.ts`: two set filters, each a single condition.
- `accessorTagEngines` and `readsOnlySelf`: a table, and a question to the CEL parser, which is not part of this model.
- CEL parsing and typing, JSON Schema validation, reference resolution and everything else that is a parameter here.
