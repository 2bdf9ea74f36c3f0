# Redpanda Connect: a verified model of its core

A Dafny model of the parts of Redpanda Connect where correctness is hardest to see by reading:
the schema work of its Confluent registry processors, its concurrent helpers, and the loops of
several connectors that must neither lose, repeat nor reorder data. `dafny verify dfyconfig.toml`
checks all of it.

| modules | what they model |
|---|---|
| `AvroHydration`, `AvroHydrator`, `AvroPositions`, `AvroMeaning`, `AvroScoping` | inlining the references of an Avro schema |
| `AvroNames`, `AvroSpelling`, `AvroDocument`, `AvroFidelity`, `AvroReading`, `AvroTables` | what the resulting document says on its own, names resolved in their namespaces |
| `JsonPointer`, `References` | resolving `$ref` |
| `Coercion`, `Coercer`, `CoercionMeaning`, `CoercionSoundness`, `CoercionDepth` | coercing JSON data to the native types of its JSON Schema |
| `CommonSchema`, `JsonSchemaEmission`, `JsonSchemaMeaning`, `Fidelity` | compiling a Common schema to JSON Schema, and what the two do together |
| `AvroEmission`, `AvroRoundTrip`, `AvroParser`, `AvroReadBack` | compiling a Common schema to Avro, and reading it back |
| `Digits`, `Decimal`, `DecimalPattern` | canonical decimals and the regular expression for them |
| `Batcher`, `BatcherSafety` | batching concurrent requests through one worker |
| `CappedPool`, `IndexedPool` | the two object pools |
| `AckFanIn` | acknowledging a batch of blob targets |
| `ArcPayload`, `ArcMeaning` | the row and columnar payloads of the Arc output |
| `Retry` | the retrying HTTP transport |
| `Sse`, `SseMeaning`, `SseRoundTrip` | the server-sent event parser of the A2A client |
| `TableStorage` | chunked transactions of the table storage output |

`Json` has the dynamic values shared by all of them, `Selections` what is picked out of a sequence in order.

## How it is built

Code that recurses or loops over mutable state is a method or a class, proved against a
specification function; the theorems are about that function. Concurrent code is a step machine:
a step is one atomic action of one goroutine, a run is any sequence of enabled steps, and the
theorems hold in every state of every run, for any number of goroutines.

Beside the specification functions, which follow the code, stand statements that do not use them:
what each operation does by literal keys, statuses, keywords and positions, as relations between
input and output (the modules named after meaning, and lemmas such as `AvroPositions.RecordFields`,
`Retry.SentIff` or `BatcherSafety.AnsweredOnceClosed`).

What the code gets from elsewhere is a parameter, and the theorems hold for all of them: float64
rounding, time parsing, branch validation and schema compilation, the clock, random jitter, the
network and the storage service, context cancellation, and the order in which Go visits a map.
`big.Rat.SetString` is constrained only to read decimals as the numbers they denote. The decimal
`Parse` and `Format` of the benthos library are modelled from the contract its documentation and
their callers rely on.

## Where the code does less than it seems to

Each of these is a property that fails, given with the exact condition under which it holds.

- A batch of blob targets can be nacked and then acked, if a target is both nacked and acked
  (`AckFanIn.BothReachableIff`). The comment in the code admits it for simultaneous calls only.
- Only the blob of the target that completes a batch is ever deleted, so with two or more targets
  blobs are left behind (`AckFanIn.DeletesAllIff`).
- A reference that does not declare the name it is registered under changes the meaning of a
  document that uses it twice, and a definition that uses another reference by its short name
  leaves an undefined name in it: the walk matches strings, where Avro resolves names in their
  namespace (`AvroFidelity.MeaningKeptIff`, `AvroReading.DefinedBeforeUseIff`,
  `AvroTables.ShortNameDangles`, `AvroTables.RootTypeCaptured`).
- Definitions that share a name give documents that define it twice (`AvroDocument.DefinedOnceIff`).
- The guard against cyclic references also rejects finite data nested more than 1000 references deep
  (`CoercionDepth.NestedIff`).
- The pointer to the single empty key resolves to the document itself
  (`JsonPointer.PointerRoundTripIff`).
- An `allOf` list without any object leaves JSON numbers undecoded
  (`CoercionSoundness.AllOfDecodesIff`).
- The decimal pattern also accepts a negated zero such as `-0.00`, which is never canonical
  (`DecimalPattern.PatternIff`).
- Optional types and unions of null with one type become the same Avro schema; optional or nested
  unions, and variants of one underlying type, become unions Avro forbids
  (`AvroRoundTrip.ReadsBackIff`, `AvroRoundTrip.LegalIff`).
- A short name claimed by two types is lost even to a type whose full name it is, although the
  comment in the code says a full name always wins (`AvroParser.TwoShortNamesLose`).
- The repository's own reader of Avro schemas rejects emitted arrays and maps whose element is more
  than a type name (`AvroReadBack.RootReadsBackIff`), and loses the fields of a record named record
  (`AvroReadBack.RecordNamedRecord`).
- An integer written with a fraction or an exponent can change value
  (`Fidelity.IntegerExactIff`, `Fidelity.IntegerChanges`).
- Resetting a capped pool while items are held breaks its accounting, and a caller can then block
  in Release (`CappedPool.ResetIff`, `CappedPool.ResetSticksIff`).
- Guessing a timestamp's unit fails outside the range each unit is given: near the epoch, and for
  seconds from the year 2286 on (`ArcPayload.AutoDetectsIff`).
- Columns of a measurement whose messages differ in their fields do not line up
  (`ArcPayload.AlignedIff`).
- A response can be returned already drained and closed, after a useless wait
  (`Retry.ReturnedDrainedIff`), and a Retry-After with a date or a huge number is not honoured
  (`Retry.RetryAfterIff`).
- Leading empty data lines of a server-sent event are dropped, and a line of 65536 bytes or more ends
  the stream (`SseRoundTrip.RoundTripIff`).

## Model

| member | source | states |
|---|---|---|
| `AvroMeaning.HydrationPreservesMeaning` | internal/impl/confluent/serde_avro.go:95-164 | For every table and every root, names taken as strings: with each name standing for the expansion the walk made of it, the output unfolds to the same tree of types as the root read with the table, to every depth, recursive references included. |
| `AvroFidelity.MeaningKeptIff` | internal/impl/confluent/serde_avro.go:84-164 | The document alone, names resolved in their namespaces: every output means, to every depth, full names included, what its root meant with the table, exactly when each reference declares the name it is registered under, is opened only where the string is its full name, and every reference meant by a name that is left is opened somewhere in the walk. |
| `AvroTables.AgreeingIff` | internal/impl/confluent/serde_avro.go:97-110 | With dotted reference names, the last two conditions say that each reference a definition means, in whatever spelling, it also reaches by full names. |
| `AvroTables.SpelledServesIff` | internal/impl/confluent/serde_avro.go:84-164 | Where definitions spell references in full, only the names they are registered under matter. |
| `AvroTables.ShortNameDangles` | internal/impl/confluent/serde_avro.go:97-103 | The failing family: a definition that uses another reference by its short name is left with a name the document does not define. |
| `AvroTables.RootTypeCaptured` | internal/impl/confluent/serde_avro.go:97-110 | Another: a reference without a namespace that is used inside one is written there under another full name. |
| `AvroTables.OwnShortNameServes` | internal/impl/confluent/serde_avro.go:97-110 | A definition that uses its own reference by its short name does no harm, whatever the root. |
| `AvroFidelity.SameIsClear` | internal/impl/confluent/serde_avro.go:97-110 | Necessity, at every step of a walk: where the meaning is kept, strings and names agree. |
| `AvroFidelity.RelatedUnfold` | internal/impl/confluent/serde_avro.go:95-164 | Sufficiency: original and output, side by side and each in its own namespace, have the same tree of types. |
| `AvroSpelling.ClearMore` | internal/impl/confluent/serde_avro.go:95-110 | A walk that finds a closed set of references expanded goes as it would have gone, except that it leaves those alone. |
| `AvroSpelling.ClearFromAlone` | internal/impl/confluent/serde_avro.go:95-164 | Hydrating each reference alone decides for all roots: if strings and names agree in those walks, they agree in the walk of every root that spells references in full. |
| `AvroDocument.DocumentHoldsExpansions` | internal/impl/confluent/serde_avro.go:95-164 | In such a table, what a reader finds in the document under each full reference name is what the walk put there, no more and no less. |
| `AvroMeaning.HydrationFailsIff` | internal/impl/confluent/serde_avro.go:95-110 | Hydration fails exactly when a reference whose text is not valid JSON is used by the root or by a reference it reaches in any number of hops. |
| `AvroMeaning.WalkRelates` | internal/impl/confluent/serde_avro.go:95-164 | The step invariant of the walk: every expansion it writes is, position by position, its definition with names replaced only by their expansions. |
| `AvroMeaning.HeadForward` | internal/impl/confluent/serde_avro.go:97-110 | If the definition of a position is found by following names in the original, it is found in the hydrated document too, and the two are still related. |
| `AvroMeaning.HeadBackward` | internal/impl/confluent/serde_avro.go:97-110 | The converse, so hydration neither breaks nor repairs a chain of names. |
| `AvroMeaning.UsedIsExpanded` | internal/impl/confluent/serde_avro.go:97-110 | Every reference used by what was walked has been expanded somewhere. |
| `AvroPositions.MapValues` | internal/impl/confluent/serde_avro.go:151-158 | An object of type map is hydrated at its values, as they would be on their own, and nowhere else. |
| `AvroPositions.ArrayItems` | internal/impl/confluent/serde_avro.go:143-150 | The same for an array and its items. |
| `AvroPositions.RecordFields` | internal/impl/confluent/serde_avro.go:121-142 | In a record or an error the type of each field is hydrated, in order, under the names expanded before it; fields that are no objects or have no type stay, and so does everything else; or hydration fails, at the first field whose type cannot be hydrated. |
| `AvroPositions.UnionBranches` | internal/impl/confluent/serde_avro.go:111-119 | The same for the branches of a union. |
| `AvroPositions.RestUntouched` | internal/impl/confluent/serde_avro.go:119-164 | Nothing else is touched: names, docs, aliases, symbols, and objects of any other type or without the key of their type. |
| `AvroPositions.NameReplaced` | internal/impl/confluent/serde_avro.go:97-110 | A string is replaced exactly when it names a reference not expanded yet, by that reference hydrated, or hydration fails if it is not valid JSON. |
| `AvroHydration.NodeLens` | internal/impl/confluent/serde_avro.go:111-160 | Taking a node apart at its type positions and putting it together keeps everything else. |
| `AvroScoping.ExpandedOnceBeforeUse` | internal/impl/confluent/serde_avro.go:90-110 | For every table and every root: each reference is expanded at most once per walk, and the reference names in the output, in document order, each come after the place where that reference was expanded. |
| `AvroScoping.OpenedOnce` | internal/impl/confluent/serde_avro.go:98-105 | A walk opens exactly the references it expands, none of them twice. |
| `AvroScoping.LeftOnlyAfterOpen` | internal/impl/confluent/serde_avro.go:98-100 | A name is left standing only after its definition was opened earlier in the walk. |
| `AvroScoping.LeftsAreNames` | internal/impl/confluent/serde_avro.go:97-103 | The names left standing are the reference names at the type positions of the output, in order. |
| `AvroReading.DefinedBeforeUseIff` | internal/impl/confluent/serde_avro.go:84-110 | Every output means what it should and defines each reference before using it, exactly when each reference declares the name it is registered under and no walk of a reference leaves a name that means a reference not opened yet. |
| `AvroReading.ReadIsClear` | internal/impl/confluent/serde_avro.go:97-110 | Necessity of the second condition, at every step of a walk. |
| `AvroDocument.DefinedOnceIff` | internal/impl/confluent/serde_avro.go:90-110 | In a well-named table whose walks open references in full, no output defines a full reference name twice, whatever the root, exactly when the definitions together define each reference name at most once. |
| `AvroDocument.ExpandedHydrates` | internal/impl/confluent/serde_avro.go:95-110 | Whatever a successful walk expands can be hydrated on its own. |
| `AvroTables.PrimitiveReferenceDangles` | internal/impl/confluent/serde_avro.go:97-110 | The shortest failing table: a reference that stands for a primitive type, used twice, leaves an undefined name and changes the meaning. |
| `AvroScoping.DefinitionsConserved` | internal/impl/confluent/serde_avro.go:90-110 | For every table and root: the output defines each full name as often as the input and the definitions of the opened references do together, each in the namespace it is opened in. |
| `AvroScoping.ExpansionsOccur` | internal/impl/confluent/serde_avro.go:101-108 | Each expansion recorded by the walk is present in the output tree, in the namespace where its reference was opened. |
| `AvroHydrator.Hydrator.constructor` | internal/impl/confluent/serde_avro.go:53-77 | The walk starts with nothing inlined. |
| `AvroHydrator.Hydrator.Hydrate` | internal/impl/confluent/serde_avro.go:95-164 | The walk that mutates the inlined set computes exactly the specified hydration, adds exactly the expanded names to the set, and ends on every reference table, cyclic ones included. |
| `AvroHydrator.Hydrator.HydrateBranches` | internal/impl/confluent/serde_avro.go:111-119 | The loop over union branches passes the set from branch to branch in document order. |
| `AvroHydrator.Hydrator.HydrateFields` | internal/impl/confluent/serde_avro.go:123-142 | The loop over record fields replaces field types only, in order, and skips entries that are not objects or have no type. |
| `AvroHydrator.Hydrator.HydrateField` | internal/impl/confluent/serde_avro.go:129-140 | One field: its type is hydrated under the current set and nothing else of it changes. |
| `AvroHydrator.WalkFieldsIs` | internal/impl/confluent/serde_avro.go:123-142 | Walking fields one by one is the same as hydrating the list of field types and putting the results back. |
| `JsonPointer.ResolvePointer` | internal/impl/confluent/json_schema_coerce.go:379-403 | The loop over pointer segments computes the specified lookup, error cases included. |
| `JsonPointer.PointerRoundTrip` | internal/impl/confluent/json_schema_coerce.go:379-403 | For any keys, with slashes and tildes in them, resolving the escaped and joined pointer reaches exactly what walking the raw keys reaches (section 4 of RFC 6901). |
| `JsonPointer.PointerRoundTripIff` | internal/impl/confluent/json_schema_coerce.go:379-403 | The one exception is the single empty key, whose pointer resolves to the whole document instead. |
| `JsonPointer.AnyPointer` | internal/impl/confluent/json_schema_coerce.go:379-403 | Any pointer, well formed or not: its tokens are what stands between slashes, each with its escapes undone, and are followed as keys; the hash and the first slash may be missing. |
| `JsonPointer.UnescapeIs` | internal/impl/confluent/json_schema_coerce.go:386-388 | Undoing the two escapes one after the other is reading the token once from left to right. |
| `JsonPointer.UnescapeEscape` | internal/impl/confluent/json_schema_coerce.go:386-388 | Undoing the escapes in the order the code does gives back every key. |
| `References.NamedPointerRoundTrip` | internal/impl/confluent/json_schema_coerce.go:350-375 | A reference naming a registered schema and a path inside it reaches what walking that schema by raw keys reaches, in that schema's document. |
| `References.LocalPointerRoundTrip` | internal/impl/confluent/json_schema_coerce.go:350-375 | A reference starting with # stays in the current document and reaches what walking it reaches. |
| `References.NameAlone` | internal/impl/confluent/json_schema_coerce.go:350-375 | A name alone leads to the document of that name; an unregistered name, with or without a pointer, leads nowhere. |
| `CoercionMeaning.CoercesIff` | internal/impl/confluent/json_schema_coerce.go:117-346 | Coercion succeeds with a value exactly when the schema, read keyword by keyword, asks for it: at each typed position null or the native Go type with the value the input stands for, numbers as the nearest float64, of several types the one that suits the value, arrays item by item, objects with the input's keys plus the absent properties that have a default, allOf in sequence, and the first branch of oneOf or anyOf that the validator accepts. |
| `CoercionMeaning.PassThroughIs` | internal/impl/confluent/json_schema_coerce.go:408-430 | Positions without a schema: a number becomes the nearest float64, or its text when out of range, and everything else stays, to any depth. |
| `CoercionMeaning.TypeForIs` | internal/impl/confluent/json_schema_coerce.go:145-165 | The type a value is coerced to, by the type keyword alone: the one named, the only one of a list beside null, or of several the one that suits the value, integer before number for whole numbers. |
| `CoercionMeaning.MessageIff` | internal/impl/confluent/json_schema_coerce.go:102-111 | A message is coerced against the root of its schema, in its own document and with no reference followed yet. |
| `CoercionSoundness.NoNumberSurvives` | internal/impl/confluent/json_schema_coerce.go:117-304 | When every allOf list that is reached has an object in it, no undecoded JSON number is left anywhere in a result. |
| `CoercionSoundness.AllOfDecodesIff` | internal/impl/confluent/json_schema_coerce.go:287-304 | An allOf whose sub-schemas decode leaves no undecoded number, for all values, exactly when its list holds an object: a list without one returns the value untouched. |
| `CoercionSoundness.PlainDecodes` | internal/impl/confluent/json_schema_coerce.go:408-430 | Positions without a schema are still decoded to the bottom. |
| `CoercionDepth.CycleExceedsDepth` | internal/impl/confluent/json_schema_coerce.go:57-61 | Coercing against a $ref cycle of any length ends in the depth error, whatever the value. |
| `CoercionDepth.LongChainExceedsDepth` | internal/impl/confluent/json_schema_coerce.go:123-131 | So does any chain of more than 1000 references, cyclic or not. |
| `CoercionDepth.ChainFollowed` | internal/impl/confluent/json_schema_coerce.go:123-131 | A chain within the limit is followed to its end and costs one unit of depth per reference. |
| `CoercionDepth.GuardTransparent` | internal/impl/confluent/json_schema_coerce.go:117-132 | The guard changes an outcome only into the depth error: under a lower limit a coercion has the outcome it has under any higher one, or may fail with that error. |
| `CoercionDepth.NestedIff` | internal/impl/confluent/json_schema_coerce.go:123-131 | Finite data meets the guard too: under a schema that refers to itself, objects nested n deep are coerced exactly when the path so far and n make at most 1000 references, and else give the depth error. |
| `Coercer.Coercer.constructor` | internal/impl/confluent/json_schema_coerce.go:81-97 | A coercer starts with no compiled branches and resolves references against its registered schemas. |
| `Coercer.Coercer.Coerce` | internal/impl/confluent/json_schema_coerce.go:117-193 | The coercer with its cache of compiled branches agrees with the specification without one: same value, or an error the specification allows. It ends on every schema. |
| `Coercer.Coercer.CoerceTyped` | internal/impl/confluent/json_schema_coerce.go:145-192 | Dispatch on the type keyword, several types included, agrees with the specification. |
| `Coercer.Coercer.CoerceObject` | internal/impl/confluent/json_schema_coerce.go:195-245 | The loops over the input and over the properties, in any order, gather the same object, or fail with an error of a failing entry. |
| `Coercer.Coercer.CoerceDefaults` | internal/impl/confluent/json_schema_coerce.go:224-242 | Absent properties that have a default get it, coerced. |
| `Coercer.Coercer.CoerceArray` | internal/impl/confluent/json_schema_coerce.go:247-285 | The loop over items, with a list of item schemas or one for all, gives the items in order or the first error. |
| `Coercer.Coercer.CoerceAllOf` | internal/impl/confluent/json_schema_coerce.go:287-304 | The loop over allOf threads the value through every object sub-schema. |
| `Coercer.Coercer.CoerceBranch` | internal/impl/confluent/json_schema_coerce.go:308-346 | The loop over branches commits to the first branch that accepts the value, and fails when none does. |
| `Coercer.Coercer.BranchAccepts` | internal/impl/confluent/json_schema_coerce.go:622-644 | Looking a branch up in the cache and compiling it afresh give the same answer, and the cache only grows. |
| `JsonSchemaEmission.EmitNode` | internal/impl/confluent/common_to_json_schema.go:38-86 | Recursive emission of a Common schema equals its specification, error cases and the pattern of every decimal included. |
| `JsonSchemaEmission.EmitObject` | internal/impl/confluent/common_to_json_schema.go:88-109 | The loop over children collects properties, the last of equal names winning, and lists the required ones in order. |
| `JsonSchemaEmission.EmitUnion` | internal/impl/confluent/common_to_json_schema.go:139-149 | The loop over variants emits them in order under oneOf. |
| `JsonSchemaMeaning.EmittedDescribes` | internal/impl/confluent/common_to_json_schema.go:38-167 | Whatever is emitted says, keyword by keyword, what the Common schema says: the type, format, encoding or pattern of each type, one property for each name by the last child that has it, and, present exactly when some child is not optional, a required list with the names of the children that are not optional, in order and one entry for each. |
| `DecimalPattern.PatternTextIs` | internal/impl/confluent/common_to_json_schema.go:155-167 | For valid parameters the emitted pattern is the text of the expression that the statements about decimals are about. |
| `Fidelity.EmitsIff` | internal/impl/confluent/common_to_json_schema.go:38-149 | A JSON Schema is emitted exactly for the well-formed Common schemas: arrays and maps with a child, known types, decimals with parameters, at every depth. |
| `Fidelity.IntegerExactIff` | internal/impl/confluent/json_schema_coerce.go:450-487 | An integer of 64 bits survives bit for bit exactly when it is written as a plain integer or float64 holds it exactly. |
| `Fidelity.IntegerChanges` | internal/impl/confluent/json_schema_coerce.go:450-487 | The text 9007199254740993.0 is an integer that comes out as 9007199254740992. |
| `Fidelity.CoercionIsNative` | internal/impl/confluent/common_to_json_schema.go:38-137 | For every union-free well-formed schema, conforming value and nesting depth, coercing against the emitted schema succeeds and gives the declared native form. |
| `Fidelity.EndToEnd` | internal/impl/confluent/common_to_json_schema.go:38-123 | Data that conforms to a union-free Common schema is accepted by the compiled schema and becomes exactly its native value: integers and times with the value of the text, floats as the nearest float64, an object's entry by the last child of its name, and what no child describes as untyped data. |
| `Fidelity.DecimalEndToEnd` | internal/impl/confluent/common_to_json_schema.go:68-75 | A canonicalised decimal matches the expression whose text is the emitted pattern, comes through coercion unchanged, and still denotes the number it was read from. |
| `Decimal.PathsAgree` | internal/sqlutil/decimal.go:41-66 | Where the fast path applies, the slow path gives the same text. |
| `Decimal.CanonicaliseIsSlow` | internal/sqlutil/decimal.go:38-67 | The fast path is only an optimisation: leaving it out changes no result on any input. |
| `Decimal.SameNumber` | internal/sqlutil/decimal.go:52-66 | A canonical text denotes the same rational as its input: nothing is rounded. |
| `Decimal.AcceptsIff` | internal/sqlutil/decimal.go:35-66 | A text is accepted exactly when it reads as a number that is an integer multiple of 10^-scale whose unscaled magnitude is below 10^precision. |
| `Decimal.Idempotent` | internal/sqlutil/decimal.go:38-67 | Canonicalising a canonical text gives it back, by the fast path. |
| `Decimal.ParseFormat` | internal/sqlutil/decimal.go:41-45 | Parsing a formatted decimal gives the unscaled integer back. |
| `Decimal.FormatParse` | internal/sqlutil/decimal.go:41-45 | Formatting a parsed decimal gives the text back. |
| `DecimalPattern.PatternIff` | internal/impl/confluent/common_to_json_schema.go:151-167 | For valid parameters the emitted pattern accepts exactly the canonical decimals and, besides, the negated zero. |
| `DecimalPattern.MatchedIsCanonical` | internal/impl/confluent/common_to_json_schema.go:151-167 | Whatever matches has an unscaled magnitude below 10^precision. |
| `DecimalPattern.CanonicalisedMatches` | internal/impl/confluent/common_to_json_schema.go:151-167 | Every canonicalised decimal matches the pattern. |
| `AvroEmission.Emit` | internal/impl/confluent/common_to_avro.go:43-141 | Recursive emission of an Avro schema equals its specification, error cases included. |
| `AvroEmission.EmitRecord` | internal/impl/confluent/common_to_avro.go:143-172 | The loop over fields emits each under its name, in order, and fails with the first that fails. |
| `AvroEmission.EmitUnion` | internal/impl/confluent/common_to_avro.go:202-212 | The loop over variants emits them in order. |
| `AvroRoundTrip.ReadsBackIff` | internal/impl/confluent/common_to_avro.go:43-234 | A reader of all of Avro recovers types, nullability, field names, field order and logical parameters from the emitted schema exactly when the tree has no two-branch union with null first. |
| `AvroRoundTrip.RecordEmitted` | internal/impl/confluent/common_to_avro.go:143-172 | A record has its own name or the one given, a namespace only at the root, and its fields in order, each with its name and type, and a null default exactly when it is optional. |
| `AvroReadBack.RootReadsBackIff` | internal/impl/confluent/ecs_avro.go:109-213 | The repository's own reader recovers them, at every place and whatever names it has met, exactly when the root is emitted as an object or is a union of such, elements of arrays and maps are plain, unions are neither optional nor nested nor null with one other branch, no optional type is null, and logical types are kept and accepted. |
| `AvroReadBack.ObjectIff` | internal/impl/confluent/ecs_avro.go:636-668 | The same for any type that is emitted as an object, in any namespace. |
| `AvroReadBack.FieldIff` | internal/impl/confluent/ecs_avro.go:760-820 | The same for any field: its type is read under the field's name, an optional one through the union of null with it. |
| `AvroReadBack.ElementIff` | internal/impl/confluent/ecs_avro.go:838-860 | Arrays and maps are read back exactly when their element is a plain type name. |
| `AvroReadBack.RecordNamedRecord` | internal/impl/confluent/ecs_avro.go:636-658 | A record named record is taken for its own placeholder and loses its fields. |
| `AvroParser.FullNameWins` | internal/impl/confluent/ecs_avro.go:672-703 | A type takes its full name from a type that had it as a short name, and keeps it. |
| `AvroParser.TwoShortNamesLose` | internal/impl/confluent/ecs_avro.go:672-703 | A short name claimed by two types belongs to neither, whatever is claimed later, even by a type whose full name it is. |
| `AvroParser.SameShortName` | internal/impl/confluent/ecs_avro.go:499-517 | Of two types of one short name in different namespaces each is found inside its own, and neither elsewhere by that name. |
| `AvroReadBack.NamedLeaf` | internal/impl/confluent/ecs_avro.go:549-577 | An enumeration is read as a text and a fixed as untyped, under their names. |
| `AvroRoundTrip.OptionalLooksLikeUnion` | internal/impl/confluent/common_to_avro.go:46-51 | The reason: an optional type and the union of null with it are emitted alike. |
| `AvroRoundTrip.NoReaderRecoversBoth` | internal/impl/confluent/common_to_avro.go:46-51 | No reader whatever recovers both an optional type and the union of null with it. |
| `AvroRoundTrip.EmitsIff` | internal/impl/confluent/common_to_avro.go:54-141 | Emission succeeds exactly for trees whose containers, decimals and timestamps are complete at every depth. |
| `AvroRoundTrip.LegalIff` | internal/impl/confluent/common_to_avro.go:43-52 | The result has no union directly inside a union and no union with two branches of one underlying type or name (Apache Avro Specification, Complex Types, Unions), exactly when no union is optional, no variant is optional or a union, no optional type is null, and the variants of each union differ in underlying type or name. |
| `AvroRoundTrip.TimestampReadsBack` | internal/impl/confluent/common_to_avro.go:214-234 | A timestamp's unit and time zone handling can be told from its logical name. |
| `BatcherSafety.RunInv` | internal/asyncroutine/batcher.go:61-143 | In every reachable state: replies, batches and queue account for each request once, batches fit the limit, and each reply sent is the one due. |
| `BatcherSafety.AnsweredOnceClosed` | internal/asyncroutine/batcher.go:61-143 | When Close returns, every request enqueued before has exactly one reply: the batch function's at its own index, that batch's error, or cancellation if it was drained. |
| `BatcherSafety.NeverAnsweredTwice` | internal/asyncroutine/batcher.go:61-88 | At no time has a request more than one reply, and never one meant for another. |
| `BatcherSafety.BatchesInOrder` | internal/asyncroutine/batcher.go:90-112 | Batches are non-empty, no larger than the limit, and concatenated are a prefix of the enqueue order. |
| `BatcherSafety.RepliesNeverBlock` | internal/asyncroutine/batcher.go:61-88 | The worker and Close never wait on a reply channel. |
| `BatcherSafety.StepsRunOut` | internal/asyncroutine/batcher.go:131-143 | After Close has begun, each step of the worker or of Close reduces a count of remaining work that submitters leave alone. |
| `BatcherSafety.CloseNeverStuck` | internal/asyncroutine/batcher.go:131-143 | Until Close has returned, the worker or Close can take a step. |
| `BatcherSafety.CloseCanReturn` | internal/asyncroutine/batcher.go:131-143 | From every reachable state in which Close has begun, a run of bounded length leads to its return. |
| `CappedPool.RunInv` | internal/pool/pool.go:64-108 | The pool's invariant holds after any interleaving of acquires, failing constructors, cancellations and releases. |
| `CappedPool.CountedOnce` | internal/pool/pool.go:64-108 | Queued, held and in-flight items add up to the items constructed, which never exceed the capacity; the counter lags by at most the one item being created under the lock. |
| `CappedPool.NeverShared` | internal/pool/pool.go:64-108 | An item that is held is held once and not in the queue. |
| `CappedPool.IdsInOrder` | internal/pool/pool.go:73-85 | Successful constructors get the ids 0, 1, 2 and so on, below the capacity, whatever fails in between. |
| `CappedPool.ReleaseNeverBlocks` | internal/pool/pool.go:106-108 | Releasing a held item finds room in the queue. |
| `CappedPool.WaitsOnlyWhenFull` | internal/pool/pool.go:64-98 | A caller waits only while as many items are constructed as the capacity allows. |
| `CappedPool.FirstInFirstOut` | internal/pool/pool.go:92-108 | Items are handed out again in the order in which they were given back, and those not handed out yet are queued. |
| `CappedPool.AcquireServed` | internal/pool/pool.go:64-90 | While fewer items are held than the capacity, a caller that finds the lock free can be served. |
| `CappedPool.Reset` | internal/pool/pool.go:118-129 | The loop empties the queue and sets the counter to zero. |
| `CappedPool.ResetIff` | internal/pool/pool.go:118-129 | After Reset the invariant holds exactly when nothing was held. |
| `CappedPool.ResetSticksIff` | internal/pool/pool.go:106-129 | After Reset some run leaves a caller blocked in Release exactly when an item was held. |
| `IndexedPool.RunInv` | internal/pool/indexed.go:56-95 | The invariant of the pool of named items holds in every interleaving. |
| `IndexedPool.OneItemPerName` | internal/pool/indexed.go:69-95 | Each registered name has exactly one item, which is in exactly one place: its channel, a caller's hands, or a thread about to hand it over. |
| `IndexedPool.NeverShared` | internal/pool/indexed.go:69-95 | A held item has one holder and its channel is empty. |
| `IndexedPool.HandedByName` | internal/pool/indexed.go:69-95 | Whatever a caller gets is the item of the name it asked for. |
| `IndexedPool.NeverBlocksInside` | internal/pool/indexed.go:65-95 | Whoever has the lock token can give it back, and putting an item back while holding it does not block. |
| `IndexedPool.TokenConserved` | internal/pool/indexed.go:56-67 | The lock token is in its channel or with one thread that can go on. |
| `AckFanIn.RunInv` | internal/impl/azure/input_blob_storage.go:279-331 | The invariant of the acknowledgement fan-in holds in every interleaving of any number of calls, repeated ones included. |
| `AckFanIn.AtMostOnce` | internal/impl/azure/input_blob_storage.go:296-331 | The batch is acked at most once and nacked at most once. |
| `AckFanIn.AckedAfterAll` | internal/impl/azure/input_blob_storage.go:320-327 | It is acked only after an ack, or a missing blob, for every one of its targets. |
| `AckFanIn.CounterNeverWraps` | internal/impl/azure/input_blob_storage.go:279-322 | The 32-bit counter never wraps, even after it has been set to -1. |
| `AckFanIn.AtMostOneDelete` | internal/impl/azure/input_blob_storage.go:208-227 | At most one blob is deleted per batch, that of the target whose ack completed it. |
| `AckFanIn.DeletesAllIff` | internal/impl/azure/input_blob_storage.go:208-227 | Some run deletes the blobs of all targets exactly when there is none, or a single one that is acked: with two or more targets blobs are always left behind. |
| `AckFanIn.NeverBoth` | internal/impl/azure/input_blob_storage.go:296-331 | If each target resolves once, the batch is never both acked and nacked. |
| `AckFanIn.ResolvedWhenDone` | internal/impl/azure/input_blob_storage.go:296-331 | When every call has returned, a batch with a nacked target has been nacked once, and one whose targets were all acked and none nacked has been acked, once, and nothing else. |
| `AckFanIn.AckAfterNackReachable` | internal/impl/azure/input_blob_storage.go:308-327 | With contradictory repeated calls, a run exists in which the batch is nacked and then acked. |
| `AckFanIn.BothReachableIff` | internal/impl/azure/input_blob_storage.go:296-331 | Some run both acks and nacks the batch exactly when every target has an ack call among the calls made and some target has a nack call as well. |
| `ArcPayload.AutoDetectsIff` | internal/impl/arc/output.go:438-452 | For every 64-bit timestamp and every unit, guessing gives the right microseconds exactly when the timestamp is zero or its magnitude is in that unit's range. |
| `ArcPayload.ExactIff` | internal/impl/arc/output.go:428-437 | A timestamp of configured unit is converted to the right microseconds exactly when they fit 64 bits. |
| `ArcPayload.BuildRowPayload` | internal/impl/arc/output.go:320-390 | The row payload is one row per message in order, with the timestamp and time fields taken out, or an error if any message cannot be turned into a row. |
| `ArcPayload.BuildColumnarPayload` | internal/impl/arc/output.go:259-318 | The columnar payload is one record per measurement in order of first appearance, with a column per field, or an error in the same cases. |
| `ArcPayload.AppendData` | internal/impl/arc/output.go:295-301 | Appending a message, field by field in any order, adds its row's values to their columns and nothing else. |
| `ArcPayload.AlignedIff` | internal/impl/arc/output.go:295-301 | The columns of a measurement all have the length of its time column exactly when its rows have the same field names. |
| `ArcPayload.TransposedBack` | internal/impl/arc/output.go:295-301 | Transposing the columns of uniform rows gives back exactly those rows. |
| `ArcMeaning.RowsAre` | internal/impl/arc/output.go:320-372 | A batch has rows exactly when every message has a measurement and an object: one for each, in order, with its time and every entry but the timestamp field and time. |
| `ArcMeaning.TimeIs` | internal/impl/arc/output.go:392-426 | The time of a message is its timestamp field, a number of the configured unit or a text, and else the clock. |
| `ArcMeaning.ColumnarIs` | internal/impl/arc/output.go:259-317 | One record for each measurement, in order of first appearance, with a column for the time and for every field of its rows, holding the values of the rows that have it, in order. |
| `ArcMeaning.PayloadIs` | internal/impl/arc/output.go:310-317 | A payload of one item is that item, any other the list. |
| `ArcPayload.ColumnarIsRows` | internal/impl/arc/output.go:259-390 | For a whole batch: the records are well formed exactly when the rows of each measurement are uniform, and then reading them back gives the rows of the row payload, stably grouped by measurement. |
| `ArcPayload.GroupingConserves` | internal/impl/arc/output.go:266-293 | Grouping neither loses, repeats nor invents a row. |
| `ArcPayload.TimesConserved` | internal/impl/arc/output.go:295 | In every batch, uniform or not, the time columns hold as many values as there are messages. |
| `Retry.NewTransportValid` | internal/httpclient/transport_retry.go:61-106 | Every configuration gives a transport with positive retries and intervals and sorted lists that hold the configured statuses. |
| `Retry.Contains` | internal/httpclient/transport_retry.go:54-57 | Binary search in a sorted list is membership. |
| `Retry.Classify` | internal/httpclient/transport_retry.go:152-174 | A reply is retried exactly when it is a network error or its status is to be retried and neither a success nor to be dropped. |
| `Retry.RoundTrip` | internal/httpclient/transport_retry.go:108-181 | The retry loop makes exactly the specified run of sends, drains and waits, and returns the specified outcome. |
| `Retry.SentIff` | internal/httpclient/transport_retry.go:123-174 | Attempt k is made exactly when the retries allow it and each earlier attempt brought a retryable reply, was not cancelled while waiting, and left a body that could be restored. |
| `Retry.NotFollowed` | internal/httpclient/transport_retry.go:149-176 | A response that is a success, or dropped, or not to be retried on is never followed by another attempt. |
| `Retry.OutcomeIs` | internal/httpclient/transport_retry.go:104-181 | What the caller gets is decided by the last attempt made: its reply, or the error of the context or of restoring the body after it. |
| `Retry.WaitsIff` | internal/httpclient/transport_retry.go:135-171 | There is a wait after an attempt exactly when it is worth another and one is left; a response is then drained, and only then. |
| `Retry.SendsInOrder` | internal/httpclient/transport_retry.go:123-136 | Attempts are numbered 0, 1, 2 and so on, each made once, and at most one more than the retries. |
| `Retry.BodySentOnce` | internal/httpclient/transport_retry.go:126-133 | A body that cannot be had again is sent exactly once. |
| `Retry.DrainedBeforeWait` | internal/httpclient/transport_retry.go:166-170 | Whenever a wait follows a response, that response was drained and closed just before. |
| `Retry.ReturnedDrainedIff` | internal/httpclient/transport_retry.go:130-170 | The response handed back has been drained and closed exactly when the request has a body that cannot be had again and its response was retryable. |
| `Retry.BackoffBounds` | internal/httpclient/transport_retry.go:212-231 | Every backoff is between half and one and a half times the initial interval doubled once per attempt and capped at the longest, whatever the jitter. |
| `Retry.BackoffIs` | internal/httpclient/transport_retry.go:212-233 | The backoff is 2^attempt times the first interval, or the longest if that is less, and the jitter, in whole nanoseconds. |
| `Retry.DrawJitters` | internal/httpclient/transport_retry.go:223-225 | The jitter drawn by the code stays within half the delay either way, which is what the bounds assume. |
| `Retry.DelayBounds` | internal/httpclient/transport_retry.go:185-231 | A wait is not negative and at most one and a half times the longest interval, whatever Retry-After says. |
| `Retry.DelayIs` | internal/httpclient/transport_retry.go:185-199 | A wait lasts for the backoff, or for the seconds asked for, up to the longest interval, if that is longer; a header that is no 64-bit number counts for nothing. |
| `Retry.WaitBounded` | internal/httpclient/transport_retry.go:123-231 | All waits of a run together take at most 1.5 times the retries times the longest interval. |
| `Retry.RetryAfterIff` | internal/httpclient/transport_retry.go:188-199 | Whatever the jitter, a wait lasts as long as Retry-After asks (section 10.2.3 of RFC 9110), up to the longest interval, exactly when it gives seconds that fit 64 bits of nanoseconds, or more seconds whose wrapped product reaches the longest interval, or a date, which the code does not read, that the shortest backoff reaches. |
| `Retry.RetryAfterWraps` | internal/httpclient/transport_retry.go:193 | 9223372037 seconds is an input that wraps: the wait is the plain backoff. |
| `Sse.ParseStream` | internal/impl/a2a/transport_http.go:283-329 | The parser yields exactly the specified items: decoded events in order up to a malformed one, the receiver's refusal, the end of the context or a read error. |
| `Sse.TakeLine` | internal/impl/a2a/transport_http.go:298-322 | One line moves the parser and dispatches at most one event, as specified. |
| `SseMeaning.LineIs` | internal/impl/a2a/transport_http.go:296-305 | A type line sets the type and a data line adds to the data, white space around either being dropped. |
| `SseMeaning.OthersIgnored` | internal/impl/a2a/transport_http.go:296-322 | Lines of any other kind make no difference. |
| `SseMeaning.YieldsAre` | internal/impl/a2a/transport_http.go:288-329 | The receiver gets the items of the events read, in order, to the first malformed one, which is reported, or to the last it wants; if neither comes, the end of the context or an error of the connection is reported. |
| `SseMeaning.TrimIs` | internal/impl/a2a/transport_http.go:297-301 | Trimming takes away the white space at both ends, all of it and nothing else. |
| `SseRoundTrip.RoundTripIff` | internal/impl/a2a/transport_http.go:284-322 | Printing events as one text and parsing it gives back exactly those events if and only if each has a trimmed type and trimmed data lines, none with a line break in it, the first not empty, and no printed line of 65536 bytes or more (section 9.2.6 of the WHATWG HTML Living Standard). |
| `SseRoundTrip.DeliveredIff` | internal/impl/a2a/transport_http.go:284-329 | Under the same condition, and no other, a receiver that takes everything is handed exactly those events and no error. |
| `SseRoundTrip.AllLose` | internal/impl/a2a/transport_http.go:284-322 | Every line break inside a printed type or data line, and every line that is too long, loses something: what is read amounts to less than was meant, by one at least. |
| `SseRoundTrip.ScannedText` | internal/impl/a2a/transport_http.go:284-296 | A text of printed lines is scanned into those lines, cut at their line breaks and without a trailing carriage return, up to the first that is too long, where scanning ends in an error. |
| `SseMeaning.ReturnDropped` | internal/impl/a2a/transport_http.go:284-294 | A line may end in a carriage return and a line break as well as in a line break, also when it is blank. |
| `Sse.ConcatIff` | internal/impl/a2a/transport_http.go:283-329 | Parsing a concatenation is concatenating the parses, whatever follows, exactly when the first stream ends with nothing pending. |
| `Sse.UnterminatedTail` | internal/impl/a2a/transport_http.go:306 | An event not ended by a blank line is never delivered. |
| `Sse.StoppedEarly` | internal/impl/a2a/transport_http.go:310-319 | What comes after a malformed event or the receiver's refusal changes nothing. |
| `TableStorage.WriteBatch` | internal/impl/azure/output_table_storage.go:195-230 | If a message cannot be turned into an entity the service is not called. Otherwise what it accepts for each group are the first of its chunks in order, all of them on success; each submission does what its type says; and a failure has a cause: an unknown transaction type, an entity that cannot be encoded, or a last call that failed. |
| `TableStorage.WriteGroups` | internal/impl/azure/output_table_storage.go:265-301 | The same for groups written in any order. |
| `TableStorage.WriteGroup` | internal/impl/azure/output_table_storage.go:265-310 | One group: its entities are accepted in chunks of 100, the last of 1 to 100, in order, up to the first failure, and other groups are not touched. |
| `TableStorage.Submit` | internal/impl/azure/output_table_storage.go:279-293 | A transaction is accepted once, at the first submission or, after the missing table is created, at the second; or not at all, the last call having failed. |
| `TableStorage.ActionIff` | internal/impl/azure/output_table_storage.go:312-340 | The six transaction types and the actions they name, and no others. |
| `TableStorage.RequestsAre` | internal/impl/azure/output_table_storage.go:195-230 | One request for each message, in order, or none at all. |
| `TableStorage.Conserved` | internal/impl/azure/output_table_storage.go:195-301 | On success every message's entity is in exactly one transaction, under its own table, partition and type, in message order within them. |

## Left out

- JSON text, Avro encoding and decoding, regular expression syntax and other byte formats: the model works on values and on the structure of the pattern.
- Walking references over the registry, schema mapping before hydration, and caching of encoders.
- Update in place of the Avro tree: `Hydrator` gives back the new tree, so sharing of sub-trees between positions is not captured.
- Names are resolved by the rule of the Avro specification; that some readers, the repository's among them, then try the name without a namespace is not part of the meaning of a document.
- AvroFidelity.MeaningKeptIff: is about tables whose definitions define no reference name except perhaps their own at the top, and roots that define none and spell references in full; meaning includes attributes as they are written. What happens to names defined elsewhere is `AvroScoping.DefinitionsConserved` and `AvroDocument.DefinedOnceIff`.
- AvroReading.DefinedBeforeUseIff: is about the same tables and roots.
- AvroDocument.DefinedOnceIff: is about tables whose definitions have names of their own, so that what they define does not depend on where they are opened; for all others `AvroScoping.DefinitionsConserved` counts.
- Error texts, and which of several failing object entries reports: the error is any of the failing ones, as Go's map order decides.
- Go `int` and `float32` inputs to the number conversions, which decoded JSON never holds. A nil schema node is an empty one, which behaves alike.
- Fidelity.EndToEnd: leaves out unions, because branch choice rests on the schema validator.
- AvroRoundTrip.ReadsBackIff: an untyped field is read back as bytes, timestamp defaults are read back as stated, and names other than those of records and fields are not kept.
- AvroReadBack.RootReadsBackIff: is about schemas with no record named, its namespace apart, like a type; `AvroReadBack.RecordNamedRecord` shows what happens otherwise. Unions are read raw; Kafka Connect annotations, which are never emitted, are left out. Decimal parameters outside 32 bits, which the code would truncate, count as rejected; no common schema holds them.
- CappedPool.Reset: is one step, taken while nobody else holds the lock; what callers without the lock do while it drains the queue is not modelled.
- Submitting to a closed batcher, resetting the indexed pool, and `Size`, `Cap` and `Keys`.
- Fairness: `CloseCanReturn` shows that Close can always return, not that a scheduler lets it.
- The queue of targets in front of the acknowledgement fan-in, and the other blob reader.
- Tags, compression and sending of Arc payloads; two messages may read different clocks, which both formats are given alike.
- Overflow of a wait beyond 64 bits of nanoseconds, tracing and logging in the retrying transport. A wait that is cancelled counts in full.
- Decoding of events by type, and a last line of exactly 65536 bytes without a line break, which a scanner takes if the end of the stream is reported with its last byte.
- Table storage groups are keyed by table, partition and type at once where the code nests three maps; properties of entities are given.
- The connectors, command line, configuration fields, licensing and telemetry, which are plumbing around libraries, and `CanonicaliseBigDecimal`, which only calls one.
