# evans engine core, modelled in Dafny

This project models the engine of evans, an interactive gRPC client, as
pure Dafny functions over immutable datatypes, and proves properties of
that model. It covers four parts of the Go code:

- **The navigator** (`entity/env.go`). An `Env` holds the loaded packages,
  a per-package cache, and the selected package and service. The model
  covers the list queries (`Services`, `Messages`, `RPCs`), the
  first-match lookups (`Service`, `Message`, `RPC`), the two selection
  transitions (`UsePackage`, and `UseService` with its dotted
  `package.service` shortcut), `GetDSN` and the FQN trimming of
  `getNameFromFQN`.
- **The field tree** (`entity/field.go`). `NewFields` builds one field per
  declared field and expands message-typed fields recursively. It looks a
  type up first in a local cache built by `resolveLocalMessage`, then in
  the package. `newField` classifies a field by priority.
- **The call engine** (`env/call.go`). It covers the method path
  (`genEndpoint`), reading one input line per scalar field
  (`inputFields`, `maxLen`), converting each line to its protobuf kind and
  assigning it into a dynamic message (`setInput`), and the early returns
  of `Call` before it dials.
- **The descriptor sources** (`proto/descsource.go`). A reflection-backed
  source forwards both queries to its client. A file-backed source answers
  `ListServices` and `FindSymbol` by walking its files in order. The
  protoset loader builds the file list.

Modules: `Wrappers` (Option, Result) and `Errors` (the sentinel errors and
the `errors.Wrap` chain) in `wrappers.dfy`; `Strings` (Go's
`strings.TrimLeft`, `strings.SplitN(s, ".", 2)`, UTF-8), `Format` (Go's
`fmt.Sprintf` of a format with no operands) and `Strconv` (Go's
`ParseUint`, `ParseInt`, `ParseBool` and the formatters that invert them);
`Schema` (descriptor datatypes and the field-type enum); `Entity` (the
entity views and the first-match search); `Navigator`; `FieldTree`;
`CallEngine`; `DescSource`.

How the Go behaviour is represented:
- A Go panic becomes an `Error.Panic` result. This covers `newField`'s
  default case, `Headers`, the nil slot `setInput` dereferences, and
  `SetField` with a value of the wrong type.
- The Go recursions in `NewFields` and `inputFields` have no cycle guard.
  The model gives them a fuel bound, and `Error.DepthExceeded` stands for
  "the Go code does not return".
- Terminal input is a sequence of prompt results: a line, end of input, or
  another error.
- Float parsing is a function parameter.
- The cache entry for the selected package is a precondition (`Ready`).
  Nothing in the modelled code writes the cache.

Four behaviours of the code are worth knowing before reading the model:
- `sfixed32` and `sfixed64` lines are parsed with `ParseUint`, although
  both kinds are signed (see Findings).
- A conversion failure in `setInput` returns strconv's own `*NumError`,
  which carries the function, the text and the cause. It names neither the
  field nor the kind.
- Message lookup trims a character set with `strings.TrimLeft`, while the
  comment at entity/env.go:210-212 (`.test.Person -> Person`) describes
  removing a prefix (see Findings).
- With no package selected, a dotted `UseService` name selects the package
  it names first (entity/env.go:182), which is all the comment at
  entity/env.go:176 describes. The service match at entity/env.go:191 then
  compares the whole dotted name with each service name (see Findings).

## Model

| member | source | states |
|---|---|---|
| Errors.NotFound | entity/env.go:129 | a "%s not found" error unwraps to its sentinel |
| Strings.TrimLeft | entity/env.go:214 | result is a suffix of the input; every stripped character is in the cut set; the first kept character is not |
| Strings.TrimLeftIdempotent | entity/env.go:214 | trimming twice with the same cut set equals trimming once |
| Strings.SplitN2 | entity/env.go:178 | one part exactly when the separator is absent; with two parts, they rejoin to the input around the first separator |
| Format.SprintfNoArgs | entity/env.go:183 | text up to a directive is copied unchanged |
| Format.PlainFormat | entity/env.go:183 | a format without '%' prints as itself |
| Format.PlainPrefix | entity/env.go:183 | text before the first '%' is copied and the rest is formatted after it |
| Format.VerbStep | entity/env.go:183 | a bare verb directive prints its missing-operand report and formatting goes on after it |
| Format.EscapeRoundTrip | entity/env.go:183 | any text with its '%' doubled prints as the text |
| Format.MissingOperand | entity/env.go:183 | a verb without an operand prints as "%!verb(MISSING)" in place, the text around it kept |
| Strings.EncodeRune | env/call.go:179 | a character encodes to 1 to 4 UTF-8 bytes |
| Strings.EncodeRuneRoundTrip | env/call.go:179 | decoding a character's UTF-8 bytes gives the character back |
| Strings.Utf8 | env/call.go:179 | `[]byte(s)` has between len(s) and 4·len(s) bytes |
| Strings.Utf8Append | env/call.go:179 | encoding a concatenation concatenates the encodings |
| Strings.Utf8Ascii | env/call.go:273 | an ASCII string has one byte per character, so `len` of a label counts its characters |
| Strconv.WidthPowers | env/call.go:108-124 | the bounds of each bit size passed to the parsers are 2^bits - 1 and 2^(bits-1), the signed one within the unsigned one |
| Strconv.ParseUint | env/call.go:117-124 | a parsed value lies in [0, 2^bits-1]; a failure is a `*NumError` naming the input text |
| Strconv.ParseInt | env/call.go:108-115 | a parsed value lies in [-2^(bits-1), 2^(bits-1)-1]; a failure is a `*NumError` from ParseInt naming the text |
| Strconv.ParseBool | env/call.go:162-169 | true exactly for the six true literals, false exactly for the six false ones |
| Strconv.ScanCorrect | env/call.go:117-121 | the digit scan succeeds exactly on digit strings whose value fits the bound, and yields that value |
| Strconv.ParseUintAccepts | env/call.go:135-142 | ParseUint succeeds exactly on non-empty digit runs within the width, with their decimal value |
| Strconv.ParseUintRangeError | env/call.go:117-121 | an all-digit text too large for the width is a range error, not a syntax error |
| Strconv.ParseIntAccepts | env/call.go:126-133 | ParseInt succeeds exactly on optionally signed decimals within the signed range, with their value |
| Strconv.ParseBoolRejects | env/call.go:162-166 | any other text is a ParseBool syntax error |
| Strconv.FormatUint | env/call.go:221 | the decimal form of a number is a non-empty run of digits |
| Strconv.FormatUintValue | env/call.go:221 | the decimal form denotes the number it was made from |
| Strconv.UintRoundTrip | env/call.go:117-124 | ParseUint inverts FormatUint on the width's range |
| Strconv.IntRoundTrip | env/call.go:108-115 | ParseInt inverts FormatInt on the signed range |
| Strconv.BoolRoundTrip | env/call.go:162-169 | ParseBool inverts FormatBool |
| Schema.NumberRoundTrip | env/call.go:221 | the kind number printed by the default branch identifies the kind |
| Entity.FindFirst | entity/env.go:124-129 | the index found holds the name and no earlier element does; none exactly when no element holds it |
| Entity.FindFirstIsFirst | entity/env.go:138-144 | a search succeeds exactly when some element is so named, and returns the first such |
| Entity.GetMessage | entity/field.go:79-82 | the package's first message of that bare name, or an invalid-message-name error naming it |
| Navigator.New | entity/env.go:65-73 | a fresh navigator has an empty cache and nothing selected |
| Navigator.Services | entity/env.go:87-95 | fails with ErrPackageUnselected exactly when no package is selected, else the cached package's services |
| Navigator.Messages | entity/env.go:97-105 | fails with ErrPackageUnselected exactly when no package is selected, else the cached package's messages |
| Navigator.Service | entity/env.go:119-130 | the first service so named; ErrInvalidServiceName wrapped with the name when none matches |
| Navigator.GetNameFromFQN | entity/env.go:213-215 | a suffix of the input whose first character is neither '.' nor a package character; everything cut is such a character |
| Navigator.GetNameFromFQNIdempotent | entity/env.go:213-215 | trimming a trimmed name changes nothing |
| Navigator.GetNameFromFQNQualified | entity/env.go:210-215 | ".pkg.n" comes back as n exactly when n is empty or starts with a character outside the cut set |
| Navigator.Message | entity/env.go:132-145 | the first message named like the trimmed query; the error names the query as given |
| Navigator.GetNameFromFQNOverStrips | entity/env.go:213-215 | with package "test", ".test.status" trims to "atus" |
| Navigator.MessageOverStripExample | entity/env.go:132-145 | a package "test" holding message "status" fails lookup of ".test.status", while the prefix lookup finds it |
| Navigator.StripPackagePrefix | entity/env.go:210-215 | undoes the qualification: a query starting with ".pkg." is that prefix followed by the result; any other query comes back unchanged |
| Navigator.MessageByPrefix | entity/env.go:132-145 | lookup by the query with the package prefix removed: first match, or the not-found error naming the query |
| Navigator.MessageByPrefixQualified | entity/env.go:210-215 | ".pkg.n" finds exactly the message named n, for every n |
| Navigator.RPCs | entity/env.go:107-117 | ErrServiceUnselected without a service; the lookup error of the current service propagates (PackageUnselected, or the not-found error naming the current service); else that service's RPCs |
| Navigator.RPC | entity/env.go:147-158 | the first RPC so named; ErrInvalidRPCName wrapped with the name when none matches; RPCs' errors propagate |
| Navigator.Headers | entity/env.go:160-163 | always the "not implemented yet" panic |
| Navigator.UsePackage | entity/env.go:165-173 | succeeds exactly for a known package and then changes only the package; otherwise ErrUnknownPackage and the state is unchanged |
| Navigator.UseService | entity/env.go:175-197 | undotted with no package: ErrPackageUnselected and nothing changes; dotted: the package part is selected and stays selected, then the whole name is matched; an unknown package is ErrUnknownPackage wrapped with the name formatted as a printf format; a match sets the service to the name as given |
| Navigator.UnknownPackageFormatsName | entity/env.go:182-184 | a verb in an unknown package name is reported in the error context as a missing operand: "x%d.Svc" gives "x%!d(MISSING).Svc" |
| Navigator.UnknownPackageContext | entity/env.go:182-184 | a dotted name whose package part is unknown is ErrUnknownPackage for that part, wrapped with the formatted name |
| Navigator.SplitTail | entity/env.go:178 | "p.s" with p free of dots splits into p and s |
| Navigator.UseServiceDottedKeepsWholeName | entity/env.go:176-193 | a dotted selection that succeeds stores the whole dotted name, which is never the two-step state, and the DSN then names the package twice |
| Navigator.DottedShortcutNeverMatches | entity/env.go:176-196 | when no service name of the package has a dot, the dotted shortcut always fails with ErrUnknownService |
| Navigator.UseServiceIntended | entity/env.go:175-197 | with a package selected it is UseService |
| Navigator.UseServiceIntendedTwoStep | entity/env.go:176-193 | the corrected shortcut on "p.s" equals UsePackage(p) followed by UseService(s) |
| Navigator.UseServiceDotted | entity/env.go:177-185 | the dotted shortcut equals UsePackage of the first segment followed by UseService of the whole name |
| Navigator.SelectPackageThenService | entity/env.go:165-197 | selecting a package and then one of its services sets both and nothing else |
| Navigator.GetDSN | entity/env.go:199-208 | "" with no package; else the package, followed by "." and the service when one is selected |
| Navigator.DsnAfterSelection | entity/env.go:199-208 | after selecting p and its service s the DSN is "p.s" |
| Navigator.TransitionsKeepReady | entity/env.go:92-94 | when every package has a cache entry, both transitions keep the selected package's entry present |
| FieldTree.NewField | entity/field.go:29-42 | the class chosen applies and has the highest priority among those that apply (message, enum, oneof); the "unsupported type" panic exactly when none applies |
| FieldTree.LeafFqnsCons | entity/field.go:91-105 | the leaf names of a list are the first message's leaves (itself when it has no nested types) and those of the rest |
| FieldTree.ResolveAllLeaves | entity/field.go:91-105 | records exactly the leaf messages of the nested tree, under their FQN, and keeps every other entry |
| FieldTree.RootRecordedOnlyAsLeaf | entity/field.go:54-60 | the root message is in its own local cache when it has no nested types, and not otherwise (unless a nested leaf shares its FQN) |
| FieldTree.ResolveFieldType | entity/field.go:76-83 | a local-cache hit by FQN wins; otherwise the package's first message of the bare name, whose failure is the not-found error |
| FieldTree.NewFields | entity/field.go:54-89 | one field per declared field, in order, with name, type and descriptor copied; out of fuel is the depth error |
| FieldTree.BuildFields | entity/field.go:62-88 | one field per declared field, in order, with name, type and descriptor copied; errors are lookup errors, panics (a nested one included) or the depth error |
| FieldTree.BuildFieldsSubtrees | entity/field.go:69-85 | IsMessage exactly for TYPE_MESSAGE fields; only they carry a subtree, which is what NewFields of the resolved type gave, or empty when that failed |
| FieldTree.NewFieldsSubtrees | entity/field.go:62-86 | the same for every field of a built message |
| FieldTree.NewFieldsFuelMonotone | entity/field.go:84 | more fuel changes no result that did not run out |
| FieldTree.BuildFieldsFuelMonotone | entity/field.go:84 | the same for a level of fields |
| FieldTree.SelfReferenceNeverFinishes | entity/field.go:76-84 | a leaf message with a field of its own type never finishes, whatever the fuel |
| FieldTree.NestedFailureIgnored | entity/field.go:74-84 | a nested message-not-found failure does not fail the outer level; the field is built as a message field with an empty subtree |
| CallEngine.GenEndpoint | env/call.go:73-76 | "/" + DSN + "/" + rpc once package and service are selected; ends in "/" + rpc |
| CallEngine.AfterLastSlash | env/call.go:73-76 | the part of a path after its last '/' |
| CallEngine.EndpointNamesRpc | env/call.go:73-76 | the RPC name comes back from the path when it has no '/' |
| CallEngine.InputFields | env/call.go:229-265 | a success has one slot per field; no fuel is the depth error (which line fills which slot: InputFieldsTexts) |
| CallEngine.InputFieldsFuelMonotone | env/call.go:244-249 | more fuel changes no result unless that result failed because the fuel ran out, however deeply the failure was wrapped |
| CallEngine.ReadFieldsFuelMonotone | env/call.go:237-263 | the same per level |
| CallEngine.InputFieldsSuffix | env/call.go:229-265 | reading only consumes input: what is left after a success is a suffix of the input given |
| CallEngine.ReadFieldsSuffix | env/call.go:237-263 | the same per level, through nested message fields |
| CallEngine.InputFieldsWellRead | env/call.go:235-264 | every slot of a success is filled for its own field: a line only for a scalar field, a message field without a line, and after end of input only nil slots |
| CallEngine.ReadFieldsWellRead | env/call.go:237-263 | the same per level, field by field |
| CallEngine.ReadFields | env/call.go:237-263 | the same per level: one slot per field (line order: ReadFieldsTexts) |
| CallEngine.InputFieldsTexts | env/call.go:229-265 | one input stream is threaded through every depth: the lines a success consumes are exactly the texts of its scalar slots, depth first in field order, with no prompt error among them, and the rest is the unread suffix |
| CallEngine.ReadFieldsTexts | env/call.go:237-263 | the same per level: fields after a message field read on where the nested level stopped |
| CallEngine.MessageStepReads | env/call.go:244-249 | a message field consumes what its nested level consumed, without a line of its own, and the level goes on from there |
| CallEngine.LineStepReads | env/call.go:252-262 | a scalar field consumes exactly one line, which becomes its text |
| CallEngine.EofStepReads | env/call.go:252-255 | end of input at a scalar field consumes the end-of-input result and leaves no text in the level |
| CallEngine.EofWellRead | env/call.go:253-255 | after end of input the current slot is non-primitive and every later slot is nil |
| CallEngine.ReadEofStep | env/call.go:252-255 | end of input at a scalar field ends the level: that slot unread, the rest nil, the end-of-input result consumed |
| CallEngine.ReadLineStep | env/call.go:252-262 | a line at a scalar field becomes its primitive value and reading goes on with the next field and the next line |
| CallEngine.ConsumedLinesCons | env/call.go:237-263 | one more line in front of a level that consumed k - 1 lines makes one that consumed k |
| CallEngine.FlatReadConsumesLines | env/call.go:237-263 | without message fields the first k lines fill the first k slots in order; end of input at k leaves slot k unread and the rest nil |
| CallEngine.MaxLen | env/call.go:267-279 | the widest scalar label in bytes: at least every scalar's label length and equal to one of them (0 with no scalar) |
| CallEngine.PromptText | env/call.go:252 | the label right-aligned in the width, padded with spaces |
| CallEngine.PromptAligned | env/call.go:252 | a label of ASCII text padded to a width at least its byte length fills exactly that width; any label fills at most the width |
| CallEngine.WrapInt32 | env/call.go:198 | `int32(v)`: the signed 32-bit value congruent to v modulo 2^32 |
| CallEngine.Convert | env/call.go:88-222 | enum, group and message kinds give the "invalid type: n" error; string and bytes always convert |
| CallEngine.TrySetField | env/call.go:95-97 | the library's store as the model assumes it: accepted exactly when the field is singular and the value has the kind's Go type; then the field's entry holds the value, the keys grow by the field's name only and every other entry is kept; otherwise the refusal error |
| CallEngine.SetField | env/call.go:86 | stores exactly what TrySetField stores, and panics where it would refuse |
| CallEngine.SlotValue | env/call.go:79-224 | a nil slot is a panic; a nested slot builds exactly when its own slots assign; a scalar slot builds exactly when its line converts |
| CallEngine.Assign | env/call.go:79-224 | one loop iteration: succeeds exactly when the slot is assigned, and then only the field's entry changes, to the slot's value; otherwise the slot's error or the store's refusal |
| CallEngine.AssignedExactly | env/call.go:79-224 | a slot is assigned exactly when it is not nil, its field is singular, and either it is a nested message for a message or group field whose own slots assign, or its line converts and the kind is not sfixed64 |
| CallEngine.SetInput | env/call.go:78-227 | succeeds exactly when every slot is assigned, keeping the message's type |
| CallEngine.SetInputFirstFailure | env/call.go:78-227 | a failure is the error of the first slot that is not assigned, all before it having been assigned |
| CallEngine.SetInputKeys | env/call.go:78-227 | a success sets exactly the names of the slots' fields on top of the message's own entries |
| CallEngine.SetInputLastWins | env/call.go:78-227 | a name holds the value of the last slot of that name |
| CallEngine.SetInputKeepsOthers | env/call.go:78-227 | an entry no slot names is left as it was |
| CallEngine.SignedAgrees | env/call.go:126-133 | ParseInt succeeds exactly when the text denotes a signed value of the width, and gives it |
| CallEngine.UnsignedAgrees | env/call.go:135-142 | ParseUint succeeds exactly when the text denotes an unsigned value of the width, and gives it |
| CallEngine.ConvertAgrees | env/call.go:108-182 | for every integer kind but sfixed, and for bool, string and bytes, a line converts exactly when it denotes a value of the kind, to that value |
| CallEngine.ConvertTypeMatches | env/call.go:184-191 | every converted value has its kind's Go type except sfixed64's |
| CallEngine.Sfixed32AsWritten | env/call.go:193-200 | an sfixed32 line converts exactly when it is an unsigned 32-bit decimal, to its `int32` reinterpretation |
| CallEngine.Sfixed32RejectsNegative | env/call.go:193-200 | "-1" denotes -1 for sfixed32 yet does not convert |
| CallEngine.Sfixed32WrapsLarge | env/call.go:193-200 | "4294967295" denotes no sfixed32 value yet converts to -1 |
| CallEngine.Sfixed64NeverAssigned | env/call.go:184-191 | no sfixed64 line is ever assigned |
| CallEngine.EnumNeverAssigned | env/call.go:220-221 | an enum line always fails with "invalid type: 14" |
| CallEngine.ConvertIntendedAgrees | env/call.go:184-200 | with signed parsing for sfixed kinds, every integer kind converts exactly the lines that denote its values, with its Go type |
| CallEngine.EarlyEofNeverBuilds | env/call.go:253-255 | end of input at a scalar of a flat request always makes setInput fail, unless that scalar is a singular group field with nothing after it |
| CallEngine.UnreadSlotFails | env/call.go:80-86 | the slot end of input leaves at a scalar field is refused unless the field is a singular group field |
| CallEngine.GroupAtEofBuilds | env/call.go:80-86 | end of input at a lone singular group field builds a request holding an empty message of the group's type |
| CallEngine.Call | env/call.go:29-61 | the first failing step (RPC lookup, reading, assignment) is the call's error, setInput's error returned unchanged; a success holds "/" + DSN + "/" + name and exactly the request setInput filled from the read slots, of the RPC's input type |
| DescSource.FlattenAppend | proto/descsource.go:103-112 | listing two file lists one after the other lists their services one after the other |
| DescSource.FlattenLength | proto/descsource.go:103-112 | the list is as long as the per-file service counts add up to |
| DescSource.FlattenMembers | proto/descsource.go:103-112 | a name is listed exactly when some file declares it as a service |
| DescSource.ListServices | proto/descsource.go:103-112 | a file-backed source lists every file's services in file and declaration order and never fails; a reflection source returns its client's answer |
| DescSource.SymbolError | proto/descsource.go:121 | the not-found error unwraps to errSymbolNotFound |
| DescSource.FindInFiles | proto/descsource.go:114-122 | the answer of the earliest file declaring the name, no earlier file declaring it; otherwise errSymbolNotFound wrapped with "symbol " + name |
| DescSource.FindSymbol | proto/descsource.go:41-43 | a reflection source returns its client's answer; a file source succeeds exactly when some file declares the name |
| DescSource.FindInFilesPrefix | proto/descsource.go:114-119 | files after one that declares the name do not change the answer |
| DescSource.LinkedFiles | proto/descsource.go:61-78 | a set contributes at most one file per link; when every file links, exactly those files in order |
| DescSource.FailureAt | proto/descsource.go:63-68 | the index of the first link failure: nothing before it fails |
| DescSource.LinkedFilesKept | proto/descsource.go:61-78 | the kept files are exactly the linked ones before the first failure |
| DescSource.LinkedFilesAppend | proto/descsource.go:61-78 | before any failure, links split anywhere contribute the first part's files, then the second's |
| DescSource.LinkedStopsAtFailure | proto/descsource.go:63-68 | a link failure ends the set: nothing after it is kept |
| DescSource.LoadProtosets | proto/descsource.go:45-81 | succeeds exactly when every file reads, parses and registers; otherwise the error of the first one that does not; on success the sets' files in argument order |
| DescSource.NewFromProtoset | proto/descsource.go:45-81 | a link failure never fails the constructor; success yields a file source of the collected files |
| DescSource.NewFromFiles | proto/descsource.go:87-99 | the compiled files, or the compiler's error wrapped so that it still unwraps to the same cause |
| DescSource.CollectedAppend | proto/descsource.go:46-79 | loading two lists of sets one after the other collects their files one after the other |
| DescSource.ProtosetServiceOrder | proto/descsource.go:45-81 | the services of a protoset-built source follow argument order |
| DescSource.LinkFailureKeepsPrefix | proto/descsource.go:61-78 | a set with a link failure keeps the files linked before it, and later sets still load |

## Left out

- Terminal I/O: `liner.NewLiner`, `Prompt` and `Close`. The input is a
  sequence of prompt results instead.
- `grpc.Dial`, `grpc.Invoke`, `conn.Close` and the `jsonpb` rendering of the
  response. They are network I/O and an external formatter. `Call` ends with
  the invocation it would dial: the path, the request, the response type
  and the unread input.
- The `double` and `float` branches: `strconv.ParseFloat` is floating-point
  numerics, so it is a parameter of `Convert`, `SlotValue`, `Assign`, `SetInput`
  and `Call`.
- `os.ReadFile`, `proto.Unmarshal`, `protodesc.NewFiles`,
  `linker.NewFileRecursive` and `protocompile.Compiler`. They are file I/O
  and library linking and compiling. Their outcomes are data: the `Load`
  and `LinkResult` of each protoset, and the compile result given to
  `NewFromFiles`.
- DescSource.LoadError: `%q` quoting of the path is written as plain
  double quotes, without Go's escaping of special characters. The
  registry error (`%w`) keeps protodesc's error as its cause, but the model
  does not render the joined message text.
- The internals of `dynamic.Message`: a message is a map from field name to
  a value tagged by its Go type. `TrySetField` is taken to accept exactly a
  value of the kind's own Go type for a singular field. The refusal of a
  `uint64` for an sfixed64 field relies on this. Two side effects of the
  library's setter are not modelled: setting a member of a oneof clears the
  other members of that oneof, and setting a proto3 scalar to its zero
  value leaves the field unset. SetInputKeys and SetInputKeepsOthers state
  what happens to the map, not to those library-level presence rules.
- CallEngine.TrySetField: for a repeated field (map fields included) the
  library checks a slice element by element. A bytes line converts to
  `[]byte`, itself a slice, so the library likely accepts it into a
  repeated bytes field; the model refuses every value for a repeated field.
- Navigator.Headers: the Go method panics, and the model returns that
  panic as an error.
- The entity struct definitions and `Package.GetMessage` live in files that
  are not part of this model. They are datatypes and a first-match lookup.
- Writing the navigator's package cache: no modelled code writes it. An
  entry for the selected package is a precondition.
- FieldTree.NewFields and CallEngine.InputFields: the Go recursion is
  unbounded. The model stops at a fuel bound with `DepthExceeded` (wrapped
  with "failed to read inputs" at each level on the reading side), and only
  fuel-independent results, as `NewFieldsFuelMonotone` and
  `InputFieldsFuelMonotone` state, describe the Go code.
- CallEngine.ReadFields: a message field whose type is missing from the
  universe is reported as a "nil message type" panic. Linked descriptors
  always carry their message type, so the Go code never meets this case.
- FieldTree.BuildFields: the Go code drops every nested error value. The
  model drops every nested error except `DepthExceeded`, which stands for a
  recursion that would not return in Go, and a panic, which in Go unwinds
  through every `NewFields` frame.
- CallEngine.Call: the `setInput` it models is the code as written. The
  corrected sfixed conversion is stated and proved separately
  (`ConvertIntended`).
- CallEngine.Call: in env/call.go, `Call` is a method of the `env` package's
  own `Env`, which reads `e.currentPackage`, `e.currentService` and
  `e.config.port`. That `Env` and its `GetRPC` are not part of this model.
  The model takes the selection from the navigator of entity/env.go and
  the lookup from `Navigator.RPC`. The port only feeds `grpc.Dial`.
- Navigator.UseService: the name is formatted as a printf format with no
  operands. Flags, width and precision digits and "%%" are modelled. A
  `*` width or precision and an explicit `[n]` operand index are not: the
  model reads them as the verb. A width or precision too large for Go's
  parser is not modelled either.
- DescSource.LinkedFiles: `links` is the order in which `RangeFiles` visits
  a registry. protoregistry leaves that order undefined, so the model does
  not promise an order of the files within one set, or which of them a
  link failure cuts off. Only the order across sets is fixed.
- Navigator.Message: models the code as written. The corrected lookup is
  `MessageByPrefix`.
- Navigator.UseService: models the code as written. The corrected shortcut
  is `UseServiceIntended`, which equals `UseService` whenever a package is
  already selected. So `SelectPackageThenService` and `DsnAfterSelection`
  hold for both.

## Findings

| source | as written | input that shows it | evidently intended | confidence | as-written member | corrected member |
|---|---|---|---|---|---|---|
| entity/env.go:213-215 | `strings.TrimLeft(fqn, "."+pkg+".")` strips every leading character found in the package name, not the prefix | package `test`, message `status`: `.test.status` trims to `atus`, so `Message(".test.status")` fails | strip the literal prefix `"." + pkg + "."` | not executed; high | Navigator.GetNameFromFQNOverStrips, Navigator.MessageOverStripExample | Navigator.MessageByPrefixQualified |
| env/call.go:184-200 | sfixed64 and sfixed32 lines are parsed with `ParseUint` | sfixed32 `-1` is rejected; sfixed32 `4294967295` is stored as -1; every sfixed64 line is refused, because a `uint64` is passed | parse with `ParseInt(pv, 10, 64)` / `ParseInt(pv, 10, 32)` | not executed; high for sfixed32, medium for sfixed64 (relies on the library's type check) | CallEngine.Sfixed32RejectsNegative, CallEngine.Sfixed32WrapsLarge, CallEngine.Sfixed64NeverAssigned | CallEngine.ConvertIntendedAgrees |
| entity/env.go:176-193 | with no package selected, `UseService("p.s")` selects package p, then matches the whole "p.s" against p's services and stores "p.s" as the service | a package `test` with service `Greeter`: `UseService("test.Greeter")` fails with ErrUnknownService, while `UsePackage("test")` then `UseService("Greeter")` succeeds; had a service been named "test.Greeter", the DSN would be "test.test.Greeter" | match the part after the first dot, so the shortcut equals the two steps | not executed; medium (service names come from descriptors and carry no dot) | Navigator.UseServiceDottedKeepsWholeName, Navigator.DottedShortcutNeverMatches | Navigator.UseServiceIntendedTwoStep |
