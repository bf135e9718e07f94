# Utilities core: validation adapter, colour wrappers, folder loader

A Dafny model of three pieces of a TypeScript utility library.

- **Validation adapter.** `Validator.validate(schema, input)` accepts a zod schema, a yup schema or a class-validator class, works out which one it is, and runs it. Whatever the library reports is translated into one uniform result: `{success: true, data}` or `{success: false, errors: [{path, message, type}]}`.
  - The libraries are not modelled. A `Validator.Schema` value carries what its library replies for this input:
    - zod: the settled `safeParseAsync` result, or its rejection;
    - yup: the value `validate` resolves to, or the error it throws;
    - class-validator: the built instance with its `ValidationError` tree, or the exception thrown while loading, building or validating.
  - The adapter's own logic is modelled exactly: the probing order, the three error mappings with their defaults, and the recursive flattening of the class-validator tree.
- **Colour wrappers.** `Ansi.createWrap(open, close)` and the 39 named wrappers built from it (`red`, `bgBlue`, `bold`, …).
  - A wrapper frames its text with the open code and the close code.
  - Every close code already inside the text is followed by the open code again, so an outer colour resumes after an inner one ends.
  - That insertion is JavaScript's `replaceAll`, whose replacement expands `$&`, `$$`, `` $` `` and `$'`. The model expands them too; the library's own codes hold no `$`.
  - The environment's colour decision is a boolean parameter.
  - The escape sequences are the library's constants, each written `Sgr(n)` for the sequence ESC `[` n `m` with its decimal parameter n (`\x1b[31m` is `Sgr(31)`). They are SGR control sequences in the sense of section 8.3.117 of ECMA-48.
- **Folder loader.** `FileSystem.shouldIncludeFile`, `FileSystem.shouldIgnoreFile` and `FileSystem.loadFolder`.
  - The disk is an in-memory tree of files, directories and entries that cannot be stat'ed.
  - A dynamic import is a function from a path to what importing it gives.
  - The terminal error log and the two callbacks become a trace of events returned beside the loaded records.

Modules, one per file: `Js` (JavaScript's optional values, thrown errors and `||` on strings), `Strings` (`includes`, `replaceAll`, `join`, `split` and decimal rendering), `AnsiCodes`, `Ansi`, `ValidatorTypes`, `ClassErrors`, `Validator` and `FileSystem`.

Two points where the code promises less than its own declarations suggest. The model follows what the code does:

- `YupLikeSchema` declares `__isYupSchema__: boolean` (`src/utils/Validator.ts:11`), but `isYupSchema` only tests that the key is *present*, with `in` (`src/utils/Validator.ts:156`). An object whose marker is `false` is still handled as yup. `Validator.IsYupSchema` is the presence test.
- Nothing in `ValidationResult` (`src/utils/Validator.ts:36-38`) rules out a failure with an empty `errors` list. The code returns one in two cases: a zod failure without an error object, and a class-validator tree whose nodes hold no constraint. `Validator.EmptyFailure` characterises exactly these two cases.

## Model

| member | source | states |
|---|---|---|
| Js.Or | src/utils/Validator.ts:60 | `a \|\| fallback` on an optional string: the value when it is present and non-empty, otherwise the fallback |
| Strings.Contains | src/utils/Ansi.ts:17 | `text.includes(p)`: `p` occurs at some index of the text, so the empty string occurs in every text |
| Strings.Substitute | src/utils/Ansi.ts:18 | the text inserted for one match: `$$`, `$&`, `` $` `` and `$'` expanded against the match and the text around it, every other character copied |
| Strings.ReplaceAllFrom | src/utils/Ansi.ts:18 | the left-to-right search of `replaceAll`: a match is replaced by its expansion and the search resumes after it, otherwise one character is copied |
| Strings.JsReplaceAll | src/utils/Ansi.ts:18 | `text.replaceAll(p, r)` for a non-empty string pattern: the search from the start of the text with nothing consumed yet; `Strings.JsReplaceAllLiteral` and `Strings.JsReplaceAllNoMatch` relate it to the literal splice |
| Strings.ReplaceAllLength | src/utils/Ansi.ts:18 | `replaceAll` with a replacement taken literally trades the pattern's length for the replacement's once per non-overlapping match |
| Strings.SubstitutePatterns | src/utils/Ansi.ts:18 | in a `replaceAll` replacement, `$&` is the match, `$$` a single `$`, `` $` `` the text before the match and `$'` the text after it |
| Strings.JsReplaceAllLiteral | src/utils/Ansi.ts:18 | a replacement without `$` is inserted literally at every non-overlapping match |
| Strings.JsReplaceAllNoMatch | src/utils/Ansi.ts:17-19 | `replaceAll` of a string that does not occur changes nothing, whatever the replacement |
| Strings.Join | src/utils/Validator.ts:52 | `parts.join(sep)`: no parts give `""`, one part gives itself, more parts are separated by `sep`; `Strings.SplitJoin` undoes it |
| Strings.SplitJoin | src/utils/Validator.ts:52 | `join('.')` of a non-empty list of dot-free parts is undone by splitting at `.` |
| Strings.NatToString | src/utils/Ansi.ts:15 | `String(n)` is non-empty, all decimal digits and has no leading zero |
| Strings.NatToStringRoundTrip | src/utils/Ansi.ts:15 | reading back the digits of `String(n)` gives `n` |
| Strings.IntToStringRoundTrip | src/utils/Ansi.ts:15 | the same for a negative number with its minus sign |
| Ansi.Display | src/utils/Ansi.ts:15 | `String(text)`: a string as it is, an integer in decimal with its minus sign |
| Ansi.EffectiveClose | src/utils/Ansi.ts:12 | a non-empty close code that is passed is the one used; otherwise the reset code is used |
| Ansi.Wrap | src/utils/Ansi.ts:7-22 | disabled: the text as `String(text)`; enabled: the output starts with the open code and ends with the close code |
| Ansi.WrapExpandsEveryClose | src/utils/Ansi.ts:14-21 | whatever the codes, enabled output is exactly the open code, the text passed through JavaScript's `replaceAll(close, close + open)`, and the close code; the `includes` guard is immaterial |
| Ansi.WrapReplacesEveryClose | src/utils/Ansi.ts:17-21 | when neither code holds `$`, enabled output is exactly the open code, the text with every close code followed by the open code, and the close code |
| Ansi.WrapExpandsMatch | src/utils/Ansi.ts:18 | an open code `$&` is not inserted literally: `replaceAll` expands it to the matched close code |
| Ansi.WrapLength | src/utils/Ansi.ts:17-21 | for codes without `$`, the output length is open + text + (number of close codes in the text) · open + close |
| Ansi.WrapWithoutClose | src/utils/Ansi.ts:17-21 | text without the close code is framed by the two codes and nothing else |
| Ansi.WrapDefaultsToReset | src/utils/Ansi.ts:12 | a missing or empty close code gives the same wrapper as the reset code |
| Ansi.DisabledNesting | src/utils/Ansi.ts:8-10 | with colours disabled, nested wrappers give the plain concatenated text |
| Ansi.WrapNumber | src/utils/Ansi.ts:14-21 | a number is framed around its decimal rendering, which never holds an escape |
| Ansi.WrapEscFree | src/utils/Ansi.ts:17-21 | escape-free text is framed unchanged by any SGR close code |
| Ansi.WrapNested | src/utils/Ansi.ts:14-21 | outer(x + inner(y) + z) re-opens the outer code after the inner close exactly when the two close codes are equal |
| Ansi.SgrShape | src/constants/ansi.ts:1-67 | a code written `ESC [ n m` is an SGR sequence whose parameter reads back as `n` |
| Ansi.StyleCodes | src/utils/Ansi.ts:26-72 | each named wrapper opens and closes with the SGR sequences of its two parameters from the constants table |
| Ansi.OpenCode | src/constants/ansi.ts:1-53 | each named wrapper's entry of `ANSI_CODES` |
| Ansi.CloseCode | src/constants/ansi.ts:55-67 | each named wrapper's entry of `ANSI_CLOSE_CODES`: `fg` for the colours, `bg` for the backgrounds, the style's own entry for the text styles |
| Ansi.StyleCodesAreSgr | src/constants/ansi.ts:1-67 | every named wrapper's open and close codes are distinct SGR sequences |
| Ansi.Paint | src/utils/Ansi.ts:26-72 | each named wrapper is `createWrap` of its open code and its close code |
| Ansi.PaintReplacesEveryClose | src/utils/Ansi.ts:26-72 | the named wrappers' codes hold no `$`, so each close code in the text is followed by the wrapper's open code, literally |
| Ansi.StylePairing | src/utils/Ansi.ts:26-72 | each named wrapper's close parameter cancels exactly its open parameter under ECMA-48, and is never the full reset |
| Ansi.CloseByKind | src/utils/Ansi.ts:26-72 | colours close with 39 and backgrounds with 49, in both directions; text styles use neither |
| Ansi.OpenNeverCloses | src/constants/ansi.ts:1-67 | no wrapper's open code equals any wrapper's close code |
| Ansi.PaintNested | src/utils/Ansi.ts:26-72 | two nested named wrappers give the exact sequence, with the outer colour resumed when the close codes coincide |
| Ansi.RedInsideBlue | src/utils/Ansi.ts:17-21 | red inside blue, around any escape-free texts: the blue code is re-issued right after the red text's close |
| Ansi.RedInsideBlueExample | src/utils/Ansi.test.ts:51-58 | the exact string expected for `blue("Blue " + red("Red") + " Blue")` |
| Ansi.BoldInsideGreen | src/utils/Ansi.test.ts:60-68 | bold inside green holds the green, bold, bold-close and foreground-close codes in that order, and green is not re-opened |
| ClassErrors.ConstraintDetails | src/utils/Validator.ts:116-124 | one detail per constraint, in order, at the node's path, with the constraint's name as type and its message |
| ClassErrors.ChildPath | src/utils/Validator.ts:114 | a node's path: the parent path, a dot and the property, or the bare property when the parent path is empty |
| ClassErrors.Flatten | src/utils/Validator.ts:110-131 | the reference flattening: the nodes of a list in order, each through `FlattenNode` |
| ClassErrors.FlattenNode | src/utils/Validator.ts:113-128 | one node: its own constraint details at its path, then its children below that path |
| ClassErrors.FlattenAppend | src/utils/Validator.ts:113-129 | siblings are flattened in order: flattening a concatenation concatenates the flattenings |
| ClassErrors.FlattenLength | src/utils/Validator.ts:110-131 | the number of details equals the number of constraints in the whole tree |
| ClassErrors.FlattenReports | src/utils/Validator.ts:110-131 | a detail is produced exactly when some node at its dot-joined path holds that constraint |
| ClassErrors.FlattenUnderParent | src/utils/Validator.ts:114 | below a non-empty parent path every detail's path starts with `parent.` |
| ClassErrors.PushConstraints | src/utils/Validator.ts:116-124 | the `forEach` appends the node's constraint details, in order, to the list |
| ClassErrors.FormatClassErrors | src/utils/Validator.ts:110-131 | the loop-and-recurse procedure yields the pre-order flattening: own constraints before children, one detail per constraint |
| Validator.IsZodSchema | src/utils/Validator.ts:151-153 | a non-null object whose `safeParseAsync` is a function |
| Validator.IsYupSchema | src/utils/Validator.ts:155-157 | a non-null object on which the key `__isYupSchema__` is present, whatever its value |
| Validator.IsClassConstructor | src/utils/Validator.ts:159-161 | a function whose source text passes the class test |
| Validator.LooksLikeClass | src/utils/Validator.ts:160 | the class test decided after the leading white space: the word `class` followed by a white-space character; `Validator.LooksLikeClassMeansRegex` shows it is the regular expression |
| Validator.SkipSpaces | src/utils/Validator.ts:160 | the leading `\s*` run: an all-space prefix followed by a non-space or the end |
| Validator.SkipSpacesStopsAt | src/utils/Validator.ts:160 | the leading white space ends at the first non-space character, whatever all-space prefix precedes it |
| Validator.LooksLikeClassMeansRegex | src/utils/Validator.ts:160 | the class test holds exactly when some all-space prefix is followed by `class` and a space, as `/^\s*class\s+/` requires |
| Validator.Classify | src/utils/Validator.ts:41-161 | zod first, then yup, then class, otherwise unsupported; each kind exactly when every earlier test fails and its own holds |
| Validator.SegmentTexts | src/utils/Validator.ts:52 | each path segment in order: keys as they are, indices in decimal |
| Validator.IssuePath | src/utils/Validator.ts:52 | `e.path.join('.')` over the segment texts; `Validator.IssuePathSplits` undoes it |
| Validator.IssuePathSplits | src/utils/Validator.ts:52 | splitting the joined text of a non-empty issue path with dot-free keys at `.` gives back the segment texts (a key `"0"` and an index `0` give the same text) |
| Validator.IssueList | src/utils/Validator.ts:49 | `issues` when present, even empty, else `errors`, else no issue |
| Validator.ZodDetails | src/utils/Validator.ts:49-65 | issues mapped in order to path/message/code; an error object with no issues gives the single `unknown` entry; no error object gives none |
| Validator.EmptyIssuesWin | src/utils/Validator.ts:49-63 | an `issues` array that is present but empty is not replaced by `errors`; the failure gets the single fallback entry |
| Validator.ZodOutcome | src/utils/Validator.ts:43-66 | success gives the parser's data unchanged, a failure the mapped details of its error object, and a rejection propagates |
| Validator.YupDetails | src/utils/Validator.ts:76-92 | a non-empty `inner` maps one entry per inner error in order, path defaulting to `""`; otherwise one entry with the three defaults |
| Validator.HasInner | src/utils/Validator.ts:78 | the `inner` test: `inner` is an array with at least one entry |
| Validator.InnerReadable | src/utils/Validator.ts:78-84 | every entry `forEach` reads is an object, so `e.path` can be read; trivially so when `inner` is not used |
| Validator.YupRejects | src/utils/Validator.ts:75-85 | the `catch` block throws in turn: the thrown value is `null` or `undefined`, or a used `inner` holds such an entry |
| Validator.YupOutcome | src/utils/Validator.ts:69-95 | valid data is returned as is; a thrown error gives its mapped details, at least one; the branch rejects exactly when the thrown value or an `inner` entry is `null` or `undefined` |
| Validator.ClassOutcome | src/utils/Validator.ts:98-145 | no violations gives the instance; violations give the pre-order flattening, one detail per constraint, exactly those the tree reports; an exception gives the single `internal_error` entry, and a nullish one makes the branch reject |
| Validator.Validate | src/utils/Validator.ts:41-149 | each schema kind goes to its branch; the call rejects exactly for an unsupported schema, a rejected zod parse, or a nullish value read in the yup or class `catch` block |
| Validator.ZodBeforeYup | src/utils/Validator.ts:42-68 | an object with a `safeParseAsync` function is handled as zod whatever its yup marker and `validate` reply |
| Validator.EmptyFailure | src/utils/Validator.ts:41-149 | a failure has an empty error list exactly for a zod failure without an error object or a class tree without constraints |
| Validator.SingleFieldViolation | src/utils/Validator.test.ts:74-88 | a class with one failing field reports that field with the constraint name as type |
| Validator.NestedFieldViolation | src/utils/Validator.ts:114-128 | a failing field of a nested object is reported at `parent.field` |
| FileSystem.ShouldIncludeFile | src/utils/FileSystem.ts:26-38 | true exactly when the list is empty or some item matches, by equality or by test |
| FileSystem.ShouldIgnoreFile | src/utils/FileSystem.ts:40-50 | true exactly when some item matches, so an empty list ignores nothing |
| FileSystem.IncludeMatchesIgnore | src/utils/FileSystem.ts:26-50 | on a non-empty list the two tests agree; the empty list includes everything and ignores nothing |
| FileSystem.WithDefault | src/utils/FileSystem.ts:58-63 | a switch the caller left out becomes on; one the caller wrote, even as `undefined`, is kept |
| FileSystem.MergeDefaults | src/utils/FileSystem.ts:58-63 | each switch is on exactly when it was left out or set to true; the lists are unchanged |
| FileSystem.MergeIdempotent | src/utils/FileSystem.ts:58-63 | merging the defaults into already merged options changes nothing, so the nested call at line 87 loads with the same options |
| FileSystem.DefaultsAllOn | src/utils/FileSystem.ts:58-63 | options that leave out the three switches get all three turned on |
| FileSystem.Kept | src/utils/FileSystem.ts:92-93 | a file is kept when `ignore_files` does not match it and `filter_files` lets it through; `FileSystem.WalkSelects` builds on it |
| FileSystem.Descends | src/utils/FileSystem.ts:83-85 | a directory is entered when loading is recursive, `ignore_folders` does not match it and `filter_files` lets it through |
| FileSystem.ContentOf | src/utils/FileSystem.ts:95-106 | content is `null` unless importing is on and succeeds; with `auto_default` a truthy default export replaces the namespace |
| FileSystem.FileEvents | src/utils/FileSystem.ts:97-115 | the calls for one kept file: the import error on the terminal when importing was on and failed, then the per-file callback when one is given |
| FileSystem.LoadFolder | src/utils/FileSystem.ts:58-121 | an existing folder gives the walk of its listing under the merged options, followed by the all-files call; a missing folder gives no files and one all-files call with `[]`; the all-files callback is called once, last, with the full list, and never when absent |
| FileSystem.LoadFolderSelects | src/utils/FileSystem.ts:58-121 | `loadFolder` returns a file exactly when it is selected under the merged options |
| FileSystem.LoadFolderCallbacks | src/utils/FileSystem.ts:87-119 | the per-file callback of a `loadFolder` call, when given, receives exactly the returned list, in order |
| FileSystem.Walk | src/utils/FileSystem.ts:76-117 | the loop over a listing: each entry's files and calls, in listing order |
| FileSystem.Visit | src/utils/FileSystem.ts:77-116 | one entry: skipped when `lstat` fails, a nested load when a directory is entered, one record when a file is kept |
| FileSystem.WalkAppend | src/utils/FileSystem.ts:76-117 | entries are processed in listing order: loading a concatenation concatenates the loads and the traces |
| FileSystem.SubfolderSpliced | src/utils/FileSystem.ts:82-90 | an entered sub-directory's files are spliced in at its position in the listing |
| FileSystem.WalkRecords | src/utils/FileSystem.ts:77-114 | every record lies below the folder, ends with its name, passes the file lists, and holds the content its import gives |
| FileSystem.WalkSelects | src/utils/FileSystem.ts:76-117 | a file is loaded exactly when it is kept in its folder and every folder above it is entered |
| FileSystem.FlatWithoutRecursion | src/utils/FileSystem.ts:83 | without `recursive` only the folder's own files are loaded |
| FileSystem.NoImportNoContent | src/utils/FileSystem.ts:95-104 | with `auto_import` off every content is `null` and no import error is logged |
| FileSystem.WalkSingleCalls | src/utils/FileSystem.ts:87-115 | the per-file callback, when given, receives every loaded file once in output order, sub-directories included |
| FileSystem.WalkNoAllCalls | src/utils/FileSystem.ts:87 | nested loads make no all-files call |
| FileSystem.LoadsRecursively | src/utils/FileSystem.test.ts:72-83 | a file beside a sub-directory holding one file loads both, the folder's own first |

## Left out

- The libraries zod, yup, class-validator and class-transformer are not modelled. Their replies are inputs: coercion by `plainToInstance`, the order in which they report issues, and how their errors are built are not part of this model.
- The type-level `InferSchemaType` is left out. It only affects TypeScript typing.
- The probing of a schema is reduced to what it observes: whether `safeParseAsync` is a function, whether the key `__isYupSchema__` is present, and a function's source text.
  - `typeof null === 'object'` and other falsy schemas are the `Other` case.
  - A thrown getter on the schema is not modelled.
- Validator.YupDetails: an inner error's message and type are copied as given. A missing message (`undefined`) is not distinguished from a string.
- Validator.ZodDetails: issue paths and messages are assumed to be well formed. A missing `path` array, which would make `join` throw, is not modelled.
- Validator.Validate: its "rejects exactly when" holds for a zod reply that is an object with well-formed issues. A `safeParseAsync` that resolves to `null` or to issues without a `path` array also makes the zod branch reject; this is not modelled.
- Validator.YupOutcome: the holes of a sparse `inner` array, which `forEach` skips, are not modelled.
- Ansi.WrapReplacesEveryClose: stated only when neither code holds `$`. With a `$` the output is given by `Ansi.WrapExpandsEveryClose`, which holds for all codes; the named wrappers never hold one (`Ansi.PaintReplacesEveryClose`).
- Ansi.WrapLength: stated only for codes without `$`, for the same reason.
- ClassErrors.Flatten: `Object.entries` on the constraints object is taken in the order given. JavaScript's placement of integer-like keys first is not modelled.
- Ansi.Display: a `number` is an integer. Floating-point rendering (`1.5`, `NaN`, exponent forms) is left out.
- The environment decision (`NO_COLOR`, `FORCE_COLOR`, TTY, `TERM`) is a boolean parameter. `src/constants/env.ts` is not part of this model.
- Regular expressions in the file lists are a stateless predicate on the name. A regex with the `g` or `y` flag, whose `test` moves `lastIndex`, is not modelled.
- Paths are sequences of names from the starting folder. `path.resolve`, `path.join` normalisation and `pathToFileURL` are left out.
- The text of the terminal error message is reduced to the path and the error it mentions. `Terminal.ts` is not part of this model.
- `readdir` failing on a folder that `lstat` accepted is not modelled. This covers a starting path that is a file, and unreadable folders.
  - The nested call's own `lstat` of a sub-folder already stat'ed as a directory is taken to succeed.
  - Symbolic links are files, as `lstat` reports them.
- The `filter_folders` key used by one of the loader's examples is not an option the loader reads. It is not modelled as a filter.
- The callbacks are observed, not run. Their awaits, their return values and any mutation of the list they receive are left out.
- `Objects.ts`, `Time.ts` and `Terminal.ts` are not part of this model.
