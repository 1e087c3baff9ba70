# node-config-processor: the directive resolver, in Dafny

This project models the `ConfigProcessor` class of `src/index.ts` and proves
properties of the model. The class resolves "directives" in a configuration
tree. A directive is a string leaf that starts with one of the tags `RAW:`,
`HEX:`, `B64:`, `ENV:`, `FILE:` or `OBF:`.

- `processNode` (module `Directives`) classifies one string with the anchored
  regex `OP_MATCHER` and dispatches on the captured tag.
  - `RAW` returns the string as it is.
  - `HEX` and `B64` return a decoding of it.
  - `OBF` returns the obfuscator's decoding of it, but only once the
    processor has an obfuscator.
  - `ENV` and `FILE` look up a value (an environment variable, a file's
    text) and hand it to `processNode` again.
- `processObject` (class `Processor.ConfigProcessor`) walks the leaves of a
  tree in depth-first order. It skips every leaf that is not a string. It
  writes `processNode`'s result over each string leaf, in place, and returns
  the same tree.
- The constructor copies `data.configProcessor` into `config` and processes
  it. Only after that does it assign `obfuscator`. So an `OBF:` string in the
  processor's own settings makes the construction throw "Obfuscator not
  allowed at this time".

Layout:

- `wrappers.dfy`: `Option`, `Result` and `Outcome`.
- `json.dfy`: the value tree, paths, `Put` (the assignment
  `parent[key] = x`), and the iterator's leaf order `LeafPaths`.
- `directives.dfy`: `OP_MATCHER` (`MatchOp`) and `processNode`
  (`Dispatch` is one activation, `Run` is the recursion, `ProcessNode`
  combines them).
- `processor.dfy`: the class with its fields and methods, and the
  constructor sequence `NewConfigProcessor`.

What the process around the class provides is a parameter of type
`Runtime`. It holds `process.env` and the readable files as maps, the
base64 and UTF-8 decoders and the `Obfuscator` constructor as functions, and
the call-stack depth. The recursion of `ENV` and `FILE` is unbounded in the
source: an environment value can be another `ENV:` directive. The model
gives `processNode` that many nested calls. One call too many is the error
`StackOverflow`, which is what JavaScript raises (a `RangeError`). The lemma
`MoreStackSameResult` shows that a larger stack never changes a result that
did not overflow.

## Behaviour of the code as written

The model follows `src/index.ts`. The repository's test file exercises a
later version of the class: tags `HEXSTR`, `B64STR`, `BOOL`, `INT*`,
`CONFIG` and `SFILE`, a variadic constructor, and prefix stripping. None of
these is in `src/index.ts`, so none is modelled. In the code as written, no
branch strips the matched prefix:

- `RAW:ABCDE` resolves to `RAW:ABCDE`, not to `ABCDE` (`RawVerbatim`).
- `ENV:name` looks up the variable named `ENV:name`, and `FILE:p` reads the
  file named `FILE:p` (`EnvResolvesLookup`, `FileResolvesContents`).
- `HEX:` hands the whole string to Node's hex decoder. That decoder stops at
  the first character that is not a hex digit, and the first character is
  `H`. So every `HEX:` directive resolves to the UTF-8 text of zero bytes
  (`DecodersTerminal`), whatever digits follow the prefix.
- `HEXSTR:...` and `B64STR:...` are not directives here, so they come back
  unchanged (`LaterTagsPassThrough`).

## Model

| member | source | states |
|---|---|---|
| `Directives.MatchOpFrom` | src/index.ts:23 | the regex alternatives are tried in order from a given one on; the capture is a tag whose `tag:` starts the string, and None means no later alternative starts it |
| `Directives.MatchOpExact` | src/index.ts:23 | `OP_MATCHER` captures tag `t` if and only if `t` is one of the six tags and the string starts with `t:`; anchoring at the start and distinct first letters make the capture unique |
| `Directives.MatchOp` | src/index.ts:23 | `val.match(OP_MATCHER)` reduced to its capture: a captured tag is one of the six and the string starts with it and a colon; no capture means no `tag:` prefix starts the string |
| `Directives.Dispatch` | src/index.ts:64-79 | one activation of processNode up to its recursive call; it never yields "Unknown op", and only `ENV:` and `FILE:` strings hand a new string on |
| `Directives.Run` | src/index.ts:74-75 | definition: the recursion of processNode, one stack frame per nested call, overflowing when none is left; its property is `RunMoreStack`/`MoreStackSameResult` |
| `Directives.ProcessNode` | src/index.ts:63-81 | definition: `processNode(nodeDesc, val)` with a given stack depth; its properties are the `Directives` rows below |
| `Directives.HexBytes` | src/index.ts:72 | `Buffer.from(s, "hex")` yields at most one byte per two characters of input (decoding stops at the first pair that is not two hex digits) |
| `Directives.EmptyUnchanged` | src/index.ts:64 | the empty string is returned unchanged, at any stack depth and with or without an obfuscator |
| `Directives.UntaggedUnchanged` | src/index.ts:67-68 | a string that does not start with one of the six `tag:` prefixes is returned unchanged |
| `Directives.InteriorColonsPassThrough` | src/index.ts:67-68 | `ABC:DEF:GHI` is returned unchanged although it contains colons |
| `Directives.LaterTagsPassThrough` | src/index.ts:23 | `HEXSTR:5758595A` and `B64STR:TU5PUA==` do not match `OP_MATCHER` and come back unchanged |
| `Directives.RawVerbatim` | src/index.ts:71 | a `RAW:` string is returned verbatim, prefix included, and resolving the result again gives the same string (a fixpoint) |
| `Directives.DecodersTerminal` | src/index.ts:72-73 | `HEX` and `B64` return the UTF-8 text of the decoded bytes without resolving it again; `HEX` decodes the whole string, so it always yields the text of zero bytes |
| `Directives.ObfuscatedTerminal` | src/index.ts:76-78 | with an obfuscator, `OBF` returns the obfuscator's decoding of the whole string without resolving it again, and fails when the obfuscator rejects it |
| `Directives.ObfuscatorGate` | src/index.ts:76-77 | while the obfuscator is absent, every `OBF:` string fails with "Obfuscator not allowed" |
| `Directives.EnvResolvesLookup` | src/index.ts:74 | `ENV` resolves the environment value stored under the whole string with one stack frame less; an unset variable yields `""`; with no stack left it overflows |
| `Directives.FileResolvesContents` | src/index.ts:75 | `FILE` resolves the text of the file named by the whole string with one frame less; an unreadable file is an error, raised before any recursion |
| `Directives.OnlyEnvAndFileRecurse` | src/index.ts:70-79 | every string that is not `ENV:` or `FILE:` resolves the same with no stack left as with any stack: only those two tags recurse |
| `Directives.NeverUnknownOp` | src/index.ts:79 | the `default` "Unknown op" error is never raised, at any recursion depth, because the matcher captures only the six tags the switch handles |
| `Directives.MoreStackSameResult` | src/index.ts:74-75 | a result that did not overflow is the same with any larger call stack |
| `Directives.DispatchObfuscatorOnlyAdds` | src/index.ts:70-79 | one activation behaves the same with and without an obfuscator unless it is the refused `OBF` branch |
| `Directives.ObfuscatorOnlyAdds` | src/index.ts:76-77 | whatever resolves without an obfuscator resolves to the same string with one, through any `ENV`/`FILE` chain |
| `Json.Lookup` | src/index.ts:33 | `v[key]` is the value of a property named `key` of an object, and undefined when `v` is not an object or has no such property |
| `Json.LeafPaths` | src/index.ts:56 | every path the iterator yields leads to a leaf, that is, a node that is not an array or object |
| `Json.LeafPathsComplete` | src/index.ts:56 | every leaf of the tree is yielded |
| `Json.LeafPathsDistinct` | src/index.ts:56 | no leaf is yielded twice |
| `Json.LeafPathsAscending` | src/index.ts:56 | the leaves come in depth-first order, children in position order: each path is strictly before the next at the first position where they differ |
| `Json.Put` | src/index.ts:58 | the assignment `node.parent[node.key] = x`; a path that leaves the tree changes nothing (its other properties are `AtPut`, `AtPutOther`, `PutLeafShape`) |
| `Json.AtPut` | src/index.ts:58 | after `parent[key] = x`, the node at that path is `x` |
| `Json.AtPutOther` | src/index.ts:58 | writing one leaf leaves every other leaf unchanged |
| `Json.PutLeafShape` | src/index.ts:58 | replacing a leaf by a leaf keeps the tree's shape (containers, property names, child counts) |
| `Json.ShapeLeafAt` | src/index.ts:56-58 | trees of the same shape have their leaves at the same paths |
| `Json.ShapeAndLeavesDetermine` | src/index.ts:55-60 | the shape and the values at the leaf paths determine the whole tree |
| `Processor.Visitor` | src/index.ts:57-58 | definition: the value the loop body writes over a leaf, processNode's result for a string and the leaf itself otherwise; its properties are `ProcessLeaf`, `BootstrapRefusesObfuscated` and `ObfuscatorOnlyAddsToWalk` |
| `Processor.FirstFailureFrom` | src/index.ts:56-58 | the first leaf, in visiting order, whose processing throws: every earlier leaf resolves and that one fails (or there is none) |
| `Processor.ConfigOf` | src/index.ts:33 | `config` is a copy of `data.configProcessor` when that is an object and an empty object otherwise; null or undefined `data` throws |
| `Processor.ObfuscatorSetting` | src/index.ts:44 | reading `config.obfuscator` gives the property's value, and undefined both when it is missing and when it holds undefined |
| `Processor.ConfigProcessor.GetObfuscator` | src/index.ts:43-45 | definition: `new Obfuscator(this.config.obfuscator)`, which may throw; its use is stated by `NewConfigProcessor` |
| `Processor.WalkWrite` | src/index.ts:58 | writing the current leaf's replacement advances the walk by one leaf and keeps the shape |
| `Processor.WalkSkip` | src/index.ts:57 | a skipped non-string leaf advances the walk with no write |
| `Processor.Tree.constructor` | src/index.ts:30 | a tree object holding the given value |
| `Processor.ConfigProcessor.constructor` | src/index.ts:31-33 | after the first assignments, `data` is the caller's tree, `config` is a fresh copy of its `configProcessor` settings, and `obfuscator` is still unassigned |
| `Processor.ConfigProcessor.ProcessLeaf` | src/index.ts:57-58 | one pass of the loop: a string leaf is overwritten with processNode's result and the walk advances by one leaf; when processNode throws, nothing is written and this leaf is the first failing one |
| `Processor.ConfigProcessor.ProcessObject` | src/index.ts:55-61 | the tree keeps its shape; each string leaf before the first failing one is replaced by its `processNode` value; every non-string leaf and every later leaf is unchanged; the call returns the same tree, or that leaf's exception |
| `Processor.ConfigProcessor.ProcessConfig` | src/index.ts:39-41 | `config` is processed in place, as `ProcessObject` states |
| `Processor.ConfigProcessor.ObfuscateString` | src/index.ts:47-49 | the obfuscator's encoding of the value with the given algorithm, or the encoder's exception |
| `Processor.ConfigProcessor.Process` | src/index.ts:51-53 | `data` is processed in place with the current obfuscator and returned |
| `Processor.NewConfigProcessor` | src/index.ts:30-37 | construction fails on null data, on the first settings leaf that fails without an obfuscator (with its exception), or when `new Obfuscator` throws on the fully processed settings; on success the settings are fully processed, and only then is `obfuscator` built from `config.obfuscator`; `data` is untouched |
| `Processor.BootstrapRefusesObfuscated` | src/index.ts:34-36 | an `OBF:` leaf among the processor's own settings stops construction at that leaf or earlier, and at that leaf the error is "Obfuscator not allowed" |
| `Processor.ObfuscatorOnlyAddsToWalk` | src/index.ts:36 | a tree that processes without the obfuscator processes with the same replacements once it is assigned |
| `Processor.CompletedWalkDetermined` | src/index.ts:55-60 | a completed walk has exactly one result tree |

## Left out

- The obfuscation cipher (`@msamblanet/node-obfuscator`) is a foreign library. Its constructor, encoder and decoder are functions of the `Runtime` that may fail (None), standing for the library throwing; what they compute is not modelled.
- Node's base64 decoder and its UTF-8 `toString` are Node library code and stay abstract functions. The hex decoder is modelled, because its truncation decides what `HEX:` yields.
- `fs.readFileSync` and `process.env` are maps. Every read error is one `FileUnreadable` error. `readFileSync` with an encoding never returns null, so the `?? ""` on line 75 has no effect and is not modelled.
- ConfigOf: does not model `extend`'s deep merge. When `data.configProcessor` is an array or a string, `extend` would copy its elements under index keys; the model gives an empty object there. `extend` also drops properties whose value is undefined, which the model keeps; the processor skips non-string leaves and reads an undefined `obfuscator` as missing (`ObfuscatorSetting`), so nothing it computes depends on that.
- Cycle detection in the deep iterator (`circularReference: "leaf"`) is not modelled. Dafny values are acyclic. A sub-object shared by two parents is two copies in the model.
- ConfigProcessor.Process: a root that is not an object or array is one leaf at the empty path in the model. The iterator's behaviour there (a leaf with no parent to write into) is not modelled.
- Paths are child positions, not property names. `nodeDesc` and the JSON text of error messages are left out; errors are constructors of `Error`.
- Numbers are reals, not IEEE doubles; they are never inspected.
- The later API exercised by the test file is not in `src/index.ts`. This covers `HEXSTR`, `B64STR`, `BOOL`, `INT`, `INT16`, `INT8`, `CONFIG`, `SFILE`, `coherceBool`, `coherceInt` and multi-layer merging. None of it is modelled.
- `test/MockFs.ts` and `test/MockRandom.ts` are test plumbing and are not part of this model.
