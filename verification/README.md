# comah in Dafny

A model of the executable core of **comah**, a Mocha-like JavaScript test
runner that is partly a rewrite in progress. Several of its files are
overlapping drafts of a single pipeline:

1. Test files call a small DSL (`describe`, `it`, `beforeEach`, `afterEach`,
   `timeout`). The DSL builds immutable rose trees of `Describe` and `It`
   values through a stack of focused nodes.
2. A resolver folds every root-to-leaf path that ends in an `It` into a
   test. A test has a name prefix, a name, an effective timeout and before
   and after hook chains.
3. A test runs its hook chain once. It records start and finish and emits
   `started`, then `passed` or `failed`, then `finished`.
4. A concurrent runner admits the tests in batches.
5. A pattern selects tests by full title.
6. A name registry hands out ids 0, 1, 2, … per full title.

Underneath all of this sit the functional helpers the drafts are built on:

- sequence utilities;
- ordered sets and maps;
- rose trees;
- an AST.

Every JavaScript object becomes an immutable datatype, and every method a
pure function. A function returns the new state, or a `Result` when the
JavaScript throws. Several things become parameters or abstract values:

- **Asynchronous hooks** are abstract `Hook` values. Each hook says how it
  behaves when invoked: it returns, it throws, or it calls `done` with or
  without an argument. A promise becomes its settled `Outcome`. A hook that
  never calls `done` is `Pending`.
- **Clocks** (`new Date()`) are integer parameters.
- **Regular-expression compilation** is a parameter.
- **Element equality** is a parameter wherever the source uses
  `defaultEquals`.

| file | module | source |
|---|---|---|
| js.dfy | `Js` | JavaScript values: `Option`, `Result`, rejection reasons, timeouts, prototype assignments, `Array#join` |
| seqs.dfy | `Seqs` | `lib/array.js`, `lib/fantasy/array.js` |
| insertion_set.dfy | `InsertionSet` | `lib/fantasy/set.js` |
| insertion_map.dfy | `InsertionMap` | `lib/fantasy/map.js` |
| rosetree.dfy | `RoseTree` | `lib/node2.js`, `lib/rosetree.js` |
| ast.dfy | `Ast` | `lib/ast.js` |
| doneable.dfy | `Doneable` | `lib/doneable.js` |
| suite.dfy | `Suite` | `lib/it.js`, `lib/describe2.js` |
| dsl.dfy | `Dsl` | `lib/dsl.js` |
| legacy_dsl.dfy | `LegacyDsl` | `lib/node.js`, `lib/describe.js` |
| resolver.dfy | `Resolver` | `lib/test.js` (`toTest`, `fromNode(s)`, `fullTitle`) and `lib/test2.js` (`pathToTest`, `tests`) |
| test_run.dfy | `TestRun` | `lib/test.js` and `lib/test2.js` (`run` and the lifecycle) |
| concurrent.dfy | `Concurrent` | `lib/runners/concurrent.js` |
| selection.dfy | `Selection` | `lib/index.js` (`getTests`) |
| names.dfy | `Names` | `lib/names/name.js`, `lib/names/set.js`, `lib/names.js` |

## Model

| member | source | states |
|---|---|---|
| Seqs.Clamp | lib/array.js:42 | `Math.min(Math.max(i, lo), hi)` lies in `[lo, hi]`, is `i` when `i` is already inside, and is `hi` when `hi < lo` |
| Seqs.GroupsOf | lib/array.js:8-18 | the groups concatenate back to the input; no group is empty or longer than `size`; every group but the last has exactly `size` elements; there are no groups exactly when the input is empty |
| Seqs.LemmaGroupsOfExact | lib/array.js:8-18 | an input of `m·size` elements gives exactly `m` full groups |
| Seqs.Deal | lib/array.js:27-38 | the `while (groups--)` loop makes `count` groups that concatenate to the input; the first `rem` groups hold `q + 1` elements and the rest hold `q` |
| Seqs.SplitInto | lib/array.js:20-39 | the groups concatenate to the input; an empty input gives no groups; otherwise there are `clamp(g, 1, n)` groups whose sizes are the quotient or the quotient plus one, with the larger ones first |
| Seqs.TakeFirst | lib/array.js:41-44 | a prefix of the input whose length is the index clamped into `[0, n]` |
| Seqs.DropFirst | lib/array.js:46-49 | a suffix of the input whose length is `n` minus the clamped index |
| Seqs.SplitAt | lib/array.js:51-55 | the two parts concatenate to the input, and the first has the clamped length |
| Seqs.Equals1 | lib/array.js:60-70 | true iff the lengths agree and the element comparison holds at every index |
| Seqs.EqualsFrom | lib/fantasy/array.js:16-26 | the comparison loop from index `i` is true iff the comparison holds at every index from `i` on |
| Seqs.LemmaStrictEquals | lib/fantasy/array.js:9-11 | `equals`, which is `equals1` with strict equality, is sequence equality |
| Seqs.Concat | lib/fantasy/array.js:31-33 | the first list followed by the second |
| Seqs.Empty | lib/fantasy/array.js:38-40 | the empty list |
| Seqs.Of | lib/fantasy/array.js:66-68 | the one-element list |
| Seqs.LemmaMonoidLaws | lib/fantasy/array.js:31-40 | `empty` is a two-sided unit of `concat`, and `concat` is associative |
| Seqs.Map | lib/fantasy/array.js:45-47 | same length, with `f` applied at every index |
| Seqs.LemmaMapLaws | lib/fantasy/array.js:45-47 | `map` keeps identities, composes, and distributes over concatenation |
| Seqs.LemmaMapFlatten | lib/fantasy/array.js:45-47 | mapping a flattened list is flattening the mapped lists |
| Seqs.LemmaApFunctionMajor | lib/fantasy/array.js:52-60 | `ap(fs, xs)` is the concatenation, over the functions in order, of mapping each function over `xs` |
| Seqs.LemmaApLength | lib/fantasy/array.js:52-60 | `ap` yields `|fs|·|xs|` results |
| Seqs.LemmaApAt | lib/fantasy/array.js:52-60 | result `i·|xs| + j` is `fs[i](xs[j])` |
| Seqs.LemmaApOf | lib/fantasy/array.js:52-68 | applying `of(f)` is `map(f)` |
| Seqs.LemmaReduceAppend | lib/fantasy/array.js:73-77 | a fold over `xs + ys` folds `ys` starting from the fold of `xs`, so the fold goes left to right |
| Seqs.LemmaReduceSnoc | lib/fantasy/array.js:73-77 | the last step of a fold calls `f(element, acc)`, element first |
| Seqs.LemmaChainOnto | lib/fantasy/array.js:102-108 | the `forEach` loop of `chain` appends `f(a)` for each `a` in order |
| Seqs.Chain | lib/fantasy/array.js:102-108 | `chain(as, f)` is the in-order concatenation of the `f(a)` |
| Seqs.LemmaJoinOnto | lib/fantasy/array.js:113-117 | the reduce loop of `join` appends each inner list in order |
| Seqs.Join | lib/fantasy/array.js:113-117 | `join` flattens one level, in order |
| Seqs.LemmaMonadLaws | lib/fantasy/array.js:102-117 | `of` is a left and right unit of `chain`, and `join` is `chain` with the identity |
| Seqs.Filter | lib/index.js:58 | `filter` keeps only elements that satisfy the test and every element that does, as an order-preserving subsequence, and keeps distinct elements distinct |
| Seqs.LemmaFilterCount | lib/index.js:58 | `filter` keeps each element that satisfies the test exactly as many times as the input holds it, and no other element |
| InsertionSet.Add | lib/fantasy/set.js:66 | `Set#add` leaves a present element alone and appends a new one |
| InsertionSet.LemmaAddAll | lib/fantasy/set.js:68-70 | adding a list of distinct elements appends, in order, those not yet present |
| InsertionSet.Concat | lib/fantasy/set.js:63-72 | `a`'s elements in order, then `b`'s elements that are not in `a`, in `b`'s order |
| InsertionSet.LemmaConcatUnion | lib/fantasy/set.js:63-72 | the union holds exactly the elements of both sets, without duplicates, and is no longer than both together |
| InsertionSet.Empty | lib/fantasy/set.js:77-79 | the set without elements |
| InsertionSet.Equals1 | lib/fantasy/set.js:33-51 | true iff the sizes agree and `valueEquals` holds pairwise in iteration order |
| InsertionSet.Reduce | lib/fantasy/set.js:84-89 | the fold visits the elements in insertion order and calls `f(element, acc)` |
| InsertionMap.Empty | lib/fantasy/map.js:95-97 | the map without entries |
| InsertionMap.Put | lib/fantasy/map.js:87 | `Map#set` keeps a present key's position, appends a new key, and stores the value |
| InsertionMap.Step | lib/fantasy/map.js:83-88 | one `forEach` step of `concat1`: the value is combined with `valueConcat` when the key is present, stored as it is otherwise, and other keys are unchanged |
| InsertionMap.LemmaFillKeys | lib/fantasy/map.js:83-88 | the second loop appends, in order, exactly the keys not present yet |
| InsertionMap.LemmaFillValues | lib/fantasy/map.js:83-88 | after the second loop, each key holds its combined, kept or copied value |
| InsertionMap.LemmaCopy | lib/fantasy/map.js:79-82 | the first loop copies `a` exactly, keys in order |
| InsertionMap.Concat1 | lib/fantasy/map.js:78-90 | the keys are the union, `a`'s first; a key only in `a` keeps `a`'s value, a key only in `b` takes `b`'s, and a shared key gets `valueConcat(aValue, bValue)` |
| InsertionMap.Concat | lib/fantasy/map.js:62-64 | `concat` is `concat1` with `takeFirst` |
| InsertionMap.LemmaConcatLeftBiased | lib/fantasy/map.js:62-64 | the key set is the union, and a key in `a` keeps `a`'s value |
| InsertionMap.Map | lib/fantasy/map.js:102-108 | the same keys in the same order, with `f` applied to every value |
| InsertionMap.ReduceFrom | lib/fantasy/map.js:113-118 | the loop over a list of keys is the array fold over their values |
| InsertionMap.Reduce | lib/fantasy/map.js:113-118 | `reduce` folds the values in insertion order, calling `f(value, acc)` |
| InsertionMap.Equals1 | lib/fantasy/map.js:35-49 | true iff the key lists are equal and `valueEquals` holds on every key |
| InsertionMap.LemmaEqualsKeySets | lib/fantasy/map.js:36-40 | maps with different key sets are never equal |
| RoseTree.Of | lib/rosetree.js:141-143 | `of(v)` is a childless node holding `v` |
| RoseTree.InsertLeft | lib/rosetree.js:41-43 | same value; the new node is the first child and the old children follow unchanged |
| RoseTree.InsertRight | lib/node2.js:51-53 | same value; the old children come first and the new node is last |
| RoseTree.LemmaInsertCommute | lib/rosetree.js:41-54 | inserting on the left and on the right commute |
| RoseTree.LemmaLeavesEachCons | lib/rosetree.js:66-68 | the joined leaves of a child list split at its head |
| RoseTree.LemmaLeaves | lib/rosetree.js:62-69 | a childless node's leaves are `[self]`; every tree has a leaf, and every leaf is childless |
| RoseTree.LemmaLeavesOf | lib/rosetree.js:66-68 | a non-empty child list has leaves, all childless |
| RoseTree.LemmaPathsEachCons | lib/rosetree.js:82-84 | the joined paths of a child list split at its head |
| RoseTree.LemmaPrefixEnd | lib/rosetree.js:84-86 | `[self].concat(path)` keeps the path's last node |
| RoseTree.LemmaPathsEndAtLeaves | lib/rosetree.js:77-87 | there are as many paths as leaves, and the i-th path ends at the i-th leaf |
| RoseTree.LemmaPathsOfEndAtLeaves | lib/rosetree.js:82-86 | the same for the children's joined paths and leaves |
| RoseTree.LemmaPrefixFrom | lib/node2.js:67-69 | prefixing a walk from a child with the parent gives a walk from the parent |
| RoseTree.LemmaPathsFrom | lib/node2.js:61-70 | a childless node's `paths()` is the node itself, not a one-element path; otherwise every path is an array that starts at the node and descends child by child to a childless node |
| RoseTree.LemmaPathsOfFrom | lib/node2.js:65-67 | each of the children's joined paths starts at one of the children |
| RoseTree.Map | lib/rosetree.js:123-127 | same shape (the child count at every node), with `f` applied at the root |
| RoseTree.MapEach | lib/rosetree.js:124-126 | mapping the children keeps each child's shape |
| RoseTree.LemmaMapPreOrder | lib/node2.js:115-119 | `map` applies `f` to every value, in pre-order |
| RoseTree.LemmaMapPreOrderOf | lib/node2.js:116-118 | the same for a list of children |
| RoseTree.Reduce | lib/rosetree.js:148-152 | `reduce` is the array fold over the pre-order values: the root first, then each child subtree from left to right |
| RoseTree.ReduceOf | lib/node2.js:141-143 | the children's fold continues the pre-order from the root's accumulator |
| RoseTree.Ap | lib/rosetree.js:132-136 | `ap(b)` keeps this tree's shape |
| RoseTree.LemmaApIsMap | lib/rosetree.js:132-136 | `ap(b)` is `map` with `b`'s root value as the argument; it applies this node's function to `b`'s value and recurses on the children |
| RoseTree.Chain | lib/rosetree.js:174-183 | the value is `f(v)`'s value; the children are `f(v)`'s children followed by the chained old children |
| RoseTree.LemmaChainUnits | lib/rosetree.js:174-183 | `of` is a left and right unit of `chain` |
| RoseTree.LemmaChainAssoc | lib/rosetree.js:174-183 | `chain` is associative: chaining `f` and then `g` is chaining `x => chain(f(x), g)` |
| RoseTree.Join | lib/rosetree.js:188-190 | `join` takes the inner root's value, the inner root's children, then the joined outer children |
| RoseTree.LemmaJoinMapOf | lib/rosetree.js:188-190 | joining `map(of)` gives the tree back |
| RoseTree.LemmaJoinMapOfOn | lib/rosetree.js:174-190 | `chain(id)` after `map(of)` gives the tree back |
| RoseTree.LemmaExtract | lib/rosetree.js:202-204 | `extract` returns the stored value: it undoes `of` and commutes with `map` |
| RoseTree.Node2Equals | lib/node2.js:81-96 | `equals` as written: equal root values and child counts are necessary |
| RoseTree.LemmaNode2EqualsNotReflexive | lib/node2.js:88-94 | a tree with two different leaves is not equal to itself |
| RoseTree.RoseEquals1 | lib/rosetree.js:99-104 | `equals1` as written: equal root values and child counts are necessary |
| RoseTree.LemmaRoseEquals1NotReflexive | lib/rosetree.js:101-103 | a root with one leaf child is not equal to itself |
| RoseTree.Equals1 | lib/rosetree.js:99-104 | the corrected `equals1`: equal root values, equal child counts, and children equal pairwise |
| RoseTree.LemmaEquals1Strict | lib/rosetree.js:92-94 | with strict equality on the values, the corrected `equals` is exactly tree equality |
| Ast.Normal | lib/ast.js:20 | `value \|\| null`: a falsy value becomes `null` and a truthy one is kept |
| Ast.MakeLeaf | lib/ast.js:18-22 | `leaf(v)` stores `null` for a falsy `v` and `v` otherwise |
| Ast.MakeBranch | lib/ast.js:11-14 | `branch(nodes)` keeps the list, and a missing list becomes `[]` |
| Ast.Map | lib/ast.js:37-45 | `map` keeps every Branch's subtree count and order, and every leaf holds a value the `Leaf` constructor can store |
| Ast.MapEach | lib/ast.js:38-40 | mapping the subtrees keeps each one's shape |
| Ast.LemmaMapFringe | lib/ast.js:37-45 | the leaf values after `map` are `f`, then the falsy-to-`null` normalisation, applied to the old leaf values in order |
| Ast.LemmaMapFringeOf | lib/ast.js:38-40 | the same for a list of subtrees |
| Ast.ValueOf | lib/ast.js:57 | `b._value` is a leaf's value, and `undefined` on a branch |
| Ast.Ap | lib/ast.js:50-58 | `ap(b)` keeps this tree's shape |
| Ast.LemmaApIsMap | lib/ast.js:50-58 | `ap(b)` on a Leaf applies this leaf's function to `b`'s value, and on a Branch it distributes over the subtrees: it is `map` with `b`'s value as the argument |
| Ast.Of | lib/ast.js:63 | `of` is `leaf`: a single leaf holding the normalised value |
| Ast.Reduce | lib/ast.js:68-76 | `reduce` folds the leaf values from left to right; branches contribute nothing themselves |
| Ast.ReduceOf | lib/ast.js:69-71 | the subtrees' fold continues from left to right |
| Ast.Chain | lib/ast.js:102-110 | a Leaf becomes `f(value)`; a Branch is rebuilt with as many subtrees, subtree `i` being the chained old subtree `i` |
| Ast.ChainEach | lib/ast.js:103-105 | chaining the subtrees keeps their count, and result `i` is subtree `i` chained |
| Ast.LemmaChainFringe | lib/ast.js:102-110 | the leaf values of `chain(f)` are those of `f(v)` for each old leaf value `v`, in order |
| Ast.LemmaChainFringeOf | lib/ast.js:103-105 | the same for a list of subtrees |
| Ast.LemmaChainNormalized | lib/ast.js:102-110 | `chain` keeps leaves normalised when `f` yields normalised trees |
| Doneable.ToPromise | lib/doneable.js:49-64 | a throw rejects with the thrown value. An arity-0 hook resolves when it returns. A hook that takes `done` stays pending until `done` is called: `done()` resolves, and `done(x)` rejects with `x` for any `x`, even `undefined` |
| Doneable.LemmaDoneUndefinedRejects | lib/doneable.js:51-56 | `done(undefined)` rejects, with a falsy reason |
| Doneable.Sequence | lib/doneable.js:22-31 | the hooks are invoked as a prefix of the list, each only after the previous one resolved; the sequence resolves iff every hook resolved; otherwise its outcome is that of the last invoked hook |
| Doneable.LemmaSequenceStops | lib/doneable.js:26-30 | the first hook that does not resolve ends the sequence with its outcome, and no later hook is invoked |
| Doneable.LemmaSequenceAppend | lib/doneable.js:22-31 | after a resolved sequence, further hooks continue it |
| Doneable.Force | lib/doneable.js:39-41 | calling a lazy promise invokes exactly its hook |
| Doneable.LemmaLazyPromise | lib/doneable.js:39-41 | `toLazyPromise` invokes nothing until called; called, it is `toPromise`, the same as a one-hook sequence |
| Suite.NewIt | lib/it.js:16-20 | a new `It` stores its name and body, and its timeout starts as `null` |
| Suite.ItSetTimeout | lib/it.js:48-59 | after `timeout(ms)`, `getTimeout()` is `ms`, and the name and body are unchanged; the call itself returns `undefined` |
| Suite.NewDescribe | lib/describe2.js:16-23 | a new `Describe` has a `null` timeout and `null` hooks, and has not run |
| Suite.RunDescribe | lib/describe2.js:32-38 | `run()` invokes the definition iff it had not run, and marks it as run |
| Suite.LemmaRunOnce | lib/describe2.js:32-38 | a second `run()` invokes nothing and changes nothing |
| Suite.BeforeEach | lib/describe2.js:56-61 | the first `beforeEach` stores the hook; a later call takes the `.then` branch on the stored function, which throws a `TypeError` |
| Suite.AfterEach | lib/describe2.js:79-84 | the same for `afterEach` |
| Suite.DescribeSetTimeout | lib/describe2.js:94-97 | `timeout(ms)` overwrites the timeout and nothing else |
| Suite.LemmaHookSlotsOnce | lib/describe2.js:56-84 | each hook slot accepts one hook, and the second call throws |
| Suite.LemmaAliasesUndefined | lib/describe2.js:47-79 | `before` and `after` copy `beforeEach` and `afterEach` before those are assigned, so they are `undefined` |
| Suite.AsEntry | lib/dsl.js:128 | the `undefined` that `It#timeout` returns becomes the node's value |
| Dsl.Refocus | lib/dsl.js:152-155 | `refocus` replaces the focused node's value and keeps its children and the rest of the stack |
| Dsl.Finish | lib/dsl.js:34 | `describe.run()` marks a `Describe` as run and keeps the children |
| Dsl.Exec | lib/dsl.js:28-132 | a run of calls keeps the stack depth and everything below the focused node, keeps the focused node's children, and keeps every focused value a `Describe` |
| Dsl.Step | lib/dsl.js:28-132 | the same for one call |
| Dsl.DescribeStep | lib/dsl.js:28-47 | the same for `describe` |
| Dsl.AddBeforeEach | lib/dsl.js:85-92 | throws unless a `Describe` is focused; otherwise only the focused value changes, by `Describe#beforeEach` |
| Dsl.AddAfterEach | lib/dsl.js:109-116 | the same for `afterEach` |
| Dsl.SetTimeoutStep | lib/dsl.js:125-132 | throws on an empty stack; on a focused `Describe` only its timeout changes |
| Dsl.LemmaStepFrame | lib/dsl.js:140-155 | a call reads and writes only the top of the stack, so running it under deeper stacks is the same run |
| Dsl.LemmaExecFrame | lib/dsl.js:140-155 | the same for a list of calls |
| Dsl.LemmaDescribeFrame | lib/dsl.js:28-47 | the same for `describe` |
| Dsl.Subtree | lib/dsl.js:29-35 | `describe` focuses a new node, runs its definition and pops the finished subtree, named after the call and marked as run |
| Dsl.Attach | lib/dsl.js:37-44 | the finished subtree becomes the last child of the enclosing focused node, or is appended once to `topLevelDescribes` when the stack is empty |
| Dsl.LemmaDescribeStep | lib/dsl.js:28-47 | `describe` is building the subtree, then attaching it |
| Dsl.LemmaItStep | lib/dsl.js:56-68 | `it` with nothing focused throws; otherwise it appends a new `It` leaf as the last child of the focused node |
| Dsl.LemmaBeforeEachTwice | lib/dsl.js:85-92 | a second `beforeEach` (or `before`) in the same `describe` throws |
| Dsl.LemmaAfterEachTwice | lib/dsl.js:109-116 | a second `afterEach` (or `after`) in the same `describe` throws |
| Dsl.LemmaTopLevel | lib/dsl.js:42-44 | a program that does not throw has only `describe` at top level, and each one appends one tree to `topLevelDescribes` |
| LegacyDsl.NewFields | lib/node.js:17-19 | a new `Node`'s prefix defaults to `[]`; name, body and timeout are kept |
| LegacyDsl.NewGroup | lib/describe.js:21-49 | a new `Describe` has no hooks and no children |
| LegacyDsl.SetNodeTimeout | lib/node.js:71-76 | `timeout(x)` stores `x`, or 0 when `x` is falsy, and changes nothing else |
| LegacyDsl.BeforeAccessor | lib/describe.js:35-43 | the `before` setter assigns its parameter to itself, so the getter stays `null` |
| LegacyDsl.Extend | lib/describe.js:139-146 | `_getTests` appends its name to the prefix and its hooks to copies of the hook lists; its own timeout wins if truthy, and an own timeout of 0 defers to the inherited one |
| LegacyDsl.GetTests | lib/describe.js:136-152 | a bare `Node` throws exactly when one is in the tree; otherwise test `i` carries the `i`-th `It` in pre-order, one test per `It`, and is handed the given context extended along exactly that `It`'s ancestors (`Along`): every ancestor's name and hooks in order and the innermost truthy timeout |
| LegacyDsl.Ancestors | lib/describe.js:149-151 | one list of enclosing `Describe`s per `It`, in the `It`s' order, each starting with the tree itself when it is a `Describe` |
| LegacyDsl.Along | lib/describe.js:139-146 | a context handed down through `Describe`s gains their names after the prefix, their `before` and `after` hooks in outer-to-inner order, and the timeout of the innermost one whose timeout is truthy, else the inherited one |
| LegacyDsl.GetTestsOf | lib/describe.js:148-151 | the children's tests concatenated in child order: test `i` carries the `i`-th `It` of the children in pre-order and is handed the same given context extended along that `It`'s ancestors, and the list throws iff some child holds a bare `Node` |
| LegacyDsl.LemmaGetTestsPrefix | lib/describe.js:143 | in a tree built by the DSL, each `It`'s prefix is the prefix its tests are handed |
| LegacyDsl.LemmaGetTestsPrefixOf | lib/describe.js:148-151 | the same for a list of children |
| LegacyDsl.Indent | lib/describe.js:209 | `new Array(k + 1).join('  ')` is `2·k` spaces |
| LegacyDsl.ToString | lib/describe.js:208-210 | `2·(prefix length + 1)` spaces, followed by the name |
| LegacyDsl.LemmaStaticAliasesUndefined | lib/describe.js:86-104 | `Describe.after` and `Describe.before` are `undefined`, while `afterEach` and `beforeEach` exist |
| LegacyDsl.AddChild | lib/describe.js:186 | pushing a child appends it at the end and changes nothing else |
| LegacyDsl.OnFocused | lib/describe.js:156-206 | `it` pushes an `It` whose prefix is the parent's prefix and name, and changes nothing else. `beforeEach` overwrites the hook. A second `afterEach` throws "You may only call Describe#afterEach once" |
| LegacyDsl.DescribeRoot | lib/describe.js:75-84 | a top-level `describe` focuses the new root and never unfocuses it |
| LegacyDsl.LemmaRootRunsBody | lib/describe.js:80-82 | the root's definition runs with the root focused: an `it` it ends with becomes the root's last child, with prefix `[name]` |
| LegacyDsl.DescribeChild | lib/describe.js:183-191 | a nested `describe` appends one child with the parent's prefix and name, and restores the stack |
| LegacyDsl.LemmaDescribeChildRuns | lib/describe.js:183-191 | the child's definition runs with the child focused, and the parent's last child is the finished child; a throw in the definition is the result |
| LegacyDsl.LemmaExecFrame | lib/describe.js:54-66 | a definition's calls see only the focused `Describe`: the nodes focused before it come back unchanged |
| LegacyDsl.LemmaStepFrame | lib/describe.js:88-120 | the same for one call |
| LegacyDsl.LemmaDescribeChildFrame | lib/describe.js:183-191 | the same for a nested `describe` |
| LegacyDsl.LemmaExecAppend | lib/describe.js:75-120 | a longer definition continues from where its first part left off, and a throw stops it |
| LegacyDsl.Exec | lib/describe.js:75-120 | the static calls keep the stack below the focused node and keep every focused node a `Describe` |
| LegacyDsl.Step | lib/describe.js:86-120 | the same for one call; the static `it`, `afterEach`, `beforeEach` and `timeout` throw "You must call describe first" when nothing is focused, `Describe.before` and `Describe.after` always throw a `TypeError`, `timeout` on a focused node applies `SetNodeTimeout`, and the others forward to the focused `Describe` |
| LegacyDsl.LemmaAddChildCoherent | lib/describe.js:183-206 | children added by the DSL keep every child's prefix equal to its parent's prefix and name |
| LegacyDsl.LemmaSecondRootNests | lib/describe.js:75-84 | a second top-level `describe` nests under the first root |
| LegacyDsl.LemmaBeforeEachOverwrites | lib/describe.js:166-172 | the `beforeEach` guard never trips: a second call overwrites the hook |
| LegacyDsl.LemmaAfterEachOnce | lib/describe.js:156-162 | a second `afterEach` throws |
| Resolver.Visit | lib/test.js:277-304 | one step of the path fold throws exactly on an `undefined` node value |
| Resolver.ToTestFrom | lib/test.js:277-304 | the fold succeeds iff no node value is `undefined`; the `Describe` names along the path, in order, form the prefix |
| Resolver.LemmaToTestHooks | lib/test.js:291-303 | `beforeEach` and `afterEach` hooks are collected from the `Describe`s in root-to-leaf order |
| Resolver.LemmaToTestTimeout | lib/test.js:286-289 | the effective timeout is the last non-`null` timeout along the path |
| Resolver.LemmaToTestName | lib/test.js:280-284 | the last `It` along the path names the test |
| Resolver.LemmaToTestDef | lib/test.js:296-298 | the last `It` along the path gives the test's body |
| Resolver.ToTest | lib/test.js:267-314 | `toTest(path)`: the prefix is the `Describe` names along the path |
| Resolver.Visit2 | lib/test2.js:101-121 | one step of the second fold throws exactly on an `undefined` node value |
| Resolver.CollectFrom | lib/test2.js:101-121 | the second fold collects every node's name, whatever the node holds |
| Resolver.PathToTest | lib/test2.js:90-132 | the id defaults to 1. The prefix is every name on the path except the last, and the last name is the test name |
| Resolver.LemmaProperNames | lib/test2.js:125-126 | on a path of `Describe`s ending in an `It`, all the names are the `Describe` names followed by the `It`'s name |
| Resolver.LemmaFoldsAgree | lib/test2.js:106-120 | both folds compute the same timeout, hooks and body |
| Resolver.LemmaResolversAgree | lib/test2.js:90-132 | on a path of `Describe`s ending in an `It`, `pathToTest` and `toTest` build the same test, named after the `It` |
| Resolver.Values | lib/test.js:278 | the node values along a path, in order |
| Resolver.Kept | lib/test.js:62-65 | the kept paths are an order-preserving subsequence of `paths()`. Every one ends in an `It`, and every path that ends in an `It` is kept as often as `paths()` lists it |
| Resolver.ToTests | lib/test.js:62-65 | `.map(toTest)` gives one test per path, in order, and throws if one path throws |
| Resolver.FromNode | lib/test.js:61-66 | succeeds iff no kept path holds an `undefined` node value; then one test per root-to-leaf path that ends in an `It`, in leaf order |
| Resolver.FromNodes | lib/test.js:74-79 | a missing list gives no tests |
| Resolver.FromNodesOf | lib/test.js:76-78 | the roots' tests concatenated in root order |
| Resolver.Tests | lib/test2.js:44-49 | `Test.tests` keeps the paths that end in an `It` and succeeds iff none holds an `undefined` node value. Because `map` passes the index, the i-th kept path gets id i |
| Resolver.TestsFrom | lib/test2.js:44-49 | the same from a given first index |
| Resolver.FullTitle | lib/test.js:89-91 | the prefix and the name, joined with single spaces |
| TestRun.Chain | lib/test.js:187-195 | the chain resolves iff every before hook, the body and every after hook resolve. Without a body, it rejects with the `TypeError` of reading `bind` of `null`, the body both resolvers start from |
| TestRun.LemmaSequenceStopsEarly | lib/doneable.js:26-30 | a sequence that stops early stops the same way with more hooks after it |
| TestRun.LemmaChainIsSequence | lib/test.js:187-191 | with a body, the chain is one sequence: the before hooks, the body, the after hooks |
| TestRun.SetStarted | lib/test.js:245-253 | a second `setStarted` throws "Test already started"; otherwise it records the start time and emits `started`, and nothing else changes |
| TestRun.SetError | lib/test.js:206-209 | the first truthy error sticks, and nothing else changes |
| TestRun.LemmaFirstErrorSticks | lib/test.js:206-209 | once an error is recorded, no later `setError` replaces it |
| TestRun.SetFinished | lib/test.js:219-238 | throws "Test was not started" before start. Once finished it changes nothing. Otherwise it records the finish time and emits `failed` (keeping the first error) or `passed`, then `finished` |
| TestRun.LemmaLifeValid | lib/test.js:206-253 | the event log is always nothing, `[started]`, or `started`, one verdict, `finished`, so each event is emitted at most once |
| TestRun.RunTest | lib/test.js:183-198 | `run` starts a test only once. A started test finishes exactly when its chain settles |
| TestRun.LemmaRunOnce | lib/test.js:183-198 | `run` is idempotent |
| TestRun.LemmaRunEvents | lib/test.js:183-198 | a new test emits `started`, then `passed` or `failed`, then `finished`. It reports `failed` exactly for a truthy rejection reason, which it records as its error |
| TestRun.LemmaFalsyRejectionPasses | lib/test.js:230 | a body that calls `done(undefined)` rejects the chain, yet the test reports `passed` |
| TestRun.Run2 | lib/test2.js:67-85 | the first `run` keeps its promise, and later calls return it unchanged. The promise never rejects; once it settles the test is finished |
| TestRun.LemmaRun2Once | lib/test2.js:67-71 | the second draft's `run` is idempotent |
| TestRun.LemmaDraftsAgree | lib/test2.js:73-84 | both drafts finish a new test exactly when its chain settles; the first reports `failed` exactly when the second records a truthy error, and both then record the same error |
| Concurrent.Level | lib/runners/concurrent.js:20-23 | a missing or zero concurrency level becomes 5, and any other level is kept |
| Concurrent.Settle | lib/runners/concurrent.js:52-57 | a settling first-batch test pops the last queued test, if any, and starts it |
| Concurrent.SettleAll | lib/runners/concurrent.js:52-60 | once `w` first-batch tests have settled, the last `min(w, queue length)` queued tests have started, from the back, and the rest remain queued |
| Concurrent.Drain | lib/runners/concurrent.js:48-60 | the first batch runs, and each of its completions starts one queued test from the end |
| Concurrent.RunTests | lib/runners/concurrent.js:44-61 | the promise resolves with the first `clamp(k, 0, n)` tests only, in order, because `tests` is reassigned to the first batch |
| Concurrent.LemmaRunTestsOutcome | lib/runners/concurrent.js:44-61 | the started tests are the first batch, then the last `min(k, n−k)` tests from the back; the tests in between never run |
| Concurrent.LemmaDrainPartition | lib/runners/concurrent.js:45-60 | every test is started or never run: the two lists split the input |
| Concurrent.LemmaRunTestsPartition | lib/runners/concurrent.js:44-61 | the same for `runTests` |
| Concurrent.LemmaMiddleTestNeverRuns | lib/runners/concurrent.js:52-60 | with level 1 and tests `a, b, c`, `a` and then `c` run, and `b` never does |
| Concurrent.LemmaLongQueueStarves | lib/runners/concurrent.js:52-60 | with more than twice as many tests as slots, `n − 2k` tests never run |
| Concurrent.SlotsStart | lib/runners/concurrent.js:48-51 | the corrected runner starts the first batch, with the rest queued in order |
| Concurrent.SlotsSettle | lib/runners/concurrent.js:52-57 | in the corrected runner, a settling test hands its slot to the first queued test |
| Concurrent.LemmaSlotsInvariant | lib/runners/concurrent.js:48-57 | the corrected runner keeps the started tests a prefix of the input, and keeps at most `k` running |
| Concurrent.LemmaSlotsRunAll | lib/runners/concurrent.js:44-61 | when nothing runs any more, every test has started, in order |
| Concurrent.SlotsDrain | lib/runners/concurrent.js:52-60 | settling until nothing runs starts every test |
| Concurrent.RunTestsFixed | lib/runners/concurrent.js:44-61 | the corrected runner starts every test and returns them all in order |
| Concurrent.LemmaFixedRunsMiddleTest | lib/runners/concurrent.js:52-60 | with level 1, the corrected runner runs `a, b, c` |
| Selection.RegexSource | lib/index.js:49 | `slice(1, length − 1)`: the text between the first and last characters, empty for a shorter pattern |
| Selection.LemmaRegexSource | lib/index.js:48-49 | the pattern `/src/` hands exactly `src` to the compiler |
| Selection.Select | lib/index.js:46-57 | no pattern or an empty one selects all. A leading `/` compiles a regular expression: a failed compile throws, and otherwise the compiled matcher is the selector. Anything else is a prefix |
| Selection.GetTests | lib/index.js:44-59 | with no pattern every test is kept unchanged. Otherwise the result is an order-preserving subsequence holding exactly the tests whose full title the selector accepts, each as often as the loaded list holds it, and a failed compile throws |
| Selection.LemmaFilterNarrows | lib/index.js:58 | filtering by a test that implies an earlier filter's test equals filtering once |
| Selection.LemmaGetTestsIdempotent | lib/index.js:44-59 | selecting again with the same pattern changes nothing |
| Selection.LemmaLongerPrefixNarrows | lib/index.js:53-57 | a longer prefix selects what the shorter one selected, narrowed further |
| Selection.LemmaOwnTitleSelects | lib/index.js:53-57 | a test's own full title, used as a pattern, selects that test |
| Names.NewName | lib/names/name.js:18-22 | a new `Name`'s prefix defaults to `[]`, and its id defaults to 0 when the argument is not a number |
| Names.FullTitle | lib/names/name.js:24-26 | the prefix and the name joined with single spaces: the name alone, or the joined prefix, a space and the name |
| Names.LemmaPrefixEquals | lib/names/name.js:33 | comparing prefixes with `array.equals` is sequence equality |
| Names.EqualsAsWritten | lib/names/name.js:31-35 | `equals` as written holds iff the names and the prefixes agree, whatever the ids |
| Names.LemmaIdIgnored | lib/names/name.js:35 | two names that differ only in their id are `equals` |
| Names.Equals | lib/names/name.js:31-35 | the corrected `equals` is exactly structural equality |
| Names.NextId | lib/names/set.js:51-53 | `getNextId()` is 0 for an empty set (`_greatestId` −1), else the last name's id plus one |
| Names.EmptySet | lib/names/set.js:75-77 | the empty set, whose next id is 0 |
| Names.AddName | lib/names/set.js:37-39 | a new set with the name appended; the next id follows that name's id |
| Names.LemmaAddNext | lib/names/set.js:37-53 | in a set with ids 0, 1, 2, …, the next id is the size, and adding a name with that id keeps the ids consecutive |
| Names.ConcatAsWritten | lib/names/set.js:65-70 | `concat(b)` as written throws the `ReferenceError` "Name is not defined" exactly when `b` is not empty |
| Names.LemmaConcatThrows | lib/names/set.js:67-68 | concatenating a one-name set throws |
| Names.Concat | lib/names/set.js:65-70 | the corrected `concat(b)`: this set's names, then `b`'s names with their ids shifted by this set's greatest id plus one |
| Names.LemmaConcatConsecutive | lib/names/set.js:65-70 | concatenating two sets with consecutive ids keeps the ids consecutive |
| Names.LemmaConcatIdentity | lib/names/set.js:65-77 | `empty()` is a two-sided unit of `concat` |
| Names.LemmaConcatNextId | lib/names/set.js:65-70 | the next id after `concat` is the sum of the two next ids |
| Names.LemmaConcatAssoc | lib/names/set.js:65-70 | `concat` is associative |
| Names.Empty | lib/names.js:76-78 | an empty registry with no names |
| Names.SetFor | lib/names.js:37 | `registry.get(key) \|\| NameSet.empty()` |
| Names.CreateName | lib/names.js:34-44 | the key is prefix ++ [name] joined with spaces, and the new id is that key's next id, 0 for a fresh key. That key's set grows by the new name and its next id is one higher. Other keys are unchanged, and the name is appended to `getNames()` |
| Names.LemmaEmptyRegistered | lib/names.js:21-24 | a new registry satisfies the registry invariant |
| Names.LemmaCreateNameRegistered | lib/names.js:34-44 | `createName` keeps the invariant: each set holds ids 0, 1, 2, … of its own title, and no (title, id) pair repeats among the created names |
| Names.LemmaCreateNameCounts | lib/names.js:37-38 | the new id is the number of names already created with that title |
| Names.LemmaRepeatedTitle | lib/names.js:34-44 | creating one title three times gives the ids 0, 1 and 2 |
| Names.RegistryConcat | lib/names.js:66-71 | `concat` merges the registries left-biased and concatenates the name lists |
| Names.LemmaConcatRepeatsNames | lib/names.js:66-71 | `concat` does not keep names unique: merging two registries that each created a title once lists (title, 0) twice |

## Findings

| source | as written | input that shows it | evidently intended | confidence | as-written member | corrected member |
|---|---|---|---|---|---|---|
| lib/rosetree.js:101-103 | the `equals1` callback compares each child of the receiver with `b` itself, not with `b`'s child | `Node(1, [of(1)])` is not equal to itself (`RoseTree.LemmaRoseEquals1NotReflexive`) | children compared pairwise, so that strict `equals` is tree equality (`RoseTree.LemmaEquals1Strict`) | not executed | RoseTree.RoseEquals1 | RoseTree.Equals1 |
| lib/node2.js:88-94 | `equals` compares the receiver's own children `i` and `j` with each other | `Node(1, [of(2), of(3)])` is not equal to itself (`RoseTree.LemmaNode2EqualsNotReflexive`) | children compared pairwise with `b`'s | not executed | RoseTree.Node2Equals | RoseTree.Equals1 |
| lib/names/name.js:35 | the id test compares `this._id` with itself | `Name("x", [], 0)` equals `Name("x", [], 1)` (`Names.LemmaIdIgnored`) | compare `this._id` with `b._id`, so that `equals` is structural equality | not executed | Names.EqualsAsWritten | Names.Equals |
| lib/names/set.js:68 | `Name` is never imported, so building a shifted name throws a `ReferenceError` | concatenating any non-empty set (`Names.LemmaConcatThrows`) | shift `b`'s ids past this set's greatest id, which gives an associative, unital `concat` that keeps ids consecutive (`Names.LemmaConcatAssoc`, `Names.LemmaConcatConsecutive`) | not executed | Names.ConcatAsWritten | Names.Concat |
| lib/runners/concurrent.js:52-57 | only a first-batch completion pops the queue, and it pops from the end, so at most `min(k, n − k)` queued tests ever run | level 1 with tests `a, b, c` runs `a` and `c` and never `b` (`Concurrent.LemmaMiddleTestNeverRuns`) | every completion hands its slot to the next queued test, so every test runs (`Concurrent.LemmaSlotsRunAll`) | not executed | Concurrent.RunTests | Concurrent.RunTestsFixed |

## Left out

- I/O and processes are not modelled:
  - `lib/client.js`, `lib/server.js` and `lib/reporters/ipc.js`;
  - `loadFiles`, `listTests`, `runTests` and `emit` in `lib/index.js`;
  - `lib/index2.js`.
  They require files, talk over IPC and print.
- `loadTests` in `lib/index.js` has no member of its own. It is `Resolver.FromNodes` applied to the `top` list that `Dsl.Exec` builds.
- UI and reporting are not modelled: `lib/ui.js`, `lib/reporters/spec.js` and `lib/reporters/index.js`. They render to a terminal and gather statistics from events and dates.
- The other runners are not modelled:
  - `lib/runners/parallel.js`: `runTests` is unimplemented;
  - `lib/runners/index.js`: abstract;
  - `lib/runners/sequential.js`: it inherits from an undefined `Runner` and only passes the level 1 to the concurrent runner.
- `lib/deferred.js`, `lib/promise.js` and the promise machinery are not modelled.
  - Each promise is its settled `Outcome`, and a chain is evaluated to its outcome in one step.
  - Interleavings between tests are not modelled.
- The concurrent runner's in-flight bound (at most `k` running) is stated only for the corrected runner (`Concurrent.LemmaSlotsInvariant`). For the runner as written, the model states which tests start, not the running set over time.
- `traverse` and `sequence` are not modelled in the array, rose tree and AST modules. They need higher-kinded applicatives, and the one in `lib/fantasy/map.js` only throws.
- Some rose tree methods are not modelled, because they are not part of the pipeline:
  - `concat`, which concatenates a value with a node;
  - `empty1`;
  - `extend`.
  The `flatten` helper of `lib/node2.js` is the same fold as `join` and is modelled by `Seqs.Join`.
- Timeouts are carried through but never enforced, so there is no timer.
- Start and finish times are integer parameters (`now`, `later`).
- `defaultEquals` and `defaultConcat` of `lib/util.js` are not modelled. They dispatch on an `equals` method by duck typing, so the model takes an explicit element comparison instead.
- Regular-expression compilation and matching are a `Compiler` parameter, and may throw. A string prefix test (`indexOf(pattern) === 0`) is modelled as sequence prefix.
- Broken module code is not modelled. The model follows the evident intent:
  - `lib/fantasy/map.js:84` is a syntax error, and lines 146-150 overwrite `module.exports` (one names an undeclared `equals2`);
  - `lib/fantasy/array.js:10` calls the undefined `equlas1` with the undefined `strictEquals`;
  - `lib/fantasy/set.js:34` reads `as.size` before `as` is assigned, and `strictEquals` is undefined there too;
  - `lib/runners/concurrent.js:3` requires a non-existent `./array`;
  - `lib/names/name.js` requires `./fantasy/array`, which resolves to the non-existent `lib/names/fantasy/array.js`;
  - `lib/names.js` requires a non-existent `./name` and never imports `NameSet`.
- Several drafts use APIs that do not match each other. The model uses one closed `Group | Case | Missing` value type and the methods the drafts share:
  - `lib/test.js` calls `getPaths`, `getValue`, `getTimeout`, `getBeforeEach` and `getAfterEach`, which `lib/rosetree.js` and `lib/describe2.js` lack;
  - `lib/test2.js` requires a non-existent `./it2`;
  - `lib/dsl.js` requires `./describe` and `./node` but calls the `lib/describe2.js` and `lib/rosetree.js` API;
  - `lib/describe.js` builds `new It(prefix, name, body)`, which does not match `lib/it.js`.
- `Resolver.ToTestFrom`'s ensures state only the prefix and the error. The hooks, timeout, name and body are stated by `Resolver.LemmaToTestHooks`, `Resolver.LemmaToTestTimeout`, `Resolver.LemmaToTestName` and `Resolver.LemmaToTestDef`.
- `TestRun.Run2` does not model the `_didFinish` field. The constructor sets `_didFinish`, but `run` sets `_isFinished`; the model records `isFinished`.
- Several equality and fold methods are not modelled separately: `NameSet.equals`, `NameSet.reduce`, `Names.equals` and `reduce`.
  - They delegate to the array and map helpers, which are modelled.
  - `reduce` in `lib/names.js` is assigned to `Name.prototype`, a typo for `Names.prototype`.
- The test-definition fixture at the root (`test.js`) is not modelled.
- `Seqs.GroupsOf` requires a size of at least 1 for non-empty input, because the source's loop never ends otherwise.
- JavaScript numbers are modelled as integers, and the selection pattern as a string:
  - `Concurrent.Level` cannot take `NaN`, which `concurrencyLevel || DEFAULT_CONCURRENCY` would turn into 5;
  - `Seqs.SplitInto` cannot take a fractional group count, for which the source computes a fractional quotient;
  - `Selection.Select` takes a string or nothing, not the `RegExp` object that `getTests` also accepts.
