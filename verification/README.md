# Living-trade gene trees in Dafny

This project models the living-trade clade of SwiftGenetics. That clade is a
genetic-programming engine whose individuals are typed expression trees of trade genes.

The model covers:

- **Gene types.** `TradeGeneType` is modelled as an opaque tag. A `Vocabulary` value
  carries the protocol's per-type queries and the compatible-alternate choice. A separate
  `TypeLists` value holds the three sampling lists, with their derived `nonLeafTypes` and
  `allTypes`; the generator samples from one (module `GeneTypes`).
- **Genes.** A living-trade gene is a mutable node with a gene type, a weak `parent`
  back-reference and owned `children`. Nodes live in a heap `map<NodeId, Node>` with a
  fresh-id counter (module `Arena`). A gene's *structural view* is a pure `Tree` of types
  and children (module `Trees`). That view is also exactly the record that gene coding
  writes.
  - `Realizes(a, id, t)` says that the gene at `id` has the shape and types of `t`.
  - `Linked` adds that every child's back-reference names the gene holding it.
  - `IsTree` adds that no gene is reachable along two paths.
- **Gene operations** (module `Gene`):
  - deep copy
  - parent-link rebuild
  - encoding and decoding
  - the in-place mutation step: gate, deletion, addition, then point replacement
- **Random genesis** (module `Genesis`): the depth-bounded recursive generator.
- **Equality** (module `Equality`): structural equality that ignores parents.
- **The genome wrapper** (module `Genome`):
  - bottom-up whole-tree mutation
  - gated crossover
  - deep copy
  - the raw-value wrapper

Randomness is passed in explicitly. Each `Double.fastRandomUniform()` becomes a `real`
parameter. `randomElement()` becomes an index from an oracle stream, taken modulo the
list length. Each `randomGene` result becomes a `Tree` parameter.

Crossover is modelled as the code is written. Both "original parents" are read from the
first selection (`LivingTradeGenome.swift:41`), and no children list is rewritten. No
subtree is therefore ever exchanged. When the draw is not below `rate`, or a root has at
most one child, the two genomes come back as they are. When the crossover fires:

- The first result is a fresh, linked copy of the first genome.
- The second result is a fresh copy of the second genome, or, when the first selection is
  its copy's root, a linked fresh copy of one of the second genome's subtrees.
- When neither selected gene is its copy's root, the second result's back-references are
  broken.

`Genome.CrossoverBreaksLinks` proves that last point. This is the behaviour of the code,
not of a type-compatible subtree exchange, which the code does not implement.

## Model

| member | source | states |
|---|---|---|
| `GeneTypes.AllTypesLayout` | Sources/Clades/LivingTrades/TradeGeneType.swift:39-40 | about the functions `TypeLists.NonLeafTypes` and `TypeLists.AllTypes`: `allTypes` lists the binary, then the unary, then the leaf types, each in its own order, and starts with `nonLeafTypes` |
| `GeneTypes.AllTypesMembership` | Sources/Clades/LivingTrades/TradeGeneType.swift:39-40 | about the same two functions: a type is in `allTypes` exactly when it is in one of the three lists; it is in `nonLeafTypes` exactly when it is binary-listed or unary-listed |
| `Arena.AllNodes` | Sources/Clades/LivingTrades/LivingTradeGene.swift:127-133 | the listing is non-empty and starts with the gene itself; its length is stated by `Arena.AllNodesFacts` and its order by `Arena.AllNodesPreOrder` |
| `Arena.BottomUp` | Sources/Clades/LivingTrades/LivingTradeGene.swift:118-124 | `bottomUpEnumerate` visits only genes present in the heap |
| `Arena.AllNodesFacts` | Sources/Clades/LivingTrades/LivingTradeGene.swift:127-133 | `allNodes` lists one gene per node of the subtree, starting with the gene itself, all of them present |
| `Arena.AllNodesPreOrder` | Sources/Clades/LivingTrades/LivingTradeGene.swift:127-133 | the `i`-th gene `allNodes` lists heads the `i`-th subtree of the pre-order listing of the tree |
| `Arena.BottomUpFacts` | Sources/Clades/LivingTrades/LivingTradeGene.swift:119-124 | the bottom-up enumeration visits exactly the genes `allNodes` lists, as a permutation, and visits the gene itself last |
| `Arena.BottomUpPostOrder` | Sources/Clades/LivingTrades/LivingTradeGene.swift:118-124 | the `i`-th gene the bottom-up enumeration visits heads the `i`-th subtree of the post-order listing of the tree: each child's subtree in order, every gene after all of its descendants |
| `Arena.ListedSubtreeWithin` | Sources/Clades/LivingTrades/LivingTradeGene.swift:127-133 | the subtree of any gene `allNodes` lists consists only of genes that `allNodes` lists, and it is linked whenever the whole subtree is |
| `Arena.LinkedParentsInside` | Sources/Clades/LivingTrades/LivingTradeGene.swift:20-23 | in a linked subtree every gene except the first listed has a parent, and that parent is in the subtree |
| `Gene.Copy` | Sources/Clades/LivingTrades/LivingTradeGene.swift:136-140 | a deep copy consists only of fresh genes with the original's types and shape; the copy's root has parent `withParent` and every other copied gene has as parent the copy holding it |
| `Equality.CopyEqualsSource` | Sources/Clades/LivingTrades/LivingTradeGene.swift:136-140 | the copy is a different gene that is `==` to the original, and the original subtree is left in place |
| `Gene.ResetParents` | Sources/Clades/LivingTrades/LivingTradeGene.swift:143-148 | on a tree, types and children lists are kept, no gene outside the proper descendants changes, and afterwards every back-reference names the gene holding it |
| `Gene.Encode` | Sources/Clades/LivingTrades/LivingTradeGene.swift:159-164 | the encoded record is the gene's structural view: its type and its children's records in order, and no parent links |
| `Gene.Decode` | Sources/Clades/LivingTrades/LivingTradeGene.swift:166-174 | decoding creates fresh, consecutively numbered genes that realize the record, leaves existing genes alone, and yields a parentless root whose back-references are all rebuilt |
| `Gene.DecodeEncode` | Sources/Clades/LivingTrades/LivingTradeGene.swift:159-174 | decoding a gene's encoding gives a fresh, linked, parentless gene tree whose encoding is the same record |
| `Gene.Install` | Sources/Clades/LivingTrades/LivingTradeGene.swift:56-60 | adopting a random gene's type and children writes only the mutated gene (whose parent is kept) and fresh genes; the gene then heads a linked subtree equal to the random gene, with fresh children |
| `Gene.Mutate` | Sources/Clades/LivingTrades/LivingTradeGene.swift:32-114 | a root, or a gene whose gate draw is not below `rate`, is unchanged. Otherwise deletion fires on a non-leaf type and addition tests the type deletion left behind. Each fired stage leaves the gene linked to its random gene with fresh children. If neither fires, only the type becomes its compatible alternate. Nothing else existing is written, and the gene keeps its parent |
| `Gene.MutateKeepsIntegrity` | Sources/Clades/LivingTrades/LivingTradeGene.swift:32-114 | if a linked tree's child counts match its types, and the random genes and compatible alternates respect child counts, the mutated gene again heads a linked subtree whose child counts match |
| `Gene.PointReplacementLinked` | Sources/Clades/LivingTrades/LivingTradeGene.swift:89-97 | replacing only a gene's type keeps its subtree linked, with the new type in its structural view |
| `Equality.Equal` | Sources/Clades/LivingTrades/LivingTrade+Equatable.swift:13-20 | `==` holds exactly when the two genes have the same structural view (same types, same children in order), whatever their parents |
| `Equality.EqualForest` | Sources/Clades/LivingTrades/LivingTrade+Equatable.swift:13-20 | two children arrays are `==` exactly when their structural views are equal lists |
| `Equality.EqualReflexive` | Sources/Clades/LivingTrades/LivingTrade+Equatable.swift:13-20 | every gene is `==` to itself |
| `Equality.EqualSymmetric` | Sources/Clades/LivingTrades/LivingTrade+Equatable.swift:13-20 | `==` does not depend on the order of its operands |
| `Equality.EqualIffSameEncoding` | Sources/Clades/LivingTrades/LivingTrade+Equatable.swift:13-20 | two genes are `==` exactly when their encoded records are equal |
| `Equality.EqualIgnoresParents` | Sources/Clades/LivingTrades/LivingTrade+Equatable.swift:13-20 | rewriting any gene's parent link changes no `==` result |
| `Genesis.Pick` | Sources/Clades/LivingTrades/LivingTrade+RandomGenesis.swift:15 | `randomElement()!` on a non-empty list returns an element of that list |
| `Genesis.LeafGene` | Sources/Clades/LivingTrades/LivingTrade+RandomGenesis.swift:20-21 | a leaf child is a single childless gene whose type is drawn from the leaf list |
| `Genesis.GenerateTree` | Sources/Clades/LivingTrades/LivingTrade+RandomGenesis.swift:14-37 | the root type comes from `nonLeafTypes` or `allTypes` as `onlyNonLeaf` says. Every recursively drawn gene, at any depth, has a type from that list and a set shape: a binary gene has two children, which are leaf draws at depth 1 and recursive draws one level shallower otherwise; a unary gene has one leaf-draw child; any other gene has none. The height is at most `depth + 1`, one draw is used per gene, and arities match whenever no type in the leaf list is classified as binary or unary |
| `Genesis.Random` | Sources/Clades/LivingTrades/LivingTrade+RandomGenesis.swift:14-37 | the generated tree is placed as fresh genes, linked, with the given parent on its root, and existing genes are untouched |
| `Genome.MutateInOrder` | Sources/Clades/LivingTrades/LivingTradeGenome.swift:24-28 | mutating a list of genes in order never changes an existing parent link, leaves unlisted genes and every parentless gene unchanged, and only adds fresh genes |
| `Genome.MutateGenome` | Sources/Clades/LivingTrades/LivingTradeGenome.swift:24-28 | whole-genome mutation applies gene mutation to every gene in bottom-up order. Genes outside the tree and every existing parent link are unchanged, only genes with fresh ids are added, and a parentless root keeps its type and children |
| `Genome.CopyBoth` | Sources/Clades/LivingTrades/LivingTradeGenome.swift:34-35 | crossover's two deep copies are parentless, linked and made of fresh genes, the first copy's genes before the second's |
| `Genome.PickedParent` | Sources/Clades/LivingTrades/LivingTradeGenome.swift:37-41 | a gene selected from a parentless linked copy has a parent exactly when it is not the copy's root, and that parent lies inside the copy |
| `Genome.Select` | Sources/Clades/LivingTrades/LivingTradeGenome.swift:34-38 | the selected genes are the `pick % count`-th genes that each copy's `allNodes` lists |
| `Genome.Recombine` | Sources/Clades/LivingTrades/LivingTradeGenome.swift:40-60 | only the second selection's parent link can change. When the first selection is its copy's root, nothing is written. Otherwise the second selection gets exactly the first selection's original parent, which lies inside the first result. The first result is the first copy and is always linked. The second result is the second copy, or, when the first selection is its copy's root, the second selection's linked subtree. Every gene of either result is fresh |
| `Genome.Crossover` | Sources/Clades/LivingTrades/LivingTradeGenome.swift:30-61 | the inputs come back unchanged unless the draw is below `rate` and both roots have more than one child. No existing gene is touched. Otherwise the first result is a linked tree of fresh genes shaped like the first genome. The second is a tree of fresh genes shaped like the second genome, or, when the first selection is a root, a linked tree shaped like its selected subtree |
| `Genome.CrossoverBreaksLinks` | Sources/Clades/LivingTrades/LivingTradeGenome.swift:40-52 | when neither selection is its copy's root, the second result is not a linked tree: the second selection's back-reference points into the first result |
| `Genome.CopyGenome` | Sources/Clades/LivingTrades/LivingTradeGenome.swift:63-67 | the genome copy is a fresh, linked, parentless tree that is `==` to the original, which is left in place |
| `Genome.RawValue` | Sources/Clades/LivingTrades/LivingTradeGenome.swift:72-73 | the raw value is the root gene, and it determines the genome: wrapping it gives the genome back |
| `Genome.FromRawValue` | Sources/Clades/LivingTrades/LivingTradeGenome.swift:71-77 | the failable raw-value initializer always succeeds, and the raw value of its result is the given root gene |
| `Genome.RawValueRoundTrip` | Sources/Clades/LivingTrades/LivingTradeGenome.swift:71-77 | wrapping a genome's raw value gives the same genome back |

## Left out

- The concurrent per-epoch evaluation driver (`ConcurrentSwiftAsyncEvaluationGA.swift`) is not part of this model: it is task scheduling around fitness evaluation, not tree logic.
- Reference counting and `weak` semantics are not modelled. Genes are heap entries that are never freed. A gene that is no longer reachable simply stays in the map. This is observable in one place. When crossover's first selection is its copy's root and the second selection is not (`LivingTradeGenome.swift:47`), Swift frees the old root of the second copy and every gene above the second selection. The second result's weak `parent` therefore becomes nil. In the model that parent still names an unreachable gene, so a later `Genome.MutateGenome` on that result would mutate its root, which the source skips.
- `Codable` is modelled only as the `{geneType, children}` record, the `Tree`. Keyed containers, the JSON format and decoding errors are left out.
- Hashing is not modelled. The gene-type equality the protocol gets through `Hashable`, which `==` uses (`LivingTrade+Equatable.swift:18`), is modelled as equality of tags.
- The protocol members `isTopLevel`, `isNumericConstant`, `hasBooleanResult`, `needsBooleanResult` and `name` are not modelled. Only `isTopLevel` is read, in the debug print at `LivingTradeGene.swift:37`, which the `parent != nil` guard just before it makes unreachable. `name` appears only in commented-out prints. The other three are not read anywhere in the modelled files.
- Debug prints, the commented-out integrity checks, and `performGeneTypeSpecificMutations` are left out. The last one has an empty default body.
- The bodies of `randomGene`, `genePool` and `compatibleAlternate` belong to the concrete vocabulary. They are parameters here: the random genes of one mutation arrive in `MutationDraws`, and `compatibleAlternate` is a field of `Vocabulary`.
- `Equality.Equal`: the equality operator also compares `coefficient` and `allowsCoefficient`. The gene class shown declares neither field, so they are not modelled, and equality compares gene types and children only.
- `Genesis.GenerateTree`: requires `depth >= 1`. With `depth <= 0` the source's binary branch never reaches its depth-1 case, so it terminates only when a draw happens to give a non-binary type. It also requires that every list the generator can sample is non-empty; the source stops with a fatal error on an empty one.
- `Genesis.Random`: the template argument of the gene initializer is dropped, since the gene class shown stores no template.
- `Genome.MutateGenome`: integrity preservation is stated per gene (`Gene.MutateKeepsIntegrity`), not for the whole tree after every bottom-up step.
- `Genome.MutateGenome`: the visiting order is computed once from the starting heap. This agrees with `bottomUpEnumerate` on ownership trees, which are all that copying, decoding, generation and crossover ever build: a gene is mutated only after all its descendants, and mutating it rewrites only its own children. Shared genes, reachable along two paths, are outside the model. For such a gene the source reads its children again on the second visit, after the first visit may have replaced them.
- `Gene.Mutate`: `randomGene`'s own parent links for the descendants it creates are taken to be consistent, since its body is not part of this model. The modelled random gene is placed with freshly linked descendants.
- `Genome.Crossover`: when the first selection is not its copy's root, only the shape of the second result is stated, not its back-references. `Genome.CrossoverBreaksLinks` shows that, when the second selection is not a root either, they are inconsistent.
