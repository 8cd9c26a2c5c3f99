# NanoDB, modelled and proved in Dafny

NanoDB is a small database engine: an LRU buffer pool over page files, fixed-slot pages, an AVL
index, a join optimizer built on Kruskal's algorithm, a lexer, a parser that compiles WHERE clauses
to postfix, a priority queue of queries and a bulk loader. This project models those parts branch
by branch and proves what they do, over all inputs and all runs.

`dafny verify dfyconfig.toml` checks everything. Code that changes state in the original is
imperative here too (classes with fields, arrays, pointer nodes, loops); each such method is proved
equal to a step of a small functional model, and the theorems are about that model.

## The parts

* **Join optimizer** (`Graphs`, `Kruskal`, `UnionFind`, `JoinGraph`, `JoinOptimizer`). The
  selection-sorted, union-find based scan with its early exit returns a minimum spanning forest. On
  the all-pairs graph the plan costs (n - 1) times the least row count. The plan order rebuilt
  from the second ends of the kept edges is *not* a table permutation in general: it is one exactly
  when all names are equal, or the names are distinct and a smallest table is at position 0 or 1.
* **Buffer pool** (`DoublyLinkedList`, `IntHashMap`, `BufferPool`, `Pool`, `Recency`, `PoolRuns`,
  `Transparency`, `PageKeys`). The arrays, the free stack, the pointer list and the hash map stay
  coupled, and the code is the step of a state machine. Over every run the recency order is exactly the
  most recently fetched distinct pages that fit, larger pools never do worse, and the records seen are
  those of a store without a cache; a flush makes them durable. Transparency is stated on record
  counts and record bytes, because a hole left by a late write reads back as zeros, which changes a
  page's header but none of its records.
* **Inserts** (`Inserts`). An insert adds its row and keeps the others exactly when a record fits a page,
  and some page on disk has room or the page after the last one is still empty. A page that a previous
  insert filled in the pool only, and that has not reached the disk, is initialised again and its rows
  are lost: two inserts into a table without pages lose the first row.
* **Queries** (`Tokens`, `Lexer`, `Parser`, `Statements`, `ValueLists`, `ShuntingYard`, `Conditions`,
  `Queries`). Any layout of a token list is read back as that list. The four statement forms yield their
  tables, columns, values and compiled condition, exactly the statements with the words and names they need
  are accepted, and every token-skipping loop ends. The postfix of an expression is the post-order of the
  tree that was meant if and only if enough parentheses were written, which is to say, if and only if the
  text follows the grammar of OR, AND, comparisons, sums and products. A written condition, with `NOT`, a minus sign in front of an operand, a single `=` and qualified
  names allowed, keeps its meaning through parsing, compiling and running if and only if it has none of
  those four and enough parentheses, and rows get the right verdict under exactly that condition,
  whatever the operators mean. The values parsed from an INSERT are the values listed, and an UPDATE keeps
  its value and its condition, exactly when each value is one token.
* **AVL tree and index** (`AvlTree`, `AvlNodes`, `AvlIndex`). Insertion and the three-way removal are
  map update and deletion and keep order, balance, exact heights and the size; height is
  logarithmic; pruned range queries are exact. An index built from a file gives each key its first 32
  locations in scan order.
* **Rows, pages, bulk load** (`Bytes`, `Records`, `Disk`, `PageCodec`, `PageBuffer`, `BulkLoad`).
  Byte-level round trips up to the cut that string columns make, the exact condition under which a row
  survives it, slot bounds and disjointness, the exact place of every loaded row, and the index over a
  loaded file.
* **Scheduler queue** (`PriorityQueue`). A heap in a growing array: contents are a multiset, each
  dequeue takes a least priority number, draining gives an ordered permutation. Equal priorities may
  leave in any order.

## Where the code does not do what its comments or names suggest

* `NOT` has a precedence but is no operator to the translation, which drops it: `NOT x` passes the rows
  of `x`. A single `=` is dropped too: `x = c` passes the rows where `c` is true, so with a constant `c` a
  DELETE on it takes every row or none. `x > -c`, with any comparison, passes no row. The dot of
  `t.a` is dropped as well, and leaves the table's name as an operand of its own.
* `moveToFront` decrements the list's size field and never restores it. Nothing in the pool reads it.
* The 32-bit page key wraps for large table hashes; keys collide once files exceed 32704 pages.
* The rebuilt plan order can repeat one table and miss another.
* A non-empty text reads back as written only if it is shorter than its column; one-byte columns (order
  status, return flag, line status) always read back empty.
* A listed value of more than one token, such as a negative number, becomes several values and shifts the
  ones after it. An UPDATE to such a value takes its first token and loses its WHERE clause.
* A second INSERT before any write to disk can erase the row of the first.
* A record wider than a page's data area is silently lost by the loader and by INSERT.

## Model

| member | source | states |
|---|---|---|
| UnionFind.HalvingKeepsRoot | src/common/Graph.h:28 | pointing a node at its grandparent leaves every node's representative and the strictly increasing ranks as they were |
| UnionFind.LinkMovesOneClass | src/common/Graph.h:34-36 | linking the root of lower rank under the other sends exactly the loser's class to the winner |
| UnionFind.LinkMergesClasses | src/common/Graph.h:34-36 | the winner's class becomes the union of the two, sizes add up, every other class is unchanged |
| UnionFind.LinkKeepsLargeEnough | src/common/Graph.h:34-36 | a root of rank r keeps a class of at least 2^r nodes, the promotion included |
| UnionFind.RankIsLogarithmic | src/common/Graph.h:34-36 | 2^rank never exceeds the number of nodes |
| UnionFind.DisjointSets.Find | src/common/Graph.h:27-30 | returns the representative, leaves the partition alone, and loops at most log2(n) times |
| UnionFind.DisjointSets.Unite | src/common/Graph.h:31-38 | answers whether the classes differed and merges exactly those two |
| JoinGraphs.SortEdges | src/common/Graph.h:42-51 | the prefix ends sorted, is a permutation of what it was, and keeps its cheapest edges in their original order |
| JoinGraphs.SwapRearranges | src/common/Graph.h:43-49 | one exchange with the first least element never makes one cheapest edge overtake another, although selection sort is not stable |
| JoinGraphs.RestIsRedundant | src/common/Graph.h:93 | once nodes - 1 edges are kept the rest of the list adds nothing, so the early exit loses no edge |
| JoinGraphs.ClassesStep | src/common/Graph.h:94-96 | the union-find classes stay the connected components of the edges scanned so far |
| JoinGraphs.ScanSorted | src/common/Graph.h:89-100 | the loop keeps exactly the edges a scan without early exit would keep |
| JoinGraphs.ScanOfSortedIsMinimum | src/common/Graph.h:87-101 | what is kept of a sorted edge list is a minimum spanning forest |
| JoinGraphs.JoinGraph.AddTable | src/common/Graph.h:60-65 | appends a node with its name cut to 63 characters; a full graph ignores it |
| JoinGraphs.JoinGraph.TableIndex | src/common/Graph.h:67-71 | the first node of that name, or -1 |
| JoinGraphs.JoinGraph.AddJoin | src/common/Graph.h:74-83 | appends one edge costing the smaller row count, or nothing for unknown names and a full table |
| JoinGraphs.JoinGraph.ComputeMST | src/common/Graph.h:87-114 | fills the caller's array with a minimum spanning forest of the stored edges, the result of Kruskal's scan of a sorted rearrangement |
| Kruskal.GreedySpans | src/common/Graph.h:93-99 | kept edges connect exactly the pairs the scanned edges connect |
| Kruskal.GreedyAcyclic | src/common/Graph.h:93-99 | kept edges contain no cycle |
| Kruskal.GreedyIsSpanningForest | src/common/Graph.h:85-101 | they are a spanning forest and number nodes minus components |
| Kruskal.NoForestDoesBetter | src/common/Graph.h:87-101 | the exchange argument by counting in every prefix of the sorted list |
| Kruskal.GreedyIsMinimum | src/common/Graph.h:87-101 | their total weight is at most that of every other spanning forest |
| Graphs.ForestSize | src/common/Graph.h:86 | an acyclic edge set has nodes minus components edges |
| Graphs.JoinTwoComponents | src/common/Graph.h:95 | an edge between two components leaves exactly one component fewer |
| JoinOptimizer.KeptAreCheapest | src/optimizer/JoinOptimizer.cpp:32-38 | on the all-pairs graph every kept edge costs the least row count of all tables |
| JoinOptimizer.PlanCost | src/optimizer/JoinOptimizer.cpp:32-38 | the plan costs exactly (n - 1) times the least row count |
| JoinOptimizer.NoSecondTwice | src/optimizer/JoinOptimizer.cpp:41-46 | with a smallest table first or second no table is the second end of two kept edges |
| JoinOptimizer.LateTableRepeats | src/optimizer/JoinOptimizer.cpp:41-46 | otherwise the first two tables are both joined to the first smallest one, which is then listed twice |
| JoinOptimizer.DistinctPlanOrder | src/optimizer/JoinOptimizer.cpp:33-46 | for distinct tables the rebuilt order lists every table once if and only if a smallest one is at position 0 or 1 |
| JoinOptimizer.RepeatedPlanOrder | src/optimizer/JoinOptimizer.cpp:33-46 | with a repeated table name it does so if and only if all names are the same |
| JoinOptimizer.PlanOrder | src/optimizer/JoinOptimizer.cpp:33-46 | the exact condition for every query: all names equal, or distinct names with a smallest table first or second |
| JoinOptimizer.AddTables | src/optimizer/JoinOptimizer.cpp:15-30 | nodes, row counts and the initial order, for up to eight joined tables |
| JoinOptimizer.AddPairs | src/optimizer/JoinOptimizer.cpp:32-35 | the nested loops add one edge for every pair, in enumeration order |
| JoinOptimizer.RebuildOrder | src/optimizer/JoinOptimizer.cpp:40-46 | first table of the first edge, then the second table of each |
| JoinOptimizer.Optimize | src/optimizer/JoinOptimizer.cpp:4-48 | the plan's edges are a minimum spanning forest of the all-pairs graph with the closed-form cost, and its order satisfies the exact condition |
| DoublyLinkedLists.DoublyLinkedList.PushFront | src/common/DoublyLinkedList.h:26-35 | a new node in front of the chain, all other links consistent |
| DoublyLinkedLists.DoublyLinkedList.Unlink | src/common/DoublyLinkedList.h:70-77 | the chain without that node, still one acyclic doubly linked chain |
| DoublyLinkedLists.DoublyLinkedList.MoveToFront | src/common/DoublyLinkedList.h:37-45 | the node comes first and the rest keep their order; the size field loses one unless it was first already |
| DoublyLinkedLists.DoublyLinkedList.PopTail | src/common/DoublyLinkedList.h:47-57 | the last value is returned and removed; an empty list yields the default |
| IntHashMaps.IntHashMap.Get | src/common/HashMap.h:165-173 | finds a key exactly when the map has it, with its value |
| IntHashMaps.IntHashMap.Put | src/common/HashMap.h:152-163 | the map is updated at one key |
| IntHashMaps.IntHashMap.Remove | src/common/HashMap.h:180-196 | the map loses one key, and says whether it had it |
| IntHashMaps.Hash | src/common/HashMap.h:202 | the 32-bit multiplicative hash always gives a bucket |
| Disk.FreshBodyIsZero | src/storage/Page.h:24-32 | a zero-filled hole holds the same records as an initialised page |
| Disk.WriteIsLocal | src/storage/DiskManager.h:14-52 | a page write shows at that page and in the records of no other, holes included |
| Recency.FetchTouches | src/storage/BufferPool.h:51-87 | a fetch keeps the frame partition and all structural invariants, touches its key, and evicts only on a miss with no free frame |
| Recency.MarkFindsFetched | src/storage/BufferPool.h:90-95 | a dirty mark finds the page the last fetch returned, whatever was written into it since: fetch, write and mark together are the update whose bytes reach the disk |
| Recency.MostRecentMeaning | src/storage/BufferPool.h:54-66 | the reference list has every accessed key once, in decreasing order of last access |
| Recency.TouchTaken | src/storage/BufferPool.h:54-66 | keeping the c most recent keys commutes with an access |
| PoolRuns.RunIsRecency | src/storage/BufferPool.h:51-143 | after any run of fetches, edits, dirty marks and flushes the recency order is the min(capacity, distinct) most recently fetched pages, and evictions are misses minus frames in use |
| PoolRuns.VictimOnlyWhenFull | src/storage/BufferPool.h:60-66 | a fetch pushes a page out only on a miss with no frame free, and then the last of the order |
| PoolRuns.VictimIsOldest | src/storage/BufferPool.h:60-66 | every other page held was fetched after the one pushed out, and stays |
| PoolRuns.LargerPoolIsNoWorse | src/storage/BufferPool.h:51-143 | a larger pool over the same run holds what the smaller holds, and misses and evicts no more |
| Transparency.Partition | src/storage/BufferPool.h:29-36 | in a well-formed pool every frame is occupied or free, and not both |
| Transparency.FetchKeepsView | src/storage/BufferPool.h:51-87 | a fetch, with or without eviction, changes no record anyone can see and puts its page in front |
| Transparency.SetPageView | src/storage/BufferPool.h:90-95 | an edit marked dirty changes what is seen at its page and nowhere else |
| Transparency.FlushKeepsView | src/storage/BufferPool.h:98-116 | a flush changes no record anyone can see |
| Transparency.FlushLeavesOthers | src/storage/BufferPool.h:109-116 | a flush of one table leaves the pages of all others as they are, dirty ones dirty |
| Transparency.RunIsTransparent | src/storage/BufferPool.h:51-143 | over every run the pool shows exactly the records a store without a cache would hold |
| Transparency.FlushIsDurable | src/storage/BufferPool.h:98-116 | what a flush covers can be read from the files directly |
| Transparency.RestartSeesEverything | src/storage/BufferPool.h:98-107 | after flushAll a new pool of any capacity shows every record |
| PageKeys.KeysDistinctExactly | src/storage/BufferPool.h:11-13 | with 32-bit wrap-around, keys tell pages apart for all table hashes if and only if files have at most 32704 pages |
| PageKeys.SmallFilesAreCoherent | src/storage/BufferPool.h:9-13 | so one file per table hash of at most that many pages meets what transparency needs |
| PageKeys.CollisionShowsWrongRecords | src/storage/BufferPool.h:51-58 | and when two pages share a key and differ on disk, one fetch makes the pool show the records of one for the other |
| BufferPools.BufferPool.constructor | src/storage/BufferPool.h:26-40 | the arrays, list, map and free stack start coupled, as the empty pool |
| BufferPools.BufferPool.FetchPage | src/storage/BufferPool.h:51-87 | the code keeps all structures coupled and does exactly the step of the state machine |
| BufferPools.BufferPool.Hit | src/storage/BufferPool.h:54-58 | a hit moves its frame to the front and touches nothing else |
| BufferPools.BufferPool.Miss | src/storage/BufferPool.h:60-86 | a miss takes a free frame or evicts, and loads the page as the newest |
| BufferPools.BufferPool.EvictLRU | src/storage/BufferPool.h:122-143 | gives up the last frame of the order, writes it if dirty, forgets its key and counts |
| BufferPools.BufferPool.Load | src/storage/BufferPool.h:68-84 | fills a frame from disk or as a fresh page and registers it in map and list |
| BufferPools.BufferPool.MarkDirty | src/storage/BufferPool.h:90-95 | marks a held page and ignores one that is not held |
| BufferPools.BufferPool.UpdatePage | src/storage/BufferPool.h:50-95 | a fetch, new bytes through the returned pointer and a dirty mark do exactly the update step |
| BufferPools.BufferPool.FlushAll | src/storage/BufferPool.h:98-116 | the loop over the frames is the flush step, for all tables or one |
| Inserts.TryShows | src/executor/Executor.h:61 | the loop appends to the last page with room and to no other, or changes nothing visible (body: src/executor/Executor.cpp, lines 104-113) |
| Inserts.InsertShows | src/executor/Executor.h:61 | an insert changes the last page with room or else the page after the last one (body: src/executor/Executor.cpp, lines 100-123) |
| Inserts.InsertOverwrites | src/executor/Executor.h:61 | in the second case that page then holds the new row alone, whatever it held before (body: src/executor/Executor.cpp, lines 115-123) |
| Inserts.InsertAddsExactly | src/executor/Executor.h:61 | the table gains exactly the new row if and only if a record fits a page, and some page on disk takes one more within its 4096 bytes or the page after the last holds nothing (body: src/executor/Executor.cpp, lines 100-123) |
| Inserts.SecondInsertErases | src/executor/Executor.h:61 | two inserts with no write in between: the second erases the row the first put on a new page (body: src/executor/Executor.cpp, lines 100-123) |
| Inserts.FirstInsertIsLost | src/executor/Executor.h:61 | so the first of two inserts into a table without pages is lost, from an empty pool of any capacity over any files (body: src/executor/Executor.cpp, lines 100-123) |
| Inserts.ExecuteInsert | src/executor/Executor.h:61 | the code over the buffer pool does exactly that insert (body: src/executor/Executor.cpp, lines 100-123) |
| Conditions.MeaningKept | src/parser/Parser.cpp:181-237 | a written condition without NOT, prefix minus, single = and qualified names, with enough parentheses, keeps its meaning for any operators |
| Conditions.MeaningKeptExactly | src/parser/Parser.cpp:207-232 | it keeps it under all meanings of leaves, operators and prefixes if and only if it has none of those and enough parentheses |
| Conditions.VerdictRightExactly | src/parser/Parser.cpp:207-232 | and the verdict on rows is right under all meanings, truth included, under exactly the same condition |
| Conditions.NegationPassesTheOpposite | src/parser/Token.h:43-51 | a condition with NOT in front passes exactly the rows it was meant to refuse |
| Conditions.NotWitness | src/parser/Token.h:43-51 | the witness NOT x: it passes when x is true |
| Conditions.EqualsIgnoresTheColumn | src/parser/Parser.cpp:207-231 | x = e compiles to two operands and passes by e alone |
| Conditions.EqualsWitness | src/parser/Parser.cpp:207-231 | the witness x = c: it passes the rows where c is true, whatever x is |
| Conditions.EqualsTellsNoRowsApart | src/parser/Parser.cpp:207-231 | two rows that give c the same value, as all do for a constant, get the same verdict from x = c |
| Conditions.DotWitness | src/parser/Parser.cpp:207-231 | the witness x op t.a: the operator combines the table name and the column, and x is left behind |
| Conditions.MinusWitness | src/parser/Parser.cpp:218-231 | the witness x > -c, for any comparison: it passes no row |
| ShuntingYard.PostfixFits | src/parser/Parser.cpp:191-202 | the output is never longer than the input, so its limit cuts no clause that fits |
| ShuntingYard.ReadsExpr | src/parser/Parser.cpp:204-231 | reading an expression pushes exactly its pending operators and writes the rest of its post-order |
| ShuntingYard.SufficientIsEnough | src/parser/Parser.cpp:204-232 | any sufficiently parenthesised text becomes the post-order of its tree, redundant parentheses or not |
| ShuntingYard.LayeredExactly | src/parser/Token.h:43-73 | a tree has enough parentheses if and only if it follows the grammar of left-nested chains of OR, AND, comparisons, sums and products, given by the types of its tokens alone |
| ShuntingYard.PostfixOfLayers | src/parser/Parser.cpp:181-237 | a text that follows that grammar is translated to the post-order of its layers |
| ShuntingYard.ReparseIsSufficient | src/parser/Token.h:53-73 | every text has a sufficiently parenthesised reading |
| ShuntingYard.PostfixOfAnyText | src/parser/Parser.cpp:204-232 | the output for any expression text is the post-order of that reading |
| ShuntingYard.SameTextSameTree | src/parser/Parser.cpp:204-232 | text and tree shape together determine where the parentheses were |
| ShuntingYard.PostfixIsPostOrder | src/parser/Parser.cpp:204-232 | the output is the meant tree's post-order if and only if enough parentheses were written |
| ShuntingYard.EvaluatesToValue | src/executor/Executor.h:66 | running a post-order leaves the tree's value alone on the stack, for any meaning of the operators (body: src/executor/Executor.cpp, lines 269-298) |
| ShuntingYard.PostOrderDetermines | src/parser/Parser.cpp:204-232 | post-orders are uniquely readable |
| ShuntingYard.MeaningPreserved | src/parser/Parser.cpp:181-237 | compiling and running computes the tree's value for any operators |
| ShuntingYard.MeaningLost | src/parser/Parser.cpp:181-237 | with too few parentheses some meaning of the operators exposes the difference |
| ShuntingYard.Translate | src/parser/Parser.cpp:181-237 | the loops produce the postfix, cut to the output limit: for a text that follows the grammar the post-order of its layers |
| ShuntingYard.EvalWhere | src/executor/Executor.h:66 | the evaluator's loop: empty code passes, a missing operand fails, else the top value decides (body: src/executor/Executor.cpp, lines 267-302) |
| ShuntingYard.CompileAndRun | src/parser/Parser.cpp:143-179 | up to 256 tokens that follow the grammar, a row passes exactly when the expression is true of it |
| Lexers.ReadsPiece | src/parser/Lexer.cpp:95-133 | a written token is read back and exactly its text is used up, when what follows does not run on |
| Lexers.WordTypeExactly | src/parser/Lexer.cpp:71-92 | a word has a keyword's type if and only if it writes that keyword in any casing, and every other word is an identifier |
| Lexers.NumberSpelled | src/parser/Lexer.cpp:43-59 | a number's token is an integer for digits only and a floating-point number else, with its first 63 characters |
| Lexers.CharacterClasses | src/parser/Lexer.cpp:18-133 | which characters separate tokens, start and continue words and numbers, and delimit strings |
| Lexers.ReadsOpenString | src/parser/Lexer.cpp:29-41 | a string that is not closed takes the rest of the text |
| Lexers.ReadsUnknown | src/parser/Lexer.cpp:107-132 | any other character, and an exclamation mark alone, is one unknown token |
| Lexers.NextAdvances | src/parser/Lexer.cpp:95-133 | every token before the end uses up text |
| Lexers.TextRoundTrip | src/parser/Lexer.cpp:18-151 | any layout of tokens kept apart is read back as those tokens and the end of input; over-long texts give their first characters |
| Lexers.Lexer.NextToken | src/parser/Lexer.cpp:95-133 | the cursor code reads exactly the next token and advances unless at the end |
| Lexers.Lexer.ReadString | src/parser/Lexer.cpp:29-41 | reads to the next quote of either kind, cut to 255 characters |
| Lexers.Lexer.ReadNumber | src/parser/Lexer.cpp:43-59 | reads digits and dots, cut to 63 characters: an integer if there are digits only, else a floating-point number |
| Lexers.Lexer.ReadIdentOrKeyword | src/parser/Lexer.cpp:61-93 | reads a word, cut to 255 characters, whose token it spells: a keyword in any casing, or else an identifier |
| Lexers.Lexer.PeekToken | src/parser/Lexer.cpp:135-140 | the next token, with the cursor where it was |
| Lexers.Lexer.Tokenize | src/parser/Lexer.cpp:142-151 | all tokens and the end of input, as far as there is room |
| Parsers.SkipTokens | src/parser/Parser.cpp:46-47 | the token-skipping loops end at their stop token or the end of input |
| Parsers.ReadWhere | src/parser/Parser.cpp:143-179 | collects the clause, the first 256 tokens of it, and compiles it |
| Parsers.ReadSelect | src/parser/Parser.cpp:42-73 | the code computes what the specification takes from the token list |
| Parsers.ReadJoins | src/parser/Parser.cpp:54-67 | the join loop ends, follows the specification and keeps at most eight tables |
| Parsers.ReadInsert | src/parser/Parser.cpp:75-108 | likewise for INSERT |
| Parsers.ReadUpdate | src/parser/Parser.cpp:110-130 | likewise for UPDATE |
| Parsers.ReadDelete | src/parser/Parser.cpp:132-141 | likewise for DELETE |
| Parsers.ParseText | src/parser/Parser.cpp:6-40 | parsing a text is parsing its token list, and always ends |
| Statements.WhereMeaning | src/parser/Parser.cpp:143-179 | a condition of at most 256 tokens is compiled whole, up to a semicolon, ORDER or the end |
| Statements.LongWhereMeaning | src/parser/Parser.cpp:143-179 | of a longer condition the first 256 tokens are compiled |
| Statements.JoinsMeaning | src/parser/Parser.cpp:53-67 | the first eight joined tables are found whatever their ON conditions |
| Statements.SelectMeaning | src/parser/Parser.cpp:42-73 | a SELECT yields its table, its joined tables and its compiled condition |
| Statements.SelectAllMeaning | src/parser/Parser.cpp:42-73 | without a WHERE clause there is no condition and every row passes |
| Statements.AcceptedExactly | src/parser/Parser.cpp:6-141 | a statement is accepted if and only if it is a SELECT whose first FROM has a name behind it, an INSERT INTO a name, an UPDATE of a name with SET and a name, or a DELETE of a name with FROM or without |
| Statements.DeleteMeaning | src/parser/Parser.cpp:132-141 | a DELETE, with or without FROM and WHERE, yields its table and its compiled condition |
| Statements.UpdateMeaning | src/parser/Parser.cpp:110-130 | an UPDATE, with or without WHERE, yields its table, column, value and compiled condition |
| ValueLists.InsertMeaning | src/parser/Parser.cpp:75-108 | an INSERT, with or without a column list, the word VALUES optional behind one, yields its table, its first 32 column names and the texts of the first 32 tokens of its value list that are not commas |
| ValueLists.ListedValuesExactly | src/parser/Parser.cpp:96-105 | the values parsed are the values listed, each in place, if and only if each of the first 32 is a single token |
| ValueLists.NegativeValueShifts | src/parser/Parser.cpp:96-105 | the witness VALUES (1, -2, 3), parsed as 1, -, 2, 3, which are not the values listed |
| ValueLists.UpdateKeptExactly | src/parser/Parser.cpp:120-129 | an UPDATE keeps its value and its condition if and only if the value is a single token; of a longer one the rest and the condition are lost |
| Queries.TextToQuery | src/parser/Parser.cpp:6-73 | however a SELECT is laid out, its tables are found and its condition compiled whole |
| Queries.TextKeepsMeaningExactly | src/parser/Parser.cpp:6-237 | from text to code the condition keeps its meaning if and only if no NOT, prefix minus, single = or qualified name was written and enough parentheses were |
| Queries.TextGivesRightVerdictExactly | src/parser/Parser.cpp:6-237 | and rows get the right verdict under all meanings under exactly the same condition |
| Queries.TextToRows | src/parser/Parser.cpp:6-237 | in that case a row passes exactly when the condition is true of it |
| Queries.TextToPostOrder | src/parser/Parser.cpp:6-237 | however it is laid out, a condition that follows the grammar is compiled to the post-order of its layers |
| Queries.ComparisonsFromText | src/parser/Lexer.cpp:61-93 | from its characters, SELECT * FROM t WHERE a cmp n AND b cmp' k, keywords in any casing and any comparisons, becomes the code a n cmp b k cmp' AND |
| Queries.DeleteByEqualsMeaning | src/parser/Parser.cpp:132-179 | DELETE with WHERE x = c takes the rows where c is true, whatever x is |
| Queries.DeleteByEqualsTellsNoRowsApart | src/parser/Parser.cpp:132-179 | of two rows that give c the same value it takes both or neither, so on a constant every row or none |
| AvlTrees.BalanceRestores | src/common/AVLTree.h:86-100 | rebalancing keeps the contents and order, restores balance and exact heights, and loses at most one level |
| AvlTrees.InsertIsUpdate | src/common/AVLTree.h:102-108 | insertion is map update and keeps the tree balanced |
| AvlTrees.RemoveIsDelete | src/common/AVLTree.h:115-133 | removal, the two-subtree case included, is map deletion and keeps the tree balanced |
| AvlTrees.Find | src/common/AVLTree.h:135-140 | finds the node of a key exactly when the map has it |
| AvlTrees.InOrderLists | src/common/AVLTree.h:142-148 | the traversal lists exactly the map's entries by increasing key |
| AvlTrees.RangeQueryIsFilter | src/common/AVLTree.h:150-156 | despite pruning a range query visits exactly the traversal's entries in range |
| AvlTrees.HeightBound | src/common/AVLTree.h:86-100 | a tree of height h has at least Fib(h + 2) - 1 keys |
| AvlTrees.HeightIsLogarithmic | src/common/AVLTree.h:86-100 | so its height is at most about twice the logarithm of its size |
| AvlNodes.RotateRightNode | src/common/AVLTree.h:66-74 | the pointer rotation is the rotation of the tree value, heights updated |
| AvlNodes.RotateLeftNode | src/common/AVLTree.h:76-84 | likewise to the left |
| AvlNodes.BalanceNode | src/common/AVLTree.h:86-100 | the four cases on nodes are the rebalancing of the tree value |
| AvlNodes.AVLTree.Insert | src/common/AVLTree.h:22-24 | the map is updated, the tree stays balanced, and the size is the number of keys |
| AvlNodes.AVLTree.InsertNode | src/common/AVLTree.h:102-108 | the recursion over nodes is the insertion on values |
| AvlNodes.AVLTree.Remove | src/common/AVLTree.h:35 | the map loses the key, the tree stays balanced, and the size is the number of keys |
| AvlNodes.AVLTree.RemoveNode | src/common/AVLTree.h:115-133 | the recursion over nodes is the removal on values, sizes included |
| AvlNodes.AVLTree.TakeSuccessor | src/common/AVLTree.h:126-130 | copying the successor, counting up again and removing it loses exactly one key |
| AvlNodes.AVLTree.Search | src/common/AVLTree.h:26-31 | the map's value, or the caller's own when the key is absent |
| AvlNodes.InOrderOf | src/common/AVLTree.h:142-148 | the traversal over nodes lists what the tree value lists |
| AvlNodes.RangeOf | src/common/AVLTree.h:150-156 | the range query over nodes visits exactly the traversal's entries in range |
| AvlIndexes.IndexIsScan | src/index/AVLIndex.h:8-17 | building from nothing gives each key met its first 32 locations in scan order, and no other key an entry |
| AvlIndexes.CompleteExactlyForSmallKeys | src/index/AVLIndex.h:8-17 | a known key's entry lists all its rows if and only if there are at most 32 |
| AvlIndexes.EntriesAreKeysMet | src/index/AVLIndex.cpp:33-34 | the tree's keys are the distinct keys met |
| AvlIndexes.ScanMeetsExactly | src/index/AVLIndex.cpp:10-32 | over any file the scan meets a key at exactly the records that hold it in the column, in page and slot order |
| AvlIndexes.AvlIndex.Insert | src/index/AVLIndex.cpp:37-47 | adds one location under a key |
| AvlIndexes.AvlIndex.Search | src/index/AVLIndex.cpp:49-51 | the key's entry, or the caller's own |
| AvlIndexes.AvlIndex.Remove | src/index/AVLIndex.cpp:53-55 | forgets one key |
| AvlIndexes.AvlIndex.Build | src/index/AVLIndex.cpp:5-35 | the nested loops add every record of the file in page and slot order |
| Bytes.IntRoundTrip | src/storage/Field.h:43-64 | every 32-bit integer survives its four bytes |
| Bytes.BytesRoundTrip | src/storage/Field.h:43-64 | and every four bytes survive the integer |
| Records.FieldRoundTrip | src/storage/Row.h:31-77 | a field reads back as its column keeps it: integers and doubles exact, of a text its first serSize - 1 characters |
| Records.TextIsCut | src/storage/Row.h:44-50 | a text comes back as its first characters, one fewer than its column has bytes |
| Records.RowTextIsCut | src/storage/Row.h:31-77 | and so does every text of a whole row |
| Records.ReadsToZero | src/storage/Row.h:66-73 | whatever bytes a string column holds are read up to the first zero, at most 128 of them |
| Records.StoredIsStable | src/storage/Row.h:44-50 | the cut is idempotent: writing what was read changes no byte |
| Records.TextSurvivesExactly | src/storage/Row.h:44-50 | a text reads back as written if and only if it is shorter than its column or empty |
| Records.OneByteColumnsLoseEverything | src/storage/Row.h:45-49 | one-byte string columns always read back empty |
| Records.RowSurvivesExactly | src/storage/Row.h:31-77 | a record reads back as the row that was written if and only if every slot is set and every text fits |
| Records.RowRoundTrip | src/storage/Row.h:31-77 | a whole record reads back field by field as its columns keep it |
| Records.Serialize | src/storage/Row.h:31-53 | the loop writes the record's bytes and nothing else of the buffer |
| Records.Deserialize | src/storage/Row.h:56-77 | the loop reads the record back |
| PageCodec.SlotFits | src/catalog/Schema.h:30-32 | the integer-division bound: a slot below capacity lies inside the page |
| PageCodec.FitsExactly | src/catalog/Schema.h:30-32 | n records are within a page's capacity if and only if header and n records fit its 4096 bytes |
| PageCodec.CapacityIsQuotient | src/catalog/Schema.h:30-32 | the capacity is 4080 divided by the record size |
| PageCodec.RoomIsSpace | src/storage/Page.h:39-44 | a page's count is below its capacity if and only if one more record would end within the page |
| PageCodec.SlotsDisjoint | src/storage/Page.h:43 | different slots do not overlap |
| PageCodec.AppendedFacts | src/storage/Page.h:39-49 | an append counts one more, holds the record, and leaves every earlier slot byte for byte |
| PageBuffers.PageBuffer.Init | src/storage/Page.h:24-32 | an empty page of the given number |
| PageBuffers.PageBuffer.AppendRow | src/storage/Page.h:39-49 | succeeds exactly when header, records and one more record fit the page's 4096 bytes; a refusal changes nothing |
| PageBuffers.PageBuffer.GetRow | src/storage/Page.h:51-56 | the fields of a slot, or nothing outside the records |
| PageBuffers.AppendThenGet | src/storage/Page.h:39-56 | the new slot reads back as the row its columns keep |
| PageBuffers.AppendRespectsBody | src/storage/Page.h:39-49 | an append depends on a page's records alone, so it is an edit the pool is transparent to |
| BulkLoads.LoadFills | src/tpch/DataGenerator.cpp:52-77 | the loop fills page after page, every slot with its own row |
| BulkLoads.PageCounts | src/tpch/DataGenerator.cpp:67-77 | with rpp = 4080 / (record size): ceil(N / rpp) pages, all but the last full, none empty |
| BulkLoads.RowCountAfterLoad | src/optimizer/JoinOptimizer.cpp:15-19 | after a load of N rows the optimizer counts at least N and fewer than N + rpp |
| BulkLoads.RowPlacement | src/tpch/DataGenerator.cpp:52-77 | row r, from zero, is at page r / rpp and slot r % rpp with rpp = 4080 / (record size), byte for byte |
| BulkLoads.HeldReadsBack | src/storage/Page.h:51-56 | and reads back there as its columns keep it |
| BulkLoads.LostExactlyWhenTooWide | src/tpch/DataGenerator.cpp:67-77 | the file holds records if and only if a record fits a page; otherwise all pages are empty and every row is lost |
| BulkLoads.IndexFindsEveryRow | src/index/AVLIndex.cpp:10-32 | the index over a loaded file gives every key exactly its one row's place and knows no other key |
| BulkLoads.Generate | src/tpch/DataGenerator.cpp:39-80 | the generator leaves exactly those pages in the file and no other file changed |
| PriorityQueues.RootIsLeast | src/common/PriorityQueue.h:30-36 | heap order puts a most urgent entry first |
| PriorityQueues.SwapUp | src/common/PriorityQueue.h:52-59 | exchanging an out-of-place entry with its parent moves the hole up |
| PriorityQueues.SwapDown | src/common/PriorityQueue.h:61-72 | exchanging an entry with its most urgent child moves the hole down |
| PriorityQueues.PriorityQueue.Enqueue | src/common/PriorityQueue.h:23-28 | adds exactly one entry and keeps heap order, growing when full |
| PriorityQueues.PriorityQueue.Dequeue | src/common/PriorityQueue.h:30-36 | removes one entry of least priority number; an empty queue gives none |
| PriorityQueues.PriorityQueue.Resize | src/common/PriorityQueue.h:80-87 | twice the room, the same entries |
| PriorityQueues.PriorityQueue.Drain | src/executor/Executor.h:43 | everything queued comes out once, in non-decreasing priority (body: src/executor/Executor.cpp, lines 28-36) |

## Left out

- Logging, printing, `main.cpp`, the test runner, `postfixStr` and `whereRaw`: display only.
- File access always succeeds, and files hold whole pages; failed or short reads and writes are not modelled.
- File paths are compared whole; the pool's 255-character path buffer is not modelled.
- Memory management: destructors, deletion and allocation failure. The pool's destructor flush is the flush step.
- BufferPools.BufferPool.UpdatePage: the page pointer a fetch returns is modelled by editing the fetched frame at once, so holding a pointer across a later fetch is not captured.
- BufferPools.BufferPool.FetchPage: frames hold page values in the pages array; the bytes inside one page are overwritten in place in the page module, not through the pool.
- IntHashMaps.IntHashMap.Put: bucket chains are immutable lists held in the bucket array, so relinking of single chain nodes is not captured.
- The string-keyed hash map, the generic stack and the system catalog: easy repeats, taken as maps and sequences.
- JoinOptimizer.Optimize: weights and row counts are mathematical integers; float rounding of costs above 2^24 and overflow of the page-count product are not modelled.
- JoinGraphs.JoinGraph.ComputeMST: the logged path text is left out.
- Double columns are eight opaque bytes; no order is claimed on them, because the comparison with a tolerance is not transitive.
- Numeric token values (`atoi`, `atof`) and the operators' own meaning: the evaluator is proved for arbitrary ones.
- Lexers.TextRoundTrip: characters the lexer does not know and strings that are not closed are not among the written tokens; Lexers.ReadsUnknown and Lexers.ReadsOpenString say how they are read.
- Queries.TextToRows: WHERE clauses over 256 tokens are cut, as Statements.LongWhereMeaning says, and are outside this statement.
- ValueLists.InsertMeaning: an INSERT without a value list is accepted by the parser and covered by Parsers.ReadInsert alone.
- Conditions.MeaningKeptExactly: operands side by side without an operator, as in `x LIKE 'a'`, and commas are not written conditions.
- Parsers.ReadUpdate: the parsed number of an UPDATE's value is left out, only its text and whether it is a number are kept.
- The executor's source file is not UTF-8 text, so rows about it cite its header and name the lines of its body.
- UPDATE and DELETE execution, sequential scans and joins of rows: their loops over pages are not modelled, only the evaluator they call.
- Inserts.ExecuteInsert: the conversion of value texts to fields is left out; the row is a parameter.
- BulkLoads.Generate: random field values and their text formats are left out; the rows are a parameter, and only the key column's numbering is used.
- PriorityQueues.PriorityQueue.constructor: the capacity is positive; with capacity zero the code's doubling never makes room.
- Integer overflow of list sizes, heap capacity and eviction counts.
