# Intrusive trees, JSON reader and connection protocol: a Dafny model

The repository is a small HTTP server on top of libuv, with a JSON reader beside it. This
project models the three parts of it that hold real algorithms and proves what they promise:

* **the intrusive trees of `libuv/include/tree.h`** – the red-black tree (rotations, insertion,
  deletion by relinking, searches, walks along parent links) and the top-down splay tree;
* **the JSON reader** – the scanner of `json/lexer.c`, and the bracket matcher, the separator
  finder and the recursive builders of `json/parser.c`;
* **the callback protocol of `server.c`** – what the callbacks of all connections do to the C
  heap and to libuv's handles and requests, in every order libuv may call them.

## How the trees are modelled

A node is an object with a key and one field `entry`, the embedded `RB_ENTRY` or `SPLAY_ENTRY`
as a value; a head is an object with a `root`. Every macro and function of the header is a
method that reads and writes these fields in the order of the C text, and every loop is a loop.
Besides `root`, a head has a ghost tree and the ghost set of its nodes. `Linked` says that the
entries of a set of nodes at one moment (`Snap`, a map) realise a ghost tree, and a ghost
context (a tree with a hole, innermost frame first) says where the current node is. The lemma
`Focus` splits the heap condition of the whole tree into the conditions of the hole's content
and of its surroundings and back, for every hole; each write is then justified once, by a lemma
about maps, and the balance arguments live on ghost trees only. Keys are integers and the
comparator is their difference; any comparator that is a strict total order on the keys in use
looks like this to the code, which tests the sign only. What an operation does is stated on the
in-order sequence of node *objects*, so it also says that no node is copied or replaced.

For the splay loop the three trees of the top-down algorithm are ghost values: two spines that
hang off the stack sentinel, one of smaller and one of larger nodes, and the tree that is still
to be taken apart.

## How the JSON reader is modelled

The token array is a sequence that ends with an end-of-input token. The matcher, the separator
finder and the builders are methods with their loops and counters; each is tied to a
specification function, and the theorems are about those. Well-nested groups are defined by a
bracket *stack*, value trees by a small grammar datatype. Two things in the code have no defined
result, and the model keeps them visible: the value that `_parseValue` leaves unwritten is
`Indeterminate`, and the kind that `_getTokenTypeFromLiteral` fails to return is taken from an
arbitrary function `junk` of the word's position. NULL pointers are `None`.

The characters that the scanner tests for are written out in `Belongs`, and every statement about
texts uses these. On streams that are no value, matcher and separator finder are described by
counting opening and closing tokens of each kind (`Closes`, `Excess`), which gives the exact
condition for the NULL that the builders return.

What the builders really compute is proved for all value trees: every container loses its last
member, and an object that is an element of an array becomes an unwritten value, because
`parseArray` looks for `{` one token too far (`json/parser.c:44`). Exactly when no array holds
an object outside the last place, the first of these is all that happens. The trailing member
is lost because the number of commas bounds the loop (`json/parser.c:38`, `json/parser.c:96`).

## How the server is modelled

`Server` has one memory, a map from addresses to allocated blocks; a freed address leaves the
map and is never handed out again. `free`, stores and loads require the address to be there, so
every use after free and every double free would be a failed proof. Handles and requests are
blocks that also hold libuv's view of them (being read, armed, closing; queued, running,
finished). `Due` is libuv's side of the contract: reads only for a client that is being
read, timer callbacks only for an armed timer that is not closing, one run and one completion
per queued work request, one write callback per write, one close callback per closed handle;
`uv_accept` may fail. A worker run is two events, its use of the text and its store of the
response, so anything may happen between them. `Text` and `Response` are the only ways to reach
the text and the response of a connection, and they require the calling thread to be the one
that holds them.

A ghost history per connection records the chunks received, how many had been received at each
call of `uv_queue_work`, what was passed to `uv_write`, and how often the data was closed.
What an event does to a history is proved from the event's own fields (`HistoryAfter`), and so is
what becomes of every handle (`HandleAfter`); over a run, the text of a connection is what its
reads delivered (`TextDelivered`). `Valid` holds for every connection ever accepted, alive or gone, between any two callbacks. A
run is recorded as its sequence of states; counted over it, no connection gets more than eight
callbacks, apart from chunks that leave its request incomplete, of which there may be any number.
While anything is allocated for a connection, one of the eight can still come
(`SomethingToCome`); when none can, everything has been freed (`AllFreed`). That libuv does call
what it can call, so that every connection ends, is not claimed.

## Files

| file | content |
|---|---|
| `Sequences.dfy` | regrouping of sequences, for both kinds of tree |
| `RbTrees.dfy` | nodes, ghost trees and contexts of the red-black tree, linking and order |
| `RbBalance.dfy` | black heights, the states of the two repair loops, the height bound |
| `RedBlack.dfy` | the red-black tree operations |
| `RbTraversal.dfy` | successors, predecessors, the loop macros |
| `SplayTrees.dfy`, `Splay.dfy`, `SplayTraversal.dfy` | the same for the splay tree |
| `SortedSets.dfy` | both trees as the same finite set of keys |
| `JsonParser.dfy` | matcher, separators and builders on every token stream |
| `JsonNesting.dfy` | well-nested groups by a bracket stack, and where the matcher differs |
| `JsonGrammar.dfy` | value trees, their tokens, and what the builders make of them |
| `JsonLexer.dfy` | the scanner, its spans, the round trip, scanner and parser together |
| `Requests.dfy` | when received text makes a request, and chunkings |
| `Connections.dfy` | what memory holds for each connection, and what each callback keeps |
| `Server.dfy` | the callbacks and the event loop |

`dafny verify dfyconfig.toml` checks all of them.

## Model

| member | source | states |
|---|---|---|
| RbTrees.Focus | libuv/include/tree.h:320-325 | the links of a whole tree are in place exactly when those of the part in the hole and of its surroundings are; nodes and root agree |
| RbTrees.LeftTurned | libuv/include/tree.h:342-360 | the four entries a left rotation writes are enough: in any surroundings the memory afterwards holds the rotated tree with the same nodes |
| RbTrees.RightTurned | libuv/include/tree.h:362-380 | the same for a right rotation |
| RbTrees.Spliced | libuv/include/tree.h:579-590 | hanging the only child of a node in its place leaves a linked tree without exactly that node |
| RbTrees.Substituted | libuv/include/tree.h:559-570 | copying an entry to another node and telling parent and children puts that node where the other one was |
| RbTrees.Hung | libuv/include/tree.h:615-623 | a new red node hung in an empty place gives a linked tree |
| RbTrees.TurnLeftInOrder | libuv/include/tree.h:342-360 | a left rotation keeps the in-order sequence of nodes |
| RbTrees.TurnRightInOrder | libuv/include/tree.h:362-380 | a right rotation keeps the in-order sequence of nodes |
| RbTrees.Descend | libuv/include/tree.h:605-614 | stepping to the side the comparator names keeps all nodes before the cursor below the key and all nodes after it above |
| RbTrees.InsertedOrder | libuv/include/tree.h:615-623 | filling the place found inserts one node into the order, which stays sorted |
| RbTrees.SpliceOrder | libuv/include/tree.h:579-590 | splicing a node out deletes exactly it from the order |
| RbTrees.SuccessorOrder | libuv/include/tree.h:540-570 | splicing out the successor and putting it in the place of a node deletes exactly that node from the order |
| RbBalance.SplitBalance | libuv/include/tree.h:53-58 | a whole tree is red-black exactly when the part in a hole is balanced, its surroundings are for that black height, and the colors at the seam do not clash |
| RbBalance.GrandparentExists | libuv/include/tree.h:411-413 | during the insertion repair a red parent has a black parent, so `gparent` is never NULL |
| RbBalance.RecolorStep | libuv/include/tree.h:416-421 | after recoloring, the only possible violation has moved two levels up |
| RbBalance.TurnStep | libuv/include/tree.h:428-429 | after the outer rotation there is a black parent above the red node |
| RbBalance.InnerStep | libuv/include/tree.h:422-427 | the inner rotation keeps the state of the repair |
| RbBalance.BlackenRoot | libuv/include/tree.h:448-448 | when the loop stops, painting the root black makes a red-black tree |
| RbBalance.SiblingExists | libuv/include/tree.h:458-460 | while exactly one place is one black short, its sibling is not NULL, and a red sibling has two children |
| RbBalance.RedSiblingStep | libuv/include/tree.h:460-464 | rotating a red sibling up leaves the same shortage and a black sibling |
| RbBalance.RedderStep | libuv/include/tree.h:465-471 | painting the sibling red moves the shortage one level up |
| RbBalance.NephewStep | libuv/include/tree.h:473-482 | rotating the inner nephew out leaves the same shortage and a black sibling |
| RbBalance.RepaidStep | libuv/include/tree.h:483-489 | the last rotation makes the whole tree red-black |
| RbBalance.BlackenFocus | libuv/include/tree.h:526-527 | when the loop stops, painting the node in hand black makes the tree red-black |
| RbBalance.SpliceBalance | libuv/include/tree.h:579-593 | splicing out a red node keeps the conditions; a black one leaves exactly one place one black short |
| RbBalance.InnerBalance | libuv/include/tree.h:540-577 | the same when the successor takes the place of a node with two children |
| RbBalance.BlackHeightBounds | libuv/include/tree.h:53-61 | a balanced tree is at most twice as high as its black height and holds at least 2^b - 1 nodes |
| RbBalance.HeightBound | libuv/include/tree.h:60-61 | a red-black tree of n nodes and height h has 2^h <= (n+1)^2 |
| RedBlack.Head.RotateLeftLinks | libuv/include/tree.h:342-360 | the writes of the macro, entry by entry, with all other entries untouched |
| RedBlack.Head.RotateLeft | libuv/include/tree.h:342-360 | anywhere in a tree: the subtree is rotated, nodes and order stay |
| RedBlack.Head.RotateRightLinks | libuv/include/tree.h:362-380 | the writes of the macro, entry by entry, with all other entries untouched |
| RedBlack.Head.RotateRight | libuv/include/tree.h:362-380 | anywhere in a tree: the subtree is rotated, nodes and order stay |
| RedBlack.Head.SetBlackRed | libuv/include/tree.h:333-336 | two neighbouring nodes change color, nothing else changes |
| RedBlack.Head.InsertRecolor | libuv/include/tree.h:416-421 | parent and uncle become black and the grandparent red, nothing else changes |
| RedBlack.Head.InsertTurnLeft | libuv/include/tree.h:422-429 | one or two rotations: the state of the repair is kept, nearer to the root |
| RedBlack.Head.InsertTurnRight | libuv/include/tree.h:438-445 | the mirror image |
| RedBlack.Head.InsertStepLeft | libuv/include/tree.h:414-429 | one round below a left-hand parent keeps the state of the repair and comes nearer to the root |
| RedBlack.Head.InsertStepRight | libuv/include/tree.h:430-446 | the mirror image |
| RedBlack.Head.InsertStep | libuv/include/tree.h:411-447 | one round of the repair, on either side; the test of the side is right |
| RedBlack.Head.InsertColor | libuv/include/tree.h:407-449 | from a tree whose only possible fault is a red node under a red parent or at the root to a red-black tree with the same nodes in the same order, in no more rounds than the node is deep |
| RedBlack.Head.RemoveStepLeft | libuv/include/tree.h:458-490 | one round of the deletion repair: either the tree is red-black again, or the one short place has moved and the measure is smaller |
| RedBlack.Head.RemoveStepRight | libuv/include/tree.h:491-524 | the mirror image |
| RedBlack.Head.RemoveColor | libuv/include/tree.h:451-528 | from a tree in which exactly the place of `elm` under `parent` is one black short, `elm` being possibly NULL, to a red-black tree with the same nodes in the same order; the loop picks the right side and ends after at most one round more than the place is deep |
| RedBlack.Head.constructor | libuv/include/tree.h:306-308 | an empty tree |
| RedBlack.Head.Insert | libuv/include/tree.h:597-626 | keeps the red-black, order and link conditions; adds exactly the new node in its place when no node has its key, and otherwise returns the node that has it with every entry untouched; comparisons and repair rounds together are at most 2h, and `HeightBound` bounds h |
| RedBlack.Head.InsertAt | libuv/include/tree.h:615-625 | hanging the node in the place found and repairing the colors adds exactly it to the order of a valid tree |
| RedBlack.Head.Hang | libuv/include/tree.h:615-623 | the new node hangs red in the place found, whatever side that is |
| RedBlack.Head.Find | libuv/include/tree.h:628-644 | returns a node with the key exactly when there is one, after at most h comparisons, 2^h <= (n+1)^2 |
| RedBlack.Head.NFind | libuv/include/tree.h:646-665 | returns the first node not below the key, or NULL when all are below, within the same bound |
| RedBlack.Head.Splice | libuv/include/tree.h:579-590 | takes a node with at most one child out of the links and leaves its own entry alone |
| RedBlack.Head.Leftmost | libuv/include/tree.h:541-543 | the cursor ends on the node without left child that is first below the start |
| RedBlack.Head.TakeSuccessor | libuv/include/tree.h:541-556 | the successor is spliced out; parent, child and color are those it had |
| RedBlack.Head.SubstituteLinks | libuv/include/tree.h:559-570 | the writes of the entry copy and the four neighbour links |
| RedBlack.Head.ReplaceBySuccessor | libuv/include/tree.h:557-570 | the successor stands where the removed node was, with its links and color; the remembered parent is right in both cases |
| RedBlack.Head.RemoveInner | libuv/include/tree.h:539-578 | with two children: exactly the node leaves the order, and at most one place is one black short |
| RedBlack.Head.RemoveOuter | libuv/include/tree.h:535-590 | with at most one child: the same |
| RedBlack.Head.Unlink | libuv/include/tree.h:530-590 | for every node of a red-black tree: exactly it leaves the order, at most one place is one black short, and the successor is found within the height |
| RedBlack.Head.Remove | libuv/include/tree.h:530-595 | from every valid tree and for every node of it: a valid tree whose order is the old one without exactly that node object, which is returned; steps down and repair rounds together are at most 2h |
| RbTraversal.MinMax | libuv/include/tree.h:711-724 | the first or the last node of the order, NULL when there is none |
| RbTraversal.NextBelow | libuv/include/tree.h:671-674 | descending finds the successor of a node with a right child |
| RbTraversal.NextAbove | libuv/include/tree.h:675-685 | climbing along parent links finds the first node behind a subtree, or NULL |
| RbTraversal.Next | libuv/include/tree.h:668-687 | the next node of the order, NULL at the end |
| RbTraversal.PrevBelow | libuv/include/tree.h:693-696 | descending finds the predecessor of a node with a left child |
| RbTraversal.PrevAbove | libuv/include/tree.h:697-707 | climbing finds the last node before a subtree, or NULL |
| RbTraversal.Prev | libuv/include/tree.h:690-709 | the previous node of the order, NULL at the start |
| RbTraversal.ThereAndBack | libuv/include/tree.h:668-709 | away from the ends, successor and predecessor undo each other and change the key strictly |
| RbTraversal.Foreach | libuv/include/tree.h:738-741 | visits exactly the nodes of the order, in order |
| RbTraversal.ForeachReverse | libuv/include/tree.h:753-756 | visits them backwards |
| RbTraversal.SurvivorsAre | libuv/include/tree.h:748-751 | the nodes left by a walk are exactly those that were not to be removed |
| RbTraversal.SafeRound | libuv/include/tree.h:748-751 | the successor saved before the body is still the next node after the body removed the current one |
| RbTraversal.SafeRounds | libuv/include/tree.h:748-751 | the loop visits every node once although nodes vanish on the way |
| RbTraversal.ForeachSafe | libuv/include/tree.h:748-751 | for every choice of nodes to remove: all nodes of the initial tree are visited once, in order, and exactly the others stay, in order |
| RbTraversal.RemoveAll | libuv/include/tree.h:748-751 | removing all nodes on the way leaves the empty tree |
| SplayTrees.RightTurned | libuv/include/tree.h:88-92 | the two writes of a right rotation rotate the root and leave the parts off the sentinel alone |
| SplayTrees.LeftTurned | libuv/include/tree.h:94-98 | the same for a left rotation |
| SplayTrees.LinkedLeft | libuv/include/tree.h:100-104 | one write moves the root with its right part to the larger nodes |
| SplayTrees.LinkedRight | libuv/include/tree.h:106-110 | one write moves the root with its left part to the smaller nodes |
| SplayTrees.PartsAssembled | libuv/include/tree.h:112-117 | four writes join the three trees into one linked tree of all their nodes |
| SplayTrees.AssembledOrder | libuv/include/tree.h:112-117 | its order is that of the smaller nodes, the middle tree and the larger nodes |
| Splay.AssembledSplit | libuv/include/tree.h:218-241 | where the loop stops, the assembled tree has everything on the key's side of the root strictly beyond the key |
| Splay.SentinelDropped | libuv/include/tree.h:112-117 | after assembling, the memory without the sentinel holds the whole tree |
| Splay.Head.RotateRight | libuv/include/tree.h:88-92 | rotates the middle tree during a splay |
| Splay.Head.RotateLeft | libuv/include/tree.h:94-98 | the mirror image |
| Splay.Head.LinkLeft | libuv/include/tree.h:100-104 | moves the root and its right part to the larger nodes |
| Splay.Head.LinkRight | libuv/include/tree.h:106-110 | moves the root and its left part to the smaller nodes |
| Splay.Head.AssembleLinks | libuv/include/tree.h:112-117 | the four writes, also when one or both ends are the sentinel itself |
| Splay.Head.Assemble | libuv/include/tree.h:112-117 | a valid tree again, its order the three orders one after the other |
| Splay.Head.SplayStepLeft | libuv/include/tree.h:219-228 | one round towards smaller keys keeps the order and the separation by the key, and shrinks the middle tree or stops for good |
| Splay.Head.SplayStepRight | libuv/include/tree.h:229-239 | the mirror image |
| Splay.AssembledHalved | libuv/include/tree.h:223-238 | with two levels to every node of a spine, every node passed on the way down is at most half as deep afterwards, and two levels |
| Splay.Head.Splay | libuv/include/tree.h:209-242 | on any non-empty tree: the same nodes in the same order, the root splits the order at the key, and every node on the way to the key, which took n levels, is within the first n/2 + 2 levels |
| Splay.Head.SplayMinMax | libuv/include/tree.h:247-278 | the first or the last node becomes the root, for the two values that the macros pass, and the way to it is halved in the same sense |
| Splay.Head.MinStep | libuv/include/tree.h:255-264 | one round towards the minimum |
| Splay.Head.MaxStep | libuv/include/tree.h:265-275 | one round towards the maximum |
| Splay.Head.LinksStayInside | libuv/include/tree.h:212-216 | no link of a valid tree leads out of it, so the stack sentinel is unreachable |
| Splay.Head.AtRoot | libuv/include/tree.h:134-135 | after a splay the root has the key exactly when some node has |
| Splay.Head.constructor | libuv/include/tree.h:72-74 | an empty tree |
| Splay.Head.Find | libuv/include/tree.h:127-137 | returns a node with the key, now the root, exactly when there is one; nodes and order stay |
| Splay.WithRootOrder | libuv/include/tree.h:173-180 | the split done by an insertion sends every old node to its proper side |
| Splay.Head.Insert | libuv/include/tree.h:164-186 | the new node becomes the root and enters the order in its place, or the node that has its key is returned and nodes and order stay |
| Splay.Head.SplitRoot | libuv/include/tree.h:173-180 | the link writes on either side |
| Splay.NothingBeyond | libuv/include/tree.h:200-202 | the left part, splayed at the removed key, has nothing to the right of its root, so attaching the right part loses no node |
| Splay.Head.SplayLeftPart | libuv/include/tree.h:200-201 | the second splay works on the left part alone and ends with a NULL right link |
| Splay.Head.JoinParts | libuv/include/tree.h:198-203 | left and right part become one tree of all nodes but the root |
| Splay.Head.RemoveRoot | libuv/include/tree.h:196-203 | the root leaves, the order is that of the two parts |
| Splay.Head.Remove | libuv/include/tree.h:188-207 | exactly the node with the key leaves the order and `elm` itself is returned, or there is none, NULL is returned and nodes and order stay |
| SplayTraversal.MinMax | libuv/include/tree.h:287-290 | the first or last node, NULL for the empty tree; nodes and order stay |
| SplayTraversal.Next | libuv/include/tree.h:139-151 | the next node of the order although the tree is restructured; nodes and order stay |
| SplayTraversal.Foreach | libuv/include/tree.h:292-295 | visits exactly the nodes of the order, in order, although every step restructures the tree |
| RbSets.InsertKey | libuv/include/tree.h:597-626 | adds a key to the set of keys and says whether it was absent |
| RbSets.FindKey | libuv/include/tree.h:628-644 | finds a key exactly when it is in the set |
| RbSets.RemoveKey | libuv/include/tree.h:530-644 | find and remove take exactly one key out of the set |
| RbSets.Run | libuv/include/tree.h:530-644 | every run of operations gives the answers of a mathematical set and ends with its keys |
| SplaySets.InsertKey | libuv/include/tree.h:164-186 | adds a key to the set of keys and says whether it was absent |
| SplaySets.FindKey | libuv/include/tree.h:127-137 | finds a key exactly when it is in the set |
| SplaySets.RemoveKey | libuv/include/tree.h:188-207 | takes exactly one key out of the set |
| SplaySets.Run | libuv/include/tree.h:128-207 | every run of operations gives the answers of a mathematical set and ends with its keys |
| SameAnswers.Compare | libuv/include/tree.h:128-644 | both trees, started empty, give the same answers to every sequence of operations |
| JsonParser.FindEnclosing | json/parser.c:197-237 | on every terminated stream and from every start, the scan with two counters or -1, within the stream |
| JsonParser.EnclosingIff | json/parser.c:197-237 | on every stream, well-formed or not: the result is the first closing token of the right kind, before the end of input, at which nothing opened since is open, counting each kind of bracket by itself; -1 if and only if there is none, or no opening token |
| JsonNesting.CountersFollowStack | json/parser.c:209-229 | on a well-nested group two independent counters stop where a bracket stack runs empty |
| JsonNesting.MatcherCorrect | json/parser.c:197-237 | the position returned is the opener's match in the stack discipline |
| JsonNesting.MatcherAcceptsMore | json/parser.c:213-237 | on the one stream `[{[}]]` the counters find an end where a stack finds none |
| JsonNesting.MatcherAgreesIff | json/parser.c:197-237 | on every stream: an end that the matcher finds is that of a stack if and only if all between is well-nested; otherwise a stack rejects the group |
| JsonNesting.OneKindAgrees | json/parser.c:209-229 | on every stream with one kind of bracket, well-nested or not, matcher and stack never differ |
| JsonNesting.UnclosedGroup | json/parser.c:22-33 | when every closing token matches and the end of input comes before the group is closed, both builders return NULL |
| JsonNesting.NoCloserFollows | json/parser.c:79-90 | so they do when no closing token of the kind follows at all, or the token opens nothing |
| JsonParser.GetSeparators | json/parser.c:148-188 | the loop with two counters that may go below zero finds the commas that neither hides |
| JsonParser.SeparatorsIff | json/parser.c:148-188 | on every stream: exactly the commas before which no more braces and no more brackets have been opened than closed, one directly before the end excepted |
| JsonParser.UnhiddenAscending | json/parser.c:156-185 | the positions are strictly increasing, inside the range, and commas |
| JsonNesting.CommasFollowStack | json/parser.c:156-185 | on a well-nested group the scan meets exactly the commas at the group's own level |
| JsonNesting.SeparatorsExact | json/parser.c:148-188 | the result is, in order, exactly the commas of the own level, one directly before the closing token excepted |
| JsonNesting.SeparatorsComplete | json/parser.c:156-156 | no own comma is missed if and only if the group has no trailing comma |
| JsonNesting.SeparatorsCut | json/parser.c:148-188 | behind every separator the rest of the group is well-nested again, up to the same end |
| JsonNesting.SlicesNested | json/parser.c:148-188 | cutting a well-nested group at its separators gives slices that are well-nested in themselves |
| JsonNesting.SpanInside | json/parser.c:40-47 | whatever group starts in such a slice is well-nested and ends in the same slice, so the builders' recursive calls nest strictly |
| JsonParser.ParseArray | json/parser.c:21-56 | terminates on every terminated stream, with every index in range and every recursive call further on, and returns what the specification says; NULL if and only if there is no `[` or no place where its group can close |
| JsonParser.ParseObject | json/parser.c:78-125 | the same for objects; NULL if and only if there is no `{` or no place where its group can close |
| JsonParser.ArrayElement | json/parser.c:38-52 | on every stream, what each element of a returned array is, by the tokens behind the separator before it; a token that is no value leaves it unwritten |
| JsonParser.ObjectProperty | json/parser.c:96-120 | the same for the properties of a returned object |
| JsonParser.ElementsFrom | json/parser.c:38-52 | the element at j is read directly behind the separator before it |
| JsonParser.PropertiesFrom | json/parser.c:96-120 | the property at j is read directly behind the separator before it |
| JsonGrammar.StackOver | json/parser.c:213-229 | a value in the stream leaves a bracket stack as it was |
| JsonGrammar.ValueNested | json/parser.c:197-237 | the tokens of any array or object, inside any stream, are a well-nested group, and the matcher finds their last token |
| JsonGrammar.UnhiddenOver | json/parser.c:156-185 | nothing inside a value is a separator of the surrounding level |
| JsonGrammar.ElemCommasFound | json/parser.c:148-188 | the separators of an array are the commas between its elements, in order |
| JsonGrammar.MemberCommasFound | json/parser.c:148-188 | the separators of an object are the commas between its members, in order |
| JsonGrammar.ArrayParsed | json/parser.c:21-56 | on the tokens of any array, inside any stream: all elements but the last, in order, objects among them unwritten |
| JsonGrammar.ElementParsed | json/parser.c:39-51 | one element; an object is missed because `{` is looked for one token too far |
| JsonGrammar.ObjectParsed | json/parser.c:78-125 | on the tokens of any object: all members but the last, in order, with their keys and values |
| JsonGrammar.CutOff | json/parser.c:79-90 | the tokens of any value, cut off before any of them: both builders return NULL |
| JsonGrammar.PropertyParsed | json/parser.c:102-117 | one member with its key and value, nested objects and arrays included |
| JsonGrammar.WholeIffEmpty | json/parser.c:35-38 | the builders return all of a container if and only if it is empty |
| JsonGrammar.TrimmedIffNoObjects | json/parser.c:44-44 | leaving out last members is all that the builders do if and only if no array holds an object in another place than the last |
| JsonLexer.RunEndStops | json/lexer.c:189-236 | a run ends at the first character that is not of its kind, or at the end of the text |
| JsonLexer.Classes | json/lexer.c:248-256 | the tests of the scanner pick out exactly the characters written out in `Belongs` |
| JsonLexer.OneByOne | json/lexer.c:248-256 | the numerals and the letters among them, one by one |
| JsonLexer.RunIs | json/lexer.c:189-236 | every run is the longest one over its written-out characters |
| JsonLexer.Lexer.constructor | json/lexer.c:29-43 | the cursor stands on the first character |
| JsonLexer.Lexer.ReadChar | json/lexer.c:170-179 | the cursor moves on by one and shows the character there, or the terminator |
| JsonLexer.Lexer.SkipWhitespace | json/lexer.c:189-193 | stops at the first character that is none of blank, tab, line feed, carriage return |
| JsonLexer.Lexer.ReadString | json/lexer.c:195-207 | the longest text without quote and NUL: up to the next quote or the end |
| JsonLexer.Lexer.ReadNumber | json/lexer.c:209-222 | the longest run of digits, `.`, `e`, `E`, `+` and `-` |
| JsonLexer.Lexer.ReadIdentifier | json/lexer.c:224-236 | the longest run of letters and `_` |
| JsonLexer.Lexer.Next | json/lexer.c:45-108 | the token that starts behind the white space, with the cursor directly behind it |
| JsonLexer.ReadToken | json/lexer.c:136-136 | what is read and what is still to come are what was to come |
| JsonLexer.ParseTokens | json/lexer.c:129-148 | terminates on every NUL-free text, writes inside the array that `realloc` left, and reports exactly the number of tokens |
| JsonLexing.MarkIs | json/lexer.c:50-69 | each of the six punctuation marks is its own token |
| JsonLexing.StringIs | json/lexer.c:75-84 | from a quote: everything up to the next one or the end of the text, and the cursor behind it |
| JsonLexing.NumberIs | json/lexer.c:85-92 | from a numeral: the longest run of numerals, as it stands |
| JsonLexing.WordIs | json/lexer.c:93-99 | from a letter that is no numeral: the longest run of letters, read as the first of the three words that it is a prefix of |
| JsonLexing.NothingElseIs | json/lexer.c:69-107 | any other character is an illegal token of its own, and only the end of the text is the end of input |
| JsonLexing.EofComesLast | json/lexer.c:136-136 | there is exactly one end-of-input token, in last position |
| JsonLexing.SpansOrdered | json/lexer.c:45-108 | the lexemes are non-empty, in order and do not overlap |
| JsonLexing.SpansCover | json/lexer.c:189-193 | whatever has been scanned and is in no lexeme is white space |
| JsonLexing.AllScanned | json/lexer.c:238-246 | the whole text is sure to be scanned, whatever a missing return value is taken for, if and only if every word that starts a lexeme is a prefix of `true`, `false` or `null` |
| JsonLexing.LexemeOf | json/lexer.c:45-108 | any printable token is read back from its own text, with the cursor directly behind it |
| JsonLexing.WordLexeme | json/lexer.c:238-246 | the three words are told apart |
| JsonLexing.RoundTrip | json/lexer.c:129-148 | scanning any printing of a token list, strings without quote and NUL, numbers over `0123456789.eE+-`, gaps of blanks, tabs and line ends, gives the list back and the end of input |
| JsonPipeline.TextParsed | json/parser.c:270-275 | from text to value: scanning and parsing any spaced text of an array or object gives what the builders give on its tokens |
| JsonPipeline.TextCutOff | json/parser.c:270-275 | the text of any value that breaks off between two tokens: NULL |
| JsonPipeline.ParseObjectText | json/parser.c:270-275 | the two steps together on every NUL-free text: the scanner's output always meets what the parser needs |
| Requests.CStringGrows | server.c:201-205 | a terminated buffer that grows at its end shows the string functions a longer text or the same |
| Requests.HasIff | server.c:205-205 | the search succeeds exactly when the pattern stands somewhere |
| Requests.CompleteIff | server.c:205-205 | the test holds if and only if a CR LF or two LF stand in the text with no NUL before them |
| Requests.CompleteGrows | server.c:205-205 | a request that is complete stays complete whatever is received after it |
| Requests.AnyChunking | server.c:191-205 | some chunk boundary has a complete request exactly when the whole text is one |
| Connections.AllFramed | server.c:22-33 | what happens to the blocks of one connection leaves all others as they have to be |
| Connections.Found | server.c:139-146 | an open handle or a request leads to a record that is alive and points back at it |
| Connections.ClearedIs | server.c:125-134 | closing frees record, text, response and requests, address by address, and leaves client and timer in memory, closing |
| Connections.ClearedDead | server.c:125-134 | closing leaves nothing of a connection but its closing handles and touches no other |
| Connections.StillReading | server.c:191-205 | while a client is read, the work has not started and no boundary so far had a complete request |
| Connections.AllChunkStored | server.c:192-205 | a chunk that leaves the request incomplete keeps everything as it has to be |
| Connections.AllChunkQueued | server.c:205-211 | so does the chunk that completes it, with the work queued and reading stopped |
| Connections.AllWorkDone | server.c:170-170 | so does the worker's store of the response |
| Connections.AllWriteBegun | server.c:144-152 | so does handing the response to a write request |
| Connections.WorkStarted | server.c:159-165 | while a work request exists, the text is there in full and is a complete request |
| Connections.ConnectionServed | server.c:125-211 | data is closed once at most, work queued once at most and exactly at the first boundary with a line end in the text; a closed connection has had one reply if work was queued and none otherwise |
| Connections.TextReceived | server.c:191-203 | the text is the concatenation of the chunks, terminated, with its length right |
| Connections.AnyCut | server.c:205-205 | whether a stream that is delivered until work is queued or in full leads to work does not depend on how it is cut, even inside the delimiter |
| Callbacks.Server.constructor | server.c:259-262 | no connections, nothing allocated |
| Callbacks.Server.Free | server.c:120-122 | only what is allocated can be freed, and it is not handed out again |
| Callbacks.Server.AllocBuffer | server.c:109-117 | a buffer of the size asked for, filled with zeros |
| Callbacks.Server.OnCloseFree | server.c:120-122 | frees a closed handle, whose connection has ended before |
| Callbacks.Server.CloseData | server.c:125-134 | both handles are still there and closing; requests, text, response and record are freed, each once, none of them with the worker; no other block changes |
| Callbacks.Server.OnWriteEnd | server.c:137-141 | the record found through the request is alive; its data is closed, once |
| Callbacks.Server.AfterProcessCommand | server.c:144-152 | exactly the response is written, once, and the timer stops |
| Callbacks.Server.ReadRequest | server.c:155-167 | the worker sees the text received up to its first NUL, a complete request |
| Callbacks.Server.StoreResponse | server.c:170-170 | the worker's only write to the record |
| Callbacks.Server.StoreChunk | server.c:192-203 | text and chunk end up in one terminated block, every copy inside it, and the old block is gone |
| Callbacks.Server.Ready | server.c:205-205 | the test on the C string is true exactly when the received text has a CR LF or two LF before any NUL |
| Callbacks.Server.ReadEnd | server.c:187-190 | at the end of the stream the buffer is freed, the timer stopped and the data closed |
| Callbacks.Server.ReadChunk | server.c:191-212 | one more chunk in the history, and work queued exactly if the request is complete now |
| Callbacks.Server.ReadCb | server.c:179-213 | only the connection of the stream changes: with `nread` bytes read, exactly these go behind what it received and the handles go on; otherwise nothing is received, and it is closed once |
| Callbacks.Server.ClientTimeoutCb | server.c:216-224 | stops the timer, and closes the data exactly if work has not started |
| Callbacks.Server.ConnectionCb | server.c:227-257 | a new connection that is read and timed, or, when it cannot be accepted, one that is closed already |
| Callbacks.Server.Handle | server.c:109-257 | the callback of any event that is due keeps everything valid and makes of the state what `Next` says |
| Callbacks.Server.Step | server.c:109-257 | any enabled event keeps everything valid, acts on one connection only and there as said, leaves record, text and response of every connection that is with the worker alone unless it is the worker's own step, and lowers the rank of its connection unless it is a chunk that leaves the request incomplete |
| Callbacks.HandleAfter | server.c:109-257 | after any event every handle is still there, unless the event is its own close callback; a closing one is unchanged, and an open one closes with its connection, is read until the work is queued, and runs until it expires or the response is sent |
| Callbacks.HistoryAfter | server.c:109-257 | by the event's own fields: the bytes of a read are received and work is queued exactly on a line end, the end of the stream, a write and a timer without work close once, a completion replies once |
| Callbacks.OthersAfter | server.c:227-257 | the other connections go on unchanged; a new one comes up empty, open or closed already |
| Callbacks.InBetween | server.c:109-257 | between callbacks, what an open connection has: client read, timer running, work, response and write request, by what happened to it |
| Callbacks.RankStep | server.c:109-257 | ending, queueing, serving, replying, a late timer and each close callback bring a connection nearer to its end |
| Callbacks.WorkerUndisturbed | server.c:155-224 | timers, reads, writes and closings of any connection leave what the worker holds as it is |
| Callbacks.Server.Run | server.c:109-257 | every run of events in every order keeps everything valid; its states follow each other as `Next` says, histories only grow, and no connection, there at the start or come up on the way, gets more than eight callbacks besides incomplete chunks |
| Callbacks.NextSpends | server.c:109-257 | a callback other than an incomplete chunk takes at least one from the budget of its connection, and no event adds to any budget |
| Callbacks.CallbacksCounted | server.c:109-257 | over any run, the callbacks a connection got, incomplete chunks aside, and those it may still get are together no more than those it might have got at the start |
| Callbacks.CallbacksBounded | server.c:109-257 | over any run, at most eight callbacks for any connection, incomplete chunks aside |
| Callbacks.RunGrows | server.c:109-257 | over any run, no chunk, queueing, reply or closing in any history is taken back |
| Callbacks.GoneWhenClosed | server.c:120-134 | over any run, a handle that is gone was closed before, and its own close callback came |
| Callbacks.TextDelivered | server.c:191-203 | over any run, the text of a connection grows by exactly the bytes of its reads, in order |
| Callbacks.Served | server.c:109-257 | for a connection that comes up during a run, by what was read for it alone: work is queued if and only if a line end was delivered, and once closed it has had the one reply exactly in that case |
| Callbacks.Server.SomethingToCome | server.c:109-257 | as long as anything is allocated for a connection, libuv has a callback to call that takes from its budget |
| Callbacks.Server.AllFreed | server.c:120-134 | once no callback is left to come, every block ever allocated has been freed, and none twice |

## Left out

- `RB_AUGMENT`: empty by default; the climbing loop that only calls it (`libuv/include/tree.h:571-576`) is left out with it, and no claim about data aggregated over subtrees is made.
- The amortised bound of splay trees (`libuv/include/tree.h:49-51`): it needs real logarithms. What it rests on is proved: a splay halves the depth of the nodes it passes.
- `RB_FOREACH_FROM`, `RB_FOREACH_REVERSE_FROM`, `RB_FOREACH_REVERSE_SAFE`: variants of the loops that are modelled.
- `SPLAY_MINMAX` with 0: it would not end; the macros pass -1 or 1 only.
- Comparators that are not strict total orders: the trees are then no search trees.
- Integer widths: `int` counters and `size_t` lengths are unbounded here.
- The entry of a node is one field that holds a value; writing one link is writing the entry with that link changed.
- JSON clean-up functions and the memory of the reader: property records and the scanner are never freed, so there is no conservation to state. Builders return the contents of the arrays they fill.
- `atof`: a number keeps its text. Messages printed on malformed input are left out; the NULL or -1 returned with them is not.
- Undefined behaviour of the reader, kept as arbitrary results: `strdup(NULL)` for a key without text gives no text, an unwritten value is `Indeterminate`, and a missing return value is arbitrary. `TOKEN_SIZE` and `ADDRESS_SIZE` are those of a 64-bit target.
- JSON strings with escapes (section 7 of RFC 8259) and the exact number syntax (section 6): the scanner knows neither.
- `parseHttp`, `add_header`, `print_headers`: built on `strtok` and `sscanf` with mistyped buffers; nothing depends on their result, since the response is a constant.
- Sockets, the event loop itself, time and printing: only libuv's contract is modelled. The buffer callback and the read callback that follows it are one event.
- Negative `nread` values other than -1 and `UV_EOF`, failing allocations, failing `uv_write`, and the use of `uv_work_t` for the write request.
- The test for a NULL record in `close_data` (`server.c:126`): no caller passes one.
- `lib/response.c`, the other libuv headers, `index.html`: declarations, tables and static content.
