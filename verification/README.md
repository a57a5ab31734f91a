# Verified model of the algorithms labs

This project models, in Dafny, the algorithm modules of a course of eleven
Python labs. Each algorithm becomes one Dafny module, so a lab file that holds
several algorithms becomes several modules. Where the Python updates state step by step, the model does too:
classes with `modifies` clauses, arrays and loops with invariants. Where the
Python is pure recursion, the model uses functions and lemmas.

- **Search and recursion** (lab01, lab03):
  - linear and binary search with the -1 sentinel;
  - factorial, Fibonacci, binary search and Euclid's GCD, each recursive and iterative, with the two versions proved equal;
  - the Towers of Hanoi, with legal moves and 2^n - 1 of them;
  - case-insensitive palindrome checks;
  - height, size and sum folds over a binary tree.
- **Linear structures** (lab02):
  - a singly linked list with head and tail references, as a class over `Node` objects;
  - the bracket checker, proved to accept exactly the properly nested bracket strings;
  - the deque palindrome check.
- **Sorting** (lab04, lab07):
  - bubble, selection and insertion sort in place on arrays, merge sort with `merge`, and three-way quicksort;
  - the heap-based and the in-place heapsort.
  - Every one returns a sorted permutation of its input.
- **Hashing** (lab05):
  - the sum, polynomial and DJB2 string hashes;
  - a separate-chaining table that doubles when the load factor is exceeded;
  - an open-addressing table with linear or double probing.
  - For both tables, a stored key is found again.
- **Trees and heaps** (lab06, lab07):
  - an iterative binary search tree;
  - recursive and stack-based pre-, in- and post-order traversals, proved to agree;
  - the balanced and the degenerate tree builders;
  - array-backed min- and max-heaps, generic over an ordering;
  - a priority queue on a min-heap of (priority, item) pairs.
- **Greedy and dynamic programming** (lab08, lab09):
  - interval scheduling, greedy change, Kruskal's algorithm with union-find, and Huffman coding;
  - brute-force and table-driven 0/1 knapsack, with the reconstruction;
  - three Fibonacci variants;
  - LCS with and without the reconstruction, and Levenshtein distance;
  - coin-change DP and the longest increasing subsequence.
- **Graphs** (lab10):
  - the adjacency matrix and the adjacency list;
  - breadth-first search, with distances proved to be fewest-edge path lengths;
  - both depth-first searches, each returning exactly the reachable vertices;
  - Dijkstra, with distances proved minimal;
  - connected components;
  - Kahn's topological sort;
  - the grid maze, where every cell's distance is proved to be row plus column.
- **String matching** (lab11):
  - the prefix function and the Z-function, each against its definition (longest border, longest common prefix);
  - KMP, proved to return exactly the occurrences; the Z-function search, proved to return them all when the text and the pattern hold no '$' (its separator); Rabin-Karp, proved to return them all for a non-empty pattern, while for an empty one it reports position 0 and only those later positions whose rolling hash is 0;
  - the minimal period;
  - the cyclic-shift test.

Python values map to Dafny as follows:
- Python integers are unbounded `int`s.
- `%` is modelled as Python's floored remainder (`Common.PyMod`).
- Strings are `seq<char>`.
- An exception the code raises for some input becomes an `Err` result (`Common.Result`) or a `None`/error outcome, as documented per member below.
- `float('inf')` sentinels become an extended-integer or `Option` value.

## Model

| member | source | states |
|---|---|---|
| Search.LinearSearch | lab01/src/search_algorithms.py:17-20 | the result is -1 exactly when the target does not occur, and otherwise the first index holding it |
| Search.BinarySearch | lab01/src/search_algorithms.py:36-47 | a non-negative result is an index holding the target; on ascending input the result is -1 exactly when the target is absent |
| LinkedLists.LinkedList.constructor | lab02/src/linked_list.py:17-19 | a new list is empty, with head and tail both unset |
| LinkedLists.LinkedList.InsertAtStart | lab02/src/linked_list.py:21-29 | the contents become the new element followed by the old contents; head and tail stay unset together or set together |
| LinkedLists.LinkedList.InsertAtEnd | lab02/src/linked_list.py:31-39 | the contents become the old contents followed by the new element, which is the new tail |
| LinkedLists.LinkedList.DeleteFromStart | lab02/src/linked_list.py:41-49 | an empty list gives None and stays empty; otherwise the first element is returned and the rest remains, the tail cleared with the last element |
| LinkedLists.QueueAndStackOrder | lab02/src/linked_list.py:21-49 | inserting at the end and deleting from the start is first-in first-out; inserting at the start is last-in first-out; deleting from an empty list gives None |
| StackTasks.CheckBrackets | lab02/src/task_solutions.py:7-18 | the checker returns True exactly when the bracket characters of the expression are properly nested, all other characters being ignored |
| StackTasks.CheckerIsBalance | lab02/src/task_solutions.py:9-18 | running the stack over a string ends with an empty stack exactly when its brackets form a properly nested string |
| StackTasks.RunIgnoresOthers | lab02/src/task_solutions.py:12-15 | characters that are not brackets leave the stack untouched |
| StackTasks.BalancedRuns | lab02/src/task_solutions.py:12-17 | a properly nested string leaves any stack as it found it, never failing a match |
| StackTasks.RunReachesPartial | lab02/src/task_solutions.py:12-17 | whatever remains on the stack after a scan is the list of openers left unmatched, in order |
| StackTasks.PushOpener | lab02/src/task_solutions.py:13-14 | reading an opener pushes it as the last unmatched opener |
| StackTasks.PopCloser | lab02/src/task_solutions.py:15-17 | reading the partner of the top opener pops and closes it |
| StackTasks.IsPalindromeDeque | lab02/src/task_solutions.py:21-27 | popping both ends until at most one character is left answers True exactly when the sequence equals its reverse, comparing characters exactly |
| Recursion.FactorialRecursive | lab03/lab03/src/recursive_algorithms.py:21-25 | raises ValueError exactly for negative n; otherwise the value is at least 1 |
| Recursion.FactorialMultiple | lab03/lab03/src/recursive_algorithms.py:23-25 | n! is a multiple of every k in 1..n |
| Recursion.FactorialIterative | lab03/lab03/src/recursive_algorithms.py:40-45 | the product loop gives exactly what the recursive factorial gives, the ValueError included |
| Recursion.FibonacciRecursive | lab03/lab03/src/recursive_algorithms.py:60-66 | raises ValueError exactly for negative n; F(n) is at least 1 for n >= 1 |
| Recursion.FibonacciIterative | lab03/lab03/src/recursive_algorithms.py:81-91 | the (a, b) loop keeps (F(k-1), F(k)) and returns exactly the recursive value, the ValueError included |
| Recursion.BinarySearchBetween | lab03/lab03/src/recursive_algorithms.py:112-122 | a hit is an index of the window holding the target; on ascending input a miss means the target is nowhere in the window |
| Recursion.BinarySearchRecursive | lab03/lab03/src/recursive_algorithms.py:109-110 | with the default bounds, on ascending input the result is None exactly when the target is absent, and a hit holds the target |
| Recursion.BinarySearchIterative | lab03/lab03/src/recursive_algorithms.py:138-149 | the loop returns exactly the recursive search's answer, index or None |
| Recursion.GcdRecursive | lab03/lab03/src/recursive_algorithms.py:190-192 | the result is non-negative, divides both arguments and is divisible by every common divisor; gcd(a, 0) = abs(a) |
| Recursion.EuclidStep | lab03/lab03/src/recursive_algorithms.py:192 | a greatest common divisor of b and a % b (Python's remainder) is one of a and b |
| Recursion.GcdUnique | lab03/lab03/src/recursive_algorithms.py:190-192 | two non-negative greatest common divisors of the same pair are equal |
| Recursion.GcdIterative | lab03/lab03/src/recursive_algorithms.py:208-211 | taking absolute values and then looping gives exactly the recursive result |
| Recursion.GcdOfAbs | lab03/lab03/src/recursive_algorithms.py:208 | the greatest common divisor does not change when the arguments are replaced by their absolute values |
| BinaryTree.SubtreeAppend | lab03/lab03/src/task_solutions.py:89-95 | following one more direction from a node reaches that node's left or right child |
| BinaryTree.CountValues | lab03/lab03/src/task_solutions.py:191-206 | count_nodes equals the number of values the tree holds, counted with repetition |
| BinaryTree.Preorder | lab03/lab03/src/task_solutions.py:110-119 | pre-order emits one value per node, as many as count_nodes gives |
| BinaryTree.Inorder | lab03/lab03/src/task_solutions.py:134-143 | in-order emits one value per node, as many as count_nodes gives |
| BinaryTree.Postorder | lab03/lab03/src/task_solutions.py:158-167 | post-order emits one value per node, as many as count_nodes gives |
| BinaryTree.RootPositions | lab03/lab03/src/task_solutions.py:112-116 | pre-order lists the root first, post-order last, and in-order right after the whole left subtree |
| BinaryTree.Height | lab03/lab03/src/task_solutions.py:182-188 | the height is 0 exactly for the empty tree |
| BinaryTree.HeightBounds | lab03/lab03/src/task_solutions.py:182-206 | a tree of height h has at least h and fewer than 2^h nodes |
| BinaryTree.PreorderValues | lab03/lab03/src/task_solutions.py:112-116 | pre-order lists every value exactly as often as the tree holds it |
| BinaryTree.InorderValues | lab03/lab03/src/task_solutions.py:136-140 | in-order lists every value exactly as often as the tree holds it |
| BinaryTree.PostorderValues | lab03/lab03/src/task_solutions.py:160-164 | post-order lists every value exactly as often as the tree holds it |
| BinaryTree.SumValues | lab03/lab03/src/task_solutions.py:221-224 | sum_tree_values is the sum of the in-order list of values |
| RecursionTasks.HanoiLength | lab03/lab03/src/task_solutions.py:25-31 | n >= 1 disks take 2^n - 1 moves, and the middle move carries disk n from the source to the destination |
| RecursionTasks.HanoiDisks | lab03/lab03/src/task_solutions.py:25-31 | every move is of a disk 1..n, and disk n moves only once, in the middle |
| RecursionTasks.HanoiRecursive | lab03/lab03/src/task_solutions.py:25-31 | the helper appends exactly the recursive solution's moves to the shared list |
| RecursionTasks.HanoiTowers | lab03/lab03/src/task_solutions.py:23-36 | no moves for n <= 0; for n >= 1 the 2^n - 1 moves of the recursive solution |
| RecursionTasks.PlayAppend | lab03/lab03/src/task_solutions.py:25-31 | playing two move lists one after the other is playing their concatenation |
| RecursionTasks.HanoiIsLegal | lab03/lab03/src/task_solutions.py:25-31 | every move of the solution is legal (never a disk onto a smaller one) and it carries the top n disks onto the destination peg |
| RecursionTasks.MoveLargest | lab03/lab03/src/task_solutions.py:30 | the middle move, of disk n, is legal |
| RecursionTasks.HanoiSolves | lab03/lab03/src/task_solutions.py:23-36 | from all disks on the source, the moves end with all disks on the destination and the other two pegs empty |
| RecursionTasks.PalindromeBetween | lab03/lab03/src/task_solutions.py:56-62 | the recursion answers True exactly when s[left..right], lower-cased, reads the same from both ends |
| RecursionTasks.IsPalindromeRecursive | lab03/lab03/src/task_solutions.py:53-62 | with the default bounds, True exactly when the lower-cased string is a palindrome; spaces are not skipped |
| RecursionTasks.IsPalindromeIterative | lab03/lab03/src/task_solutions.py:77-86 | lower-casing first and closing two indices gives exactly the recursive answer |
| Sorts.SortedUnique | lab04/src/sorts.py:3-91 | two ascending sequences with the same multiset of elements are equal, so every sort below has exactly one correct answer |
| Sorts.BubbleSort | lab04/src/sorts.py:9-14 | the array ends up holding the ascending rearrangement of its old contents |
| Sorts.BubblePass | lab04/src/sorts.py:11-13 | one pass over the unsorted prefix moves its largest element to the end of that prefix, extending the sorted suffix by one and permuting the array |
| Sorts.BubbleStep | lab04/src/sorts.py:12-13 | comparing and swapping a neighbouring pair carries the largest element seen so far one place to the right and keeps the elements |
| Sorts.BubbleSettles | lab04/src/sorts.py:10-13 | once the largest unsorted element reaches the end of the prefix, the sorted, partitioned suffix grows by one |
| Sorts.SelectionSort | lab04/src/sorts.py:22-29 | the array ends up holding the ascending rearrangement of its old contents |
| Sorts.SelectStep | lab04/src/sorts.py:24-28 | swapping the minimum of the unsorted part into position i extends the sorted, partitioned prefix by one |
| Sorts.InsertionSort | lab04/src/sorts.py:37-44 | the array ends up holding the ascending rearrangement of its old contents |
| Sorts.InsertAt | lab04/src/sorts.py:38-43 | shifting the larger elements right and dropping the key into the gap makes the first i + 1 elements ascending and permutes the array |
| Sorts.InsertionStep | lab04/src/sorts.py:40-43 | the array left by the shifting loop is a permutation whose first i + 1 elements are ascending |
| Sorts.InsertKeepsSorted | lab04/src/sorts.py:40-43 | placing the key after the elements not above it and before those above it keeps the prefix ascending |
| Sorts.MergeSpec | lab04/src/sorts.py:61-75 | the merged sequence holds exactly the elements of both inputs |
| Sorts.MergeSorted | lab04/src/sorts.py:61-75 | merging two ascending sequences gives an ascending sequence |
| Sorts.MergeStep | lab04/src/sorts.py:65-71 | one loop step takes the smaller head, the left one on ties |
| Sorts.MergeTail | lab04/src/sorts.py:73-74 | once one input is used up the remaining tails are appended unchanged |
| Sorts.Merge | lab04/src/sorts.py:61-75 | the loop computes the merge of the two inputs |
| Sorts.MergeHalves | lab04/src/sorts.py:55-59 | merging the sorted halves of the input gives the ascending rearrangement of the whole input |
| Sorts.MergeSort | lab04/src/sorts.py:52-59 | the result is the ascending rearrangement of the input |
| Sorts.Filter | lab04/src/sorts.py:87-89 | every element kept is on the requested side of the pivot, and nothing is added |
| Sorts.ThreeWay | lab04/src/sorts.py:87-89 | the three comprehensions together hold exactly the elements of the input |
| Sorts.ThreeWayLength | lab04/src/sorts.py:87-89 | the three comprehensions are as long as the input together |
| Sorts.OuterShorter | lab04/src/sorts.py:86-91 | since the pivot is taken from the input, both recursive calls get a strictly shorter list, so the recursion ends |
| Sorts.QuickSortStep | lab04/src/sorts.py:91 | the sorted smaller part, the pivot copies and the sorted larger part concatenate to the ascending rearrangement of the input |
| Sorts.QuickSort | lab04/src/sorts.py:83-91 | the result is the ascending rearrangement of the input |
| HashFunctions.SimpleHash | lab05/src/hash_functions.py:5-10 | ZeroDivisionError exactly for table size 0; otherwise the sum of the character codes reduced with Python's floor modulo: in [0, size) for a positive table size and in (size, 0] for a negative one |
| HashFunctions.CodeSumPermutation | lab05/src/hash_functions.py:10 | the sum of character codes does not depend on the order of the characters |
| HashFunctions.AnagramsCollide | lab05/src/hash_functions.py:5-10 | keys that are rearrangements of each other always get the same simple hash |
| HashFunctions.PolynomialHash | lab05/src/hash_functions.py:12-20 | for a nonzero size, reducing after every step gives the same value as evaluating the whole base-31 polynomial of the key and reducing once; for size 0 the empty key gives 0 and any other key ZeroDivisionError |
| HashFunctions.ReduceStep | lab05/src/hash_functions.py:19 | reducing the running value before the multiply-and-add does not change the result modulo the table size |
| HashFunctions.Djb2IsPolynomial | lab05/src/hash_functions.py:27-29 | the shift-and-add loop computes 5381 * 33^n plus the base-33 polynomial of the key |
| HashFunctions.Djb2Hash | lab05/src/hash_functions.py:22-30 | ZeroDivisionError exactly for table size 0; otherwise the unbounded DJB2 value reduced once modulo the table size, in [0, size) for a positive size |
| HashTableChaining.BucketOf | lab05/src/hash_table_chaining.py:41 | the DJB2 bucket index of a key is a valid bucket of a table with at least one bucket |
| HashTableChaining.Lookup | lab05/src/hash_table_chaining.py:55-58 | scanning a bucket finds nothing exactly when the key is absent from it, and otherwise the value stored with that key |
| HashTableChaining.LookupAppend | lab05/src/hash_table_chaining.py:46 | appending a pair to a bucket changes only the lookup of its key, and only if the key was not there yet |
| HashTableChaining.LookupReplace | lab05/src/hash_table_chaining.py:44 | overwriting the pair of one key leaves every other key's lookup unchanged |
| HashTableChaining.LookupRemove | lab05/src/hash_table_chaining.py:68 | deleting the pair of one key leaves every other key's lookup unchanged |
| HashTableChaining.FindInBucket | lab05/src/hash_table_chaining.py:42-43 | the scan reports nothing exactly when the key is absent from the bucket, and otherwise the first index holding it |
| HashTableChaining.RehashBucket | lab05/src/hash_table_chaining.py:26-28 | moving one old bucket appends its pairs, in order, to their buckets in the doubled table |
| HashTableChaining.NextBucket | lab05/src/hash_table_chaining.py:25-28 | after the last old bucket the new table holds exactly the old contents, with the same number of entries |
| HashTableChaining.Rehash | lab05/src/hash_table_chaining.py:22-29 | the doubled table maps every key to the same value as before and holds the same number of entries |
| HashTableChaining.HashTableChaining.constructor | lab05/src/hash_table_chaining.py:13-18 | a new table has the requested size, no entries and count 0; a positive size gives that many empty buckets, a size of 0 or less an empty bucket list |
| HashTableChaining.HashTableChaining.Resize | lab05/src/hash_table_chaining.py:20-31 | the size doubles while the key-value contents and the count stay the same |
| HashTableChaining.HashTableChaining.Insert | lab05/src/hash_table_chaining.py:33-47 | a table without buckets raises (ZeroDivisionError for size 0, IndexError for a negative size) and stays as it is; otherwise the table first doubles when count / size exceeds the load factor, then the key maps to the new value, every other key is unchanged, and the count grows by one only for a new key |
| HashTableChaining.HashTableChaining.Search | lab05/src/hash_table_chaining.py:49-58 | a table without buckets raises (ZeroDivisionError for size 0, IndexError for a negative size); otherwise the result is the value stored for the key, or nothing when it is absent |
| HashTableChaining.HashTableChaining.Delete | lab05/src/hash_table_chaining.py:60-71 | a table without buckets raises as search does and stays as it is; otherwise the result says whether the key was present, the key is removed, every other entry stays, the count drops by one only on success, and the size is unchanged |
| HashTableChaining.UpdateBucket | lab05/src/hash_table_chaining.py:41-47 | replacing only the key's bucket keeps every other key's entry and keeps the count equal to the number of stored pairs |
| HashTableChaining.AbsentKey | lab05/src/hash_table_chaining.py:54-58 | a key missing from its own bucket is missing from the table |
| HashTableChaining.SizeError | lab05/src/hash_table_chaining.py:38-41 | a table without buckets raises ZeroDivisionError exactly for size 0 (the division or the modulo) and IndexError exactly for a negative size (the bucket lookup) |
| HashTableChaining.HashTableChaining.Store | lab05/src/hash_table_chaining.py:38-47 | on a table with buckets: resizes exactly when count / size exceeds the load factor, then the key maps to the new value and the count grows by one only for a new key |
| HashTableChaining.HashTableChaining.Put | lab05/src/hash_table_chaining.py:41-47 | the key maps to the new value, the size is unchanged and the count grows by one only for a new key |
| HashTableOpenAddressing.ProbeIndex | lab05/src/hash_table_open_addressing.py:23-32 | any method name other than "linear" or "double" raises ValueError; a known method raises ZeroDivisionError for size 0 and otherwise gives a slot index in [0, size) for a positive size |
| HashTableOpenAddressing.FirstFree | lab05/src/hash_table_open_addressing.py:55-63 | the scan stops at a probed slot that is empty or holds the key, and raises ValueError exactly when the method name is unknown and a probe is made |
| HashTableOpenAddressing.FindableIsStored | lab05/src/hash_table_open_addressing.py:73-81 | a key that search finds is stored in some slot, and search returns a value for it |
| HashTableOpenAddressing.WriteAtStop | lab05/src/hash_table_open_addressing.py:58-59 | writing into the slot where the scan stopped leaves the scan stopping at that slot |
| HashTableOpenAddressing.WriteKeepsOther | lab05/src/hash_table_open_addressing.py:58-59 | writing another key's pair into an empty slot, or over another key's pair, does not move where the scan for this key stops |
| HashTableOpenAddressing.ExhaustedScan | lab05/src/hash_table_open_addressing.py:56-63 | when all size probes fail, every probed slot held a pair of another key |
| HashTableOpenAddressing.LinearProbeReaches | lab05/src/hash_table_open_addressing.py:25-26 | within size probes, linear probing reaches every slot of the table |
| HashTableOpenAddressing.LinearFullTable | lab05/src/hash_table_open_addressing.py:56-66 | with linear probing, insertion runs out of probes only when every slot holds a pair of another key |
| HashTableOpenAddressing.InsertThenSearch | lab05/src/hash_table_open_addressing.py:55-81 | after writing a pair into the slot where the scan stops, search for that key returns the written value |
| HashTableOpenAddressing.DeleteThenSearch | lab05/src/hash_table_open_addressing.py:73-96 | after emptying the slot where the scan stops, search for that key finds nothing |
| HashTableOpenAddressing.LastValue | lab05/src/hash_table_open_addressing.py:42-45 | the last slot value of a key exists exactly when some slot holds the key |
| HashTableOpenAddressing.NotStoredSearch | lab05/src/hash_table_open_addressing.py:73-81 | with a known method, a key held by no slot is not found |
| HashTableOpenAddressing.LastValueAt | lab05/src/hash_table_open_addressing.py:42-45 | when one slot alone holds a key, the last value of that key is that slot's value |
| HashTableOpenAddressing.CleanSearch | lab05/src/hash_table_open_addressing.py:68-81 | in a table where every pair sits where the scan for its key stops, search returns the last value stored for each key |
| HashTableOpenAddressing.WriteKeepsClean | lab05/src/hash_table_open_addressing.py:55-62 | writing a pair into the slot where its scan stops keeps every pair sitting where the scan for its key stops |
| HashTableOpenAddressing.WriteKeepsOthers | lab05/src/hash_table_open_addressing.py:55-62 | in such a clean table the write leaves the search result of every other key unchanged |
| HashTableOpenAddressing.OtherKept | lab05/src/hash_table_open_addressing.py:58-59 | in a clean table, writing another key's pair into a slot that does not hold k leaves the search result of k unchanged |
| HashTableOpenAddressing.EmptyClean | lab05/src/hash_table_open_addressing.py:38 | a table of empty slots is clean and finds nothing |
| HashTableOpenAddressing.RebuiltAgrees | lab05/src/hash_table_open_addressing.py:34-45 | a rebuilt table that returns the last values of a clean table answers every search exactly as that table did |
| HashTableOpenAddressing.ReinsertStep | lab05/src/hash_table_open_addressing.py:42-45 | re-inserting one more old pair, with what insertion promises, keeps every re-inserted key findable and search returning the last value of each |
| HashTableOpenAddressing.SkipEmpty | lab05/src/hash_table_open_addressing.py:43 | an empty old slot is skipped without changing what the resize has re-inserted |
| HashTableOpenAddressing.HashTableOpenAddressing.constructor | lab05/src/hash_table_open_addressing.py:13-21 | a new table has the requested size, count 0 and the given probing method; a positive size gives that many empty slots, a size of 0 or less an empty slot list |
| HashTableOpenAddressing.HashTableOpenAddressing.ProbeSequence | lab05/src/hash_table_open_addressing.py:23-32 | the method computes the probe index of the specification, including the ValueError for an unknown method and the ZeroDivisionError for size 0 |
| HashTableOpenAddressing.HashTableOpenAddressing.Scan | lab05/src/hash_table_open_addressing.py:55-63 | the probing loop computes the scan of the specification |
| HashTableOpenAddressing.HashTableOpenAddressing.Resize | lab05/src/hash_table_open_addressing.py:34-45 | the size at least doubles and count becomes 0; when re-insertion succeeds, every key stored before can be found again, and with a known method the new table is clean and search returns for each key the value of the last old slot that held it |
| HashTableOpenAddressing.HashTableOpenAddressing.Reinsert | lab05/src/hash_table_open_addressing.py:43-45 | re-inserting one old slot extends the resize invariant to that slot, or reports the ValueError of an unknown method |
| HashTableOpenAddressing.HashTableOpenAddressing.Insert | lab05/src/hash_table_open_addressing.py:47-66 | size 0 raises ZeroDivisionError at the load test; with a negative size the code resizes and re-inserts without end until Python stops it with RecursionError, and the model answers OutOfFuel at once; both leave the table as it is; otherwise resizes when count / size exceeds the load factor; on success search returns the new value for the key, every key findable before stays findable, and in a clean table every other key keeps its search result; count is never incremented; an unknown method raises ValueError |
| HashTableOpenAddressing.HashTableOpenAddressing.Place | lab05/src/hash_table_open_addressing.py:52-66 | on a table with slots: the load test, the probe loop and the retry after a resize; on success the key is found with the new value, findable keys stay findable and, in a clean table, other keys keep their results; without a resize exactly one slot, where the scan stopped, changes |
| HashTableOpenAddressing.HashTableOpenAddressing.Carried | lab05/src/hash_table_open_addressing.py:34-45 | a finished resize keeps every findable key findable and, from a clean table, keeps every search result |
| HashTableOpenAddressing.HashTableOpenAddressing.WriteFacts | lab05/src/hash_table_open_addressing.py:58-62 | writing the pair where its scan stops makes search return the new value, keeps findable keys findable and keeps a clean table clean with other keys' results unchanged |
| HashTableOpenAddressing.HashTableOpenAddressing.Search | lab05/src/hash_table_open_addressing.py:68-81 | the result is the value in the slot where the scan stops, if that slot holds the key |
| HashTableOpenAddressing.HashTableOpenAddressing.Delete | lab05/src/hash_table_open_addressing.py:83-98 | an unknown method raises ValueError exactly when a probe is made (size 1 or more); otherwise the result is true exactly when search would have found the key, and then that slot is emptied, count drops by one and the key is no longer found; otherwise nothing changes |
| BinarySearchTree.BstInsert | lab06/src/binary_search_tree.py:13-37 | the result is a non-empty tree with exactly one more node |
| BinarySearchTree.InsertValues | lab06/src/binary_search_tree.py:13-37 | insertion adds exactly the new value to the tree's multiset of values |
| BinarySearchTree.InsertIterative | lab06/src/binary_search_tree.py:13-37 | the descend-then-attach loop yields the recursive insertion: smaller values go left, equal and larger ones right |
| BinarySearchTree.InsertKeepsSorted | lab06/src/binary_search_tree.py:25-35 | if the in-order sequence was ascending it stays ascending after insertion |
| BinarySearchTree.InsertKeepsValid | lab06/src/binary_search_tree.py:25-35 | inserting a new value within the bounds keeps a strictly valid search tree valid |
| BinarySearchTree.InsertOutOfBounds | lab06/src/binary_search_tree.py:25-35 | inserting a value outside the bounds gives a tree that fails the validity check |
| BinarySearchTree.DuplicateBreaksValid | lab06/src/binary_search_tree.py:29-30 | inserting a value already present (it goes right of its equal) makes the strict validity check fail |
| BinarySearchTree.InorderMembers | lab06/src/binary_search_tree.py:3-8 | the in-order sequence holds exactly the tree's values |
| BinarySearchTree.SearchRec | lab06/src/binary_search_tree.py:39-52 | a node that is found holds the searched value |
| BinarySearchTree.SearchIterative | lab06/src/binary_search_tree.py:39-52 | the loop returns the node the recursive descent reaches, or none |
| BinarySearchTree.SearchFindsIffPresent | lab06/src/binary_search_tree.py:39-52 | on a valid search tree, search finds a node exactly when the value is in the tree |
| BinarySearchTree.Leftmost | lab06/src/binary_search_tree.py:59-62 | the leftmost node has no left child, belongs to the tree and holds the first value of the in-order sequence |
| BinarySearchTree.Rightmost | lab06/src/binary_search_tree.py:69-72 | the rightmost node has no right child, belongs to the tree and holds the last value of the in-order sequence |
| BinarySearchTree.FindMinIterative | lab06/src/binary_search_tree.py:54-62 | the loop returns the leftmost node |
| BinarySearchTree.FindMaxIterative | lab06/src/binary_search_tree.py:64-72 | the loop returns the rightmost node |
| BinarySearchTree.ExtremesOfValid | lab06/src/binary_search_tree.py:54-72 | on a valid search tree the leftmost value is the minimum and the rightmost the maximum |
| BinarySearchTree.HeightLoopStep | lab06/src/binary_search_tree.py:85-93 | popping a node and pushing its children one level deeper keeps the running maximum plus the stack's deepest pending level equal to the height, and shrinks the work left |
| BinarySearchTree.HeightIterative | lab06/src/binary_search_tree.py:74-95 | the explicit-stack loop returns the height of the tree, 0 for an empty one |
| BinarySearchTree.ValidityStep | lab06/src/binary_search_tree.py:107-116 | a popped node passes with all pending subtrees exactly when its value is strictly inside its bounds and its children pass with the narrowed bounds |
| BinarySearchTree.IsValidBstIterative | lab06/src/binary_search_tree.py:97-118 | the result is true exactly when every node is strictly between the bounds inherited from its ancestors, so duplicates are rejected |
| TreeTraversal.TraverseInorder | lab06/src/tree_traversal.py:10-14 | the inner helper appends the in-order sequence of its subtree to what was collected so far |
| TreeTraversal.RecursiveInorder | lab06/src/tree_traversal.py:4-16 | the result is the in-order sequence: left subtree, root, right subtree |
| TreeTraversal.TraversePreorder | lab06/src/tree_traversal.py:24-28 | the inner helper appends the pre-order sequence of its subtree to what was collected so far |
| TreeTraversal.RecursivePreorder | lab06/src/tree_traversal.py:18-30 | the result is the pre-order sequence: root, left subtree, right subtree |
| TreeTraversal.TraversePostorder | lab06/src/tree_traversal.py:38-42 | the inner helper appends the post-order sequence of its subtree to what was collected so far |
| TreeTraversal.RecursivePostorder | lab06/src/tree_traversal.py:32-44 | the result is the post-order sequence: left subtree, right subtree, root |
| TreeTraversal.InorderPush | lab06/src/tree_traversal.py:56-58 | pushing the current node and going left keeps the output plus the pending work equal to the in-order sequence |
| TreeTraversal.InorderPop | lab06/src/tree_traversal.py:59-61 | popping a node, emitting it and moving to its right subtree keeps the output plus the pending work equal to the in-order sequence |
| TreeTraversal.PushLeftSpine | lab06/src/tree_traversal.py:56-58 | the inner loop pushes the left spine, leaving the output plus the stack's pending work equal to the in-order sequence |
| TreeTraversal.IterativeInorder | lab06/src/tree_traversal.py:46-63 | the stack-based loop returns the in-order sequence |
| TreeTraversal.PreorderChildren | lab06/src/tree_traversal.py:80-83 | pushing the right child, then the left one, schedules the left subtree's pre-order before the right's |
| TreeTraversal.PreorderPop | lab06/src/tree_traversal.py:77-83 | emitting the popped node and scheduling its children keeps the output plus the pending work equal to the pre-order sequence |
| TreeTraversal.IterativePreorder | lab06/src/tree_traversal.py:65-85 | the stack-based loop returns the pre-order sequence, empty for an empty tree |
| TreeTraversal.PostStart | lab06/src/tree_traversal.py:95-97 | the initial stack holding only the root, with nothing visited, satisfies the loop invariant |
| TreeTraversal.PostBound | lab06/src/tree_traversal.py:99-109 | the stack is never longer than the number of values still to be emitted |
| TreeTraversal.PushLeft | lab06/src/tree_traversal.py:102-103 | descending into an unvisited left child keeps the loop invariant |
| TreeTraversal.PushRight | lab06/src/tree_traversal.py:104-105 | descending into an unvisited right child once the left one is done keeps the loop invariant |
| TreeTraversal.Emit | lab06/src/tree_traversal.py:106-109 | emitting a node whose children are both done, marking it visited and popping it keeps the loop invariant |
| TreeTraversal.EmitRoot | lab06/src/tree_traversal.py:106-109 | emitting the root last completes the post-order sequence |
| TreeTraversal.PostLoopEmit | lab06/src/tree_traversal.py:106-109 | the emit branch, stated on the stack of positions, keeps the loop invariant |
| TreeTraversal.IterativePostorder | lab06/src/tree_traversal.py:87-111 | the loop with a visited set returns the post-order sequence, empty for an empty tree |
| TreeBuilders.BuildBalancedInorder | lab06/src/analysis.py:11-20 | the in-order sequence of the tree built from arr[start..end] is exactly that slice |
| TreeBuilders.BuildBalancedShape | lab06/src/analysis.py:13-19 | the tree built from a slice has one node per element, and at every node the two subtree sizes differ by at most one |
| TreeBuilders.BuildBalancedValid | lab06/src/analysis.py:11-20 | built from a strictly increasing slice within given bounds, the tree is a valid search tree for those bounds |
| TreeBuilders.GenerateBalancedTree | lab06/src/analysis.py:9-23 | the result is the empty tree exactly when there are no elements |
| TreeBuilders.BalancedTreeFacts | lab06/src/analysis.py:9-23 | the in-order sequence of the balanced tree is the sorted input, the tree holds one node per element and is size-balanced |
| TreeBuilders.BalancedTreeValid | lab06/src/analysis.py:22-23 | for distinct elements the balanced tree passes the strict validity check |
| TreeBuilders.RightSpine | lab06/src/analysis.py:33-35 | the spine built from a sequence has one node per element |
| TreeBuilders.InsertBelowSpine | lab06/src/analysis.py:33-34 | inserting a value not below any spine element appends it at the bottom of the right spine |
| TreeBuilders.GenerateDegenerateTree | lab06/src/analysis.py:25-35 | inserting the sorted elements one by one yields the right spine of the sorted input |
| TreeBuilders.SpineShape | lab06/src/analysis.py:25-35 | the right spine has no left child anywhere, its height equals the number of elements and its in-order sequence is the input |
| Heaps.IntOrders | lab07/src/heap.py:3-138 | `<` (the min-heap) and `>` (the max-heap) are both strict weak orders, so one heap class covers MinHeap and MaxHeap |
| Heaps.RootFirst | lab07/src/heap.py:19-26 | in a heap-ordered array no element comes strictly before the root, so the root is the minimum (or maximum) |
| Heaps.FirstOfFamily | lab07/src/heap.py:56-63 | the chosen index is the node itself or one of its children that comes strictly before it, and no child comes strictly before the chosen one |
| Heaps.DownStep | lab07/src/heap.py:68-69 | swapping a node with its best child moves the single violation of heap order one level down |
| Heaps.DownDone | lab07/src/heap.py:65-66 | when no child comes before the current node, the subtree range is heap-ordered |
| Heaps.UpStep | lab07/src/heap.py:46-49 | swapping a node with a parent it precedes moves the single violation of heap order one level up |
| Heaps.Heap.constructor | lab07/src/heap.py:6-7 | a new heap is empty and keeps the given order |
| Heaps.Heap.SiftUp | lab07/src/heap.py:42-49 | starting from one out-of-place node, the loop restores heap order without changing the elements |
| Heaps.Heap.SiftDown | lab07/src/heap.py:51-69 | when everything below the index is heap-ordered, the loop makes the range from the index on heap-ordered, keeping the elements |
| Heaps.Heap.Insert | lab07/src/heap.py:9-12 | the heap stays ordered and gains exactly the new value |
| Heaps.Heap.Extract | lab07/src/heap.py:14-26 | IndexError exactly for an empty heap, which stays as it is; otherwise the old root is returned, no element comes before it, and exactly that one copy is removed with heap order kept |
| Heaps.Heap.RemoveRoot | lab07/src/heap.py:19-26 | on a non-empty heap the old root is returned, no element comes before it, exactly that one copy is removed and heap order is kept |
| Heaps.Heap.Peek | lab07/src/heap.py:28-32 | IndexError exactly for an empty heap; otherwise the root, before which no element comes |
| Heaps.Heap.BuildHeap | lab07/src/heap.py:34-40 | sifting down from the last parent to the root makes a heap of exactly the given items |
| Heapsort.Heapsort | lab07/src/heapsort.py:4-13 | building a min-heap and extracting until it is empty returns the ascending rearrangement of the input |
| Heapsort.DrainStep | lab07/src/heapsort.py:10-11 | appending the extracted minimum keeps the output ascending and not above anything still in the heap |
| Heapsort.SiftDownMax | lab07/src/heapsort.py:15-28 | with one violation at i, the recursive sift makes the first n cells a max-heap, permuting them and leaving the rest of the array alone |
| Heapsort.BuildMaxHeap | lab07/src/heapsort.py:34-36 | the first loop makes the whole array a max-heap of its old elements |
| Heapsort.SwapRootBack | lab07/src/heapsort.py:40 | swapping the maximum to position i extends the sorted suffix, which stays not below the remaining heap |
| Heapsort.AfterSift | lab07/src/heapsort.py:40-41 | re-sifting the shortened heap restores the loop invariant one position further left |
| Heapsort.ExtractedAll | lab07/src/heapsort.py:39-41 | when the loop ends the whole array is ascending |
| Heapsort.HeapsortInplace | lab07/src/heapsort.py:30-41 | the array ends up holding the ascending rearrangement of its old contents |
| PriorityQueues.PairOrder | lab07/src/priority_queue.py:12 | (priority, item) pairs compared as Python compares tuples form a strict weak order whenever the order on items is one |
| PriorityQueues.Lexicographic | lab07/src/priority_queue.py:12 | the heap's comparison is exactly the tuple order: smaller priority first, the item order on equal priorities |
| PriorityQueues.PriorityQueue.constructor | lab07/src/priority_queue.py:7-8 | a new queue holds a fresh, empty heap ordered as tuples with the given item order |
| PriorityQueues.PriorityQueue.Enqueue | lab07/src/priority_queue.py:10-12 | the heap gains exactly the pair (priority, item) and the length grows by one |
| PriorityQueues.PriorityQueue.Dequeue | lab07/src/priority_queue.py:14-20 | IndexError exactly for an empty queue, which stays as it is; otherwise the item of a pair with the smallest priority (ties broken by the item order) is returned and that pair removed |
| PriorityQueues.PriorityQueue.Peek | lab07/src/priority_queue.py:22-28 | IndexError exactly for an empty queue; otherwise the item of a least pair, with nothing changed |
| Greedy.Greedy | lab08/src/greedy_algorithms.py:19-23 | the selection from the first i intervals is non-empty and no longer than i |
| Greedy.Schedule | lab08/src/greedy_algorithms.py:15-25 | nothing is selected exactly when there are no intervals |
| Greedy.GreedyShape | lab08/src/greedy_algorithms.py:19-23 | the intervals selected from a prefix are taken from it, pairwise compatible, ordered by end, and end no later than the prefix's last interval |
| Greedy.ScheduleShape | lab08/src/greedy_algorithms.py:15-25 | on intervals sorted by end, the selection is compatible, sorted by end and drawn from the input |
| Greedy.GreedyAhead | lab08/src/greedy_algorithms.py:21-23 | for any compatible chain taken from the prefix, the greedy selection is at least as long and its k-th interval ends no later than the chain's (greedy stays ahead) |
| Greedy.AheadStep | lab08/src/greedy_algorithms.py:22-23 | a chain ending at the newly scanned interval is still matched by the greedy selection |
| Greedy.ScheduleOptimal | lab08/src/greedy_algorithms.py:15-25 | on sorted intervals with start before end, no compatible chain drawn from the input is longer than the greedy selection |
| Greedy.IntervalScheduling | lab08/src/greedy_algorithms.py:5-25 | the input list is sorted in place by end time (stably) and the result is the greedy selection over it |
| Greedy.SchedulingFacts | lab08/src/greedy_algorithms.py:5-25 | the selection over the sorted input is compatible, ordered by end, drawn from the input, and at least as long as any compatible chain of input intervals |
| Greedy.PayCoin | lab08/src/greedy_algorithms.py:121-123 | paying one more coin no larger than the remainder keeps the coins paid non-increasing and summing to amount minus the remainder |
| Greedy.PayLargestFirst | lab08/src/greedy_algorithms.py:117-125 | over descending positive coins the output is exactly the greedy payment `GreedyChange` (each coin, largest first, as often as it fits into what the larger coins left); it is non-increasing, uses only the given denominations, never exceeds the amount, and the unpaid remainder is below every denomination |
| Greedy.PayCoinKind | lab08/src/greedy_algorithms.py:120-123 | one round of the outer loop keeps the paid prefix plus the greedy payment of the rest equal to the greedy payment of the whole list, and leaves less than the coin unpaid |
| Greedy.PayWhileFits | lab08/src/greedy_algorithms.py:121-123 | the inner loop appends `remaining // coin` copies of the coin (none when the remainder is negative) and subtracts their value |
| Greedy.CopiesCount | lab08/src/greedy_algorithms.py:121-123 | a loop that stops once less than the coin remains has paid the coin exactly `remaining // coin` times |
| Greedy.GreedyStep | lab08/src/greedy_algorithms.py:120-123 | paying coin i greedily carries the greedy payment of the whole list over to coin i + 1 |
| Greedy.CoinChange | lab08/src/greedy_algorithms.py:105-125 | the coin list is sorted descending in place and stays positive; the result is exactly the greedy payment over the sorted coins (so coins [5, 3] and amount 6 give [5]), uses only those denominations, pays at most the amount, leaves less than any denomination unpaid, and pays exactly when a 1-coin exists |
| Huffman.Leaves | lab08/src/greedy_algorithms.py:52-58 | every Huffman tree has at least one leaf symbol |
| Huffman.Symbols | lab08/src/greedy_algorithms.py:74 | the symbols of the frequency table, in its order |
| Huffman.LeafBagRemove | lab08/src/greedy_algorithms.py:78-79 | taking an entry off the heap removes exactly that tree's leaves from the heap's symbols |
| Huffman.HeapPop | lab08/src/greedy_algorithms.py:78-79 | the popped entry has a minimal frequency and the rest of the heap is what remains |
| Huffman.PushLeaf | lab08/src/greedy_algorithms.py:74-75 | pushing one leaf per table entry keeps every entry's key equal to its tree's frequency and the heap's symbols equal to the symbols pushed so far |
| Huffman.PushLeaves | lab08/src/greedy_algorithms.py:73-75 | the heap starts with one leaf (frequency, symbol) per table entry, in table order |
| Huffman.MergeStep | lab08/src/greedy_algorithms.py:77-85 | popping two entries and pushing their merge, whose frequency is the sum, keeps the heap's symbols and the frequency sums of every tree |
| Huffman.MergeBag | lab08/src/greedy_algorithms.py:81-85 | the merged node holds exactly the leaves of the two popped trees |
| Huffman.CodeTableShape | lab08/src/greedy_algorithms.py:89-98 | the codes recorded below a node are exactly for its leaf symbols, and each extends the path so far by 0s and 1s |
| Huffman.CodeTablePrefixFree | lab08/src/greedy_algorithms.py:89-98 | when the leaf symbols are distinct, no symbol's code is a prefix of another's, because left adds '0' and right '1' |
| Huffman.GenerateCodes | lab08/src/greedy_algorithms.py:89-98 | the recursive walk adds to the table the codes of every leaf below the node |
| Huffman.TableFacts | lab08/src/greedy_algorithms.py:100-101 | the code table of the final tree has exactly the table's symbols as keys, is prefix-free and binary |
| Huffman.HuffmanCoding | lab08/src/greedy_algorithms.py:63-103 | the codes' keys are the symbols of the frequency table, the codes are binary strings and prefix-free, a single symbol gets the empty code, and no symbols give no codes |
| Kruskal.Labels | lab08/src/greedy_algorithms.py:145-151 | the reference partition after a list of unions labels each of the n vertices with a vertex |
| Kruskal.Relabel | lab08/src/greedy_algorithms.py:149 | a union gives every member of one class the label of the other and changes nothing else |
| Kruskal.ForestSnoc | lab08/src/greedy_algorithms.py:156-158 | adding an edge between two different components keeps the accepted edges acyclic and merges the two labels |
| Kruskal.CompressValid | lab08/src/greedy_algorithms.py:141-142 | pointing a vertex straight at its root (path compression) keeps the parent forest well-formed with the same roots |
| Kruskal.LinkValid | lab08/src/greedy_algorithms.py:148-149 | hanging one root under another keeps the parent forest well-formed, and the second tree's vertices get the first root |
| Kruskal.DisjointSet.constructor | lab08/src/greedy_algorithms.py:138 | every vertex starts as its own parent and its own root |
| Kruskal.DisjointSet.Find | lab08/src/greedy_algorithms.py:140-143 | the result is the root of x's tree, x's parent is set to that root, and the roots of all vertices are unchanged |
| Kruskal.DisjointSet.Union | lab08/src/greedy_algorithms.py:145-151 | the result is true exactly when x and y had different roots; then y's component takes x's root, otherwise the partition is unchanged |
| Kruskal.MergeStep | lab08/src/greedy_algorithms.py:157-158 | accepting an edge whose ends have different roots keeps the union-find roots equal to the labels of the accepted edges, which stay a forest |
| Kruskal.AcceptStep | lab08/src/greedy_algorithms.py:156-158 | taking or skipping the next sorted edge keeps the accepted edges drawn from the input and in weight order |
| Kruskal.TryStep | lab08/src/greedy_algorithms.py:156-158 | one loop step keeps both the acceptance order and the agreement between union-find roots and the accepted forest |
| Kruskal.AcceptInOrder | lab08/src/greedy_algorithms.py:154-162 | the loop accepts edges from the sorted list in weight order, they form a forest of at most vertices - 1 edges, and every input edge, including those after an early stop, ends inside one component of it |
| Kruskal.SpanStep | lab08/src/greedy_algorithms.py:156-158 | after union on the next edge its two ends share a component, and earlier edges stay inside one component |
| Kruskal.Complete | lab08/src/greedy_algorithms.py:160-161 | once vertices - 1 edges are accepted a single component is left, so every edge lies inside it and stopping early loses nothing |
| Kruskal.ForestClasses | lab08/src/greedy_algorithms.py:156-161 | a forest of k accepted edges over n vertices leaves exactly n - k components |
| Kruskal.ClassesInit | lab08/src/greedy_algorithms.py:138 | before any union each of the n vertices is its own component |
| Kruskal.ClassesRelabel | lab08/src/greedy_algorithms.py:148-149 | a successful union removes exactly one component label |
| Kruskal.ClassesSnoc | lab08/src/greedy_algorithms.py:138 | one more vertex adds its own label to the labels in use |
| Kruskal.OneClass | lab08/src/greedy_algorithms.py:160-161 | with one component left any two vertices carry the same label |
| Kruskal.Classes | lab08/src/greedy_algorithms.py:145-151 | the labels in use are exactly the labels of the vertices |
| Kruskal.KruskalMst | lab08/src/greedy_algorithms.py:127-162 | the edge list is sorted by weight in place (stably); the result is drawn from it in weight order, has no cycle and at most vertices - 1 edges, and every input edge joins two vertices of one component of the result, so the result is a spanning forest of the input graph |
| Knapsack.Best | lab09/src/dynamic_programming.py:42-47 | every table entry, the best value from the first i items within capacity w, is non-negative; with `filled` false column 0 stays 0 as in knapsack_01, with `filled` true it is computed like the other columns |
| Knapsack.BestMonotone | lab09/src/dynamic_programming.py:42-47 | the best value never drops when one more item or one more unit of capacity is allowed |
| Knapsack.FillTable | lab09/src/dynamic_programming.py:39-47 | IndexError exactly when, with a positive capacity, some item has a negative weight or has no value while its weight is at most the capacity; otherwise a fresh (n + 1) x max(capacity + 1, 0) table whose every entry is the recurrence's value |
| Knapsack.Knapsack01 | lab09/src/dynamic_programming.py:34-49 | IndexError exactly for a negative capacity or an item the table loops cannot process; otherwise the recurrence's value for all items and the full capacity, items without a value never being taken |
| Knapsack.PaddedFits | lab09/src/dynamic_programming.py:43-47 | on inputs that raise nothing the table code stays inside the table, and a values list as long as the weights is used as it is |
| Knapsack.BestUpper | lab09/src/dynamic_programming.py:44-47 | no choice of items within capacity is worth more than the table entry, for positive weights, and for zero weights too once column 0 is filled |
| Knapsack.UpperLast | lab09/src/dynamic_programming.py:44-47 | the induction step of the upper bound: the last item taken or left out, the rest bounded by the row above |
| Knapsack.TakeStep | lab09/src/task_solutions.py:84-86 | where the entry differs from the one above it, item i - 1 fits and was taken, so the entry is its value plus the best for the remaining capacity |
| Knapsack.BestPickLast | lab09/src/task_solutions.py:83-86 | the walk takes item i - 1 exactly where the entry differs from the one above, and continues from the remaining capacity |
| Knapsack.BestAttained | lab09/src/task_solutions.py:81-86 | the choice read back from the table fits the capacity and is worth exactly the table entry |
| Knapsack.AttainedTake | lab09/src/task_solutions.py:84-86 | where item i - 1 is taken, the choice for the rest plus that item fits and is worth the table entry |
| Knapsack.AttainedSkip | lab09/src/task_solutions.py:83-84 | where item i - 1 is not taken, the choice for the rest alone fits and is worth the table entry |
| Knapsack.Knapsack01Optimal | lab09/src/dynamic_programming.py:34-49 | the table value is the maximum over all choices of items within capacity, and some choice attains it: for knapsack_01's table when all weights are positive, and for the table with column 0 filled when all weights are non-negative |
| Knapsack.ZeroWeightMissed | lab09/src/dynamic_programming.py:43-45 | weights [0, 2], values [5, 3] and capacity 2 give 5 in knapsack_01's table, while both items fit together and are worth 8, which the table with column 0 filled gives |
| Knapsack.KnapsackWithReconstruction | lab09/src/task_solutions.py:68-88 | IndexError on the same inputs as knapsack_01; otherwise the value is the table's; the selected indices are valid, strictly decreasing, fit the capacity together and are worth exactly that value |
| Knapsack.WalkRow | lab09/src/task_solutions.py:84-86 | one row of the walk: comparing the table entries keeps the selected indices valid, decreasing and accounting for the capacity used and the value gained |
| Knapsack.WalkTake | lab09/src/task_solutions.py:84-86 | selecting item i - 1 where the entries differ keeps the walk's accounting |
| Knapsack.WalkSkip | lab09/src/task_solutions.py:83-84 | moving up a row where the entries agree keeps the walk's accounting |
| Knapsack.CombinationIsChoice | lab08/src/analysis.py:22 | every combination is the choice of some k items by position |
| Knapsack.ChoiceEmpty | lab08/src/analysis.py:22 | the one combination of size 0 picks no position |
| Knapsack.ChoiceTaken | lab08/src/analysis.py:22 | a combination that starts with the first item picks it, then a combination of the rest |
| Knapsack.ChoiceSkipped | lab08/src/analysis.py:22 | a combination listed after those starting with the first item picks a combination of the rest only |
| Knapsack.ChoiceIsCombination | lab08/src/analysis.py:21-22 | every choice of items by position is listed among the combinations of its size |
| Knapsack.IndexTaken | lab08/src/analysis.py:22 | a choice that takes the first item is that item followed by the rest's combination of one size less |
| Knapsack.IndexSkipped | lab08/src/analysis.py:22 | a choice that skips the first item is the rest's combination of the same size |
| Knapsack.ScanTake | lab08/src/analysis.py:23-27 | a combination that fits and beats the running maximum becomes the new maximum and the scan state is kept |
| Knapsack.ScanKeep | lab08/src/analysis.py:23-27 | a combination that does not fit or does not beat the running maximum leaves it, and the scan state, unchanged |
| Knapsack.ScanDone | lab08/src/analysis.py:21-29 | after all sizes the running maximum bounds every fitting combination and is attained by one, or is 0 |
| Knapsack.ExactKnapsack | lab08/src/analysis.py:7-29 | the result is at least 0, at least the value of every combination of 1 to n items within capacity, and is 0 or the value of one of them |
| Knapsack.BestWithinExact | lab08/src/analysis.py:7-29 | the dynamic-programming value never exceeds the brute force's |
| Knapsack.ExactWithinBest | lab08/src/analysis.py:7-29 | the brute force's value never exceeds the dynamic-programming value, for positive weights, and for zero weights too once column 0 is filled |
| Knapsack.ExactIsBest | lab08/src/analysis.py:7-29 | the brute force agrees with knapsack_01 when all weights are positive, and with the table with column 0 filled when all weights are non-negative |
| Fibonacci.FibGrowth | lab09/src/dynamic_programming.py:7-11 | the naive recursion's values are never negative from 0 on and grow at least like n - 1 |
| Fibonacci.FibMemo | lab09/src/dynamic_programming.py:13-22 | with a memo holding only correct entries, the result is the n-th Fibonacci number, the memo keeps its keys, stays correct and gains n for n >= 2 |
| Fibonacci.FibonacciMemo | lab09/src/dynamic_programming.py:13-22 | with no memo, or a correct one, the result equals the naive recursion's |
| Fibonacci.FibTabular | lab09/src/dynamic_programming.py:24-32 | the table loop returns the same value as the naive recursion, n itself for n <= 1 |
| Lcs.L | lab09/src/dynamic_programming.py:59-64 | a table entry is never longer than either prefix |
| Lcs.LcsUpper | lab09/src/dynamic_programming.py:59-64 | no common subsequence of the two prefixes is longer than the table entry |
| Lcs.Recon | lab09/src/task_solutions.py:56-64 | the string read back from the table has exactly the table entry's length |
| Lcs.ReconStep | lab09/src/task_solutions.py:57-64 | one step of the backward walk: take the matching character, else go up when the entry above is strictly larger, else left |
| Lcs.ReconCommon | lab09/src/task_solutions.py:54-64 | the string read back from the table is a subsequence of both prefixes |
| Lcs.LcsIsLongest | lab09/src/task_solutions.py:40-66 | the reconstructed string is a common subsequence of both strings and none is longer than the table value |
| Lcs.LcsBounds | lab09/src/dynamic_programming.py:51-66 | the LCS length is at most either length, and a string's LCS with itself is its length |
| Lcs.FillTable | lab09/src/dynamic_programming.py:56-64 | the nested loops fill a fresh (m + 1) x (n + 1) table whose every entry is the recurrence's value |
| Lcs.LcsLength | lab09/src/dynamic_programming.py:51-66 | the result is the recurrence's value for the whole strings |
| Lcs.StepBack | lab09/src/task_solutions.py:57-64 | one iteration of the walk moves strictly towards (0, 0) and keeps the collected string plus what is still to be read equal to the whole reconstruction |
| Lcs.WalkBack | lab09/src/task_solutions.py:54-64 | the while loop collects exactly the string read back from cell (m, n) |
| Lcs.LcsWithReconstruction | lab09/src/task_solutions.py:40-66 | returns the table value and the string walked back from the table, which has that length and is a subsequence of both strings |
| Levenshtein.Min3 | lab09/src/dynamic_programming.py:86-90 | the minimum of three entries is one of them and at most each |
| Levenshtein.LevLower | lab09/src/dynamic_programming.py:76-90 | an entry is at least the difference of the prefix lengths |
| Levenshtein.LevUpper | lab09/src/dynamic_programming.py:76-90 | an entry is at most the longer prefix length |
| Levenshtein.LevZero | lab09/src/dynamic_programming.py:81-90 | an entry is 0 exactly when the two prefixes are equal |
| Levenshtein.LevenshteinFacts | lab09/src/dynamic_programming.py:68-92 | the distance is 0 exactly for equal strings and never exceeds the longer length |
| Levenshtein.Borders | lab09/src/dynamic_programming.py:73-79 | the fresh table's first column holds i and its first row holds j |
| Levenshtein.LevenshteinDistance | lab09/src/dynamic_programming.py:68-92 | the result is the recurrence's value for the whole strings: keep on a match, else one plus the cheapest of delete, insert and replace |
| MinCoins.MinCost | lab09/src/task_solutions.py:18 | Python's min with inf above every count: one of the two, finite when either is, and not above a finite one |
| MinCoins.PaymentBound | lab09/src/task_solutions.py:16-18 | every way of paying i with the first k denominations uses at least as many coins as the table entry, which is finite |
| MinCoins.Payment | lab09/src/task_solutions.py:16-18 | a finite entry is attained: some payment of exactly i uses that many coins |
| MinCoins.CoinChangeOptimal | lab09/src/task_solutions.py:8-20 | the final entry is the fewest coins over all exact payments, finite exactly when some payment exists, and 0 for amount 0 |
| MinCoins.CoinChangeDp | lab09/src/task_solutions.py:8-20 | the loops return the fewest coins that pay the amount exactly, or -1 when no combination does |
| Lis.EndAt | lab09/src/task_solutions.py:33-36 | dp[i], the longest increasing run ending at i, lies between 1 and i + 1 |
| Lis.ArgScan | lab09/src/task_solutions.py:34-36 | the inner loop's value is 1 or one more than dp[r] for some earlier r with a smaller element |
| Lis.ScanAtLeast | lab09/src/task_solutions.py:35-36 | every earlier smaller element t makes the inner loop's value at least dp[t] + 1 |
| Lis.EndUpper | lab09/src/task_solutions.py:31-36 | no strictly increasing subsequence ending at position i is longer than dp[i] |
| Lis.EndWitness | lab09/src/task_solutions.py:31-36 | dp[i] is attained by a strictly increasing subsequence ending at position i |
| Lis.SeqMax | lab09/src/task_solutions.py:38 | Python's max of a non-empty list bounds every element and is one of them |
| Lis.LisSpec | lab09/src/task_solutions.py:22-38 | 0 for an empty list, otherwise between 1 and the length |
| Lis.LisIsLongest | lab09/src/task_solutions.py:22-38 | no strictly increasing subsequence is longer than the result, and for a non-empty list one attains it |
| Lis.LongestIncreasing | lab09/src/task_solutions.py:22-38 | the nested loops return the length of the longest strictly increasing subsequence |
| GraphRepresentation.Get | lab10/src/graph_representation.py:62-69 | a dictionary lookup finds a value exactly for its keys |
| GraphRepresentation.Put | lab10/src/graph_representation.py:55-56 | after assigning d[k] = w, looking up k gives w |
| GraphRepresentation.PutGet | lab10/src/graph_representation.py:55-56 | assignment changes only the lookup of its own key |
| GraphRepresentation.PutKeys | lab10/src/graph_representation.py:55-56 | assignment keeps the key order and appends a new key at the end, as Python dictionaries do |
| GraphRepresentation.Delete | lab10/src/graph_representation.py:63-64 | deleting an absent key changes nothing; deleting a present one removes one entry |
| GraphRepresentation.DeleteGet | lab10/src/graph_representation.py:63-64 | deletion changes only the lookup of its own key, which then finds nothing |
| GraphRepresentation.LinkGet | lab10/src/graph_representation.py:55-56 | adding an edge sets the weight in both directions and changes no other entry |
| GraphRepresentation.LinkSymmetric | lab10/src/graph_representation.py:55-56 | adding an edge keeps the lists symmetric: v is u's neighbour exactly when u is v's, with the same weight |
| GraphRepresentation.UnlinkGet | lab10/src/graph_representation.py:63-64 | removing an edge removes both directions and changes no other entry |
| GraphRepresentation.UnlinkSymmetric | lab10/src/graph_representation.py:63-64 | removing an edge keeps the lists symmetric |
| GraphRepresentation.DropSelfLoop | lab10/src/graph_representation.py:63-64 | for a self-loop, the first deletion removes the loop before the second one raises KeyError, and the lists stay symmetric |
| GraphRepresentation.AdjacencyList.constructor | lab10/src/graph_representation.py:47-50 | a new graph has one empty dictionary per vertex and no edges |
| GraphRepresentation.AdjacencyList.GetNeighbors | lab10/src/graph_representation.py:71-75 | the neighbours are distinct vertices, exactly those joined to the vertex; none for a vertex out of range |
| GraphRepresentation.AdjacencyList.GetNeighborsWithWeights | lab10/src/graph_representation.py:77-81 | the pairs list the same neighbours, in the same order, as get_neighbors |
| GraphRepresentation.AdjacencyList.NeighborsSymmetric | lab10/src/graph_representation.py:52-75 | v is a neighbour of u exactly when u is a neighbour of v |
| GraphRepresentation.AdjacencyList.AddEdge | lab10/src/graph_representation.py:52-57 | with both ends in range the edge is set both ways and the edge count grows by one, even for an edge already present; otherwise nothing changes |
| GraphRepresentation.AdjacencyList.RemoveEdge | lab10/src/graph_representation.py:59-65 | an existing edge is removed both ways and the count drops by one; a self-loop raises KeyError after its one entry is deleted; otherwise nothing changes; afterwards u and v are not joined |
| GraphRepresentation.AdjacencyMatrix.constructor | lab10/src/graph_representation.py:10-13 | a new graph has a vertices x vertices matrix of zeros and no edges |
| GraphRepresentation.AdjacencyMatrix.Row | lab10/src/graph_representation.py:36 | the comprehension lists, in increasing order, exactly the columns below k holding a non-zero weight |
| GraphRepresentation.AdjacencyMatrix.GetNeighbors | lab10/src/graph_representation.py:33-37 | the neighbours in increasing order, exactly those with a non-zero weight; none for a vertex out of range |
| GraphRepresentation.AdjacencyMatrix.AddEdge | lab10/src/graph_representation.py:15-20 | with both ends in range both cells take the weight, no other cell changes and the count grows by one (an edge exists afterwards only for a non-zero weight); otherwise nothing changes |
| GraphRepresentation.AdjacencyMatrix.RemoveEdge | lab10/src/graph_representation.py:22-27 | with both ends in range both cells become 0, no other cell changes and the count drops by one, edge or not; otherwise nothing changes |
| GraphTraversal.ListGraph | lab10/src/graph_traversal.py:19 | the graph an adjacency list stands for: u's neighbours are the keys of its dictionary |
| GraphTraversal.MatrixGraph | lab10/src/graph_traversal.py:75-76 | the graph a matrix stands for: v is u's neighbour when the cell is non-zero |
| GraphTraversal.ReachableStep | lab10/src/graph_traversal.py:19-23 | a neighbour of a reachable vertex is reachable |
| GraphTraversal.ClosedHoldsWithin | lab10/src/graph_traversal.py:17-23 | a set holding the start and closed under edges holds every vertex reachable from it |
| GraphTraversal.BfsShortest | lab10/src/graph_traversal.py:8-25 | a returned distance is the fewest edges on any path: v is within k edges exactly when k is at least its distance |
| GraphTraversal.BfsResultUnique | lab10/src/graph_traversal.py:8-25 | the distance list is determined by the graph and the start |
| GraphTraversal.BfsInit | lab10/src/graph_traversal.py:10-15 | marking only the start, at distance 0, with the start queued, establishes the loop invariant |
| GraphTraversal.BfsPop | lab10/src/graph_traversal.py:18 | the vertex taken from the queue is at the current level or beyond, and its neighbours are about to be examined |
| GraphTraversal.BfsVisit | lab10/src/graph_traversal.py:20-23 | marking an unvisited neighbour at one more than the vertex's distance and queueing it keeps the invariant |
| GraphTraversal.BfsSkip | lab10/src/graph_traversal.py:20 | skipping a visited vertex, or a non-neighbour, keeps the invariant |
| GraphTraversal.BfsFinish | lab10/src/graph_traversal.py:19-23 | once all neighbours are examined the vertex counts as expanded |
| GraphTraversal.BfsDone | lab10/src/graph_traversal.py:17-25 | when the queue is empty every reachable vertex has its shortest distance and every other vertex -1 |
| GraphTraversal.Mark | lab10/src/graph_traversal.py:21-22 | marks one vertex visited and sets its distance, changing no other entry |
| GraphTraversal.ExpandList | lab10/src/graph_traversal.py:19-23 | examining the neighbours of one adjacency-list vertex keeps the invariant and queues only newly visited vertices |
| GraphTraversal.BfsAdjacencyList | lab10/src/graph_traversal.py:8-25 | from a start in 0..V-1 the result holds, for each vertex, the fewest edges from the start, or -1 when it is unreachable; a start in -V..-1 has no neighbours, so only slot start + V is 0 and every other entry -1; a start outside -V..V-1 raises IndexError |
| GraphTraversal.BfsListFrom | lab10/src/graph_traversal.py:10-25 | from a start in 0..V-1, each vertex gets the fewest edges from the start, or -1 when it is unreachable |
| GraphTraversal.ExpandMatrix | lab10/src/graph_traversal.py:75-79 | examining every column of one matrix row keeps the invariant and queues only newly visited vertices |
| GraphTraversal.BfsAdjacencyMatrix | lab10/src/graph_traversal.py:64-81 | from a start in 0..V-1 the result holds, for each vertex, the fewest edges from the start, or -1 when it is unreachable; a start in -V..-1 gives exactly the result for start + V; a start outside -V..V-1 raises IndexError |
| GraphTraversal.BfsMatrixFrom | lab10/src/graph_traversal.py:66-81 | from a start in 0..V-1, each vertex gets the fewest edges from the start, or -1 when it is unreachable |
| GraphTraversal.DfsUtil | lab10/src/graph_traversal.py:33-38 | visiting an unvisited reachable vertex appends it and then only newly visited reachable vertices, closes everything newly visited under edges, and only adds visits |
| GraphTraversal.DfsNeighbors | lab10/src/graph_traversal.py:36-38 | after the loop every listed neighbour is visited and the output only grew |
| GraphTraversal.DfsDone | lab10/src/graph_traversal.py:40-41 | a visited set that contains the start, is closed under edges and holds only reachable vertices gives exactly the reachable vertices |
| GraphTraversal.DfsRecursive | lab10/src/graph_traversal.py:28-41 | from a start in 0..V-1 the result starts with the start vertex and lists every reachable vertex exactly once and nothing else; a start in -V..-1 gives just [start]; a start outside -V..V-1 raises IndexError |
| GraphTraversal.DfsRecursiveFrom | lab10/src/graph_traversal.py:30-41 | from a start in 0..V-1 the result starts with the start and lists every reachable vertex exactly once and nothing else |
| GraphTraversal.DfsPopVisited | lab10/src/graph_traversal.py:51-52 | popping an already visited vertex keeps the loop invariant |
| GraphTraversal.DfsPopNew | lab10/src/graph_traversal.py:51-59 | visiting a popped vertex and pushing its unvisited neighbours keeps the loop invariant |
| GraphTraversal.PushReversed | lab10/src/graph_traversal.py:57-59 | the pushes keep the old stack as a prefix, add only neighbours, and leave every neighbour visited or on the stack |
| GraphTraversal.DfsIterative | lab10/src/graph_traversal.py:44-61 | from a start in 0..V-1 the result starts with the start vertex and lists every reachable vertex exactly once and nothing else; a start in -V..-1 gives just [start]; a start outside -V..V-1 raises IndexError |
| GraphTraversal.DfsIterativeFrom | lab10/src/graph_traversal.py:46-61 | from a start in 0..V-1 the result starts with the start and lists every reachable vertex exactly once and nothing else |
| ShortestPath.WeightMap | lab10/src/shortest_path.py:20 | the weighted graph an adjacency list stands for: v is u's neighbour with the weight stored in u's dictionary |
| ShortestPath.AppendWalk | lab10/src/shortest_path.py:20-23 | extending a walk by an edge adds that edge's weight |
| ShortestPath.DijkstraUnreachable | lab10/src/shortest_path.py:8-26 | a distance stays inf exactly when no walk from the start reaches the vertex |
| ShortestPath.RelaxedBound | lab10/src/shortest_path.py:20-24 | when every vertex with a finite distance has been relaxed, each distance is at most the weight of every walk from the start |
| ShortestPath.DijkstraInit | lab10/src/shortest_path.py:10-12 | the start at distance 0, everything else inf and the queue holding (0, start) satisfy the loop invariant |
| ShortestPath.PopMin | lab10/src/shortest_path.py:15 | heappop returns a least (distance, vertex) pair, compared as tuples, and the rest of the queue is what remains |
| ShortestPath.DijkstraStale | lab10/src/shortest_path.py:17-18 | skipping an entry whose distance is above the recorded one keeps the invariant |
| ShortestPath.DijkstraPop | lab10/src/shortest_path.py:15-18 | a non-stale least entry carries the vertex's final distance, and a vertex popped before has already been relaxed |
| ShortestPath.RelaxStep | lab10/src/shortest_path.py:21-24 | lowering a neighbour's distance to a strictly smaller walk weight and queueing it keeps the relaxation invariant |
| ShortestPath.RelaxSkip | lab10/src/shortest_path.py:22 | leaving a neighbour whose distance is already at most the new weight keeps the relaxation invariant |
| ShortestPath.RelaxFinish | lab10/src/shortest_path.py:20-24 | after all neighbours the popped vertex is relaxed and the main invariant holds again |
| ShortestPath.SetDistance | lab10/src/shortest_path.py:23 | one distance changes and no other |
| ShortestPath.Relax | lab10/src/shortest_path.py:20-24 | relaxing the popped vertex's edges restores the invariant; a vertex relaxed before queues nothing new |
| ShortestPath.DijkstraDone | lab10/src/shortest_path.py:14-26 | when the queue is empty every distance is the least walk weight from the start, or inf when there is no walk |
| ShortestPath.Dijkstra | lab10/src/shortest_path.py:8-26 | with non-negative weights and a start in 0..V-1, the start gets 0, each finite distance is the weight of some walk from the start and at most the weight of every walk to that vertex, and unreachable vertices stay inf; a start in -V..-1 has no edges, so only slot start + V is 0 and every other entry inf; a start outside -V..V-1 raises IndexError |
| ShortestPath.DijkstraFrom | lab10/src/shortest_path.py:10-26 | with non-negative weights and a start in 0..V-1, each finite distance is the weight of a walk from the start and at most that of every walk to the vertex; unreachable vertices stay inf |
| Components.ListGraphUndirected | lab10/src/graph_representation.py:52-57 | the graph of a symmetric adjacency list is undirected |
| Components.Flatten | lab10/src/shortest_path.py:48 | every vertex of every component appears in the concatenation of the components |
| Components.WithinBack | lab10/src/shortest_path.py:43-46 | in an undirected graph, a vertex k edges from s has s within k edges of it |
| Components.ReachableTrans | lab10/src/shortest_path.py:40-46 | reachability is transitive |
| Components.ReachableBack | lab10/src/shortest_path.py:40-46 | in an undirected graph reachability is symmetric |
| Components.SameComponent | lab10/src/shortest_path.py:29-50 | in an undirected graph, v is in u's component exactly when v is reachable from u |
| Components.NeighborsListed | lab10/src/shortest_path.py:43 | get_neighbors lists each neighbour of the graph's vertex exactly once |
| Components.OuterInit | lab10/src/shortest_path.py:31-32 | no vertex visited and no component found satisfies the outer loop's invariant |
| Components.OuterSkip | lab10/src/shortest_path.py:35 | passing over an already visited vertex keeps the outer invariant |
| Components.GrowStart | lab10/src/shortest_path.py:36-38 | marking a fresh root and queueing it starts a component search |
| Components.GrowPop | lab10/src/shortest_path.py:41-42 | taking the queue's head into the component keeps the search invariant |
| Components.ScanVisit | lab10/src/shortest_path.py:44-46 | marking and queueing an unvisited neighbour keeps the search invariant |
| Components.ScanSkip | lab10/src/shortest_path.py:44 | skipping a visited neighbour keeps the search invariant |
| Components.GrowDone | lab10/src/shortest_path.py:40-48 | when the queue empties, the collected vertices are exactly the root's component and the outer invariant moves past the root |
| Components.OuterDone | lab10/src/shortest_path.py:34-50 | after the last vertex the components partition the vertices |
| Components.ScanNeighbors | lab10/src/shortest_path.py:43-46 | the neighbour loop keeps the search invariant and queues only newly visited vertices |
| Components.Explore | lab10/src/shortest_path.py:36-48 | the breadth-first search from an unvisited root appends the root's whole component |
| Components.ConnectedComponents | lab10/src/shortest_path.py:29-50 | every vertex is in exactly one returned list, each list is a connected component of the undirected graph, and the lists are ordered by their first vertex |
| TopoSort.ZeroIn | lab10/src/shortest_path.py:60 | the comprehension lists, in increasing order, exactly the vertices whose in-degree is 0 |
| TopoSort.ZeroInAll | lab10/src/shortest_path.py:60 | when every in-degree is 0 the queue starts as 0 .. V - 1 |
| TopoSort.ZeroBelow | lab10/src/shortest_path.py:60 | the vertices below n with in-degree 0, increasing, each listed and nothing else |
| TopoSort.ZeroBelowAll | lab10/src/shortest_path.py:60 | when every in-degree below n is 0 the vertices found are 0 .. n - 1 |
| TopoSort.CountStep | lab10/src/shortest_path.py:57-58 | counting one more edge into a neighbour keeps the in-degree bookkeeping exact |
| TopoSort.CountNext | lab10/src/shortest_path.py:56-58 | after a vertex's neighbours, its out-edges are all counted |
| TopoSort.KahnInit | lab10/src/shortest_path.py:55-61 | with exact in-degrees, the zero in-degree vertices start Kahn's loop |
| TopoSort.KahnPop | lab10/src/shortest_path.py:64-65 | emitting the queue's head keeps the emitted vertices distinct and reduces the pending ones |
| TopoSort.KahnRelease | lab10/src/shortest_path.py:67-70 | decrementing a neighbour's in-degree and queueing it at 0 keeps Kahn's invariant |
| TopoSort.ReleaseDone | lab10/src/shortest_path.py:67-70 | after the neighbour loop Kahn's invariant holds again |
| TopoSort.KahnDone | lab10/src/shortest_path.py:63-72 | when the queue empties, a full-length result is a topological order, and a graph without edges gives 0 .. V - 1 |
| TopoSort.OrderSeparates | lab10/src/shortest_path.py:53-72 | in a topological order every edge goes from an earlier vertex to a later one |
| TopoSort.TopoUndirected | lab10/src/shortest_path.py:53-72 | on a symmetric adjacency list the result is 0 .. V - 1 when there are no edges and [] otherwise |
| TopoSort.CountNeighbors | lab10/src/shortest_path.py:57-58 | the inner loop counts one in-edge for each neighbour |
| TopoSort.Release | lab10/src/shortest_path.py:67-70 | the inner loop releases every neighbour of the emitted vertex |
| TopoSort.TopologicalSort | lab10/src/shortest_path.py:53-72 | the result is [] or a topological order of all vertices; on a symmetric adjacency list it is 0 .. V - 1 without edges and [] with any edge |
| GraphTasks.StepsOf | lab10/src/task_solutions.py:15 | cell i * k + j is i + j grid steps from cell 0 |
| GraphTasks.AdjacentSteps | lab10/src/task_solutions.py:16-19 | the ends of a maze edge are one grid step apart from the origin |
| GraphTasks.Origin | lab10/src/task_solutions.py:22 | only cell 0 is 0 steps from cell 0 |
| GraphTasks.GridWithin | lab10/src/task_solutions.py:13-22 | in the k x k grid, the cells within n edges of cell 0 are exactly those at most n steps away |
| GraphTasks.GridLevels | lab10/src/task_solutions.py:13-22 | breadth-first distances in the grid equal row plus column |
| GraphTasks.EmptyLevels | lab10/src/task_solutions.py:22 | in a graph without edges breadth-first search gives 0 for cell 0 and -1 elsewhere |
| GraphTasks.CellLinks | lab10/src/task_solutions.py:15-19 | the right and down edges of cell i * k + j extend the built maze by exactly that cell's grid edges |
| GraphTasks.EdgesEnds | lab10/src/task_solutions.py:13-19 | the loops add 2k(k - 1) edges to a k x k maze |
| GraphTasks.AddCellEdges | lab10/src/task_solutions.py:15-19 | one cell's right edge and down edge are added exactly when their guards hold, the edge count growing by one per edge added |
| GraphTasks.LinkIf | lab10/src/task_solutions.py:16-19 | one guarded add_edge call links the pair when the guard holds and leaves the lists unchanged otherwise |
| GraphTasks.AddRow | lab10/src/task_solutions.py:14-19 | one row of cells is linked, with the edge count following |
| GraphTasks.BuildMaze | lab10/src/task_solutions.py:10-19 | the maze graph has k * k vertices, joins exactly the horizontally and vertically adjacent cells, and counts 2k(k - 1) edges; for k <= 0 there are no edges |
| GraphTasks.BuiltGrid | lab10/src/task_solutions.py:10-19 | the built adjacency lists are the k x k grid graph |
| GraphTasks.MazeShortestPath | lab10/src/task_solutions.py:7-23 | size 0 raises IndexError; otherwise k * k distances, row plus column for k > 0, and only cell 0 reachable for k < 0 |
| GraphTasks.TaskDependencies | lab10/src/task_solutions.py:38-47 | the result is [], because add_edge links both ways so no task has in-degree 0 |
| PrefixFunction.BorderAtMost | lab11/src/prefix_function.py:13-27 | the longest proper border of s[..i] of length at most k, and no longer one up to k |
| PrefixFunction.LongestBorder | lab11/src/prefix_function.py:13-27 | the reference value of the prefix function: the longest proper border of s[..i] |
| PrefixFunction.LongestUnique | lab11/src/prefix_function.py:13-27 | a border with no longer border is the longest one |
| PrefixFunction.BorderOfBorder | lab11/src/prefix_function.py:19-20 | a shorter border of s[..i] is a border of its longer border |
| PrefixFunction.BorderTrans | lab11/src/prefix_function.py:19-20 | a border of a border of s[..i] is a border of s[..i] |
| PrefixFunction.BorderExtend | lab11/src/prefix_function.py:22-23 | k + 1 is a border of s[..i + 1] exactly when k is a border of s[..i] and s[k] == s[i] |
| PrefixFunction.FallBack | lab11/src/prefix_function.py:19-20 | falling back to pi[j - 1] skips no border that s[i] could extend |
| PrefixFunction.Extended | lab11/src/prefix_function.py:22-25 | after the inner loop, j (plus one if s[i] == s[j]) is the longest border of s[..i + 1] |
| PrefixFunction.NextBorder | lab11/src/prefix_function.py:17-25 | falling back from pi[i - 1] and extending by s[i] yields the longest proper border of s[..i + 1] |
| PrefixFunction.ComputePrefixFunction | lab11/src/prefix_function.py:13-27 | pi has the length of s and pi[i] is the longest proper border of s[..i + 1] |
| PrefixFunction.PrefixStep | lab11/src/prefix_function.py:16-25 | the prefix function grows by at most one per position |
| ZFunction.LcpUnique | lab11/src/z_function.py:23-24 | the longest common prefix of s and s[i..] is unique |
| ZFunction.Window | lab11/src/z_function.py:20-21 | inside the window [l, r], min(r - i + 1, z[i - l]) characters at i are known to agree with the start of s |
| ZFunction.Extend | lab11/src/z_function.py:23-24 | the extending loop ends at the longest common prefix of s and s[i..] |
| ZFunction.ComputeZFunction | lab11/src/z_function.py:13-29 | z has the length of s, z[0] == 0, and z[i] is the longest common prefix of s and s[i..] for i >= 1 |
| ZFunction.Combined | lab11/src/z_function.py:47 | the characters of pattern + '$' + text sit at the expected offsets |
| ZFunction.HitReported | lab11/src/z_function.py:53-55 | z == len(pattern) at len(pattern) + 1 + p means the pattern occurs at p and the text does not continue with '$' |
| ZFunction.ReportedHit | lab11/src/z_function.py:53-55 | such an occurrence gives z == len(pattern) at len(pattern) + 1 + p |
| ZFunction.Hit | lab11/src/z_function.py:53-55 | z == len(pattern) at len(pattern) + 1 + p exactly when p is reported |
| ZFunction.ReportedAll | lab11/src/z_function.py:47 | when the text holds no '$', the reported positions are exactly the occurrences |
| ZFunction.ZSearch | lab11/src/z_function.py:43-57 | ascending positions, none for an empty pattern, exactly the occurrences not followed by '$'; every occurrence when the text has no '$' |
| Occurrences.MatchesBelowSpec | lab11/src/kmp_search.py:25-34 | the list of occurrences below k is ascending and holds exactly the positions below k where the pattern occurs |
| Occurrences.Matches | lab11/src/kmp_search.py:4-36 | the reference answer of the searches: every occurrence of a non-empty pattern, ascending |
| Occurrences.IncreasingUnique | lab11/src/z_function.py:50-57 | two ascending lists with the same elements are equal |
| KmpSearch.SuffixBorder | lab11/src/kmp_search.py:26-27 | two pattern prefixes ending at one place: the shorter is a border of the longer |
| KmpSearch.SuffixTrans | lab11/src/kmp_search.py:26-27 | a border of a matched prefix is matched too |
| KmpSearch.SuffixExtend | lab11/src/kmp_search.py:29-30 | pattern[..k + 1] ends text[..i + 1] exactly when pattern[..k] ends text[..i] and pattern[k] == text[i] |
| KmpSearch.SuffixMatch | lab11/src/kmp_search.py:32-33 | the whole pattern ends text[..i] exactly when it occurs at i - len(pattern) |
| KmpSearch.FallBack | lab11/src/kmp_search.py:26-27 | falling back to pi[j - 1] skips no prefix that text[i] could extend |
| KmpSearch.Extended | lab11/src/kmp_search.py:26-30 | after the inner loop and the extension, j is the longest pattern prefix ending text[..i + 1] |
| KmpSearch.Reset | lab11/src/kmp_search.py:34 | after a full match, pi[m - 1] is the longest shorter prefix ending there |
| KmpSearch.NextMatches | lab11/src/kmp_search.py:32-33 | reading text[i] adds exactly the occurrence ending there, if any |
| KmpSearch.Advance | lab11/src/kmp_search.py:26-30 | j becomes the longest pattern prefix ending text[..i + 1] |
| KmpSearch.Step | lab11/src/kmp_search.py:25-34 | one pass of the loop keeps j longest below m and the result equal to the occurrences found so far |
| KmpSearch.Search | lab11/src/kmp_search.py:17-36 | the result is every occurrence, ascending and overlapping, none for an empty pattern |
| RabinKarp.PyModTwice | lab11/src/rabin_karp.py:27 | reducing a residue again mod prime changes nothing |
| RabinKarp.HashPower | lab11/src/rabin_karp.py:23-27 | h is base^(m - 1) mod prime (1 when m <= 1) |
| RabinKarp.InitialHashes | lab11/src/rabin_karp.py:21-32 | the hashes of the pattern and of the first window are their base-`base` values mod prime |
| RabinKarp.HornerFront | lab11/src/rabin_karp.py:44 | a window's value is its first character times base^(m - 1) plus the value of the rest |
| RabinKarp.Roll | lab11/src/rabin_karp.py:44 | dropping the first character and appending the next gives the next window's value |
| RabinKarp.RollMod | lab11/src/rabin_karp.py:44 | the rolling update computed on residues agrees with the one on full values, mod prime |
| RabinKarp.SliceMatch | lab11/src/rabin_karp.py:39 | the slice comparison holds exactly at an occurrence |
| RabinKarp.FoundStep | lab11/src/rabin_karp.py:37-40 | appending i exactly when the pattern occurs at i extends the positions found to i + 1 |
| RabinKarp.HashAgrees | lab11/src/rabin_karp.py:37 | at an occurrence the two hashes are equal, so no occurrence is skipped |
| RabinKarp.Check | lab11/src/rabin_karp.py:37-40 | the hash test with the slice check records position i exactly when the pattern occurs there, for a non-empty pattern; for an empty one the recorded positions stay ascending, below i + 1, and start at 0 |
| RabinKarp.Slide | lab11/src/rabin_karp.py:43-48 | the slid hash, made non-negative, is the next window's value mod prime |
| RabinKarp.ScanStep | lab11/src/rabin_karp.py:35-48 | one pass of the loop keeps the window hash and the positions found in step |
| RabinKarp.Scan | lab11/src/rabin_karp.py:35-50 | for a non-empty pattern the loop records exactly the positions where the pattern occurs; for an empty pattern it records an ascending list of positions that starts at 0 |
| RabinKarp.FoundAll | lab11/src/rabin_karp.py:35-50 | the recorded positions are ascending occurrences, all of them for a non-empty pattern, and start with 0 for an empty one |
| RabinKarp.RabinKarpSearch | lab11/src/rabin_karp.py:16-50 | [] when the text is shorter; every occurrence, ascending, for a non-empty pattern; an empty pattern reports position 0 |
| RabinKarp.RabinKarpGuarded | lab11/src/rabin_karp.py:16-50 | with an empty-pattern guard, the result is exactly every occurrence |
| StringTasks.BorderPeriod | lab11/src/string_tasks.py:20 | k is a proper border exactly when len(s) - k is a period |
| StringTasks.SmallestPeriod | lab11/src/string_tasks.py:20 | len(s) - pi[len(s) - 1] is the smallest period of s |
| StringTasks.PeriodDifference | lab11/src/string_tasks.py:22-25 | two periods p < q with p + q <= len(s) give the period q - p |
| StringTasks.MinimalDivides | lab11/src/string_tasks.py:22-25 | the smallest period divides every period q with p + q <= len(s) |
| StringTasks.DivisorPeriod | lab11/src/string_tasks.py:22-25 | if any period below len(s) divides len(s), so does the smallest period |
| StringTasks.FindStringPeriod | lab11/src/string_tasks.py:16-25 | IndexError for an empty string; otherwise a period dividing len(s), and no smaller divisor of len(s) is a period |
| StringTasks.ShiftMatch | lab11/src/string_tasks.py:43-44 | s2 occurs at k in s1 + s1 exactly when s2 is s1 rotated left by k |
| StringTasks.AreCyclicShifts | lab11/src/string_tasks.py:39-44 | true exactly when the lengths agree, s1 is non-empty and s2 is a rotation of s1 |
| Common.PyMod | lab11/src/rabin_karp.py:27 | Python's floored remainder: a == b * floor(a / b) + r with r between 0 and b |
| Common.PyModUnique | lab11/src/rabin_karp.py:27 | a remainder in range is the floored remainder |
| StringTasks.SearchesAgree | lab11/src/string_tasks.py:62-66 | KMP, the Z-function search and Rabin-Karp return the same list for a non-empty pattern in a text without '$'; for an empty pattern only Rabin-Karp reports anything |

## Left out

- The benchmark, timing, plotting and demo scripts and functions are not modelled: each lab's `main.py`, `performance_analysis.py`, `performance_test.py`, `plot_results.py`, `generate_data.py` and `comparison.py`; in lab06/src/analysis.py, lab08/src/analysis.py and lab08/src/huffman_visualization.py every function but the algorithms named above; `compare_representations`, `get_memory_usage`, `compare_traversal_performance`, `analyze_dijkstra_performance` and `solve_practical_tasks` in lab10. They measure wall-clock time, memory or plot results, and compute nothing the model could state.
- `network_connectivity` (lab10/src/task_solutions.py:25-36) draws random edges; randomness is outside the model.
- `simulate_print_queue`, `LinkedList.traversal` and `print_tree` only print.
- `fractional_knapsack` (both copies) and `power_recursive` compute with floating point, which the model does not cover.
- `find_all_occurrences` (lab11/src/string_tasks.py:47-66) imports a module `z_search` that does not exist, so it fails before it runs; `StringTasks.SearchesAgree` states the agreement of the three searchers it would have compared.
- The concrete values listed in the demo blocks and test files are not restated; the general contracts fix every one of them.
- `__len__` of the heaps and of the priority queue is the function `Len`, which has no contract of its own; the contracts of the methods state how it changes.
- Node identity and in-place reference updates of the lab03 and lab06 trees are modelled on tree values: the BST insert rebuilds the path it walks, so aliasing between trees is not captured. The iterative post-order keeps its visited set as paths from the root, so equal subtrees do not collide.
- `heapq` order between entries of equal key (Huffman, Dijkstra) and CPython's sort stability are not modelled: the heap returns some minimal entry and `list.sort` is a stable insertion sort by key.
- Lower-casing in the lab03 palindrome checks is modelled over ASCII letters only; Unicode case mapping is outside the model.
- A Python crash that the code does not catch is modelled as a precondition on the member where no error value is natural: `find_min_iterative` and `find_max_iterative` on an empty tree. For `kruskal_mst`, an endpoint of V or more, or below -V, raises IndexError; an endpoint u in -V..-1 raises nothing but aliases vertex V + u through negative indexing; both are excluded by `InRange`, which asks for endpoints in 0..V-1. A negative vertex count, for which `list(range(vertices))` is empty and only an empty edge list runs without error, is excluded by the type `nat`. A start vertex outside -V..V-1 for the traversals and for Dijkstra, and a negative capacity, a negative weight or a missing value that the knapsack tables index, are `IndexError` results instead.
- PriorityQueues.PriorityQueue.Enqueue: priorities are integers; the float priorities the code also accepts are not modelled (items are of any type with a strict weak order).
- HashTableOpenAddressing.HashTableOpenAddressing.Insert: with a negative size the code resizes and re-inserts without end until Python stops it with RecursionError; the model reports OutOfFuel at once and leaves the table as it is.
- HashTableOpenAddressing.HashTableOpenAddressing.Insert: the retry after a resize carries a fuel bound, because with double hashing and a second hash of 0 the code can loop forever; running out of fuel is reported as its own outcome. The code never increments `count`, and the model keeps that.
- HashTableOpenAddressing.HashTableOpenAddressing.Delete: emptying a slot leaves no tombstone, so the model makes no promise that keys further along the same probe chain stay findable after a delete.
- ShortestPath.Dijkstra: requires non-negative weights, under which the distances are proved minimal; with a negative weight the code can loop forever, since an undirected negative edge lowers the distances of its two ends in turn. `float('inf')` is the extended value `Inf`.
- GraphTraversal.DfsRecursive: the result is proved to hold every reachable vertex exactly once with the start first; the exact visiting order is not stated.
- GraphTraversal.DfsIterative: the result is proved to hold every reachable vertex exactly once with the start first; the exact visiting order, and the claim that it matches the recursive version's, are not stated.
- Kruskal.KruskalMst: the result is proved to be a spanning forest of the input graph, with at most V - 1 edges taken in weight order; minimality of its total weight is not proved.
- Knapsack.Knapsack01Optimal: knapsack_01's own table is proved optimal only for positive weights; with a zero weight it can fall short (see Findings), and it is the table with column 0 filled that is proved optimal for non-negative weights. A negative weight with a positive capacity makes the table code raise IndexError, which `Knapsack01` returns; the optimality lemmas are about the tables of inputs that raise nothing.
- Knapsack.BestUpper: for knapsack_01's own table the bound is proved for positive weights only, for the reason given under Findings.
- Knapsack.ExactWithinBest: the brute force is bounded by knapsack_01's own table for positive weights only; a zero weight can make the brute force larger.
- Knapsack.ExactIsBest: the brute force equals knapsack_01's own table for positive weights only; with a zero weight the two can differ, and the brute force equals the table with column 0 filled.
- MinCoins.CoinChangeDp: requires positive coins and a non-negative amount; a negative amount makes the code raise IndexError, and a zero coin adds nothing to the recurrence.
- Greedy.CoinChange: requires positive coins. The code loops forever once it reaches a coin c <= 0 while the remainder is still at least c, which happens for every amount >= 0; the inputs with a coin c <= 0 that do terminate, those whose amount is below every coin and which return [], are excluded as well.
- RabinKarp.RabinKarpSearch: requires a positive prime; the code reduces modulo it, and a prime of 0 raises ZeroDivisionError.
- `maze_shortest_path` is modelled for an explicit size; the default argument 5 is one instance of it.
- `AdjacencyList.has_edge` and `AdjacencyMatrix.has_edge` are predicates on the graph's state rather than methods.

## Findings

| source | as written | input that shows it | evidently intended | confidence | as-written member | corrected member |
|---|---|---|---|---|---|---|
| lab11/src/rabin_karp.py:16-40 | there is no guard for an empty pattern: the window at position 0 always matches, and a later window is reported only when its rolled hash happens to be 0 | text "abc" and pattern "" give a list that starts with 0 (with base 256 and prime 101 the later window hashes are 10, 93 and 78, so [0]), while lab11/tests/test_rabin_karp.py:12 expects [] | [] for an empty pattern, as `kmp_search` and `z_search` return | not executed | RabinKarp.RabinKarpSearch | RabinKarp.RabinKarpGuarded |
| lab09/src/dynamic_programming.py:43 | the inner loop starts at capacity 1, so column 0 stays 0 and a zero-weight item is lost once the other items use up the capacity | weights [0, 2], values [5, 3], capacity 2 give 5, while both items fit and are worth 8; `exact_knapsack_01` (lab08/src/analysis.py:7-29) finds 8 | the best value over all choices that fit, also for zero weights | not executed | Knapsack.ZeroWeightMissed | Knapsack.Knapsack01Optimal |
