# Algopedia, modelled and proved in Dafny

This project models the algorithmic core of Algopedia, a collection of textbook algorithms and
data structures written mostly in Python with a few Java chapters. One Dafny module stands for
each source file, or for a group of files that belong together:

- **Recursion and arithmetic**: multiplication by repeated addition, factorial, Fibonacci (plain
  and memoised), digit sums, the explicit-stack sum, list flattening, palindromes, the power set,
  the 0/1 backpack (top-down and tabulated), longest common subsequence, and the integer helpers
  of the probability utilities.
- **Combinatorics**: input validation, the choice of min(k, n - k), binomial coefficients by
  five methods, and k-permutations by four generators together with next-permutation. The Java
  `SelectKOfNWithDupes` selection of k out of n with repetition is also here.
- **Searching and sorting**: linear and binary search, the naive pattern searches in three
  versions (plain, case-aware, and find/replace), bubble sort, merge sort, heapsort, quicksort
  (recursive and with an explicit stack), its pivot strategies and its seven partition schemes.
- **Linked and array containers**: the singly and doubly linked nodes and lists, the linked
  stack and queue, the list-based max heap and the stand-alone max heap, and the minimum and
  maximum of a linked list.
- **Hash maps**: the UTF-8 byte-sum hash with linear probing, the open-addressing `HashMap`, the
  array-based and separate-chaining storage strategies, and the first self-contained
  `SimpleHashMap`.
- **Trees and graphs**: the n-ary `TreeNode` with its five traversals, the dictionary trees of
  `BST.py`, the binary search tree, breadth- and depth-first search in trees, the
  adjacency-list `Vertex`/`Graph` with path finding, graph BFS and DFS, Dijkstra's shortest
  paths, and the nearest-neighbour travelling-salesperson heuristic.

Code that computes values is modelled as functions on datatypes and sequences. Code that
mutates lists, arrays or objects is modelled as methods on arrays or classes. Each method
is proved equal to a specification function, or is proved to keep the structure's invariant.
What the code promises is proved about those specification functions: sortedness and
permutation, round trips, optimality, lookups after stores, and shortest paths.

Python exceptions are modelled as the `Err` branch of a `Result`, named after the exception
class. `None` is modelled as the `None` branch of an `Option`. Integers are unbounded, as in
Python. Randomness, such as the RANDOM pivot, is an extra parameter that stands for the value
drawn.

## Model

| member | source | states |
|---|---|---|
| Factorial.ValidateFactorialInput | python/algorithms/factorial.py:63-74 | no error exactly when n >= 0 |
| Factorial.Factorial | python/algorithms/factorial.py:1-31 | ValueError exactly for negative n; otherwise a result of at least 1 and at least n |
| Factorial.FactorialIterative | python/algorithms/factorial.py:34-60 | the running-product loop gives the same result, error included, as the recursive `factorial` |
| Factorial.FactorialOfFive | python/algorithms/factorial.py:1-31 | factorial(5) is 120 |
| Fibonacci.FibMemo | python/algorithms/fibonacci.py:64-115 | the memoised version returns fibonacci_basic(n) and leaves n cached; it keeps every earlier cache entry, adds only entries from 0 to n, adds nothing on a cache hit, and keeps a cache closed (both predecessors of every key from 2 up cached) |
| Fibonacci.ClosedCovers | python/algorithms/fibonacci.py:104-113 | a closed cache holding some n >= 2 holds every key from 0 to n |
| Fibonacci.CacheExample | python/algorithms/fibonacci.py:89-93 | fib(5, {}) returns 5 and leaves exactly the six keys 0 to 5, with cache[0] = 0, cache[1] = 1, cache[5] = 5 |
| Fibonacci.WarmCall | python/tests/algorithms/test_fibonacci.py:72-83 | after fib(10, cache), fib(8, cache) returns 21 and leaves the cache as it was |
| Fibonacci.FibTwenty | python/algorithms/fibonacci.py:4-37 | fibonacci_basic(20) is 6765 |
| Multiplication.NormalizeInputs | python/algorithms/multiplication.py:123-151 | the multiplier's absolute value and a sign flag whose signed product equals the original product |
| Multiplication.Multiply | python/algorithms/multiplication.py:3-47 | repeated addition yields multiplicand * multiplier, for either sign |
| Multiplication.RecursiveMultiply | python/algorithms/multiplication.py:90-118 | m added n times is m * n |
| Multiplication.MultiplyRecursive | python/algorithms/multiplication.py:50-120 | the recursive version also yields multiplicand * multiplier |
| SumDigits.ValidateNonNegative | python/algorithms/sum_digits.py:83-86 | no error exactly when n >= 0 |
| SumDigits.DigitSum | python/algorithms/sum_digits.py:42-80 | the digit sum never exceeds n and is positive for positive n |
| SumDigits.SumDigitsRecursive | python/algorithms/sum_digits.py:42-80 | ValueError exactly for negative n |
| SumDigits.SumDigitsIterative | python/algorithms/sum_digits.py:3-39 | the `% 10` / `// 10` loop agrees with the recursive version on every input |
| SumDigits.DigitSumModNine | python/algorithms/sum_digits.py:42-80 | the digit sum is congruent to n modulo 9 |
| SumToOne.RecursiveSumToOne | python/algorithms/iteration_recursion_comparison.py:62-98 | ValueError exactly for n <= 0; otherwise n(n+1)/2 |
| SumToOne.IterativeSumToOne | python/algorithms/iteration_recursion_comparison.py:10-59 | the explicit-stack version empties its stack and agrees with the recursive version, error included |
| FlattenList.LeavesAppend | python/algorithms/flatten_list.py:5-44 | the leaves of a concatenation are the concatenated leaves |
| FlattenList.Flatten | python/algorithms/flatten_list.py:5-44 | the result holds no nested list and lists every leaf in its original left-to-right order |
| FlattenList.FlatInputUnchanged | python/algorithms/flatten_list.py:5-44 | a list without nested lists comes back unchanged |
| FlattenList.FlattenIdempotent | python/algorithms/flatten_list.py:5-44 | flattening a flattened list changes nothing |
| FlattenList.EmptyNestedContributesNothing | python/algorithms/flatten_list.py:5-44 | an empty nested list adds no element |
| CombinatoricsValidation.ValidateInputs | python/algorithms/Combinatorics/utils/validation.py:6-39 | no error exactly when 0 <= k <= n; otherwise the message of the first failing check, in the order n, k, k > n |
| CombinatoricsOptimization.OptimizeK | python/algorithms/Combinatorics/utils/optimization.py:5-76 | the result is k or n - k and is the smaller of the two |
| CombinatoricsOptimization.OptimizeKPreservesBinomial | python/algorithms/Combinatorics/utils/optimization.py:5-76 | for 0 <= k <= n the optimised k lies in [0, n/2] and C(n, k) is unchanged |
| ProbabilityUtilities.IntText | python/data_science/probability/utilities.py:77-81 | the f-string rendering of an integer: at least one character, a leading minus sign exactly for negatives |
| ProbabilityUtilities.NatDigitsRoundTrip | python/data_science/probability/utilities.py:77-81 | reading the rendered digits back gives the number |
| ProbabilityUtilities.IntTextInjective | python/data_science/probability/utilities.py:77-81 | different integers render differently |
| ProbabilityUtilities.BinomialCoefficient | python/data_science/probability/utilities.py:44-99 | the three ValueErrors exactly on their inputs, each with its message naming the offending arguments ("n must be non-negative, got -1"); otherwise C(n, k) by the multiplicative loop |
| ProbabilityUtilities.KnownCoefficients | python/tests/data_science/Probability/test_utilities.py:62-87 | C(5, 2) = 10, C(10, 5) = 252 and C(10, 3) = C(10, 7) |
| ProbabilityUtilities.ValidatePositiveInteger | python/data_science/probability/utilities.py:198-200 | no error exactly when the value is positive, otherwise ValueError "Value must be a positive integer, got {value}" |
| ProbabilityUtilities.RejectionsDiffer | python/data_science/probability/utilities.py:198-200 | two different rejected values get different errors |
| BinomialMath.BinomAboveIsZero | python/algorithms/Combinatorics/combinations.py:55-94 | C(n, k) is 0 for k > n |
| BinomialMath.BinomDiagonal | python/algorithms/Combinatorics/combinations.py:75-80 | C(n, n) = 1, the base case the dispatcher returns |
| BinomialMath.PascalIdentity | python/algorithms/Combinatorics/combinations.py:219-229 | Pascal's identity C(n, k) = C(n-1, k-1) + C(n-1, k) for 1 <= k <= n |
| BinomialMath.BinomSymmetric | python/algorithms/Combinatorics/utils/optimization.py:5-76 | symmetry C(n, k) = C(n, n - k), on which `optimize_k` relies |
| BinomialMath.BinomFactorial | python/algorithms/Combinatorics/combinations.py:55-58 | the closed form C(n, k) * k! * (n - k)! = n! that the docstring gives |
| BinomialMath.MultiplicativeStep | python/algorithms/Combinatorics/combinations.py:97-120 | (i + 1) * C(n, i + 1) = (n - i) * C(n, i), the step of the multiplicative loop |
| BinomialMath.ExactDivisionStep | python/algorithms/Combinatorics/combinations.py:97-120 | the floor division in the multiplicative loop is exact and yields C(n, i + 1) |
| Combinations.BinomialIterative | python/algorithms/Combinatorics/combinations.py:97-120 | the multiplicative loop returns C(n, k) |
| Combinations.BinomialMemoized | python/algorithms/Combinatorics/combinations.py:123-154 | returns C(n, k), keeps the memo correct, only adds to it, and leaves it alone on a hit |
| Combinations.FillRow | python/algorithms/Combinatorics/combinations.py:222-229 | one row of the table becomes row i of Pascal's triangle; other rows are untouched |
| Combinations.BinomialTabulation | python/algorithms/Combinatorics/combinations.py:156-232 | the bottom-right entry of the filled table is C(n, k) |
| Combinations.BinomialRecursive | python/algorithms/Combinatorics/combinations.py:235-333 | plain and lru-cached Pascal recursion return C(n, k) |
| Combinations.BinomialCoefficient | python/algorithms/Combinatorics/combinations.py:55-94 | the validation error, with its message, when validation fails; otherwise 1 at k = 0 and k = n whatever the method, "Unsupported method: " followed by the method's text for any other value not in the dispatch table, and C(n, k) for every listed method |
| Combinations.BinomialProperties | python/algorithms/Combinatorics/combinations.py:55-58 | the common result satisfies the factorial formula, symmetry and Pascal's identity |
| Permutations.FallingFactorial | python/algorithms/Combinatorics/permutations.py:76-116 | P(n, k) * (n - k)! = n!, the closed form permutation_count documents |
| Permutations.PermutationCount | python/algorithms/Combinatorics/permutations.py:76-116 | validation errors exactly when validate_inputs rejects (n, k), with its error; otherwise the product n(n-1)...(n-k+1), equal to n!/(n-k)! |
| Permutations.RemoveMultiset | python/algorithms/Combinatorics/permutations.py:211-214 | dropping position i removes exactly one copy of items[i] from the remaining pool |
| Permutations.PrependAll | python/algorithms/Combinatorics/permutations.py:217-218 | each recursive sub-result gets the chosen item in front, one output per sub-result |
| Permutations.GenerateRecursive | python/algorithms/Combinatorics/permutations.py:189-219 | no contract of its own; GenerateRecursiveShape states that it yields exactly P(n, k) lists of k distinct positions, GenerateRecursiveComplete that every k-arrangement appears |
| Permutations.GenerateRecursiveShape | python/algorithms/Combinatorics/permutations.py:189-219 | the recursive generator yields exactly P(n, k) lists, each k distinct positions of the items |
| Permutations.GenerateRecursiveComplete | python/algorithms/Combinatorics/permutations.py:189-219 | every k-arrangement drawn from the items appears in the recursive output |
| Permutations.BacktrackingIsRecursive | python/algorithms/Combinatorics/permutations.py:222-260 | backtracking over used-flags lists exactly the recursive generator's output, in the same order |
| Permutations.Backtrack | python/algorithms/Combinatorics/permutations.py:236-256 | the inner backtrack restores every used flag it set and appends exactly the lists the reference backtracking function gives |
| Permutations.GenerateBacktracking | python/algorithms/Combinatorics/permutations.py:222-260 | _generate_backtracking returns the recursive generator's list |
| Permutations.PermutationIterator | python/algorithms/Combinatorics/permutations.py:119-144 | errors exactly when validation fails; otherwise yields the same k-permutations, in the same order, as the recursive generator |
| Permutations.ScanAscent | python/algorithms/Combinatorics/permutations.py:364-366 | step 1 of next_permutation stops at the rightmost ascent, or -1 when the list never ascends |
| Permutations.ScanAbove | python/algorithms/Combinatorics/permutations.py:372-374 | step 2 stops at the rightmost value above the pivot |
| Permutations.NextArrangementNone | python/algorithms/Combinatorics/permutations.py:368-370 | there is no successor exactly when the list is non-increasing (the last arrangement) |
| Permutations.SuccessorMultiset | python/algorithms/Combinatorics/permutations.py:376-383 | swap then suffix reversal rearranges the same elements |
| Permutations.SuccessorTailSorted | python/algorithms/Combinatorics/permutations.py:379-381 | after the pivot the successor is ascending |
| Permutations.NextArrangementIsSuccessor | python/algorithms/Combinatorics/permutations.py:347-383 | the result is the lexicographic successor: same elements, larger, and no larger than any other larger arrangement |
| Permutations.NextPermutation | python/algorithms/Combinatorics/permutations.py:347-383 | IndexError on an empty list; otherwise returns True and rewrites the array into its successor exactly when one exists, else leaves it and returns False |
| Permutations.FindPivot | python/algorithms/Combinatorics/permutations.py:364-366 | the while loop computes the step-1 pivot |
| Permutations.FindPartner | python/algorithms/Combinatorics/permutations.py:372-374 | the while loop computes the step-2 partner |
| Permutations.ReverseSuffix | python/algorithms/Combinatorics/permutations.py:379-380 | in-place reversal of arr[start:], prefix unchanged |
| Permutations.AboveShrinks | python/algorithms/Combinatorics/permutations.py:263-283 | each successor strictly reduces the arrangements still ahead, so the lexicographic loop ends |
| Permutations.CoversAll | python/algorithms/Combinatorics/permutations.py:263-283 | once the last listed arrangement is non-increasing, every arrangement of the items has been listed |
| Permutations.ListingStep | python/algorithms/Combinatorics/permutations.py:276-281 | appending the successor keeps the listing sorted, complete up to its end, and made of arrangements |
| Permutations.GenerateLexicographic | python/algorithms/Combinatorics/permutations.py:263-283 | IndexError on an empty list; otherwise starts at the sorted list, lists only arrangements, in strictly increasing order, and lists every arrangement |
| Permutations.SwapFacts | python/algorithms/Combinatorics/permutations.py:305-308 | the swap in Heap's algorithm keeps the elements and all other positions |
| Permutations.HeapRunCount | python/algorithms/Combinatorics/permutations.py:286-313 | Heap's algorithm records k! lists for generate(k, arr) |
| Permutations.HeapRunOutcome | python/algorithms/Combinatorics/permutations.py:297-309 | every list Heap's algorithm records, and the array it leaves, is an arrangement of the input |
| Permutations.HeapGenerate | python/algorithms/Combinatorics/permutations.py:297-309 | the in-place generate(k, arr) appends exactly the reference run's lists and leaves the reference run's arrangement |
| Permutations.HeapIteration | python/algorithms/Combinatorics/permutations.py:304-309 | one swap-then-recurse iteration advances the reference loop by one step |
| Permutations.GenerateHeaps | python/algorithms/Combinatorics/permutations.py:286-313 | n! lists, each an arrangement of the items |
| Permutations.GeneratePermutations | python/algorithms/Combinatorics/permutations.py:150-186 | the validation error when validation fails; otherwise [[]] for k = 0 whatever the method, "Unsupported method: " followed by the method's text for a value not in the dispatch table when k > 0; every method yields only k-arrangements; all but HEAPS yield all of them; all but LEXICOGRAPHIC yield P(n, k) lists; RECURSIVE and BACKTRACKING (and the k < n fallbacks) equal the recursive generator |
| Permutations.DrawnFromAll | python/algorithms/Combinatorics/permutations.py:263-313 | drawing n of n items is arranging all of them, which links the full-length generators to the k-generators |
| PowerSet.HalfShift | python/algorithms/power_set.py:38-42 | testing bit p+1 of a mask is testing bit p of half the mask, which ties the shift-and-mask test to the recursion on the first element |
| PowerSet.IterativePowerSet | python/algorithms/power_set.py:4-44 | 2^n subsets, the one at position m keeping exactly the elements whose bit is set in m, in list order |
| PowerSet.RecursivePowerSet | python/algorithms/power_set.py:47-81 | the recursive version also yields 2^n subsets |
| PowerSet.RecursiveIsPick | python/algorithms/power_set.py:70-81 | position j of the recursive result is the subset of one definite mask MaskOf(n, j) |
| PowerSet.MaskOfPositionOf | python/algorithms/power_set.py:70-81 | every mask is reached by some position of the recursive result |
| PowerSet.MaskInRecursive | python/algorithms/power_set.py:47-81 | every subset the bitmask version lists is in the recursive result |
| PowerSet.PowerSetsAgree | python/algorithms/power_set.py:4-81 | both versions list the same subsets: every mask's subset is in the recursive result and every recursive entry is a mask's subset |
| PowerSet.PickExtremes | python/algorithms/power_set.py:19 | mask 0 gives the empty subset and mask 2^n - 1 the whole list |
| PowerSet.RecursiveSubsetsAreSubsequences | python/algorithms/power_set.py:47-81 | every recursive subset has at most n elements, all drawn from the input |
| PowerSet.PickMultiset | python/algorithms/power_set.py:34-43 | a mask's subset takes each element at most as often as the input holds it |
| Backpack.RecursiveBackpack | python/algorithms/backpack.py:23-72 | the recursion as written never returns a negative value |
| Backpack.KnapsackIsBest | python/algorithms/backpack.py:9-13 | the corrected recursion reaches the best total value over selections whose weight fits, and no fitting selection exceeds it |
| Backpack.KnapsackUpper | python/algorithms/backpack.py:58-72 | no fitting selection from items i on is worth more than the recursion's value |
| Backpack.KnapsackChoice | python/algorithms/backpack.py:58-72 | the recursion's value is reached by an actual fitting selection |
| Backpack.RecursiveBackpackPositiveWeights | python/algorithms/backpack.py:54-56 | when no remaining item weighs 0 the capacity-0 shortcut changes nothing |
| Backpack.RecursiveBackpackMissesFreeItem | python/algorithms/backpack.py:54-56 | capacity 5, weights [5, 0], values [1, 1]: the recursion returns 1 while the feasible selection of both items is worth 2 |
| Backpack.KnapsackAllFit | python/algorithms/backpack.py:9-13 | when all remaining items fit together the answer is the sum of their values |
| Backpack.KnapsackZeroWhenNothingFits | python/algorithms/backpack.py:54-56 | at capacity 0 with only positive weights left nothing can be taken |
| Backpack.TableUpper | python/algorithms/backpack.py:113-137 | no fitting selection from the first i items beats matrix[i][w] |
| Backpack.TableChoice | python/algorithms/backpack.py:113-137 | matrix[i][w] is reached by an actual fitting selection of the first i items |
| Backpack.TableIsBest | python/algorithms/backpack.py:75-140 | the table's last cell is the best total value over fitting selections |
| Backpack.TableIsKnapsack | python/algorithms/backpack.py:75-140 | the table and the corrected recursion agree |
| Backpack.DynamicBackpack | python/algorithms/backpack.py:75-140 | IndexError exactly for a negative capacity or a negative weight (whose read of the previous row runs past the last column); otherwise the table's last cell, which is the optimum |
| Backpack.Knapsack | python/algorithms/backpack.py:58-72 | the corrected recursion, without the capacity-0 shortcut, never returns a negative value |
| Backpack.KnapsackOptions | python/algorithms/backpack.py:58-72 | the recursion's value is at least that of skipping item i, and of taking it when it fits |
| Backpack.Table | python/algorithms/backpack.py:113-137 | every cell of the table is non-negative |
| Backpack.TableOptions | python/algorithms/backpack.py:125-137 | a cell is at least the cell above it, and at least the value of taking item i - 1 when it fits |
| Lcs.NoCommonSubsequenceLonger | python/algorithms/longest_common_subsequence.py:5-12 | no common subsequence of the two prefixes is longer than the grid value |
| Lcs.BacktrackIsCommon | python/algorithms/longest_common_subsequence.py:136-141 | the backtrack walk yields a common subsequence of the two prefixes, exactly as long as the grid value |
| Lcs.TabulateGrid | python/algorithms/longest_common_subsequence.py:189-279 | a (len(string2)+1) x (len(string1)+1) grid whose every cell holds the LCS length of the matching prefixes |
| Lcs.FillRow | python/algorithms/longest_common_subsequence.py:260-277 | filling one row keeps every filled cell equal to the prefix LCS length |
| Lcs.CellValue | python/algorithms/longest_common_subsequence.py:269-277 | the match/max recurrence yields the prefix LCS length from the three neighbour cells |
| Lcs.LcsReturnLength | python/algorithms/longest_common_subsequence.py:48-78 | the bottom-right cell: the LCS length of the whole strings |
| Lcs.LcsReturnSubsequence | python/algorithms/longest_common_subsequence.py:81-186 | a common subsequence of both strings, as long as lcs_return_length, hence a longest one |
| Lcs.Examples | python/tests/algorithms/test_longest_common_subsequence.py:25-78 | "ABCBDAB"/"BDCABA" gives "BCBA"; the empty string gives ""; "AC"/"BC" gives 1 |
| Palindrome.PalindromeMirror | python/algorithms/palindrome.py:1-38 | being a palindrome is agreeing with the mirror position over the first half |
| Palindrome.PalindromeStrip | python/algorithms/palindrome.py:40-68 | a text longer than one character is a palindrome iff its ends agree and its inside is one |
| Palindrome.IsPalindromeTwoPointer | python/algorithms/palindrome.py:1-38 | True exactly for palindromes |
| Palindrome.IsPalindromeQuadratic | python/algorithms/palindrome.py:40-68 | True exactly for palindromes |
| Palindrome.Helper | python/algorithms/palindrome.py:109-119 | no contract of its own; HelperMirror states that it accepts exactly when every mirrored pair from left inward agrees |
| Palindrome.HelperMirror | python/algorithms/palindrome.py:109-119 | _helper accepts exactly when every pair from left inward agrees |
| Palindrome.IsPalindromeRecursiveOptimized | python/algorithms/palindrome.py:70-121 | no contract of its own; RecursiveOptimizedCorrect states: True exactly for palindromes |
| Palindrome.RecursiveOptimizedCorrect | python/algorithms/palindrome.py:70-121 | True exactly for palindromes |
| Palindrome.IsPalindromeRecursiveQuadratic | python/algorithms/palindrome.py:124-169 | no contract of its own; RecursiveQuadraticCorrect states: True exactly for palindromes |
| Palindrome.RecursiveQuadraticCorrect | python/algorithms/palindrome.py:124-169 | True exactly for palindromes |
| Palindrome.ShortArePalindromes | python/algorithms/palindrome.py:1-38 | the empty text and every one-character text are palindromes |
| Palindrome.NotPalindrome | python/algorithms/palindrome.py:1-38 | one position differing from its mirror rules a palindrome out |
| Palindrome.CaseAndSpacesCount | python/tests/algorithms/test_palindrome.py:21-50 | the comparison is exact: "racecar" is a palindrome, "Racecar" and "race car" are not |
| BinarySearch.BinarySearch | python/search/binary_search.py:4-78 | any index returned holds the target; on a sorted list a present target is found |
| BinarySearch.SlicingEmpty | python/search/binary_search.py:41-42 | an empty list finds nothing |
| BinarySearch.SlicingFindsIffPresent | python/search/binary_search.py:4-78 | on a sorted list: None exactly when the target is absent |
| BinarySearch.TwoPointer | python/search/binary_search.py:81-145 | any index returned lies in the window and holds the target; on a sorted list a target inside the window is found |
| BinarySearch.TwoPointerSearch | python/search/binary_search.py:81-145 | over the whole list: any index holds the target; on a sorted list None exactly when it is absent |
| BinarySearch.ImplementationsMatch | python/search/binary_search.py:4-145 | on a strictly increasing list both versions return the same result |
| BinarySearch.DuplicatesMayDiffer | python/search/binary_search.py:4-145 | with duplicates they may report different occurrences ([5, 5]: index 1 versus index 0) |
| BinarySearch.Examples | python/search/binary_search.py:32-38 | the docstring examples of both versions |
| LinearSearch.IndicesBelowFacts | python/search_and_sort/linear_search.py:76-90 | the comprehension lists, ascending, exactly the positions below n holding the target |
| LinearSearch.LinearSearchDuplicatesPythonic | python/search_and_sort/linear_search.py:76-90 | no contract of its own; PythonicIsAllIndices states that it returns, ascending, exactly the indices holding the target |
| LinearSearch.PythonicIsAllIndices | python/search_and_sort/linear_search.py:76-90 | the pythonic version returns, ascending, exactly the indices holding the target |
| LinearSearch.FirstMatchHeadsIndices | python/search_and_sort/linear_search.py:5-90 | the first position holding the target heads the list of all of them |
| LinearSearch.LinearSearch | python/search_and_sort/linear_search.py:5-37 | NOT_FOUND exactly when the target is absent; otherwise the first index holding it, which is the head of the all-indices list |
| LinearSearch.LinearSearchDuplicates | python/search_and_sort/linear_search.py:39-74 | the loop returns exactly what the comprehension version returns |
| LinearSearch.DuplicatesExamples | python/search_and_sort/linear_search.py:61-68 | the docstring examples |
| PatternSpec.CharsMatchSearchForm | python/search_and_sort/naive_pattern_search_v2.py:30-47 | _chars_match agrees exactly when the compared forms (lowercased when case-insensitive) agree |
| PatternSpec.MatchesAtSlice | python/search/naive_pattern_search.py:159-205 | a match at i is the compared text's slice [i, i+m) equal to the compared pattern |
| PatternSpec.MismatchBlocks | python/search/naive_pattern_search.py:48-54 | one disagreeing character, or running past the text, rules out a match at i |
| PatternSpec.SliceMatch | python/search/naive_pattern_search.py:201 | case-sensitive matching is slice equality on the strings themselves |
| PatternSpec.OccurrencesFacts | python/search/naive_pattern_search.py:17-56 | the left-to-right scan lists, ascending, exactly the match positions below its bound |
| PatternSpec.Positions | python/search/naive_pattern_search.py:17-56 | the positions list is ascending and holds exactly the starts where a non-empty pattern matches |
| PatternSpec.PositionsScan | python/search/naive_pattern_search.py:17-56 | scanning every start that leaves room for the pattern finds all positions |
| PatternSpec.PositionsLowered | python/search_and_sort/naive_pattern_search_v2.py:30-47 | case-insensitive positions are the case-sensitive positions in the lowercased strings |
| PatternSpec.PositionsSearchForm | python/search_and_sort/naive_pattern_search_v2.py:30-47 | searching with or without case is searching, case-sensitively, in the compared forms |
| NaivePatternSearch.SearchCharacter | python/search/naive_pattern_search.py:17-56 | the character loop returns exactly the match positions, overlaps included |
| NaivePatternSearch.SearchCounting | python/search/naive_pattern_search.py:59-103 | the counting loop returns exactly the match positions |
| NaivePatternSearch.SpliceAt | python/search/naive_pattern_search.py:154 | slice assignment keeps the text before the slice |
| NaivePatternSearch.ReplaceBackward | python/search/naive_pattern_search.py:152-156 | no contract of its own; ReplaceBackwardKeepsPrefix states that the text before the first match is kept, ReplaceBackwardDisjoint that disjoint matches are each replaced and every other character kept |
| NaivePatternSearch.ReplaceBackwardKeepsPrefix | python/search/naive_pattern_search.py:151-156 | the text before the first match is kept |
| NaivePatternSearch.ReplaceBackwardDisjoint | python/search/naive_pattern_search.py:151-156 | when matches do not overlap, rewriting last-first equals replacing each match slice and keeping every other character |
| NaivePatternSearch.OverlapsMerge | python/search/naive_pattern_search.py:151-156 | overlapping matches merge: in "aaa" the matches of "aa" at 0 and 1 become one "X" |
| NaivePatternSearch.SearchSafeBounds | python/search/naive_pattern_search.py:106-156 | [] for an empty pattern; without a replacement exactly the match positions; with one, the text rewritten from the last match to the first |
| NaivePatternSearch.OccurrencesPastEnd | python/search/naive_pattern_search.py:132-135 | no match starts where the pattern would run past the end, so the early break loses nothing |
| NaivePatternSearch.SearchSlice | python/search/naive_pattern_search.py:159-205 | the slice comparison returns exactly the match positions |
| NaivePatternSearch.SearchTunable | python/search/naive_pattern_search.py:210-263 | for any threshold, exactly the match positions |
| CaseAwarePatternSearch.SearchCharacter | python/search_and_sort/naive_pattern_search_v2.py:50-102 | exactly the positions where the pattern matches under the chosen case rule |
| CaseAwarePatternSearch.SearchCounting | python/search_and_sort/naive_pattern_search_v2.py:105-162 | exactly the matching positions under the chosen case rule |
| CaseAwarePatternSearch.SearchSafeBounds | python/search_and_sort/naive_pattern_search_v2.py:166-226 | exactly the matching positions under the chosen case rule |
| CaseAwarePatternSearch.AgreeingPrefix | python/search_and_sort/naive_pattern_search_v2.py:204-213 | the inner loop reaches the pattern's end exactly when the pattern matches at that start |
| CaseAwarePatternSearch.SearchSlice | python/search_and_sort/naive_pattern_search_v2.py:230-291 | comparing slices of the lowercased copies gives exactly the case-insensitive positions |
| CaseAwarePatternSearch.SliceScan | python/search_and_sort/naive_pattern_search_v2.py:281-289 | the slice scan over the compared forms lists exactly their positions |
| CaseAwarePatternSearch.SearchTunable | python/search_and_sort/naive_pattern_search_v2.py:294-360 | for any threshold, exactly the matching positions under the chosen case rule |
| CaseAwarePatternSearch.ScanAdaptive | python/search_and_sort/naive_pattern_search_v2.py:343-358 | both strategies over the compared forms list exactly their positions |
| CaseAwarePatternSearch.SensitiveWithinInsensitive | python/search_and_sort/naive_pattern_search_v2.py:30-47 | every case-sensitive match is also a case-insensitive one |
| FindReplace.CharsMatchChecked | python/search/naive_pattern_search_v3_find_replace.py:2-30 | ValueError exactly when either argument is not a single character; otherwise the case-aware comparison |
| FindReplace.ReplacedAt | python/search/naive_pattern_search_v3_find_replace.py:97-184 | the replaced slices are disjoint, in order, and inside the text |
| FindReplace.ScanIsRewrite | python/search/naive_pattern_search_v3_find_replace.py:97-184 | the left-to-right scan is the original text with exactly the replaced slices rewritten |
| FindReplace.ReplacedAtAreMatches | python/search/naive_pattern_search_v3_find_replace.py:97-184 | every replaced slice is a match of the pattern under the chosen case rule |
| FindReplace.SkippedMatchesOverlap | python/search/naive_pattern_search_v3_find_replace.py:97-184 | the choice is greedy: a match that is not replaced starts inside a replaced slice that began before it |
| FindReplace.NoMatchUnchanged | python/search/naive_pattern_search_v3_find_replace.py:97-184 | with no match anywhere the text comes back unchanged |
| FindReplace.SelfReplacementUnchanged | python/search/naive_pattern_search_v3_find_replace.py:97-184 | replacing a pattern by itself, case-sensitively, changes nothing |
| FindReplace.NonOverlappingExample | python/search/naive_pattern_search_v3_find_replace.py:97-184 | "aaaaa" with "aa" replaced by "X" gives "XXa" |
| FindReplace.EdgeCases | python/search/naive_pattern_search_v3_find_replace.py:33-45 | an early answer exactly for an empty pattern or one longer than the text, and it is the text itself, as the full scan would give |
| FindReplace.SingleCharScan | python/search/naive_pattern_search_v3_find_replace.py:48-68 | for a one-character pattern, the scan replaces each matching character |
| FindReplace.HandleSingleChar | python/search/naive_pattern_search_v3_find_replace.py:48-68 | a result exactly for one-character patterns, equal to the general find-and-replace |
| FindReplace.FoldedReplace | python/search/naive_pattern_search_v3_find_replace.py:61-67 | the case-insensitive character loop replaces every character equal to c up to case |
| FindReplace.SetupReplacementVariables | python/search/naive_pattern_search_v3_find_replace.py:71-89 | lengths, the last start position and the compared forms, as the variants use them |
| FindReplace.FormsDecideMatches | python/search/naive_pattern_search_v3_find_replace.py:71-89 | the pattern matches at i exactly where its compared form occurs in the text's compared form |
| FindReplace.AddRemainingCharacters | python/search/naive_pattern_search_v3_find_replace.py:91-94 | appends the text from position on, or nothing once the text is used up |
| FindReplace.ScanFinish | python/search/naive_pattern_search_v3_find_replace.py:91-94 | when the loop stops, appending the rest of the text completes the scan |
| FindReplace.Advance | python/search/naive_pattern_search_v3_find_replace.py:172-179 | after a match the replacement is appended and the match skipped; otherwise one character is copied |
| FindReplace.MatchFlag | python/search/naive_pattern_search_v3_find_replace.py:162-170 | the flag survives exactly when the pattern matches at the position |
| FindReplace.MatchCount | python/search/naive_pattern_search_v3_find_replace.py:273-283 | the count reaches the pattern length exactly when the pattern matches |
| FindReplace.MatchPrefix | python/search/naive_pattern_search_v3_find_replace.py:376-384 | the index reaches the pattern length exactly when the pattern matches |
| FindReplace.FindReplaceCharacter | python/search/naive_pattern_search_v3_find_replace.py:97-184 | the non-overlapping left-to-right replacement of every match |
| FindReplace.FindReplaceCounting | python/search/naive_pattern_search_v3_find_replace.py:188-298 | the same replacement |
| FindReplace.FindReplaceSafeBounds | python/search/naive_pattern_search_v3_find_replace.py:301-400 | the same replacement |
| FindReplace.SafeBoundsLoop | python/search/naive_pattern_search_v3_find_replace.py:366-395 | the loop emits the full scan and ends at the end of the text |
| FindReplace.FindReplaceSlice | python/search/naive_pattern_search_v3_find_replace.py:404-498 | the same replacement |
| FindReplace.FindReplaceTunable | python/search/naive_pattern_search_v3_find_replace.py:501-606 | the same replacement, whichever strategy the threshold picks; case-sensitive and threshold 4 unless given |
| FindReplace.ReplaceUsingSliceStrategy | python/search/naive_pattern_search_v3_find_replace.py:610-676 | the scan over the prepared forms |
| FindReplace.FormPrefix | python/search/naive_pattern_search_v3_find_replace.py:729-735 | the index reaches the pattern length exactly when the forms agree at the position |
| FindReplace.ReplaceUsingCharacterStrategy | python/search/naive_pattern_search_v3_find_replace.py:679-752 | the scan over the prepared forms |
| Sequences.SortedCopy | python/algorithms/Combinatorics/permutations.py:277 | sorted(items): the ascending arrangement of the same elements |
| Sequences.SortedIsLexMin | python/algorithms/Combinatorics/permutations.py:276-278 | the sorted list is the lexicographically smallest arrangement, so the lexicographic listing starts at the first one |
| Sequences.NonIncreasingIsLexMax | python/algorithms/Combinatorics/permutations.py:368-370 | a non-increasing list is the largest arrangement, so the listing ends at the last one |
| Sequences.SortedUnique | python/sort/bubble_sort.py:68-170 | two sorted arrangements of the same values are the same list, which makes the two bubble sorts agree |
| BubbleSort.Swap | python/sort/bubble_sort.py:45-65 | _swap exchanges exactly positions i and j |
| BubbleSort.CompareAdvances | python/sort/bubble_sort.py:100-107 | one comparison moves the pass on and never disturbs the settled suffix |
| BubbleSort.ComparedMultiset | python/sort/bubble_sort.py:100-107 | the comparisons of a pass only rearrange the values |
| BubbleSort.Pass | python/sort/bubble_sort.py:100-107 | the inner loop performs exactly the comparisons of one pass |
| BubbleSort.PassedSettles | python/sort/bubble_sort.py:93-107 | after k passes the last k positions are settled |
| BubbleSort.Passes | python/sort/bubble_sort.py:93-107 | the outer loop performs one pass per position |
| BubbleSort.PassedFinal | python/sort/bubble_sort.py:156-158 | after pass i the last i + 1 positions hold their values in the sorted result |
| BubbleSort.AllPassedSorted | python/sort/bubble_sort.py:68-170 | after every pass, ascending, the list is the sorted arrangement of its values |
| BubbleSort.BubbleSortBasic | python/sort/bubble_sort.py:68-107 | the list ends as the sorted arrangement of its old values |
| BubbleSort.BubbleSortOptimized | python/sort/bubble_sort.py:110-170 | the list ends as the sorted arrangement of its old values, early exit or not |
| BubbleSort.BubbleSortDescending | python/sort/bubble_sort.py:172-194 | the list ends non-increasing, holding the same values |
| BubbleSort.ImplementationsMatch | python/sort/bubble_sort.py:68-170 | the basic and optimized versions leave any list in the same order |
| BubbleSort.SwapExample | python/tests/sort/test_bubble_sort.py:20-27 | the _swap test: [1, 2, 3, 4, 5] becomes [5, 4, 3, 2, 1] |
| MergeSort.MergeMultiset | python/sort/merge_sort.py:55-118 | the merge holds exactly the elements of both sides |
| MergeSort.MergeSorted | python/sort/merge_sort.py:98-118 | merging two sorted lists gives a sorted list |
| MergeSort.MergeInterleaves | python/sort/merge_sort.py:104-116 | the merge is an interleaving: left elements in their order, right elements in theirs |
| MergeSort.MergeOrigins | python/sort/merge_sort.py:104-116 | each merged element comes from the side its flag names |
| MergeSort.MergeStable | python/sort/merge_sort.py:105-106 | on equal keys the left element comes first: a right element precedes a left one only when strictly smaller |
| MergeSort.MergeEmptySide | python/sort/merge_sort.py:113-116 | with one side empty the merge is the other side |
| MergeSort.Merge | python/sort/merge_sort.py:55-118 | the index loop and the two extends build exactly the merge |
| MergeSort.MergeKeepsKeyOrder | python/sort/merge_sort.py:98-118 | for every key, merging two sorted lists lists the left elements with that key, in order, before the right ones, in order |
| MergeSort.MergeSortList | python/sort/merge_sort.py:15-53 | a sorted list of exactly the input's elements, stable (for every key the elements with that key keep their input order); a list of at most one element comes back as it is |
| MergeSort.MergeExamples | python/tests/sort/test_merge_sort.py:30-40 | the merges of the tests: [1, 3, 5] with [2, 4, 6], and [1, 2, 2] with [2, 3, 3] |
| MergeSort.StableExample | python/tests/sort/test_merge_sort.py:42-49 | equal numbers keep the left element first |
| Heapsort.ReversedIsSortedCopy | python/sort/heapsort.py:83-86 | reversing the descending extraction gives the sorted arrangement of the same values |
| Heapsort.AppendMaximum | python/sort/heapsort.py:74-81 | appending the current maximum keeps the extracted list descending |
| Heapsort.Heapsort | python/sort/heapsort.py:25-88 | the same values, ascending (the sorted arrangement) or descending; the input is not changed |
| Heapsort.BuildHeap | python/sort/heapsort.py:69-71 | a new valid max heap holding exactly the input values |
| Heapsort.ExtractAll | python/sort/heapsort.py:73-81 | empties the heap and lists its values in descending order |
| Heapsort.HeapsortAsWritten | python/sort/heapsort.py:22 | as written, every non-empty input raises AttributeError, because the imported stand-alone heap has no remove_max; the empty input returns [] |
| Heapsort.SingleElement | python/tests/sort/test_heapsort.py:11-29 | [42] raises as written and gives [42] corrected |
| PivotStrategy.MidInRange | python/sort/PivotStrategy.py:37-38 | the midpoint lies in the range and is its lower middle |
| PivotStrategy.InsertByValueSorted | python/sort/PivotStrategy.py:52 | one insertion step keeps the candidates sorted by value and adds exactly one |
| PivotStrategy.SortByValueSorted | python/sort/PivotStrategy.py:52 | the stable sort by value orders the candidates and keeps exactly the same ones |
| PivotStrategy.MedianOfThreeIndex | python/sort/PivotStrategy.py:47-53 | one of start, middle, end, whose value has at most one of the three values below it and at most one above; all equal gives the middle |
| PivotStrategy.MedianOfSorted | python/sort/PivotStrategy.py:52-53 | the middle of three candidates sorted by value is a median; equal values keep their order |
| PivotStrategy.SelectPivotIndex | python/sort/PivotStrategy.py:19-44 | FIRST gives start, LAST end, MIDPOINT the lower middle, MEDIAN_OF_THREE the median index, RANDOM the drawn index in range; ValueError exactly for RANDOM on an empty range |
| PivotStrategy.RandomCoversRange | python/sort/PivotStrategy.py:39-40 | every index of a non-empty range is some draw's choice |
| PivotStrategy.MedianExample | python/sort/PivotStrategy.py:47-53 | on [3, 1, 2] the median of first, middle and last values is 2, at index 2 |
| PartitionStrategy.PivotAt | python/sort/PivotStrategy.py:19-44 | the index a strategy selects for a non-empty range lies in it |
| PartitionStrategy.LomutoStep | python/sort/PartitionStrategy.py:130-135 | one swapping step of the scan keeps its invariant |
| PartitionStrategy.LomutoScanRearranges | python/sort/PartitionStrategy.py:130-135 | the scan only exchanges positions in start..end-1 |
| PartitionStrategy.LomutoScanSplits | python/sort/PartitionStrategy.py:130-135 | below the partition index every value is smaller than the pivot; from there to the scanned position none is |
| PartitionStrategy.LomutoResult | python/sort/PartitionStrategy.py:65-141 | the returned position lies in the range |
| PartitionStrategy.LomutoPartitions | python/sort/PartitionStrategy.py:95-141 | the pivot value ends at p, everything before it in the range is smaller, everything after is at least as large, and only [start, end] is rearranged |
| PartitionStrategy.LomutoPartitionWithPivot | python/sort/PartitionStrategy.py:65-141 | the in-place steps give exactly the reference result, with its split and rearrangement |
| PartitionStrategy.LomutoPartition | python/sort/PartitionStrategy.py:144-202 | partition selects the pivot by the strategy and leaves the Lomuto split |
| PartitionStrategy.ScanUp | python/sort/PartitionStrategy.py:297-300 | left moves right past values at most the pivot and stops at a larger one or past right |
| PartitionStrategy.ScanDown | python/sort/PartitionStrategy.py:301-303 | right moves left past larger values and stops at one at most the pivot or before left |
| PartitionStrategy.HoareRoundsRearranges | python/sort/PartitionStrategy.py:297-308 | the rounds only exchange positions in left..right |
| PartitionStrategy.HoareStep | python/sort/PartitionStrategy.py:305-307 | swapping a crossed pair extends both sides of the invariant |
| PartitionStrategy.HoareRoundsSplit | python/sort/PartitionStrategy.py:297-308 | when the pointers cross, right is the last position not above the pivot |
| PartitionStrategy.HoareRoundAdvance | python/sort/PartitionStrategy.py:297-308 | one round either ends the loop at the crossing or leaves the rest to run from the swapped pair |
| PartitionStrategy.HoarePartitions | python/sort/PartitionStrategy.py:225-312 | the pivot value ends at p, nothing in start..p exceeds it, everything after does, and only [start, end] is rearranged |
| PartitionStrategy.PivotToStart | python/sort/PartitionStrategy.py:289-290 | the pivot is moved to start |
| PartitionStrategy.HoareFinish | python/sort/PartitionStrategy.py:311-312 | swapping the pivot to the crossing point leaves the split around it |
| PartitionStrategy.HoarePartition | python/sort/PartitionStrategy.py:225-312 | the in-place steps give exactly the reference result, with its split and rearrangement |
| PartitionStrategy.HoareScan | python/sort/PartitionStrategy.py:292-308 | the pointer loop computes exactly the reference rounds |
| PartitionStrategy.ScanUpLoop | python/sort/PartitionStrategy.py:298-299 | the left pointer stops at the first position past it whose value exceeds the pivot, or one past the right pointer |
| PartitionStrategy.ScanDownLoop | python/sort/PartitionStrategy.py:301-302 | the right pointer stops at the last position before it whose value does not exceed the pivot, or one before the left pointer |
| PartitionStrategy.SedgewickPartition | python/sort/PartitionStrategy.py:335-363 | the same steps and guarantees as Hoare's |
| PartitionStrategy.FlagLoop | python/sort/PartitionStrategy.py:492-505 | the final lt and gt stay inside the starting bounds |
| PartitionStrategy.FlagStepLess | python/sort/PartitionStrategy.py:496-499 | a smaller value is swapped to lt and both lt and eq advance, keeping the invariant |
| PartitionStrategy.FlagStepGreater | python/sort/PartitionStrategy.py:500-502 | a larger value is swapped to gt, which retreats, keeping the invariant |
| PartitionStrategy.FlagLoopRegions | python/sort/PartitionStrategy.py:492-505 | the loop ends with the smaller, equal and larger regions |
| PartitionStrategy.FlagLoopRearranges | python/sort/PartitionStrategy.py:492-505 | the loop only exchanges positions in [start, end] |
| PartitionStrategy.ThreeWayPartitions | python/sort/PartitionStrategy.py:486-505 | smaller values first, then the values equal to the pivot (never empty), then the larger ones, only [start, end] rearranged |
| PartitionStrategy.EqualSectionSplits | python/sort/PartitionStrategy.py:507-514 | any position of the equal section holds the pivot and splits the range |
| PartitionStrategy.ThreeWayPartition | python/sort/PartitionStrategy.py:387-518 | a range of fewer than two positions returns start unchanged; otherwise the middle of the equal section, which splits the range |
| PartitionStrategy.FlagScan | python/sort/PartitionStrategy.py:486-505 | the flag loop on the array computes exactly the reference loop |
| PartitionStrategy.DualPivotPartition | python/sort/PartitionStrategy.py:540-582 | a short range returns start unchanged; otherwise the range is only rearranged and the returned index lies in it |
| PartitionStrategy.ExchangeRearranges | python/sort/PartitionStrategy.py:565-579 | one exchange of two positions inside the range keeps a rearrangement a rearrangement |
| PartitionStrategy.NewFatKeys | python/sort/PartitionStrategy.py:603-612 | without a key function the key is the value itself; given ones are kept |
| PartitionStrategy.FatScanIsLomutoScan | python/sort/PartitionStrategy.py:632-645 | with the identity key and no secondary key the fat scan is Lomuto's scan |
| PartitionStrategy.FatPivotDefaultIsLomuto | python/sort/PartitionStrategy.py:603-650 | a FatPivotPartition built without key functions behaves exactly as Lomuto |
| PartitionStrategy.FatStep | python/sort/PartitionStrategy.py:632-645 | one swapping step of the fat scan keeps its invariant |
| PartitionStrategy.FatScanSplits | python/sort/PartitionStrategy.py:632-645 | the fat scan keeps its invariant up to end |
| PartitionStrategy.FatScanRearranges | python/sort/PartitionStrategy.py:632-645 | the fat scan only exchanges positions in start..end-1 |
| PartitionStrategy.FatPivotPartitions | python/sort/PartitionStrategy.py:614-650 | the pivot ends at p; every value before it sorts left of the pivot by (key, secondary key), none after it does |
| PartitionStrategy.FatPivotPartition | python/sort/PartitionStrategy.py:614-650 | the in-place steps give exactly the reference result, with its split |
| PartitionStrategy.FatScanLoop | python/sort/PartitionStrategy.py:629-645 | the loop computes exactly the reference fat scan |
| PartitionStrategy.LomutoExample | python/sort/PartitionStrategy.py:101-106 | on [64, 34, 25, 12, 22, 11, 90] with the midpoint pivot 12 the code leaves [11, 12, 25, 90, 22, 64, 34] and returns 1 |
| PartitionStrategy.HoareExample | python/sort/PartitionStrategy.py:225-312 | with the first value 64 as pivot, 64 ends at index 5 |
| PartitionStrategy.ThreeWayExample | python/sort/PartitionStrategy.py:417-423 | with the midpoint pivot 12 the code leaves [11, 12, 25, 22, 34, 90, 64] with 12 alone at index 1 |
| PartitionStrategy.HybridPartition.constructor | python/sort/PartitionStrategy.py:671-683 | stores the threshold and the maximum depth, depth 0 |
| PartitionStrategy.HybridPartition.Partition | python/sort/PartitionStrategy.py:685-705 | median-of-three Lomuto, or a random pivot for a range above the threshold past the maximum depth; the Lomuto split holds either way |
| Quicksort.Partition | python/sort/quicksort.py:60 | for Lomuto, random-pivot, median-of-three, Hoare, Sedgewick, three-way, key-less fat-pivot and hybrid partitioning, the range is rearranged and split around the returned position |
| Quicksort.KeylessFatPivotPartition | python/sort/PartitionStrategy.py:603-650 | a FatPivotPartition built without key functions, at its MIDPOINT default, leaves Lomuto's split: smaller values before p, no smaller value after it, only the range rearranged |
| Quicksort.SortedAroundPivot | python/sort/quicksort.py:60-64 | after the partition and the sorts of both sides the whole range is in order and holds the same values |
| Quicksort.Quicksort | python/sort/quicksort.py:27-68 | a short range is left alone; otherwise the range ends ascending with the same values and nothing outside changes; a Hybrid strategy's depth is restored |
| Quicksort.SortedRangeIsSortedCopy | python/sort/quicksort.py:27-68 | an ascending range holding the range's old values is their sorted arrangement |
| Quicksort.QuicksortCall | python/sort/quicksort.py:27-68 | with the defaults applied, [start, end] becomes the sorted arrangement of its values and every other position is unchanged |
| Quicksort.StackStart | python/sort/quicksort.py:83 | the starting stack holds the whole range and nothing is settled yet |
| Quicksort.DropRange | python/sort/quicksort.py:86-89 | dropping a short popped range keeps the stack invariant and reduces the remaining work |
| Quicksort.PartitionSettles | python/sort/quicksort.py:91-102 | partitioning the popped range and pushing both sides keeps every pair no pending range holds together in order |
| Quicksort.PartitionPending | python/sort/quicksort.py:97-102 | both pushed sides lie inside the popped range, which overlapped no other |
| Quicksort.PartitionWork | python/sort/quicksort.py:97-102 | the two sides together hold less work than the popped range, so the loop ends |
| Quicksort.SortingStep | python/sort/quicksort.py:91-102 | one partition-and-push keeps the loop invariant and decreases the work |
| Quicksort.SortingDone | python/sort/quicksort.py:85 | with the stack empty the range is in order |
| Quicksort.PartitionAndPush | python/sort/quicksort.py:91-102 | partition a live range and push both sides in the order lines 94-102 choose; the invariant holds and the work decreases |
| Quicksort.QuicksortIterative | python/sort/quicksort.py:71-102 | a short range is left alone; otherwise the range ends ascending with the same values and nothing outside changes |
| Quicksort.QuicksortIterativeCall | python/sort/quicksort.py:71-102 | with the defaults applied, [start, end] becomes the sorted arrangement of its values and every other position is unchanged |
| Heap.ChildrenHaveParent | python/data_structures/Heap/Heap.py:167-218 | both children of a slot have it as parent, and they are adjacent |
| Heap.ParentHasChild | python/data_structures/Heap/Heap.py:167-182 | a slot other than the root is a child of its parent, which comes before it |
| Heap.SwappedValues | python/data_structures/Heap/Heap.py:220-233 | exchanging two slots keeps the stored values |
| Heap.TargetChild | python/data_structures/Heap/MaxHeap.py:81-107 | the larger child, the left one when there is no right one, the right one on a tie |
| Heap.SiftUpStep | python/data_structures/Heap/Heap.py:58-80 | one rising swap moves the only out-of-order slot to its parent |
| Heap.SiftUpOrders | python/data_structures/Heap/Heap.py:58-80 | sifting up restores the heap order when only the last slot was out of order, over the same values |
| Heap.SiftDownStep | python/data_structures/Heap/Heap.py:82-105 | one sinking swap moves the only out-of-order slot to the chosen child |
| Heap.SiftDownOrders | python/data_structures/Heap/Heap.py:82-105 | sifting down restores the heap order when only the root was out of order, over the same values |
| Heap.AncestorBound | python/data_structures/Heap/MaxHeap.py:17-31 | in heap order every stored value is at most the root |
| Heap.RootIsMax | python/data_structures/Heap/Heap.py:107-119 | the root holds the largest stored value |
| Heap.LastToRootValues | python/data_structures/Heap/Heap.py:133-164 | after the last value replaces the root only the root may be out of order, and the old root is gone |
| Heap.MaxHeap.constructor | python/data_structures/Heap/Heap.py:27-38 | an empty heap: just the placeholder, size 0 |
| Heap.MaxHeap.Add | python/data_structures/Heap/Heap.py:41-56 | the value is stored, the size grows by one and the heap order holds |
| Heap.MaxHeap.ShouldSwapUp | python/data_structures/Heap/MaxHeap.py:49-62 | swap exactly when the child is larger than its parent |
| Heap.MaxHeap.GetTargetChildIndex | python/data_structures/Heap/MaxHeap.py:81-107 | the left or the existing right child, whichever holds the larger value, the right one on a tie |
| Heap.MaxHeap.ShouldSwapDown | python/data_structures/Heap/MaxHeap.py:65-78 | swap exactly when the chosen child is larger than its parent |
| Heap.MaxHeap.HasChild | python/data_structures/Heap/Heap.py:235-250 | True exactly when some stored slot has this slot as parent |
| Heap.MaxHeap.Swap | python/data_structures/Heap/Heap.py:220-233 | exchanges exactly two slots |
| Heap.MaxHeap.HeapifyUp | python/data_structures/Heap/Heap.py:58-80 | the loop restores the heap order over the same values |
| Heap.MaxHeap.HeapifyDown | python/data_structures/Heap/Heap.py:82-105 | the loop restores the heap order over the same values |
| Heap.MaxHeap.Peek | python/data_structures/Heap/Heap.py:107-119 | None exactly when empty; otherwise a stored value at least every other |
| Heap.MaxHeap.IsEmpty | python/data_structures/Heap/Heap.py:121-131 | True exactly when nothing is stored |
| Heap.MaxHeap.RemoveRoot | python/data_structures/Heap/Heap.py:133-164 | None on an empty heap, unchanged; otherwise the largest value is removed and returned and the heap order holds over the rest |
| Heap.MaxHeap.RemoveMax | python/data_structures/Heap/MaxHeap.py:33-46 | remove_max is _remove_root, with the same guarantees |
| Heap.RemoveInOrder | python/data_structures/Heap/MaxHeap.py:33-46 | removing twice from a heap holding 5, 1 and 3 gives 5, then 3 |
| StandaloneMaxHeap.MaxHeap.constructor | python/data_structures/MaxHeap.py:32-43 | an empty heap: just the placeholder, size 0 |
| StandaloneMaxHeap.MaxHeap.Add | python/data_structures/MaxHeap.py:46-61 | the value is stored, the size grows by one and the max-heap order holds |
| StandaloneMaxHeap.MaxHeap.HeapifyUp | python/data_structures/MaxHeap.py:63-93 | the loop restores the heap order over the same values |
| StandaloneMaxHeap.MaxHeap.Swap | python/data_structures/MaxHeap.py:149-162 | exchanges exactly two slots |
| StandaloneMaxHeap.SiftUpSteps | python/tests/data_structures/test_max_heap.py:41-49 | the three sift-ups when 10, 20 and 30 are added |
| StandaloneMaxHeap.AddTenTwentyThirty | python/tests/data_structures/test_max_heap.py:41-49 | adding 10, 20 and 30 leaves [30, 10, 20] |
| Stack.Stack.constructor | python/data_structures/Stack.py:9-18 | an empty stack with the given limit |
| Stack.Stack.HasSpace | python/data_structures/Stack.py:66-72 | room exactly when there is no limit or fewer values than the limit |
| Stack.Stack.IsEmpty | python/data_structures/Stack.py:74-80 | True exactly when no value is stored |
| Stack.Stack.Push | python/data_structures/Stack.py:20-34 | on a full stack OverflowError("Stack is full") and no change; otherwise the value becomes the new top |
| Stack.Stack.Pop | python/data_structures/Stack.py:37-52 | on an empty stack IndexError("Cannot pop from empty stack"); otherwise the top value is removed and returned |
| Stack.Stack.Peek | python/data_structures/Stack.py:55-63 | None when empty, otherwise the top value, nothing removed |
| Stack.PushThenPop | python/data_structures/Stack.py:20-52 | push then pop returns the pushed value and leaves the stack as it was (last in, first out) |
| Queue.Queue.constructor | python/data_structures/Queue.py:4-8 | an empty queue with the given maximum size |
| Queue.Queue.GetSize | python/data_structures/Queue.py:45-46 | the number of values stored |
| Queue.Queue.HasSpace | python/data_structures/Queue.py:48-49 | room exactly when there is no maximum or fewer values than the maximum |
| Queue.Queue.IsEmpty | python/data_structures/Queue.py:51-52 | True exactly when no value is stored |
| Queue.Queue.Enqueue | python/data_structures/Queue.py:10-22 | on a full queue nothing changes and nothing is reported; otherwise the value joins at the tail |
| Queue.Queue.Dequeue | python/data_structures/Queue.py:24-40 | None on an empty queue; otherwise the head value is removed and returned |
| Queue.Queue.Peek | python/data_structures/Queue.py:42-43 | the head value; on an empty queue the read of None's value raises AttributeError |
| Queue.FirstInFirstOut | python/data_structures/Queue.py:10-40 | two values enqueued into an empty queue come out in the order they went in |
| SinglePointNode.Node.constructor | python/data_structures/SinglePointNode.py:9-16 | stores the value and the next node, which is null unless given |
| SinglePointNode.Node.SetData | python/data_structures/SinglePointNode.py:24-25 | the data setter changes the value only |
| SinglePointNode.Node.SetNext | python/data_structures/SinglePointNode.py:33-34 | the next setter changes the link only |
| TwoPointNode.Node.constructor | python/data_structures/TwoPointNode.py:2-5 | stores the value and the given next and previous links, each None by default |
| TwoPointNode.Node.SetNext | python/data_structures/TwoPointNode.py:10-11 | set_next changes the next link |
| TwoPointNode.Node.SetPrev | python/data_structures/TwoPointNode.py:16-17 | set_prev changes the previous link |
| LinkedList.RenderedAppend | python/data_structures/LinkedList.py:16-23 | rendering a list is rendering its front, then its back |
| LinkedList.RenderedSkipsNone | python/data_structures/LinkedList.py:20-21 | a list holding only None values renders as the empty text |
| LinkedList.RemoveFirstAt | python/data_structures/LinkedList.py:25-36 | removing the first occurrence at index k cuts out exactly that position; with none nothing changes |
| LinkedList.RemoveFirstMultiset | python/data_structures/LinkedList.py:25-36 | exactly one occurrence of the value is removed when there is one, nothing else |
| LinkedList.LinkedList.constructor | python/data_structures/LinkedList.py:5-6 | a list of one node holding the value, None unless given |
| LinkedList.LinkedList.InsertStart | python/data_structures/LinkedList.py:11-14 | the value becomes the head and the old list follows |
| LinkedList.LinkedList.StringifyList | python/data_structures/LinkedList.py:16-23 | one line per non-None value, head to tail |
| LinkedList.LinkedList.UnlinkAfter | python/data_structures/LinkedList.py:32-33 | the node after position k leaves the list |
| LinkedList.LinkedList.RemoveNode | python/data_structures/LinkedList.py:25-36 | AttributeError on a list with no head node; otherwise the first node holding the value is unlinked, nothing else changes |
| DoublyLinkedList.DistinctWithout | python/data_structures/DoublyLinkedLIst.py:71-97 | cutting one node out keeps the nodes distinct |
| DoublyLinkedList.DoublyLinkedList.constructor | python/data_structures/DoublyLinkedLIst.py:5-9 | an empty list |
| DoublyLinkedList.DoublyLinkedList.Insert | python/data_structures/DoublyLinkedLIst.py:10-23 | the value becomes the new head; an empty list gets it as its tail too |
| DoublyLinkedList.DoublyLinkedList.Append | python/data_structures/DoublyLinkedLIst.py:24-35 | the value becomes the new tail; an empty list gets it as its head too |
| DoublyLinkedList.DoublyLinkedList.RemoveHead | python/data_structures/DoublyLinkedLIst.py:38-52 | None on an empty list; otherwise the head value is returned and removed, and both links stay consistent |
| DoublyLinkedList.DoublyLinkedList.RemoveTail | python/data_structures/DoublyLinkedLIst.py:54-68 | None on an empty list; otherwise the tail value is returned and removed |
| DoublyLinkedList.DoublyLinkedList.UnlinkMiddle | python/data_structures/DoublyLinkedLIst.py:92-95 | a node strictly inside the list is bypassed in both directions |
| DoublyLinkedList.DoublyLinkedList.RemoveNodeByValue | python/data_structures/DoublyLinkedLIst.py:71-97 | the first node holding the value is unlinked and returned; None and no change exactly when the value is absent |
| DoublyLinkedList.DoublyLinkedList.Stringify | python/data_structures/DoublyLinkedLIst.py:100-107 | one line per non-None value, head to tail |
| DoublyLinkedList.InsertThenRemoveTail | python/data_structures/DoublyLinkedLIst.py:10-68 | values inserted at the head come back from the tail in insertion order |
| FindMinMax.FindMin | python/algorithms/find_min.py:4-43 | ValueError without a head value; TypeError when a later value is None; otherwise a stored value no larger than any other |
| FindMinMax.FindMax | python/algorithms/find_max.py:4-43 | ValueError without a head value; TypeError when a later value is None; otherwise a stored value no smaller than any other |
| TreeNode.Name | python/data_structures/TreeNode.py:107-108 | the enumeration member is rendered with its class prefix in the ValueError message |
| TreeNode.StackStep | python/data_structures/TreeNode.py:141-153 | popping the top of the stack, visiting it and pushing its children reversed leaves the remaining preorder unchanged |
| TreeNode.PreorderIterative | python/data_structures/TreeNode.py:133-153 | the explicit-stack loop visits nothing for None and otherwise exactly the left-to-right preorder |
| TreeNode.PreorderValues | python/data_structures/TreeNode.py:111-153 | preorder visits every value of the tree exactly once |
| TreeNode.Mirror | python/data_structures/TreeNode.py:182-185 | the mirrored tree keeps each node's value and number of children |
| TreeNode.PreorderRecursive | python/data_structures/TreeNode.py:155-185 | no contract of its own; PreorderRecursiveIsMirrored states that it is the preorder of the mirrored tree, PreorderRecursiveValues that it visits every value exactly once |
| TreeNode.PreorderRecursiveIsMirrored | python/data_structures/TreeNode.py:175-185 | recursing into the children from the last to the first is the preorder of the mirrored tree, not the left-to-right preorder the docstring promises |
| TreeNode.MirroredFrom | python/data_structures/TreeNode.py:184-185 | the reversed child loop from any position matches the mirrored tree's preorder of the remaining children |
| TreeNode.PreorderRecursiveValues | python/data_structures/TreeNode.py:155-185 | the recursive preorder still visits every value exactly once |
| TreeNode.Inorder | python/data_structures/TreeNode.py:188-237 | no contract of its own; InorderValues states that it visits every value exactly once, InorderFewChildren the order for zero or one child |
| TreeNode.InorderValues | python/data_structures/TreeNode.py:188-237 | the n-ary inorder visits every value exactly once |
| TreeNode.InorderFewChildren | python/data_structures/TreeNode.py:224-237 | with no children the node is visited alone; with one child the midpoint is 0, so the node comes before the child |
| TreeNode.Postorder | python/data_structures/TreeNode.py:239-274 | no contract of its own; PostorderValues states that it visits every value exactly once, RootFirstAndLast that it ends at the root |
| TreeNode.PostorderValues | python/data_structures/TreeNode.py:239-274 | postorder visits every value exactly once |
| TreeNode.RootFirstAndLast | python/data_structures/TreeNode.py:175-185 | both preorders start at the root and postorder ends at it |
| TreeNode.Traverse | python/data_structures/TreeNode.py:82-108 | each implemented kind yields its traversal of the tree and None yields nothing; BREADTH_FIRST and DEPTH_FIRST raise ValueError("Unknown traversal type: ...") |
| TreeNode.PathToValue | python/data_structures/TreeNode.py:276-287 | every value of a tree is held by the last node of a path going down from its root |
| TreeNode.PathEndInValues | python/data_structures/TreeNode.py:276-287 | a path going down from a node ends at one of its values |
| TreeNode.Without | python/data_structures/TreeNode.py:341-342 | the filtered list is never longer than the original |
| TreeNode.WithoutMembers | python/data_structures/TreeNode.py:341-342 | the filtered list holds exactly the children other than the removed one, and every occurrence of it is gone |
| TreeNode.WithoutCount | python/data_structures/TreeNode.py:341-342 | only the occurrences of the removed child are dropped |
| TreeNode.WithoutAbsent | python/data_structures/TreeNode.py:338 | a child not among the children leaves the list as it is |
| TreeNode.WithoutKeepsOrder | python/data_structures/TreeNode.py:341-342 | the remaining children keep their relative order |
| TreeNode.TreeNode.constructor | python/data_structures/TreeNode.py:302-304 | a new node holds the given value, 0 by default, and no children |
| TreeNode.TreeNode.AddChild | python/data_structures/TreeNode.py:306-321 | a child is appended at the end; None is ignored |
| TreeNode.TreeNode.RemoveChild | python/data_structures/TreeNode.py:323-342 | every occurrence of a present child is removed in order; None or an absent child changes nothing |
| TreeNode.ExamplePreorder | python/tests/data_structures/test_tree_node.py:102-127 | preorder of the test tree is 1, 2, 4, 5, 3 |
| TreeNode.ExamplePreorderRecursive | python/tests/data_structures/test_tree_node.py:156-182 | the recursive preorder of the test tree is 1, 3, 2, 5, 4 |
| TreeNode.ExampleInorder | python/tests/data_structures/test_tree_node.py:184-211 | inorder of the test tree is 4, 2, 5, 1, 3 |
| TreeNode.ExamplePostorder | python/tests/data_structures/test_tree_node.py:213-238 | postorder of the test tree is 4, 5, 2, 3, 1 |
| BST.BuildBalancedBst | python/data_structures/BST.py:35-59 | no contract of its own; BuildInorder states that its in-order reading is the input list, BuildBalanced that it is height-balanced of depth BitLength(n), BuildOrdered that a sorted list gives a binary search tree |
| BST.BuildInorder | python/data_structures/BST.py:35-59 | reading the built tree in order gives back the input list |
| BST.BuildBalanced | python/data_structures/BST.py:9-14 | the built tree is height-balanced and has depth equal to the bit length of the list's length |
| BST.DepthLowerBound | python/data_structures/BST.py:11-14 | any binary tree of depth h holds fewer than 2^h values |
| BST.BuildIsShallowest | python/data_structures/BST.py:11-14 | no tree with as many values is shallower than the built one |
| BST.BitLengthBounds | python/data_structures/BST.py:11-14 | n has BitLength(n) binary digits: 2^(b-1) <= n < 2^b |
| BST.SortedInorderIsOrdered | python/data_structures/BST.py:9-12 | a tree whose in-order reading is sorted is a binary search tree |
| BST.BuildOrdered | python/data_structures/BST.py:9-12 | built from a sorted list, the tree is a binary search tree |
| BST.KidsDepth | python/data_structures/BST.py:168-181 | the children of a node are one level shallower than the node |
| BST.NextLevelDepth | python/data_structures/BST.py:132-140 | replacing a level by its children's level lowers the greatest depth by one |
| BST.ProcessLevel | python/data_structures/BST.py:133-138 | one pass of the inner loop replaces the level by the children of its nodes, left before right |
| BST.FindDepthRecursive | python/data_structures/BST.py:168-181 | no contract of its own; DepthLowerBound states that a tree of this depth h holds fewer than 2^h values, and FindDepthIterative that the iterative version computes the same depth |
| BST.FindDepthIterative | python/data_structures/BST.py:98-142 | the iterative depth equals the recursive depth; an empty tree fails with TypeError when its first node is read |
| BST.BuildExample | python/tests/data_structures/test_bst.py:54-78 | [1, 2, 3, 4, 5] gives root 3 over 2 (over 1) and 5 (over 4), of depth 3; [] gives None |
| BinarySearchTree.Inserted | python/data_structures/BinarySearchTree.py:119-129 | insertion keeps the root's value and depth |
| BinarySearchTree.InsertedElements | python/data_structures/BinarySearchTree.py:119-129 | insertion adds exactly one copy of the value |
| BinarySearchTree.InsertedValues | python/data_structures/BinarySearchTree.py:119-129 | the set of stored values gains exactly the inserted one |
| BinarySearchTree.InsertedOrdered | python/data_structures/BinarySearchTree.py:91-129 | insertion keeps the order: smaller values on the left, the rest on the right |
| BinarySearchTree.InsertedDepths | python/data_structures/BinarySearchTree.py:123-129 | every depth field stays the node's distance below the top |
| BinarySearchTree.DuplicateGoesRight | python/data_structures/BinarySearchTree.py:125-129 | a value equal to the node's goes to the right subtree |
| BinarySearchTree.Lookup | python/data_structures/BinarySearchTree.py:158-169 | a found node holds the searched value |
| BinarySearchTree.LookupIsSubtree | python/data_structures/BinarySearchTree.py:158-169 | the node found is a node of the tree |
| BinarySearchTree.LookupFindsStored | python/data_structures/BinarySearchTree.py:132-169 | in an ordered tree the search finds a node exactly when the value is stored |
| BinarySearchTree.LookupShallowest | python/data_structures/BinarySearchTree.py:158-169 | with duplicates the node returned is the one closest to the top |
| BinarySearchTree.PreorderVisitsAll | python/data_structures/BinarySearchTree.py:172-201 | preorder prints each node exactly once |
| BinarySearchTree.InorderVisitsAll | python/data_structures/BinarySearchTree.py:203-236 | inorder prints each node exactly once |
| BinarySearchTree.PostorderVisitsAll | python/data_structures/BinarySearchTree.py:239-271 | postorder prints each node exactly once |
| BinarySearchTree.VisitsSize | python/data_structures/BinarySearchTree.py:172-201 | a tree of n nodes prints n lines |
| BinarySearchTree.InorderSorted | python/data_structures/BinarySearchTree.py:203-236 | in an ordered tree inorder prints the values in ascending order |
| BinarySearchTree.ValuesOf | python/data_structures/BinarySearchTree.py:304-319 | level order prints each visit's value, in order |
| BinarySearchTree.LevelOrderVisitsAll | python/data_structures/BinarySearchTree.py:274-319 | level order prints each node exactly once |
| BinarySearchTree.LevelOrderFromByDepth | python/data_structures/BinarySearchTree.py:304-319 | from a queue ordered by depth with at most two levels, the remaining visits come in non-decreasing depth |
| BinarySearchTree.LevelOrderByDepth | python/data_structures/BinarySearchTree.py:274-319 | level order prints the levels top down: depths never decrease |
| BinarySearchTree.WindowStep | python/data_structures/BinarySearchTree.py:314-319 | taking the head and enqueueing its children keeps the queue within two consecutive levels, in order |
| BinarySearchTree.BinarySearchTree.constructor | python/data_structures/BinarySearchTree.py:73-87 | a node with the given value and depth and no children |
| BinarySearchTree.BinarySearchTree.Insert | python/data_structures/BinarySearchTree.py:91-129 | the new tree is the insertion of the value into the old one |
| BinarySearchTree.BinarySearchTree.GetNodeByValue | python/data_structures/BinarySearchTree.py:132-169 | returns the node the search path reaches first holding the value, or None exactly when the search finds none |
| BinarySearchTree.BinarySearchTree.TraversePreorder | python/data_structures/BinarySearchTree.py:172-201 | prints (depth, value) node, then left, then right |
| BinarySearchTree.BinarySearchTree.TraverseInorder | python/data_structures/BinarySearchTree.py:203-236 | prints left, then node, then right |
| BinarySearchTree.BinarySearchTree.TraversePostorder | python/data_structures/BinarySearchTree.py:239-271 | prints left, then right, then node |
| BinarySearchTree.BinarySearchTree.ChildNodes | python/data_structures/BinarySearchTree.py:314-319 | the existing children, left before right |
| BinarySearchTree.BinarySearchTree.TraverseLevelorder | python/data_structures/BinarySearchTree.py:274-319 | the queue loop prints the values in level order |
| BinarySearchTree.QueueStep | python/data_structures/BinarySearchTree.py:312-319 | dequeuing the head and enqueueing children keeps every queued node matched with its shape |
| BinarySearchTree.TraversalExample | python/tests/data_structures/test_binary_search_tree.py:200-261 | the three depth-first orders of the tree 10, 5, 15, 3, 7 |
| BreadthFirstSearch.PathOf | python/search/breadth_first_search.py:189-199 | a frontier entry's path ends at its node and is one longer than its ancestors |
| BreadthFirstSearch.Extend | python/search/breadth_first_search.py:54-58 | the entries for the children, left to right, each with the parent's path |
| BreadthFirstSearch.StepRootPaths | python/search/breadth_first_search.py:44-58 | one round keeps every queued entry a path down from the root |
| BreadthFirstSearch.StepCovers | python/search/breadth_first_search.py:44-58 | one round keeps every path to the target passing through a queued entry |
| BreadthFirstSearch.StepLevels | python/search/breadth_first_search.py:44-58 | one round keeps the queue ordered by level, within two consecutive levels |
| BreadthFirstSearch.BfsFromFindsShallowest | python/search/breadth_first_search.py:44-61 | from a well-formed queue the search finds a shortest root path to the target, and nothing exactly when none exists |
| BreadthFirstSearch.BfsFindsShallowest | python/search/breadth_first_search.py:8-61 | the level-order search finds a path down to the target exactly when the target is in the tree, and no path to it is shorter |
| BreadthFirstSearch.DocExample | python/search/breadth_first_search.py:102-108 | in 1 over 2 and 3 the path to 3 is 1, 3 |
| BreadthFirstSearch.QueueOf | python/search/breadth_first_search.py:40-41 | one queue entry per frontier element |
| BreadthFirstSearch.ReconstructIds | python/search/breadth_first_search.py:165-199 | following parent links back and reversing gives the ancestors followed by the node |
| BreadthFirstSearch.Discover | python/search/breadth_first_search.py:56-58 | a new child is appended to the frontier with the current node as its parent |
| BreadthFirstSearch.DiscoverChildren | python/search/breadth_first_search.py:54-58 | the frontier gains exactly the children's entries, left to right |
| BreadthFirstSearch.BfsSimple | python/search/breadth_first_search.py:8-61 | None for a None root; otherwise exactly the result of the level-order reference |
| BreadthFirstSearch.ReconstructPath | python/search/breadth_first_search.py:165-199 | the rebuilt path goes down from the root and ends at the node |
| BreadthFirstSearch.Unvisited | python/search/breadth_first_search.py:150-158 | the unvisited children are at most all the children |
| BreadthFirstSearch.UnvisitedMembers | python/search/breadth_first_search.py:150-158 | exactly the children not visited are enqueued |
| BreadthFirstSearch.ExploreChildren | python/search/breadth_first_search.py:149-158 | the frontier gains the unvisited children in order, each recorded with the current node as parent |
| BreadthFirstSearch.ClosedReach | python/search/breadth_first_search.py:131-162 | when the visited nodes are closed under children, every node on a path from the root is visited |
| BreadthFirstSearch.VisitLinks | python/search/breadth_first_search.py:139 | marking the front node visited keeps the parent links leading back to the root |
| BreadthFirstSearch.ExploreLinks | python/search/breadth_first_search.py:156-158 | the parent links recorded for explored children keep leading back to the root |
| BreadthFirstSearch.ExploreClosure | python/search/breadth_first_search.py:139-158 | every child of a visited node is visited or waiting on the frontier |
| BreadthFirstSearch.VisitKeeps | python/search/breadth_first_search.py:131-158 | visiting and exploring the front node keeps the loop invariant |
| BreadthFirstSearch.SkipKeeps | python/search/breadth_first_search.py:136-137 | skipping a node met before keeps the loop invariant |
| BreadthFirstSearch.Exhausted | python/search/breadth_first_search.py:162 | when the frontier runs dry no path from the root reaches the target |
| BreadthFirstSearch.VisitFront | python/search/breadth_first_search.py:132-158 | one round: a target node yields a root path ending at it; otherwise the invariant holds and fewer nodes remain unvisited |
| BreadthFirstSearch.BfsCycleProtection | python/search/breadth_first_search.py:64-162 | None for None; a root holding the target alone; any path returned goes down from the root and ends at the target; None only when no path from the root reaches the target, also in a graph with cycles |
| DepthFirstSearch.ValuesOf | python/search/depth_first_search.py:7-43 | the values of the path's nodes, in order |
| DepthFirstSearch.PreorderNodesValues | python/search/depth_first_search.py:36-41 | the nodes in the search's visiting order carry the PREORDER traversal's values |
| DepthFirstSearch.FindFirst | python/search/depth_first_search.py:32-33 | the node found holds the target |
| DepthFirstSearch.FindFirstIsFirst | python/search/depth_first_search.py:67-71 | nothing is found when no node holds the target; otherwise the first holder in order is found |
| DepthFirstSearch.NotFoundIffAbsent | python/search/depth_first_search.py:43 | nothing is found exactly when no node of the tree holds the target |
| DepthFirstSearch.DfsAt | python/search/depth_first_search.py:29-43 | a found path is longer than the path passed in |
| DepthFirstSearch.DfsChildren | python/search/depth_first_search.py:36-41 | the child loop never shortens the path |
| DepthFirstSearch.DfsAtFindsFirst | python/search/depth_first_search.py:25-43 | the recursive search finds the first preorder match and returns the given path followed by the way down to it |
| DepthFirstSearch.DfsRecursive | python/search/depth_first_search.py:7-43 | no contract of its own; DfsRecursiveFindsFirst states: None exactly when the target is absent, otherwise a path from the root to the first preorder match |
| DepthFirstSearch.DfsRecursiveFindsFirst | python/search/depth_first_search.py:7-43 | from the root with the empty path: None exactly when the target is absent, otherwise a path from the root ending at the first preorder match |
| DepthFirstSearch.DfsNode | python/search/depth_first_search.py:83-111 | no contract of its own; DfsNodeIsPathEnd states that it returns the last node of DfsRecursive's path, and None exactly when that is None |
| DepthFirstSearch.DfsNodeIsPathEnd | python/search/depth_first_search.py:83-111 | dfs_recursive_return_node returns the last node of dfs_recursive's path, and None when it does |
| DepthFirstSearch.StackStep | python/search/depth_first_search.py:67-78 | popping the top and pushing its children reversed leaves the same preorder of nodes ahead |
| DepthFirstSearch.StackStart | python/search/depth_first_search.py:65 | the stack holding only the root has the whole preorder ahead |
| DepthFirstSearch.DfsIterative | python/search/depth_first_search.py:46-80 | finds the first preorder match, or None exactly when there is none; the stack returned holds, in preorder, exactly the nodes after the match's subtree |
| DepthFirstSearch.DfsIterativeReturnNode | python/search/depth_first_search.py:114-146 | returns the first preorder match, the same node the recursive variant returns, or None exactly when the target is absent |
| DepthFirstSearch.OrderExamplePath | python/tests/search/test_depth_first_search.py:152-175 | the recursive search reaches 7 through 1, 3 and 5 |
| Graph.WeightTo | python/data_structures/Vertex.py:75-89 | the weight of the edge to the target when there is one (0 included), None exactly when there is none |
| Graph.PutWeights | python/data_structures/Vertex.py:50-61 | after adding an edge it weighs the given weight and every other edge is unchanged |
| Graph.PutTargets | python/data_structures/Vertex.py:63-73 | the targets keep insertion order; a new target is appended, an existing one keeps its place |
| Graph.PutUnique | python/data_structures/Vertex.py:48-61 | edges are keyed by target, so no target appears twice |
| Graph.Unvisited | python/data_structures/Graph.py:144 | the comprehension keeps exactly the targets not yet visited |
| Graph.ExploreStep | python/data_structures/Graph.py:130-145 | popping a vertex and pushing its unvisited targets keeps every visited or stacked vertex reachable and every visited vertex's targets visited or stacked |
| Graph.Unreachable | python/data_structures/Graph.py:148 | a vertex outside a set that holds the start and is closed under edges is unreachable |
| Graph.StackSearch | python/data_structures/Graph.py:125-148 | the stack loop answers True exactly when the end is reachable from the start; KeyError only for a dangling edge |
| Graph.Vertex.constructor | python/data_structures/Vertex.py:36-48 | a new vertex holds its value and no edges |
| Graph.Vertex.AddEdge | python/data_structures/Vertex.py:50-61 | the edge to the target is set to the weight, overwriting an existing one; the other edges are unchanged |
| Graph.Graph.constructor | python/data_structures/Graph.py:35-47 | a new graph has its direction flag and no vertices |
| Graph.Graph.AddVertex | python/data_structures/Graph.py:49-62 | the vertex is stored under its value, replacing one with the same value |
| Graph.Graph.AddEdge | python/data_structures/Graph.py:64-89 | adds from -> to, and to -> from when undirected; KeyError for a missing from before any change, and for a missing to after the first edge is in place |
| Graph.Graph.FindPath | python/data_structures/Graph.py:91-148 | KeyError unless both endpoints are vertices; otherwise True exactly when the end is reachable from the start |
| GraphBreadthFirstSearch.FrontShortest | python/search/graph/graph_breadth_first_search.py:94-103 | a vertex visited from the front of the frontier is reached by a shortest path |
| GraphBreadthFirstSearch.VisitKeeps | python/search/graph/graph_breadth_first_search.py:96-103 | marking the front vertex visited records its shortest distance and keeps the rest of the frontier valid |
| GraphBreadthFirstSearch.FoundShortest | python/search/graph/graph_breadth_first_search.py:112-118 | a target met as a neighbour of the vertex being expanded is met by a shortest path |
| GraphBreadthFirstSearch.AfterExpand | python/search/graph/graph_breadth_first_search.py:94-121 | one visit and expansion restores the loop invariant |
| GraphBreadthFirstSearch.SkipKeeps | python/search/graph/graph_breadth_first_search.py:99-100 | skipping a visited front vertex keeps the loop invariant |
| GraphBreadthFirstSearch.Exhausted | python/search/graph/graph_breadth_first_search.py:124 | an empty frontier leaves the target unreachable |
| GraphBreadthFirstSearch.PushKeeps | python/search/graph/graph_breadth_first_search.py:112-121 | appending an unvisited non-target neighbour with its extended path keeps the loop state |
| GraphBreadthFirstSearch.PartialDone | python/search/graph/graph_breadth_first_search.py:109-121 | after the neighbour loop every unvisited target waits on the frontier one level deeper |
| GraphBreadthFirstSearch.Expand | python/search/graph/graph_breadth_first_search.py:106-121 | the neighbour loop returns the path extended by the target when it is a neighbour, or else appends each unvisited neighbour one level deeper |
| GraphBreadthFirstSearch.Visit | python/search/graph/graph_breadth_first_search.py:96-121 | one visit returns a shortest path to the target or restores the invariant |
| GraphBreadthFirstSearch.Bfs | python/search/graph/graph_breadth_first_search.py:28-124 | [start] when start is the target; otherwise a path from start to target with the fewest vertices, or None exactly when the target is unreachable; KeyError only for a dangling edge |
| GraphBreadthFirstSearch.DocExamplePath | python/search/graph/graph_breadth_first_search.py:72-79 | in 1 -> 2 -> 3 the path [1, 2, 3] leads from 1 to 3 and no path is shorter |
| GraphDepthFirstSearch.ReachBack | python/search/graph/graph_depth_first_search.py:109-119 | a vertex reachable from a target of u is reachable from u |
| GraphDepthFirstSearch.Search | python/search/graph/graph_depth_first_search.py:48-122 | the shared visited set only grows and gains only vertices reachable from v; on success it holds the target; on failure every newly visited vertex had all its targets visited |
| GraphDepthFirstSearch.Neighbours | python/search/graph/graph_depth_first_search.py:111-122 | the loop over the targets from position i on keeps the same facts and leaves every remaining target visited when nothing is found |
| GraphDepthFirstSearch.Dfs | python/search/graph/graph_depth_first_search.py:126-147 | a returned set holds the start and the target and only reachable vertices; from an empty set None means the target is unreachable; KeyError only for a dangling edge |
| Dijkstra.PathWeight | python/algorithms/Greedy/Dykstras.py:102-108 | with no negative weight a path weighs at least 0 |
| Dijkstra.WeightPrefix | python/algorithms/Greedy/Dykstras.py:75-76 | with no negative weight a prefix of a path weighs no more than the path |
| Dijkstra.Without | python/algorithms/Greedy/Dykstras.py:94 | removing one queue entry keeps all the others |
| Dijkstra.LightestEntry | python/algorithms/Greedy/Dykstras.py:94 | the entry taken has the least distance in the queue |
| Dijkstra.SkipKeeps | python/algorithms/Greedy/Dykstras.py:98-99 | dropping a stale entry keeps the loop invariant |
| Dijkstra.FrontBeatsPath | python/algorithms/Greedy/Dykstras.py:91-99 | no path to an unsettled vertex weighs less than the least distance in the queue |
| Dijkstra.LightestAtFront | python/algorithms/Greedy/Dykstras.py:94-99 | an entry of least distance that is not stale carries the least weight of any path to its vertex |
| Dijkstra.SettleKeeps | python/algorithms/Greedy/Dykstras.py:94-102 | taking an entry that is not stale settles its vertex at its distance |
| Dijkstra.LowerTarget | python/algorithms/Greedy/Dykstras.py:108-113 | a target whose distance drops is not settled, and the lowered distance is the weight of a path to it |
| Dijkstra.LowerStep | python/algorithms/Greedy/Dykstras.py:111-117 | lowering a distance and pushing the entry keeps the relaxation invariant |
| Dijkstra.KeepStep | python/algorithms/Greedy/Dykstras.py:111 | leaving a distance unchanged keeps the relaxation invariant |
| Dijkstra.RelaxEdge | python/algorithms/Greedy/Dykstras.py:105-117 | one edge relaxation keeps the invariant and never raises a distance |
| Dijkstra.Relax | python/algorithms/Greedy/Dykstras.py:102-117 | relaxing every edge out of the settled vertex restores the invariant and never raises a distance; KeyError for a target with no distance |
| Dijkstra.Exhausted | python/algorithms/Greedy/Dykstras.py:120 | an empty queue leaves every finite distance attained and least, INFINITY exactly where no path leads, and no edge able to shorten a distance |
| Dijkstra.Begin | python/algorithms/Greedy/Dykstras.py:81-88 | INFINITY everywhere, 0 at the start and one queue entry for it satisfy the invariant |
| Dijkstra.ShortestPaths | python/algorithms/Greedy/Dykstras.py:35-120 | every finite distance is the weight of a path and no path weighs less, INFINITY exactly for unreachable vertices, the start at 0; KeyError only for a dangling edge |
| Dijkstra.ZeroChain | python/algorithms/Greedy/Dykstras.py:75-76 | a vertex joined to the start by zero-weight edges gets distance 0 |
| Dijkstra.EntryLess | python/algorithms/Greedy/Dykstras.py:88 | comparing entries compares distances, and raises when distances tie and the vertices differ |
| Dijkstra.SiftUpAsWritten | python/algorithms/Greedy/Dykstras.py:117 | the sift raises only when it meets an entry of equal distance and a different vertex |
| Dijkstra.HeapPushAsWritten | python/algorithms/Greedy/Dykstras.py:117 | a push grows the heap by one, or raises only when an entry of equal distance and a different vertex is present |
| Dijkstra.TiedDistancesRaise | python/algorithms/Greedy/Dykstras.py:111-117 | with edges 1 -> 2 and 1 -> 3 of weight 1 the second push raises TypeError |
| TravelingSalesperson.HasVisitedAll | python/algorithms/Greedy/TravelingSalesperson.py:178-199 | true exactly when every vertex is flagged visited |
| TravelingSalesperson.Candidates | python/algorithms/Greedy/TravelingSalesperson.py:228-245 | KeyError exactly when a target has no flag; otherwise every unvisited target with its edge weight, and nothing else |
| TravelingSalesperson.UnvisitedNeighbours | python/algorithms/Greedy/TravelingSalesperson.py:201-245 | KeyError for a current vertex not in the graph; otherwise the unvisited targets with their weights |
| TravelingSalesperson.LightestAmong | python/algorithms/Greedy/TravelingSalesperson.py:275 | the position of the first lightest move |
| TravelingSalesperson.Nearest | python/algorithms/Greedy/TravelingSalesperson.py:247-276 | one of the moves, the lightest, and the first among equally light ones |
| TravelingSalesperson.CompleteCircuit | python/algorithms/Greedy/TravelingSalesperson.py:278-324 | KeyError for a current vertex not in the graph; with an edge back to the first vertex it is appended and that edge's weight returned; otherwise the path is unchanged and 0 returned |
| TravelingSalesperson.MoveKeeps | python/algorithms/Greedy/TravelingSalesperson.py:153-159 | the nearest move goes to an unvisited neighbour of the last vertex |
| TravelingSalesperson.MoveShrinks | python/algorithms/Greedy/TravelingSalesperson.py:156-159 | flagging an unvisited vertex leaves fewer unvisited |
| TravelingSalesperson.StuckStops | python/algorithms/Greedy/TravelingSalesperson.py:148-150 | with no unvisited neighbour the walk stops at its last vertex |
| TravelingSalesperson.AllStops | python/algorithms/Greedy/TravelingSalesperson.py:142 | with every vertex visited the walk stops |
| TravelingSalesperson.NotAllVisited | python/algorithms/Greedy/TravelingSalesperson.py:126-142 | with two or more vertices the loop is entered |
| TravelingSalesperson.Step | python/algorithms/Greedy/TravelingSalesperson.py:142-159 | one pass: stuck, or moved to the nearest unvisited neighbour with the weight added; KeyError for a vertex not in the graph |
| TravelingSalesperson.GreedyWalkFrom | python/algorithms/Greedy/TravelingSalesperson.py:125-159 | the walk is the greedy nearest-neighbour walk from the start and its total is the weight of its edges |
| TravelingSalesperson.NearestNeighbourTour | python/algorithms/Greedy/TravelingSalesperson.py:66-172 | None for an empty graph; the one-vertex tour of weight 0 for a single vertex; otherwise the greedy walk, closed back to the start when an edge allows, with its weight; KeyError for a dangling edge |
| SelectWithDupes.Chosen | src/main/java/Java/EssentialAlgorithms/Chapter9_Recursion/SelectionsAndPermutations/SelectKOfNWithDupes.java:31-49 | every recorded index list has its indices in range |
| SelectWithDupes.ChosenBetween | src/main/java/Java/EssentialAlgorithms/Chapter9_Recursion/SelectionsAndPermutations/SelectKOfNWithDupes.java:42-46 | every index list recorded while the slot runs over lo .. hi - 1 has its indices in range |
| SelectWithDupes.ChosenSound | src/main/java/Java/EssentialAlgorithms/Chapter9_Recursion/SelectionsAndPermutations/SelectKOfNWithDupes.java:40-46 | every list recorded from a fixed prefix extends it with k slots that never go down |
| SelectWithDupes.ChosenBetweenSound | src/main/java/Java/EssentialAlgorithms/Chapter9_Recursion/SelectionsAndPermutations/SelectKOfNWithDupes.java:43-46 | a list recorded during the loop extends the prefix and has the looped slot in lo .. hi - 1 |
| SelectWithDupes.ChosenComplete | src/main/java/Java/EssentialAlgorithms/Chapter9_Recursion/SelectionsAndPermutations/SelectKOfNWithDupes.java:40-46 | every index list that extends the prefix, stays in range and never goes down is recorded |
| SelectWithDupes.ChosenExactly | src/main/java/Java/EssentialAlgorithms/Chapter9_Recursion/SelectionsAndPermutations/SelectKOfNWithDupes.java:31-49 | from a non-empty prefix exactly the non-decreasing index lists extending it are recorded: the selections of k of n items with repetition |
| SelectWithDupes.Picked | src/main/java/Java/EssentialAlgorithms/Chapter9_Recursion/SelectionsAndPermutations/SelectKOfNWithDupes.java:35-37 | one result holds the item at each selected index, in slot order |
| SelectWithDupes.PickedAll | src/main/java/Java/EssentialAlgorithms/Chapter9_Recursion/SelectionsAndPermutations/SelectKOfNWithDupes.java:38 | one result per recorded index list, in order |
| SelectWithDupes.ItemsAt | src/main/java/Java/EssentialAlgorithms/Chapter9_Recursion/SelectionsAndPermutations/SelectKOfNWithDupes.java:33-38 | the loop builds the items at every selected index, in slot order |
| SelectWithDupes.SelectSlot | src/main/java/Java/EssentialAlgorithms/Chapter9_Recursion/SelectionsAndPermutations/SelectKOfNWithDupes.java:43-46 | one loop pass adds the results whose slot holds i, in order, and leaves the earlier slots alone |
| SelectWithDupes.Select | src/main/java/Java/EssentialAlgorithms/Chapter9_Recursion/SelectionsAndPermutations/SelectKOfNWithDupes.java:31-49 | the results gain the items of every recorded index list, in order; a full selection adds one result; index 0 with slots to fill adds nothing |
| HashEntries.MatchesOnlyItsKey | python/data_structures/HashMap/HashEntry.py:11-12 | an entry matches exactly its own key, case-sensitively; an empty key matches only the empty string |
| SimpleAdditionHash.Utf8 | python/data_structures/HashMap/SimpleAdditionHash.py:8 | one character encodes to one to four bytes, and an ASCII character to its own code |
| SimpleAdditionHash.Encode | python/data_structures/HashMap/SimpleAdditionHash.py:8 | the encoding has between one and four bytes per character |
| SimpleAdditionHash.HashKey | python/data_structures/HashMap/SimpleAdditionHash.py:7-8 | the hash is between 0 and 1020 times the key length, and 0 for the empty key |
| SimpleAdditionHash.HandleCollision | python/data_structures/HashMap/SimpleAdditionHash.py:10-12 | linear probing: the hash code plus the attempt number |
| SimpleAdditionHash.HashKeyAppend | python/data_structures/HashMap/SimpleAdditionHash.py:7-8 | the hash of a concatenation is the sum of the hashes |
| SimpleAdditionHash.HashKeyOrderFree | python/data_structures/HashMap/SimpleAdditionHash.py:7-8 | the hash ignores the order of a key's parts |
| SimpleAdditionHash.AsciiHash | python/data_structures/HashMap/SimpleAdditionHash.py:7-8 | for an ASCII key the hash is the sum of the character codes |
| Probing.Compress | python/data_structures/HashMap/HashMap.py:32-34 | the hash code reduced to a slot index in [0, n), negative codes included |
| Probing.FirstStop | python/data_structures/HashMap/HashMap.py:48-59 | the first attempt whose slot is empty or holds the key, and none before it |
| Probing.FindSlot | python/data_structures/HashMap/HashMap.py:36-61 | ZeroDivisionError for an empty table; otherwise the first probed slot that is empty or holds the key, with its content; OverflowError exactly when no attempt stops |
| Probing.Lookup | python/data_structures/HashMap/HashMap.py:63-77 | a value is returned only when an entry with the key holds it; errors exactly when the slot search fails |
| Probing.Store | python/data_structures/HashMap/HashMap.py:79-92 | a stored table has the same size and holds the new entry; errors exactly when the slot search fails |
| Probing.Occupied | python/data_structures/HashMap/HashMap.py:103-106 | the occupied count never exceeds the capacity |
| Probing.StoreCount | python/data_structures/HashMap/HashMap.py:91-92 | storing makes the count grow by one exactly when the chosen slot was empty |
| Probing.StoreThenLookup | python/data_structures/HashMap/HashMap.py:63-92 | after a store the key is found with the value just stored |
| Probing.StoreKeepsOthers | python/data_structures/HashMap/HashMap.py:63-92 | storing one key leaves every other key's lookup as it was |
| Probing.FullTableOverflows | python/data_structures/HashMap/HashMap.py:61 | a table whose every slot holds another key raises OverflowError |
| Probing.FixedProbeOverflows | python/data_structures/HashMap/HashMap.py:48-61 | a collision handler that ignores the attempt cannot get past a slot holding another key |
| Probing.ValuesOf | python/data_structures/HashMap/HashMap.py:94-101 | one value per slot, None exactly for an empty slot |
| HashMap.HashMap.constructor | python/data_structures/HashMap/HashMap.py:19-29 | every slot empty, size 0, and SimpleAdditionHash when no hash function is given |
| HashMap.HashMap.CompressHash | python/data_structures/HashMap/HashMap.py:32-34 | the hash code modulo the capacity, in [0, capacity) |
| HashMap.HashMap.FindSlot | python/data_structures/HashMap/HashMap.py:36-61 | the probe loop computes the slot search over at most MAX_COLLISION_ATTEMPTS attempts |
| HashMap.HashMap.Get | python/data_structures/HashMap/HashMap.py:63-77 | the value stored for the key, None when the search stops at an empty slot |
| HashMap.HashMap.Set | python/data_structures/HashMap/HashMap.py:79-92 | the entry is written into the chosen slot and size grows exactly when that slot was empty; on error nothing changes |
| HashMap.HashMap.Values | python/data_structures/HashMap/HashMap.py:94-101 | one entry per slot, None exactly where the slot is empty and the stored value where it is occupied |
| HashMap.HashMap.Size | python/data_structures/HashMap/HashMap.py:103-106 | the size counter equals the number of occupied slots |
| ArrayBasedStorage.ArrayBasedStorage.constructor | python/data_structures/HashMap/ArrayBasedStorage.py:13-16 | capacity empty slots |
| ArrayBasedStorage.ArrayBasedStorage.FindSlot | python/data_structures/HashMap/ArrayBasedStorage.py:18-39 | the first probed slot that is empty or holds the key, OverflowError after MAX_COLLISION_ATTEMPTS probes |
| ArrayBasedStorage.ArrayBasedStorage.Get | python/data_structures/HashMap/ArrayBasedStorage.py:41-46 | the entry at the index exactly when it holds the key |
| ArrayBasedStorage.ArrayBasedStorage.Put | python/data_structures/HashMap/ArrayBasedStorage.py:48-54 | overwrites the slot and reports whether it was empty |
| ArrayBasedStorage.ArrayBasedStorage.Remove | python/data_structures/HashMap/ArrayBasedStorage.py:56-62 | empties the slot exactly when it holds the key and reports it; otherwise nothing changes |
| ArrayBasedStorage.ArrayBasedStorage.GetAllValues | python/data_structures/HashMap/ArrayBasedStorage.py:64-66 | one value per slot, None exactly for an empty slot |
| ArrayBasedStorage.ArrayBasedStorage.IsSlotAvailable | python/data_structures/HashMap/ArrayBasedStorage.py:68-70 | a slot is available exactly when no key can be found in it |
| ArrayBasedStorage.RemovalHidesLaterKey | python/data_structures/HashMap/ArrayBasedStorage.py:56-62 | with no tombstone, removing a key can hide a key stored further along the same probe sequence |
| SeparateChaining.MatchIndex | python/data_structures/HashMap/SeparateChaining.py:39-41 | the position of the first entry holding the key, or None when none does |
| SeparateChaining.FirstMatch | python/data_structures/HashMap/SeparateChaining.py:29-32 | the first entry of the bucket holding the key, None exactly when none does |
| SeparateChaining.Upsert | python/data_structures/HashMap/SeparateChaining.py:34-46 | afterwards the key finds the new entry, every other key finds what it found before, and the bucket grows only for a new key |
| SeparateChaining.Delete | python/data_structures/HashMap/SeparateChaining.py:48-55 | every other key finds what it found before, the bucket shrinks only when the key was there, and with unique keys the key is gone |
| SeparateChaining.BucketValues | python/data_structures/HashMap/SeparateChaining.py:61-62 | a bucket's values in order |
| SeparateChaining.AllValues | python/data_structures/HashMap/SeparateChaining.py:57-63 | one value per stored entry, every entry's value included |
| SeparateChaining.SeparateChaining.constructor | python/data_structures/HashMap/SeparateChaining.py:10-13 | capacity empty buckets, so no bucket holds a key twice |
| SeparateChaining.SeparateChaining.FindSlot | python/data_structures/HashMap/SeparateChaining.py:15-24 | the bucket of the key's hash modulo the capacity, with the first entry holding the key; ZeroDivisionError for capacity 0 |
| SeparateChaining.SeparateChaining.Get | python/data_structures/HashMap/SeparateChaining.py:26-32 | the first entry of the bucket holding the key |
| SeparateChaining.SeparateChaining.Put | python/data_structures/HashMap/SeparateChaining.py:34-46 | replaces the first entry with the key and reports False, or appends and reports True; other buckets untouched; no bucket holds a key twice afterwards |
| SeparateChaining.SeparateChaining.Remove | python/data_structures/HashMap/SeparateChaining.py:48-55 | pops the first entry with the key and reports True, or reports False and changes nothing; afterwards the key is absent from its bucket and no bucket holds a key twice |
| SeparateChaining.SeparateChaining.GetAllValues | python/data_structures/HashMap/SeparateChaining.py:57-63 | the values of every bucket in bucket order |
| SeparateChaining.SeparateChaining.IsSlotAvailable | python/data_structures/HashMap/SeparateChaining.py:65-68 | always True |
| SimpleHashMap.HashFunction | python/data_structures/HashMap/SImpleHashMap.py:74-78 | the key's byte sum plus the collision count |
| SimpleHashMap.LinearProbeStops | python/data_structures/HashMap/SImpleHashMap.py:26-39 | linear probing meets every slot within size attempts, so a search that can stop does stop within them |
| SimpleHashMap.SimpleHashMap.constructor | python/data_structures/HashMap/SImpleHashMap.py:7-9 | size empty slots |
| SimpleHashMap.SimpleHashMap.Compressor | python/data_structures/HashMap/SImpleHashMap.py:80-81 | ZeroDivisionError exactly for a table of size 0; otherwise the hash code modulo the table size, in [0, size) |
| SimpleHashMap.SimpleHashMap.Assign | python/data_structures/HashMap/SImpleHashMap.py:12-41 | ZeroDivisionError exactly for a table of size 0, with nothing written; otherwise the pair is written over the first probed slot that is empty or holds the key, the same slot the shared search finds |
| SimpleHashMap.SimpleHashMap.Retrieve | python/data_structures/HashMap/SImpleHashMap.py:45-70 | ZeroDivisionError exactly for a table of size 0; otherwise the value stored for the key, None once a probed slot is empty, as the shared lookup gives |

## Where the code and its documentation differ

Where a docstring or the design notes describe behaviour the code does not have, the model
follows the code:

- `python/sort/PartitionStrategy.py`: the worked examples in the Lomuto docstring (lines
  101-106) and the three-way docstring (lines 417-423) do not match what the loops produce.
  The `Example` lemmas state the code's results.
- `python/data_structures/BST.py`: the docstring example at lines 29-30 builds `[1, 2, 3, 4, 5]`
  with subtree roots 1 and 4, each with a right child. The code's `len // 2` picks the upper
  middle of `[1, 2]` and of `[4, 5]`, so the subtree roots are 2 and 5, each with a left
  child. `BST.BuildExample` states the code's tree.
- `python/algorithms/Combinatorics/permutations.py`: the LEXICOGRAPHIC method starts from the
  sorted items and steps with next-permutation. With repeated items it therefore yields each
  distinct arrangement once, which is fewer than P(n, n) lists.
- `python/algorithms/Greedy/Dykstras.py`: the docstring promises KeyError for a start vertex
  outside the graph. The code does not raise in that case; it simply follows the start's own
  edges.
- `python/algorithms/Greedy/TravelingSalesperson.py`: when several candidates tie for the least
  weight, `min` keeps the first one in edge order. The model does the same.
- `python/sort/quicksort.py`: the iterative version decides which side to push first from
  `right_size`, which the code computes one smaller than the right range's length. The model
  keeps this push order.
- `python/data_structures/HashMap/`: the code has no tombstones, no duplicate-key error and
  a single probing strategy. Setting an existing key overwrites its value, removal writes the
  empty slot back, and a search gives up after 1000 probes with OverflowError.
- `python/data_structures/TreeNode.py`: `_preorder_recursive` pushes the children in reverse
  (line 184), so it visits them right to left. The model proves that this is the preorder of
  the mirrored tree.
- `SelectKOfNWithDupes.java`: `select` records a selection only when `index` has reached the
  end. A call with `index` 0 and slots to fill only recurses, and it records nothing at
  index 0 itself.

## Left out

- Printing and logging: `print_tree`, `print_path`, the default visitor, the `_log_*`
  helpers of the travelling-salesperson module, and the Java `print`, `populate` and `main`.
  Traversals return the values they would print.
- SumToOne.IterativeSumToOne and SumToOne.RecursiveSumToOne return only the sum (and, for the
  iterative version, the emptied stack). The source also prints the call stack after every push
  and pop, the base-case notice and each addition (`iteration_recursion_comparison.py` lines
  49-56), and each recursive step (line 95); that output is not modelled.
- SumToOne.RecursiveSumToOne does not model Python's recursion limit. The RecursionError that
  the source documents for large n (line 80) is not produced: the model returns the sum for
  every positive n.
- Quicksort.Partition: the partitioner choice omits DualPivotPartition and FatPivotPartition
  built with key functions, although `quicksort` accepts both (`test_quicksort.py` lines
  37-38 pass DualPivotPartition). DualPivotPartition compares values against pivot indices,
  so its returned index carries no ordering promise, and a keyed FatPivotPartition orders by
  key rather than by value; neither gives the split the sort's proof rests on. Both are modelled on their
  own in PartitionStrategy.
- Randomness: the RANDOM pivot strategy takes the drawn value as a parameter, and the
  travelling-salesperson start vertex, which the source can draw at random, must be given.
  The legacy wrapper of that module (lines 413-445) only forwards its arguments and is not
  modelled.
- Object identity: vertices are identified by their values and n-ary tree nodes by their
  value snapshot (`Tree`). Two distinct nodes holding equal values are not told apart, except
  in `bfs_cycle_protection`, which works on node objects.
- Graph edges whose target is not a graph vertex raise KeyError where the code looks the
  target up. The properties about paths assume every edge target is a vertex (`Closed`).
- Dijkstra.ShortestPaths: a start vertex outside the graph gets no edges, whereas the source
  follows that vertex object's own edges.
- GraphDepthFirstSearch.Dfs: the visited set is passed in and handed back rather than shared
  by aliasing. The replacement of an empty passed-in set by a fresh one, which the caller
  never sees, is therefore not modelled.
- BreadthFirstSearch.BfsCycleProtection: the returned path is proved to be a real path from
  the root to a node holding the target, but it is not claimed to be the shortest. When a node
  is reached from two parents, a later and deeper parent overwrites the first.
- Permutations.GenerateHeaps: proves that Heap's algorithm yields n! lists, each an
  arrangement of the items, but not that the lists are pairwise distinct.
- PartitionStrategy.DualPivotPartition: proves only that the range is rearranged and that
  the returned index lies in it. The loop compares values against pivot indices rather than
  pivot values, so the code makes no ordering promise to prove.
- LinkedList.LinkedList.RemoveNode: compares values with `==` where the source uses `is`.
  Identity of equal values is not modelled.
- The `HashFunction` and `StorageStrategy` interfaces: the hash function is a function
  parameter, and each storage strategy is its own class.
- The Java double-hashing hash table is not modelled.
- The `compress_hash_func` parameter is fixed to reduction modulo the capacity.
- ArrayBasedStorage.ArrayBasedStorage.Put requires an index inside the table. Python's
  negative-index wrap-around and IndexError are not modelled.
- ArrayBasedStorage.ArrayBasedStorage.Remove requires an index inside the table, for the same
  reason.
- SeparateChaining.SeparateChaining.Put requires an index inside the bucket array, for the
  same reason.
- SeparateChaining.SeparateChaining.Remove requires an index inside the bucket array, for the
  same reason.
- `get_capacity` is the `capacity` field itself.
- A negative capacity is not modelled, because capacities are natural numbers.
- The `for_insertion` flag of `find_slot` changes nothing the model observes. The branches at
  `HashMap.py` lines 56-57 and `ArrayBasedStorage.py` lines 34-35 cannot be reached.
- SimpleHashMap.SimpleHashMap.Assign and SimpleHashMap.SimpleHashMap.Retrieve require, on a
  table of size above 0, some slot where probing stops. Without one, the source's loop never
  ends. A table of size 0 needs no such slot: both raise ZeroDivisionError at line 81.
- Lowercasing is ASCII only. Python's `str.lower()` on other letters is not modelled.
- `python/data_structures/Node.py`, which `LinkedList.py` imports, is not part of this model.
  The singly linked node of `SinglePointNode.py` stands in for it.
- The heap's `None` placeholder in slot 0 is modelled as the integer 0, and that slot is never
  read.
- `iterative_power_set` receives its input as a list in iteration order. A set argument's
  iteration order is not modelled.
- Backpack.RecursiveBackpack requires the weights list to be no longer than the values list.
  A longer weights list makes the source raise IndexError; that path is not modelled.
- Backpack.DynamicBackpack requires the same, for the same reason.
- MergeSort compares elements through an integer key. Quicksort, PartitionStrategy,
  Permutations (the lexicographic successor and the dispatcher) and BubbleSort sort or arrange
  `int` lists. Arbitrary Python comparisons, and elements that compare equal without being
  the same, are not modelled in any of them.
- BubbleSort.BubbleSortBasic and BubbleSort.BubbleSortOptimized do not state the stability
  that `bubble_sort.py` documents (lines 27, 79 and 131). They sort `int` lists, where two
  equal elements cannot be told apart, so stability is not observable in the model.
- SelectWithDupes.Select and SelectWithDupes.ItemsAt require every index in the filled slots to
  lie in 0 .. |items| - 1. An index outside that range makes Java's `items.get` throw
  IndexOutOfBoundsException (line 36); `main` (line 17) starts with no slot filled and never
  reaches that path, so the exception is not modelled.
- `python/search_and_sort/naive_pattern_search_v3_find_replace.py` is a byte-identical copy
  of the `python/search/` file and is covered by the same module.
- The floating-point parts of `python/data_science` are not modelled. Only the integer
  binomial coefficient and the positive-integer guard are covered.
- Tower of Hanoi is not modelled.
- `heapq` is modelled as a list from which the first entry of least distance is taken. Its
  sift order is modelled only for the Dijkstra finding.
- `functools.lru_cache`: the cached binomial shares the plain recursion's body.
- Tests that exercise code outside these files are not modelled.

## Findings

| source | as written | input that shows it | evidently intended | confidence | as-written member | corrected member |
|---|---|---|---|---|---|---|
| python/algorithms/backpack.py:54-56 | the recursion returns 0 as soon as the capacity reaches 0, skipping the remaining items | capacity 5, weights [5, 0], values [1, 1]: returns 1 | the best value over all fitting selections, here 2 (an item of weight 0 still fits) | not executed | Backpack.RecursiveBackpackMissesFreeItem | Backpack.KnapsackIsBest |
| python/sort/heapsort.py:22 | imports the stand-alone `MaxHeap`, which has no `remove_max`, so the extraction loop raises AttributeError | [42] | the `MaxHeap` of the `Heap` package, whose `remove_max` gives [42] | not executed | Heapsort.SingleElement | Heapsort.Heapsort |
| python/algorithms/Greedy/Dykstras.py:117 | pushes `(distance, vertex)` tuples, so two entries of equal distance compare `Vertex` objects, which define no ordering, and the push raises TypeError | edges 1 -> 2 and 1 -> 3, both of weight 1, from start 1 | entries of equal distance taken in any order | not executed | Dijkstra.TiedDistancesRaise | Dijkstra.ShortestPaths |
