# Sorting benchmark core, modelled in Dafny

The repository benchmarks three textbook in-memory sorts on a list of
integers read from a text file. This project models the algorithmic core of
its three scripts and proves what they promise:

- `scripts/quicksort.py`: `_quicksort_inplace`, an in-place sort that partitions
  `a[lo..hi]` Hoare-style around the value at `(lo + hi) // 2` and recurses on
  `[lo, j]` and `[i, hi]`. It is modelled as Dafny methods on an `array<int>`
  (`quicksort.dfy`).
- `scripts/mergesort.py`: `mergesort`, a top-down sort that splits at `len // 2`,
  sorts both halves recursively and merges them in a `while` loop that takes
  from the left half on ties. It is modelled as a recursive method on
  sequences with the merge loop, proved equal to a functional merge sort
  (`mergesort.dfy`). The argument is a sequence value, so it is never changed.
  For a list of at most one element Python returns the argument object itself
  rather than a new list; the model returns the equal value, and the sharing
  of one list object between argument and result is not represented.
- `scripts/heapsort.py`: `_sift_down` and `heapsort_inplace`, an in-place max-heap
  sort. They are modelled as methods on an `array<int>` with loops, proved
  against a functional description of the sift (`heapsort.dfy`).
- `read_input`, which the three scripts repeat. It strips the content, answers
  `[]` for empty content, turns commas into spaces, splits on whitespace and
  converts each token with `int`. It is modelled as pure functions from the
  content string to a list of integers or a parse error (`tokenizer.dfy`).

`ordering.dfy` holds the shared vocabulary: sortedness, the exchange of two
cells, and facts about permutations. One of them, `Ordering.SortedUnique`,
is that a sorted permutation is unique. Each of the three sorts is proved to
return a sorted permutation of its input, so they return the same list for
the same input, and each leaves an already sorted list unchanged.

Notes on the model:

- Python's `//` with a positive divisor rounds down. Dafny's `/` on `int` does
  the same, including for the `-2 // 2 == -1` that the build loop of
  `heapsort_inplace` meets on an empty list.
- The merge sort is generic over the element type and compares elements
  through an integer `key`, so that stability can be stated. The source's list
  of integers is the instance `key == Identity`
  (`Ordering.SortedByIdentity`).
- The two `for` loops of `heapsort_inplace` become `while` loops. The first
  loop (building the heap) is its own method, `HeapSort.BuildHeap`, and
  `HeapSort.HeapSort` calls it before the extraction loop.
- Whitespace is the set of characters Python's `str.isspace` accepts, which
  is what `str.strip()` and `str.split()` use. Integer literals follow
  Python's `int` in base 10: an optional sign, then ASCII digits, with single
  underscores allowed between digits, and at most 4300 digits, leading zeros
  included. That is CPython's default limit on integer string conversion
  (`sys.get_int_max_str_digits()`); `str` refuses the same lengths. Where a plain reading of the repository
  would accept only commas, spaces and newlines around plain digits, the model
  follows the code.

## Model

| member | source | states |
|---|---|---|
| QuickSort.Exchange | scripts/quicksort.py:45 | the array afterwards is the old array with cells `i` and `j` exchanged |
| QuickSort.Partition | scripts/quicksort.py:30-47 | the scans and the exchanges stay inside `[lo, hi]`. The loop ends with crossed cursors `j < i`, `lo < i` and `j < hi`, so both recursive ranges are shorter, even when every cell equals the pivot. Cells `lo..i-1` are at most the pivot read at the start and cells `j+1..hi` are at least it. The array is a permutation of its old value and no cell outside `[lo, hi]` changes |
| QuickSort.QuickSortRange | scripts/quicksort.py:24-53 | `a[lo..hi]` ends in non-decreasing order, the array is a permutation of its old value, no cell outside `[lo, hi]` changes, and for `lo >= hi` nothing changes at all |
| QuickSort.SortedAfterCalls | scripts/quicksort.py:50-53 | after a partition with `j < i`, sorting `[lo, j]` and then `[i, hi]` leaves `[lo, hi]` sorted and a permutation of its contents before the partition, with nothing outside it changed |
| QuickSort.CallKeepsBound | scripts/quicksort.py:50-53 | a recursive call that permutes `[l, h]` keeps every cell of the surrounding range on the same side of the pivot |
| QuickSort.QuickSortAll | scripts/quicksort.py:65-66 | sorting the whole list, with the range sort called only on a non-empty list, gives a sorted permutation. A list of at most one element, and a list that is already sorted, is unchanged |
| MergeSort.Merge | scripts/mergesort.py:47-62 | the merge has the combined length and the combined multiset of both halves, and starts with the front element of one of them |
| MergeSort.MergeOrdered | scripts/mergesort.py:51-62 | merging two sorted halves gives a sorted sequence |
| MergeSort.MergeStable | scripts/mergesort.py:53-55 | for every key, the merged elements with that key are those of the left half followed by those of the right half, each in its own order (ties go to the left) |
| MergeSort.MergeExhausted | scripts/mergesort.py:61-62 | once one half is used up, the merge of what is left is the left remainder followed by the right remainder |
| MergeSort.MergeSorted | scripts/mergesort.py:34-65 | the functional merge sort keeps the length and the multiset of its input |
| MergeSort.MergeSortedOrdered | scripts/mergesort.py:34-65 | the merge sort's result is in non-decreasing key order |
| MergeSort.MergeSortedStable | scripts/mergesort.py:34-65 | for every key, the elements with that key come out in their input order |
| MergeSort.MergeSortedSortedInput | scripts/mergesort.py:34-65 | a list of integers that is already sorted comes back unchanged |
| MergeSort.SortedPermutationIsMergeSorted | scripts/mergesort.py:34-65 | any sorted permutation of a list of integers equals the merge sort's result, so the three sorts agree on every input |
| MergeSort.MergeSort | scripts/mergesort.py:34-65 | the method returns exactly the functional merge sort of its argument. The result is sorted by key, a permutation and stable, and a list of at most one element is returned as is. The merge loop keeps `merged` sorted, of length `i + j`, and a prefix of the merge of the two halves |
| HeapSort.LargerChild | scripts/heapsort.py:44-53 | the child compared with `root` lies within `end`, is its left or right child and is the larger of them. It is the right child exactly when the right child exists within `end` and is strictly greater than the left one |
| HeapSort.SiftedFrom | scripts/heapsort.py:40-62 | the functional sift: it only exchanges cells of `[root, end]`, so the result is a permutation of the input in which every cell outside `[root, end]` keeps its value. Its heap guarantee is `SiftedFromRestores` |
| HeapSort.SiftDown | scripts/heapsort.py:40-62 | the `while True` loop leaves the array equal to the sift of its old value, and terminates because `root` grows at every exchange |
| HeapSort.SiftedFromRestores | scripts/heapsort.py:40-62 | suppose every parent at `lo` or above is in heap order except `root`, and the parent of `root` dominates the children of `root`. Then after the sift every parent at `lo` or above is in heap order |
| HeapSort.SiftedFromHeap | scripts/heapsort.py:40-62 | if the parents above `start` are in heap order within `end`, then after sifting from `start` the parents from `start` up are in heap order |
| HeapSort.HeapRootIsMax | scripts/heapsort.py:76-79 | the root of a heap over `[0, end]` is its largest cell |
| HeapSort.LeavesAreHeaps | scripts/heapsort.py:70-72 | no cell after `(n - 2) // 2` has a child, so the heap order holds among them from the start |
| HeapSort.BuildStep | scripts/heapsort.py:72-73 | one round of the build loop extends the heap order to the parent it sifts, and permutes the list |
| HeapSort.BuildHeap | scripts/heapsort.py:67-73 | after the build loop the whole list is a max-heap and a permutation of its old value |
| HeapSort.RootToEnd | scripts/heapsort.py:79 | exchanging the root of the heap with cell `end` grows the sorted suffix by one cell that dominates everything before it |
| HeapSort.SiftKeepsSuffix | scripts/heapsort.py:81 | sifting the new root over `[0, end - 1]` restores the heap there and keeps the sorted, dominating suffix |
| HeapSort.ExtractStep | scripts/heapsort.py:77-81 | one round of the extraction loop keeps its invariant: `[0, end]` is a heap, the cells after `end` are sorted, and none of them is smaller than a cell of the heap. The list stays a permutation |
| HeapSort.ExtractDone | scripts/heapsort.py:77 | when the loop stops, at `end == 0` or at `-1` for an empty list, the list is sorted |
| HeapSort.HeapSort | scripts/heapsort.py:66-81 | the list ends sorted and a permutation of its old value. A list of at most one element, and a list that is already sorted, is unchanged |
| Tokenizer.Strip | scripts/quicksort.py:16 | the stripped content neither starts nor ends with whitespace |
| Tokenizer.StripParts | scripts/quicksort.py:16 | the content is its stripped form with only whitespace before and after it |
| Tokenizer.ReplaceCommas | scripts/quicksort.py:19 | every comma becomes a space and every other character is kept |
| Tokenizer.Split | scripts/quicksort.py:19 | every token is non-empty and free of whitespace |
| Tokenizer.SplitToken | scripts/quicksort.py:19 | a single token splits into itself |
| Tokenizer.SplitBlank | scripts/quicksort.py:19 | splitting gives no token exactly when the text is all whitespace |
| Tokenizer.SplitAround | scripts/quicksort.py:19 | a whitespace character splits the text around it into two halves whose tokens are concatenated |
| Tokenizer.ParseInt | scripts/quicksort.py:20 | a token that `int` accepts holds neither whitespace nor a comma, and has at least one and at most 4300 digits |
| Tokenizer.ParseIntAccepts | scripts/quicksort.py:20 | `int` accepts underscores between digits and a sign (`1_000` is 1000, `-12` is -12) |
| Tokenizer.ParseIntRefuses | scripts/quicksort.py:20 | `int` refuses a doubled, leading or trailing underscore, a lone sign, the empty token and a decimal point |
| Tokenizer.ParseAll | scripts/mergesort.py:30 | the conversion succeeds exactly when every token parses. Then it has one value per token, in token order |
| Tokenizer.ParseAllFirstInvalid | scripts/mergesort.py:30 | when some token does not parse, the error names the first such token |
| Tokenizer.ParseAllAppend | scripts/mergesort.py:30 | converting two runs of tokens one after the other joins their values, and the first error wins |
| Tokenizer.StripKeepsTokens | scripts/quicksort.py:16-18 | stripping the content removes none of its tokens, and content that strips to nothing has no token |
| Tokenizer.ReadInts | scripts/quicksort.py:16-20 | `read_input` on the content: the strip and the early `[]` for empty content change nothing, so reading is the conversion of the whitespace-split tokens of the content after commas are made spaces. Its partners are `ReadIntsEmpty`, `ReadSeparated` and `Format` |
| Tokenizer.ReadIntsEmpty | scripts/quicksort.py:16-20 | content reads as no numbers exactly when every character is a comma or whitespace |
| Tokenizer.ReadSeparated | scripts/heapsort.py:32-35 | a comma or whitespace character splits the content into two pieces that are read independently. Their numbers come out in content order, and an error in the first piece wins |
| Tokenizer.SeparatorsInterchangeable | scripts/heapsort.py:32 | replacing one separator by another, comma or whitespace, does not change what is read |
| Tokenizer.ReadToken | scripts/heapsort.py:32-35 | a token that parses, read alone, gives its value |
| Tokenizer.ReadBadToken | scripts/heapsort.py:32-35 | a token that does not parse, read alone, is the reported error |
| Tokenizer.NatToDecimal | scripts/gerar_lista_desordenada.py:13 | `str` of a natural number is non-empty, all decimal digits, has no leading zero, and has the number as its value |
| Tokenizer.ToDecimal | scripts/gerar_lista_desordenada.py:13 | `str` of an integer of at most 4300 digits, the only ones `str` converts: `int` undoes it |
| Tokenizer.ReadLine | scripts/gerar_lista_desordenada.py:13 | a line `str(x) + "\n"` followed by more content reads as `x` followed by the numbers of the rest |
| Tokenizer.Format | scripts/gerar_lista_desordenada.py:11-13 | the content of a file written one number per line, as the list generator writes it: reading it gives back exactly its numbers, in order |

## Left out

- File access in `read_input`: the path constant, the existence check
  (`FileNotFoundError`), opening and decoding the file as UTF-8. The content
  arrives as a string.
- `run()` in each script: copying the data, timing with `time.perf_counter`
  and printing. Only the guarded call of the quick sort (`QuickSort.QuickSortAll`)
  is modelled.
- `main/app.py` (menu input, module loading, spreadsheet append, chart) and
  the list generator's shuffle and file writing. Only the line format it
  writes is modelled (`Tokenizer.Format`).
- Tokenizer.ParseInt: Python's `int` also accepts non-ASCII decimal digits,
  such as Arabic-Indic or full-width digits. The model accepts only ASCII
  digits, so it reports an error where Python would convert such a token.
  The digit limit is fixed at CPython's default of 4300. Python versions
  before the limit existed have none, and the limit can be changed at run
  time or through `PYTHONINTMAXSTRDIGITS`; neither is modelled.
- Tokenizer.ToDecimal: `str` raises `ValueError` for more than 4300 digits.
  The model requires the bound instead of modelling that error, and so does
  `Tokenizer.Format`. The generator writes only 0 to 30000, well within it.
- Tokenizer.ReadInts: decoding the file as UTF-8 belongs to the file layer
  left out above, including the `UnicodeDecodeError` it raises on bytes that
  are not UTF-8. Universal-newline translation is not modelled either; it
  only turns `\r\n` and `\r` into `\n`, and all of them are whitespace, so
  what is read does not change.
- HeapSort.SiftedFromHeap: the heap guarantee is stated over the range of
  parents from `start` to `end`, the form the build loop needs. The subtree
  form, where the subtrees below the children of `start` are heaps and the
  result is a heap below `start`, is not stated separately.
- QuickSort.QuickSortRange: the recursion of `_quicksort_inplace` can get as
  deep as the list is long when the pivot splits unevenly at every step.
  Python then stops with `RecursionError` at its recursion limit (1000 by
  default). The model has no stack limit and always sorts.
- Running times (O(n log n), the quadratic worst case of the midpoint pivot)
  are not functional properties and are not modelled.
