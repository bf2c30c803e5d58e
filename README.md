# Doubly linked list and integer utilities, in Dafny

This project models two Python modules and proves what they promise.

- `linked_list_example.py`: a doubly linked list. `Node` objects carry
  `data`, `next` and `prev`. A `LinkedList` object keeps `head`, `tail` and
  a running `size`, and rewires links in place. The model is the class
  `DoublyLinkedList.LinkedList`, which has the same fields and the same
  loops. Three ghost fields describe it abstractly:
  - `nodes` is the chain from head to tail.
  - `contents` holds the elements of that chain.
  - `Repr` is the set of objects the list owns.

  The invariant `Valid()` ties `head`, `tail`, `size` and every node's
  `prev` and `next` to positions in `nodes`. It also requires that no node
  occurs twice, so the chain has no cycle. Every mutating method keeps
  `Valid()` and states its new `contents` in terms of the old ones.
- `math_utils.py`: the integer part of `MathUtils`. Factorial and the
  digit functions are pure functions. Everything built on a loop
  (Fibonacci, the Fibonacci sequence, primality, factorisation, gcd, lcm,
  power, nCr and nPr) is a method with its loop invariants. Each is proved
  against an independent definition:
  - `Fact`, `Fib` and `Pow`, each by its recurrence;
  - `Prime`, meaning no divisor in `[2, n)`;
  - `Divides`;
  - `Binom`, by Pascal's rule;
  - `Str` and `ParseInt`, Python's `str` and `int` on decimal numerals.

Python exceptions are modelled as `Outcomes.Result`: `Err(IndexError)`
for a bad list index, `Err(ValueError)` for a negative factorial or
Fibonacci argument. Python integers are unbounded and so are Dafny's, so
there is no wrap-around to model. Python's `%` and `//` round towards
minus infinity. Where the sign of an operand can be negative (the
Euclidean loop of `gcd`), they are modelled explicitly by
`MathUtils.PyMod` and `MathUtils.FloorDiv`.

Files:
- `outcomes.dfy`: `Error` and `Result`.
- `sequences.dfy`: sequence reversal, insertion, removal and distinctness, with their lemmas.
- `linked_list.dfy`: `Node`, `LinkedList` and the lemmas about the chain of links.
- `math_utils.dfy`: the integer utilities.

## Model

| member | source | states |
|---|---|---|
| DoublyLinkedList.Node.constructor | linked_list_example.py:6-9 | a new node holds its data and has no `next` and no `prev` link |
| DoublyLinkedList.LinkedList.constructor | linked_list_example.py:14-17 | a new list satisfies the invariant and holds no elements |
| DoublyLinkedList.LinkedList.EmptyIff | linked_list_example.py:134-140 | under the invariant, `head` is None exactly when `tail` is None, exactly when `size` is 0, exactly when there are no elements |
| DoublyLinkedList.LinkedList.LinksAgree | linked_list_example.py:8-9 | the two chains agree: a node's successor points back to it through `prev`, and its predecessor points to it through `next` |
| DoublyLinkedList.LinkedList.Append | linked_list_example.py:19-31 | contents become old contents + [x] and size grows by one; on an empty list the new node is both head and tail; otherwise the head is kept |
| DoublyLinkedList.LinkedList.Prepend | linked_list_example.py:33-45 | contents become [x] + old contents and size grows by one; on an empty list the new node is both head and tail; otherwise the tail is kept |
| DoublyLinkedList.LinkedList.Insert | linked_list_example.py:47-71 | an index outside [0, size] gives IndexError and leaves every object of the list unchanged; otherwise contents become old[..i] + [x] + old[i..] and the invariant holds |
| DoublyLinkedList.LinkedList.LinkAfter | linked_list_example.py:60-71 | splicing a new node after position i, through the four link writes of the source, inserts the element at position i+1 and keeps the invariant |
| DoublyLinkedList.LinkedInsertAt | linked_list_example.py:66-70 | once the new node and its two neighbours point at each other, the chain with the new node at its position is linked in both directions |
| DoublyLinkedList.LinkedList.Unlink | linked_list_example.py:96-108 | in all four head/tail cases, removing node i leaves the invariant holding on the chain without it; contents lose position i and size drops by one; removing the only node sets head and tail to None |
| DoublyLinkedList.LinkedRemoveAt | linked_list_example.py:98-106 | once the neighbours of position i point past it, the chain without position i is linked in both directions |
| DoublyLinkedList.LinkedList.Delete | linked_list_example.py:73-83 | returns true exactly when the element occurs, and then removes exactly its first occurrence; otherwise, including on an empty list, nothing changes |
| DoublyLinkedList.LinkedList.DeleteAtIndex | linked_list_example.py:85-94 | an index outside [0, size) gives IndexError with nothing changed; otherwise contents become old[..i] + old[i+1..] and size drops by one |
| DoublyLinkedList.IndexOf | linked_list_example.py:110-121 | -1 exactly when the element is absent; otherwise an index holding the element with no earlier occurrence |
| DoublyLinkedList.LinkedList.Find | linked_list_example.py:110-121 | returns the smallest index holding the element, and -1 exactly when it does not occur |
| DoublyLinkedList.LinkedList.Get | linked_list_example.py:123-132 | IndexError exactly when the index is outside [0, size); otherwise the element at that index |
| DoublyLinkedList.LinkedList.IsEmpty | linked_list_example.py:134-136 | true exactly when the list holds no elements |
| DoublyLinkedList.LinkedList.Length | linked_list_example.py:138-140 | the number of elements |
| DoublyLinkedList.LinkedList.Display | linked_list_example.py:142-153 | the empty rendering for an empty list, otherwise the elements from head to tail |
| DoublyLinkedList.LinkedList.DisplayReverse | linked_list_example.py:155-166 | the empty rendering for an empty list, otherwise the elements in exactly the reverse order of `Display` |
| DoublyLinkedList.LinkedList.Reverse | linked_list_example.py:168-176 | the chain and the contents become their reversal, head and tail trade places, and the invariant holds |
| DoublyLinkedList.LinkedBackwards | linked_list_example.py:172-174 | after every node's `prev` and `next` are swapped, the chain read backwards is linked in both directions |
| DoublyLinkedList.ReverseTwice | linked_list_example.py:168-176 | reversing twice restores the original order; a list of at most one element is unchanged by reversal |
| DoublyLinkedList.InsertThenGet | linked_list_example.py:47-71 | after inserting x at a valid index, the element at that index is x, and removing it restores the old contents |
| DoublyLinkedList.DeleteThenFind | linked_list_example.py:73-83 | after deleting the first occurrence, a search finds nothing or a later occurrence of an equal element |
| MathUtils.Factorial | math_utils.py:11-17 | ValueError exactly for negative n; otherwise n!, so 1 for n in {0, 1} |
| MathUtils.Fibonacci | math_utils.py:20-32 | ValueError exactly for negative n; otherwise the iterative pair loop returns F(n) of the recursive definition |
| MathUtils.FibonacciSequence | math_utils.py:35-45 | empty for n <= 0; otherwise n elements, element i being F(i) |
| MathUtils.PrimeBelowSquare | math_utils.py:57-60 | a number with no divisor in [2, i) that is below i*i is prime, so trial division may stop at the square root |
| MathUtils.IsPrime | math_utils.py:48-60 | true exactly when n is prime: n >= 2 and no number in [2, n) divides it |
| MathUtils.DivideOut | math_utils.py:71-73 | a candidate that divides what is left, and has no smaller divisor in common with it, is prime, and dividing it out keeps the product of the factors times what is left equal to n |
| MathUtils.PrimeFactors | math_utils.py:63-77 | empty for n <= 1; otherwise a non-decreasing list of primes whose product is n |
| MathUtils.PyMod | math_utils.py:83 | Python's remainder lies between 0 and the divisor, with the divisor's sign |
| MathUtils.EuclidStep | math_utils.py:82-83 | one step `a, b = b, a % b` keeps the new pair and the inputs integer combinations of each other |
| MathUtils.EuclidResult | math_utils.py:84 | when the loop stops, the absolute value of what is left divides both inputs, every common divisor divides it, it is the largest common divisor, and it is 0 only for gcd(0, 0) |
| MathUtils.Gcd | math_utils.py:80-84 | a non-negative common divisor of a and b that every common divisor divides and that is the largest of them; 0 exactly for gcd(0, 0) |
| MathUtils.LcmProperties | math_utils.py:89 | for non-zero a and b, \|a*b\| divided by their gcd is a positive common multiple that divides every common multiple |
| MathUtils.Lcm | math_utils.py:87-89 | 0 when either argument is 0; otherwise the positive least common multiple |
| MathUtils.PowAdd | math_utils.py:92-102 | exponents add: b^(m+k) = b^m * b^k |
| MathUtils.Power | math_utils.py:92-102 | for a non-negative exponent, base to that power |
| MathUtils.BinomStep | math_utils.py:174-175 | C(n, k+1) * (k+1) = C(n, k) * (n-k), the step of the multiplicative loop |
| MathUtils.BinomFactorials | math_utils.py:165-176 | C(n, k) * k! * (n-k)! = n! |
| MathUtils.BinomSymmetric | math_utils.py:172 | C(n, k) = C(n, n-k), which justifies running the loop to min(r, n-r) |
| MathUtils.CombinationStepExact | math_utils.py:174-175 | every `//` of the loop divides exactly, and its quotient is the next binomial coefficient |
| MathUtils.Combination | math_utils.py:165-176 | 0 outside 0 <= r <= n and 1 at either end; otherwise C(n, r), with C(n, r) * r! * (n-r)! = n! |
| MathUtils.Permutation | math_utils.py:179-189 | 0 outside 0 <= r <= n; otherwise p with p * (n-r)! = n!, so 1 for r = 0 |
| MathUtils.Str | math_utils.py:202 | `str` of a natural number is a non-empty digit string, with a leading '0' only for 0, whose last digit is the number mod 10 |
| MathUtils.ParseStr | math_utils.py:202 | `int(str(m)) == m` |
| MathUtils.StrParse | math_utils.py:208 | `str(int(s)) == s` for a digit string with no leading zero |
| MathUtils.DigitSumMod9 | math_utils.py:200-202 | the digit sum of a numeral and the number it reads as agree modulo 9 |
| MathUtils.DigitSumBounds | math_utils.py:200-202 | a digit sum is at most 9 per digit, and 0 exactly when the numeral reads as 0 |
| MathUtils.SumOfDigits | math_utils.py:200-202 | the digit sum of \|n\| is congruent to \|n\| modulo 9, is 0 exactly for n = 0, and is at most 9 per digit |
| MathUtils.ReverseNumber | math_utils.py:205-208 | keeps the sign of n (0 stays 0) and has no more digits than \|n\| |
| MathUtils.ReverseNumberTwice | math_utils.py:205-208 | when \|n\| does not end in 0, the numeral of the result is the numeral of \|n\| written backwards, and reversing twice gives n back |
| MathUtils.ReverseNumberTrailingZero | math_utils.py:208 | trailing zeros are dropped: reversing 10*n gives the same as reversing n |
| MathUtils.ParseLeadingZero | math_utils.py:208 | `int` ignores a leading zero |

## Left out

- `main` in both files only prints demonstration traces, so it is not modelled.
- `square_root`, `mean`, `median`, `mode`, `standard_deviation` and `is_perfect_square` are not modelled. They compute with floats, `math.sqrt` or a dictionary of float keys.
- MathUtils.Power: models integer bases and exponents >= 0 only. A negative exponent returns the float `1 / power(base, -exponent)`, and a float base makes the product a float.
- MathUtils.IsPrime: the loop bound `int(math.sqrt(n))` is modelled as the integer test `i * i <= n`. The two agree whenever `math.sqrt` returns the exact floor of the square root, which can fail for very large `n`.
- MathUtils.Factorial: Python's recursion limit is not modelled. A large `n` makes the recursive source raise `RecursionError`, while the model returns n!.
- MathUtils.Gcd: its ghost results, Bezout coefficients, are proof bookkeeping the source does not compute.
- DoublyLinkedList.LinkedList.Display: returns the elements rather than the string `"None <-> a <-> b <-> None"` built from `str()` of each element. `"Empty list"` is the `EmptyList` rendering.
- DoublyLinkedList.LinkedList.DisplayReverse: the same abstraction as `Display`.
- Element equality is Dafny's built-in equality. A user-defined `__eq__` on stored elements is not modelled.
- The elements of one list share a single element type `T`, whereas the source accepts values of mixed types.
