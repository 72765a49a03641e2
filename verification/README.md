# Case-insensitive word set (CS50 spell-checker dictionary) in Dafny

This project models `dictionary.c`, the hash table behind a spell checker.
The table has N = 10000 buckets. Each bucket holds a singly linked chain of
stored words, and a counter `word_count` tracks how many words were loaded.

- `hash` is a case-insensitive djb2. It starts from 5381 and, for each
  character, computes `h * 33 + tolower(c)` in 64-bit `unsigned long`
  arithmetic. The bucket is `h % N`.
- `load` resets every bucket to empty. It then reads whitespace-separated
  tokens, prepends each one to the chain of its bucket and bumps the counter.
- `check` walks the one chain of the query's bucket and compares with
  `strcasecmp`.
- `size` returns the counter.
- `unload` frees every chain, entry by entry.

The modules follow that structure:

- `Ascii` (`ascii.dfy`) holds `tolower` and `strcasecmp` on 7-bit C strings.
- `Hashing` (`hashing.dfy`) holds the djb2 fold and the C loop with its
  shift and wrapping adds.
- `Dictionary` (`dictionary.dfy`) holds the table, `Insert`, `Load`, `Check`,
  `Size` and `Unload`.
- `DictionaryFacts` (`dictionary_facts.dfy`) holds the lemmas that relate
  these operations to one another.

The table is a value, `Table(buckets: seq<Chain>, wordCount: u32)`. A chain is
a `seq<string>` with the head first. The word list is a `Source`: either
`Unopenable`, or `Opened(tokens)` with the tokens `fscanf("%s")` would
deliver. A separate parameter `allocFailsAt: Option<nat>` says at which token
`malloc` returns NULL, if it ever does. `Contents(t)`, the multiset of all
stored words, is the abstract view of the table. The headline theorem is
`DictionaryFacts.LoadThenCheck`. It says that after a full `load`, `check(q)`
is true exactly when some token of the list equals `q` ignoring ASCII case.

Three behaviours of the code shape the model:

- `load` does not check token length: `fscanf("%s")` overruns the
  `LENGTH + 1` buffer on a longer token, which is undefined behaviour.
  `|w| <= LENGTH` is therefore a precondition on every token `load` reads
  (`IsToken`, `TokensRead`), not an error path.
- `unload` frees the chains but does not null the buckets, so a second call
  frees the same nodes again. No claim is made about a second `unload`.
- `load` resets the buckets but never resets `word_count`. `Load` therefore
  keeps the incoming counter, and the size lemmas state the counter relative
  to its previous value, or start from the initial state `Empty()`.

## Model

| member | source | states |
|---|---|---|
| Ascii.Lower | dictionary.c:37 | `tolower` maps each of 'A'..'Z' to the same letter in 'a'..'z' and leaves every other character unchanged; its result is never an upper-case letter; it keeps a character 7-bit and non-NUL exactly when it was |
| Ascii.CaseCompareZeroIff | dictionary.c:55 | `strcasecmp(a, b) == 0` holds exactly when the two C strings are equal after folding each character (same length, same folded letters) |
| Ascii.CaseEqualIsEquivalence | dictionary.c:55 | matching under `strcasecmp` is reflexive, symmetric and transitive on C strings |
| Hashing.Hash | dictionary.c:29-41 | the bucket index of every word lies in [0, N) |
| Hashing.ComputeHash | dictionary.c:32-41 | the loop as written, with `(h << 5) + h + c` wrapping at 2^64 after each operation, returns the djb2 fold from 5381 with `h * 33 + tolower(c)` mod 2^64, taken mod N |
| Hashing.ShiftAddIsStep | dictionary.c:38 | wrapping after the shift and after each addition gives the same 64-bit value as wrapping once after `h * 33 + c` |
| Hashing.AccumulateIgnoresCase | dictionary.c:35-38 | the accumulator of a word equals the accumulator of its lower-cased form |
| Hashing.HashOfLowered | dictionary.c:35-41 | a word and its lower-cased form hash to the same bucket |
| Hashing.HashIgnoresCase | dictionary.c:35-41 | two words equal after folding land in the same bucket |
| Hashing.CaseEqualSameBucket | dictionary.c:29-41 | two words that `strcasecmp` calls equal land in the same bucket, so a lookup looks where the stored word was put |
| Hashing.HashExamples | dictionary.c:32-41 | the empty word hashes to 5381 (the seed mod N), and "a" and "A" both hash to 7670 |
| Dictionary.Insert | dictionary.c:100-107 | the new word becomes the head of chain `hash(w)` with the old chain as its tail; every other bucket is unchanged; the counter goes up by one, wrapping at 2^32 |
| Dictionary.Load | dictionary.c:66-113 | `load` needs only the tokens it actually reads (up to and including one whose allocation fails) to fit the buffer; it returns true exactly when the list opens and no allocation fails; the table it leaves always keeps the bucket invariant; an unopenable list leaves all N buckets empty and the counter as it was |
| Dictionary.ChainHas | dictionary.c:51-62 | walking a chain from its head returns true exactly when some entry of the chain matches the query under `strcasecmp` |
| Dictionary.CheckWalksOneChain | dictionary.c:45-63 | `check(q)` is true exactly when some entry of the one chain at bucket `hash(q)` matches `q` under `strcasecmp`; any table with the same chain at that bucket gives the same answer; it returns a value and changes nothing |
| Dictionary.Size | dictionary.c:116-119 | `size` returns the counter, which is the number of stored entries mod 2^32 whenever the counter invariant holds |
| Dictionary.Unload | dictionary.c:122-139 | `unload` returns true and releases every stored entry exactly once, bucket 0 first and each chain head first; the released words are exactly the stored multiset, and no entry stays live |
| Dictionary.EmptyWellFormed | dictionary.c:69-72 | the reset array of N empty chains satisfies the bucket invariant |
| Dictionary.InsertWellFormed | dictionary.c:100-104 | inserting a word keeps the invariant that every word in bucket i hashes to i |
| Dictionary.InsertAllWellFormed | dictionary.c:85-108 | the whole load loop keeps the bucket invariant |
| DictionaryFacts.FlattenPrepend | dictionary.c:103-104 | prepending to one chain adds exactly that word to the multiset of stored words |
| DictionaryFacts.InsertContents | dictionary.c:100-107 | one insertion adds exactly its word to the stored multiset, duplicates included, and one to the entry count |
| DictionaryFacts.InsertCounted | dictionary.c:104-107 | if the counter equals the entry count mod 2^32 before an insertion, it does after |
| DictionaryFacts.InsertThenCheck | dictionary.c:45-62 | after inserting `w`, `check(q)` is true exactly when it was before or `w` matches `q` ignoring case |
| DictionaryFacts.CheckIsMembership | dictionary.c:45-62 | on a table that keeps the bucket invariant, `check(q)` is true exactly when some stored word equals `q` ignoring case, although it looks at only one chain |
| DictionaryFacts.CheckIgnoresCase | dictionary.c:48-55 | `check` gives the same answer for every capitalisation of a query |
| DictionaryFacts.InsertAllContents | dictionary.c:85-108 | the load loop adds exactly its tokens to the stored multiset, duplicates included, and nothing else |
| DictionaryFacts.InsertAllCount | dictionary.c:107 | each token read adds one to `word_count`, duplicates included, wrapping at 2^32 |
| DictionaryFacts.EmptyContents | dictionary.c:69-72 | after the reset nothing is stored |
| DictionaryFacts.LoadStoresAllTokens | dictionary.c:66-113 | a `load` that reads to the end returns true, stores exactly the multiset of tokens, and advances `size` by the number of tokens |
| DictionaryFacts.LoadKeepsPrefixOnAllocFailure | dictionary.c:88-93 | an allocation failure at token k makes `load` return false and leaves tokens 0..k-1 stored and counted |
| DictionaryFacts.LoadThenCheck | dictionary.c:45-113 | after a `load` that reads to the end, `check(q)` is true exactly when some token of the list equals `q` ignoring case |
| DictionaryFacts.AllocFailureThenCheck | dictionary.c:85-104 | after an allocation failure at token k, `check(q)` is true exactly when one of tokens 0..k-1 equals `q` ignoring case |
| DictionaryFacts.UnopenableThenCheck | dictionary.c:69-79 | an unopenable list makes `load` return false, and `check` then finds nothing |
| DictionaryFacts.SizeAfterLoad | dictionary.c:116-119 | from the initial state, `size` after a full `load` is the number of tokens, duplicates included, mod 2^32, and the counter equals the entry count |
| DictionaryFacts.FruitExample | dictionary.c:45-119 | loading "apple", "Banana", "cherry" finds "APPLE", "banana" and "Cherry", does not find "durian", and gives size 3 |

## Left out

- File reading (`fopen`, `fscanf`, `fclose`) is not modelled. The word list is a `Source`: `Unopenable`, or the sequence of tokens `fscanf("%s")` would read.
- `malloc` failure is a parameter (`allocFailsAt`), because whether the heap runs out cannot be derived from the program.
- Heap links, `strcpy` and `free` are not modelled. Chains are sequences, a node owns a copy of its word by construction, and `Unload` reports the entries it releases in order.
- `load` overwrites non-empty buckets without freeing them, so calling it twice leaks the old chains. The model only shows the reset; the leak is not represented.
- After `unload`, the C array still holds the addresses of freed nodes. `Unload` returns a table with empty chains and the counter untouched. Any use of the table after `unload`, including a second `unload`, is undefined in C and carries no claim.
- The `LENGTH` bound on words is a precondition on tokens. Its value comes from `dictionary.h`, which is not part of this model, so `LENGTH` is an abstract constant. The overflow of longer tokens is undefined behaviour and is not modelled.
- Integer widths assume an LP64 target: `unsigned long` is 64 bits (the hash accumulator wraps at 2^64) and `unsigned int` is 32 bits (`word_count` wraps at 2^32). C fixes neither width.
- Characters are restricted to 7-bit ASCII without NUL. For values above 127, `tolower` depends on the locale or is undefined. NUL cannot occur inside a C string.
- The table and the counter are process-wide globals in C. Here they are a single `Table` value passed in and returned. Concurrency is not addressed; the C code provides none.
- DictionaryFacts.SizeAfterLoad: states the count only for a load from the initial state, because `load` does not reset `word_count` and the count after any other call sequence depends on earlier calls.
