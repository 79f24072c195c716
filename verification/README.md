# many_time_pad — a Dafny model of the cracker

many_time_pad breaks a repeating-key XOR cipher (a "many time pad") when the key
length is known. It has three parts:
- a cipher that XORs a text with a repeating key;
- a potential-key record that keeps, for every key position, a list of candidate bytes, the selected candidate and a flag saying whether that selection is still uncertain;
- a cracker with two stages:
  1. It builds a combination table from the alphabet of a text encoding.
  2. It narrows the candidate bytes of each key position block by block over the ciphertext, then crib-drags a list of likely words over the ciphertext to select candidates.

This project models those three parts in Dafny and proves what they compute.

| file | module | models |
|---|---|---|
| `bytes.dfy` | `Bytes` | the 256 byte values and duplicate-free lists |
| `cipher.dfy` | `Ciphers` | `Cipher::new`, `encrypt`, `decrypt` |
| `potential_key.dfy` | `PotentialKeys` | the `PotentialKey` record and all of its operations; a list of `set_value` calls replayed in order (`ApplyWrites`) |
| `cracker.dfy` | `Crackers` | `Cracker::new` (the combination table), `xor_attack` (block-wise narrowing), `crack` (collecting the sets into lists, then crib-dragging) |

How the properties are stated:
- **Cipher.** Encryption is compared with a pointwise reference definition, `XorWith`. From it follow the cipher's self-inverse property and the many-time-pad leak the cracker exploits.
- **Combination table.** It is characterised exactly: `x` is recorded under difference `v` if and only if both `x` and `x ^ v` are alphabet bytes.
- **Narrowing.** The solver is compared with `Narrowed`, a per-position reference definition: start from all 256 bytes, intersect with each full block's possibilities, and freeze a set once it holds at most one byte.
  - `Narrowed` is related to `Consistent`, the set of key bytes that decode byte p of every block into the alphabet. The two agree up to the point where a set froze.
  - From this the model proves that the true key byte is never lost.
- **Crib drag.** The crib drag is characterised as replaying a list of `set_value` calls (`CribWrites`) on a fresh potential key. That list depends only on the candidate lists, which the drag never changes.
  - The list is shown sound and complete with respect to "accepted placements of listed words".
  - From this the model proves what each position ends up selecting and when it stays uncertain.

Bytes are `bv8`. The table is keyed by `Diff`, a one-field wrapper around the XOR difference. The source's hash sets become Dafny `set<bv8>`, and its vectors become sequences.

Behaviour of the code worth knowing:
- **Lookup value.** At `src/cracker.rs:88` the lookup value is `chunk[index] ^ chunk[position]` with `position == index % key_length == index`, so it is always 0. The solver therefore only ever reads the zero entry of the table, which is the alphabet (`NarrowStep`, `TableEntries`).
- **`set_value`** marks a position as no longer uncertain.
- **`accept_value`** collapses the list to the current byte and leaves the uncertain flag as it was.
- **Crib drag.** It only selects candidates; it never removes any.
- **Offsets.** The crib drag tries offsets `0 .. |contents| - |word| - 1`. The last offset at which the word still fits is not tried.
- **Candidate order.** Candidate lists come out in set iteration order, not sorted.

## Model

| member | source | states |
|---|---|---|
| Ciphers.Encrypt | src/cipher.rs:14-22 | the output has one byte per input byte, and byte i is input byte i XOR key byte i mod the key length; equal to the reference `XorWith` |
| Ciphers.Decrypt | src/cipher.rs:27-29 | decryption produces exactly the encryption of its input |
| Ciphers.SelfInverse | src/cipher.rs:14-29 | decrypting an encrypted message with the same non-empty key returns the message |
| Ciphers.RepeatedKeyLeak | src/cipher.rs:18 | two ciphertext bytes one key length apart XOR to the XOR of their plaintext bytes, so the key cancels |
| Bytes.AllBytes | src/cracker.rs:74-77 | the initial candidate set holds every byte value, hence more than one |
| PotentialKeys.New | src/potential_key.rs:10-16 | the lists are kept, every position selects index 0, and every position is uncertain |
| PotentialKeys.CurrentKey | src/potential_key.rs:19-25 | one byte per position: the candidate at the selected index when that index is in range (so a member of that list), and 0 whenever the index is out of range, an empty list included |
| PotentialKeys.GetPossibilities | src/potential_key.rs:28-56 | the returned list holds exactly the bytes `is_possible` accepts; it is empty exactly when `is_error` holds and has one element exactly when `is_decoded` holds |
| PotentialKeys.SetValue | src/potential_key.rs:38-41 | selecting a possible v leaves the lists alone, makes v the current byte at that position through its first occurrence, clears the uncertain flag, and changes no other position |
| PotentialKeys.AcceptValue | src/potential_key.rs:59-64 | the position's list becomes the single current byte at index 0, so it is decoded; the current key, every uncertain flag and every other position are unchanged |
| PotentialKeys.AcceptValueIdempotent | src/potential_key.rs:59-64 | accepting a position twice is the same as accepting it once |
| PotentialKeys.NewSelectionInRange | src/potential_key.rs:10-25 | a fresh key selects an in-range candidate everywhere, namely the first candidate of each non-empty list |
| PotentialKeys.SetValueSelectionInRange | src/potential_key.rs:38-41 | selecting a candidate keeps every selection in range |
| PotentialKeys.AcceptValueSelectionInRange | src/potential_key.rs:59-64 | accepting a selection keeps every selection in range |
| PotentialKeys.DecodedMeansOnlyCurrent | src/potential_key.rs:28-51 | for a duplicate-free list with an in-range selection: decoded if and only if the current byte is the only possible value; error if and only if no value is possible |
| PotentialKeys.ApplyWrites | src/cracker.rs:62-64 | a sequence of legal `set_value` calls keeps the record well formed, never changes the candidate lists, and keeps selections in range |
| PotentialKeys.ApplyWritesLastWins | src/potential_key.rs:38-41 | after a sequence of calls, a position nobody wrote keeps its index and flag; a written position is certain and its current byte is the last value written there, at that value's first occurrence |
| PotentialKeys.ApplyWritesIdempotent | src/potential_key.rs:38-41 | replaying the same calls on their own result changes nothing |
| PotentialKeys.ApplyWritesAppend | src/cracker.rs:47-66 | replaying a + b is replaying a, then b |
| PotentialKeys.LastWriteNone | src/potential_key.rs:38-41 | no call names position q if and only if there is no last write to q |
| Crackers.New | src/cracker.rs:13-35 | the words are kept, every table entry is non-empty, and x is recorded under v if and only if x and x ^ v are both alphabet bytes |
| Crackers.PairFirst | src/cracker.rs:19-29 | pairing one more first byte with every alphabet byte extends the table to exactly the pairs whose first byte is among those visited |
| Crackers.InsertPair | src/cracker.rs:20-28 | visiting the pair (first, second) records both bytes under their XOR and nothing else |
| Crackers.TableSound | src/cracker.rs:18-29 | every ordered pair of alphabet bytes has both bytes recorded under their XOR |
| Crackers.TableEntries | src/cracker.rs:17-30 | entries hold only alphabet bytes; the zero entry exists if and only if the alphabet is non-empty, and it equals the alphabet |
| Crackers.PossibilitiesMeaning | src/cracker.rs:89-92 | key byte k is among the possibilities of block byte c if and only if c ^ k is in the table entry |
| Crackers.NarrowStep | src/cracker.rs:88-97 | the intersection the loop performs at an open position is the reference's next step (the lookup difference is 0) |
| Crackers.NarrowedShrinks | src/cracker.rs:94-97 | candidate sets only shrink as blocks are processed |
| Crackers.NarrowedFrozen | src/cracker.rs:84-86 | a set with at most one byte is never touched again, so a singleton never becomes empty |
| Crackers.ConsistentStep | src/cracker.rs:94-97 | intersecting the keys consistent with m blocks with block m's possibilities gives the keys consistent with m + 1 blocks |
| Crackers.NarrowedOpen | src/cracker.rs:79-97 | while a position has more than one candidate, its set is exactly the keys consistent with every block so far |
| Crackers.NarrowedFreezePoint | src/cracker.rs:79-105 | a position's set always equals the consistent keys up to some block m; if m is before the end, that set already had at most one byte |
| Crackers.ConsistentDecodes | src/cracker.rs:88-97 | with a table built from an alphabet, a key byte is consistent if and only if it decodes byte p of every block into the alphabet |
| Crackers.LiveUpdate | src/cracker.rs:98-100 | replacing one set changes the count of open positions by exactly the change in that position's openness |
| Crackers.LiveZero | src/cracker.rs:102-104 | when the open-position counter reaches 0, every position has at most one candidate |
| Crackers.LiveAllOpen | src/cracker.rs:73-77 | initially every position is open, so the counter equals the key length |
| Crackers.FinishEarly | src/cracker.rs:102-104 | returning early inside a block loses nothing: the positions not yet visited already hold their next-block sets |
| Crackers.AllFrozen | src/cracker.rs:102-104 | once no position is open, the sets are final for all later blocks |
| Crackers.NarrowPosition | src/cracker.rs:82-100 | a closed position is skipped; an open one becomes the reference's next set; no other position changes; the counter tracks the open positions |
| Crackers.NarrowBlock | src/cracker.rs:80-105 | one block moves every position from the reference's set after `iteration` blocks to its set after `iteration + 1`; finishing early happens exactly when no position is open |
| Crackers.XorAttack | src/cracker.rs:71-108 | one set per position, equal to the reference after all full blocks, despite the early exit; all 256 bytes everywhere when the contents are shorter than one block |
| Crackers.TrueKeySurvives | src/cracker.rs:71-108 | for a plaintext over the alphabet encrypted with a key of the guessed length, the true key byte stays a candidate after every block, and a position narrowed to one byte holds exactly the key byte |
| Crackers.Enumerate | src/cracker.rs:41-44 | a set becomes a duplicate-free list with exactly the same members |
| Crackers.AcceptedMeaning | src/cracker.rs:49-56 | a placement is accepted if and only if every byte it implies is a candidate at key position (index + i) mod the key length |
| Crackers.CheckPlacement | src/cracker.rs:49-60 | the loop with early `break` answers true if and only if every implied key byte is possible |
| Crackers.PlaceWord | src/cracker.rs:62-64 | committing a placement is exactly its `set_value` calls applied in word order; the lists do not change |
| Crackers.DragOffset | src/cracker.rs:49-64 | one offset of the word loop turns the calls of the earlier offsets into the calls of the offsets up to this one |
| Crackers.DragStep | src/cracker.rs:48-65 | one offset extends the calls by its placement when it is accepted and by nothing otherwise |
| Crackers.DragWord | src/cracker.rs:48-65 | dragging one word is exactly the calls of its accepted placements at offsets 0 .. \|contents\| - \|word\| - 1, in order |
| Crackers.CribDrag | src/cracker.rs:47-66 | dragging the word list is exactly the calls of all words in list order; the lists do not change |
| Crackers.CribStep | src/cracker.rs:47-66 | one word of the word loop extends the calls of the earlier words by that word's drag |
| Crackers.WordWritesSound | src/cracker.rs:48-65 | every call of one word's drag comes from an accepted placement at a visited offset |
| Crackers.WordWritesComplete | src/cracker.rs:48-65 | every call of every accepted placement at a visited offset is made |
| Crackers.CribWritesSound | src/cracker.rs:47-66 | every call of the crib drag comes from an accepted placement of a listed word |
| Crackers.CribWritesComplete | src/cracker.rs:47-66 | every call of every accepted placement of a listed word is made |
| Crackers.Crack | src/cracker.rs:39-69 | one duplicate-free list per position whose members are exactly the solver's set; the result is a fresh key over those lists with the crib drag's calls replayed |
| Crackers.CrackSelection | src/cracker.rs:45-66 | an untouched position keeps index 0 and stays uncertain; a touched one is certain and selects the last value written there, a candidate that comes from an accepted placement |
| Crackers.CrackUncertain | src/cracker.rs:45-66 | after the attack a position is uncertain if and only if no accepted placement of any listed word reaches it |

## Left out

- The user interface (`src/ui/`), `src/main.rs`, and the text encodings with their alphabets and word lists (`src/text_encoding.rs`, `src/lib.rs`) are not part of this model. `Crackers.New` takes the alphabet and the words as parameters.
- `Cipher::new` is the datatype constructor `Ciphers.Cipher`.
- `is_decoded`, `is_uncertain`, `is_possible` and `is_error` are plain accessors (predicates). Their meaning is stated through `PotentialKeys.GetPossibilities` and `PotentialKeys.DecodedMeansOnlyCurrent`.
- Panics of the source are turned into preconditions:
  - `encrypt` with an empty key and a non-empty input;
  - `set_value` with an impossible value (the `unwrap` at line 40);
  - `accept_value` with a selection out of range;
  - `crack` with a word longer than the contents (the `usize` subtraction at line 48 underflows);
  - `xor_attack` reading `combinations[&0]` when the alphabet is empty and at least one full block is present.
- `NonZeroUsize` becomes the precondition `keyLength > 0`.
- Machine-integer overflow of `usize` is not modelled. All indices stay below the contents length, and the open-position counter is shown never to underflow.
- Crackers.Enumerate: the order of candidates in each list is left open. The source uses hash-set iteration order, so the contract fixes the members and the absence of duplicates, not the order.
- Crackers.New: the table is built by scanning the byte values in ascending order rather than in hash order. The resulting table does not depend on the visiting order.
- Crackers.Crack: the order within each candidate list is left open, as for `Enumerate`. The selections are stated in terms of list members, not list indices.
