/** The cryptanalysis engine: the combination table, the block-wise narrowing
    of candidate key bytes, and crib-dragging over a word list. */
module Crackers {
  import opened Bytes
  import opened PotentialKeys
  import Ciphers

  /** An XOR difference, the key type of the combination table. */
  datatype Diff = Diff(value: bv8)

  /** A cracker for one text encoding: the combination table built from its
      alphabet and its list of likely words. */
  datatype Cracker = Cracker(combinations: map<Diff, set<bv8>>, words: seq<seq<bv8>>)

  /** Whether byte x is recorded under difference v. */
  predicate InTable(table: map<Diff, set<bv8>>, v: bv8, x: bv8) {
    Diff(v) in table && x in table[Diff(v)]
  }

  /** The table the source builds: every entry is non-empty, and x is recorded
      under v exactly when x and its partner x ^ v are both alphabet bytes. */
  ghost predicate TableOf(table: map<Diff, set<bv8>>, alphabet: set<bv8>) {
    && (forall d :: d in table ==> table[d] != {})
    && (forall v, x :: InTable(table, v, x) <==> x in alphabet && x ^ v in alphabet)
  }

  /** Adds x to the entry of v, creating the entry when it is missing. */
  function Insert(table: map<Diff, set<bv8>>, v: bv8, x: bv8): (r: map<Diff, set<bv8>>)
    ensures forall d :: d in table && table[d] != {} ==> d in r && r[d] != {}
    ensures forall d :: d in r ==> d in table || d == Diff(v)
    ensures Diff(v) in r && r[Diff(v)] != {}
  {
    table[Diff(v) := (if Diff(v) in table then table[Diff(v)] else {}) + {x}]
  }

  /** After inserting x under v, y is recorded under u exactly when it was
      before or (u, y) is the inserted pair. */
  lemma InsertRecords(table: map<Diff, set<bv8>>, v: bv8, x: bv8, u: bv8, y: bv8)
    ensures InTable(Insert(table, v, x), u, y) <==> InTable(table, u, y) || (u == v && y == x)
  {
  }

  /** What the nested loops have recorded once every pair (a, s) with a in
      `firsts` and s in the alphabet, and every pair (first, s) with s in
      `seconds`, has been visited: each pair records both of its bytes. */
  predicate Recorded(alphabet: set<bv8>, firsts: set<bv8>, first: bv8, seconds: set<bv8>, v: bv8, x: bv8) {
    || (x in firsts && x ^ v in alphabet)
    || (x in alphabet && x ^ v in firsts)
    || (x == first && x ^ v in seconds)
    || (x in seconds && x ^ v == first)
  }

  ghost predicate Partial(table: map<Diff, set<bv8>>, alphabet: set<bv8>, firsts: set<bv8>, first: bv8, seconds: set<bv8>) {
    && (forall d :: d in table ==> table[d] != {})
    && (forall v, x :: InTable(table, v, x) <==> Recorded(alphabet, firsts, first, seconds, v, x))
  }

  /** Visiting the pair (first, second) records both bytes under their XOR. */
  lemma InsertPair(table: map<Diff, set<bv8>>, alphabet: set<bv8>, firsts: set<bv8>, first: bv8, seconds: set<bv8>, second: bv8)
    requires Partial(table, alphabet, firsts, first, seconds)
    ensures Partial(Insert(Insert(table, first ^ second, first), first ^ second, second),
                    alphabet, firsts, first, seconds + {second})
  {
    var value := first ^ second;
    var t := Insert(Insert(table, value, first), value, second);
    forall v, x
      ensures InTable(t, v, x) <==> Recorded(alphabet, firsts, first, seconds + {second}, v, x)
    {
      InsertPairAt(table, alphabet, firsts, first, seconds, second, v, x);
    }
  }

  lemma InsertPairAt(table: map<Diff, set<bv8>>, alphabet: set<bv8>, firsts: set<bv8>, first: bv8, seconds: set<bv8>, second: bv8, v: bv8, x: bv8)
    requires InTable(table, v, x) <==> Recorded(alphabet, firsts, first, seconds, v, x)
    ensures InTable(Insert(Insert(table, first ^ second, first), first ^ second, second), v, x)
        <==> Recorded(alphabet, firsts, first, seconds + {second}, v, x)
  {
    var value := first ^ second;
    PairHit(first, second, v, x);
    InsertRecords(table, value, first, v, x);
    InsertRecords(Insert(table, value, first), value, second, v, x);
  }

  /** The pair (first, second) records x under v exactly when v is their XOR
      and x is one of the two. */
  lemma PairHit(first: bv8, second: bv8, v: bv8, x: bv8)
    ensures (x == first && x ^ v == second) <==> (v == first ^ second && x == first)
    ensures (x == second && x ^ v == first) <==> (v == first ^ second && x == second)
  {
  }

  /** Once all seconds are visited, the current first joins the finished firsts. */
  lemma FinishFirst(table: map<Diff, set<bv8>>, alphabet: set<bv8>, firsts: set<bv8>, first: bv8)
    requires Partial(table, alphabet, firsts, first, alphabet)
    requires first in alphabet
    ensures Partial(table, alphabet, firsts + {first}, 0, {})
  {
    forall v, x
      ensures Recorded(alphabet, firsts, first, alphabet, v, x) <==> Recorded(alphabet, firsts + {first}, 0, {}, v, x)
    {
    }
  }

  /** Builds the combination table: for every ordered pair of alphabet bytes,
      both bytes are recorded under their XOR. The words are kept as given. */
  method New(alphabet: set<bv8>, words: seq<seq<bv8>>) returns (c: Cracker)
    ensures c.words == words
    ensures TableOf(c.combinations, alphabet)
  {
    var combinations: map<Diff, set<bv8>> := map[];
    // The source walks the alphabet set in hash order; the table does not depend
    // on the order, so the model walks the byte values 0..255 and skips non-members.
    var done: set<bv8> := {};
    var j := 0;
    while j < 256
      invariant 0 <= j <= 256
      invariant done == alphabet * BytesBelow(j)
      invariant Partial(combinations, alphabet, done, 0, {})
    {
      var first := ToByte(j);
      BytesBelowStep(j);
      if first in alphabet {
        combinations := PairFirst(alphabet, combinations, done, first);
        done := done + {first};
      }
      j := j + 1;
    }
    AllBytesBelow();
    assert done == alphabet;
    c := Cracker(combinations, words);
  }

  /** The inner loop for one first byte: pairs it with every alphabet byte. */
  method PairFirst(alphabet: set<bv8>, table: map<Diff, set<bv8>>, done: set<bv8>, first: bv8)
    returns (combinations: map<Diff, set<bv8>>)
    requires first in alphabet
    requires Partial(table, alphabet, done, 0, {})
    ensures Partial(combinations, alphabet, done + {first}, 0, {})
  {
    combinations := table;
    assert Partial(combinations, alphabet, done, first, {});
    var seen: set<bv8> := {};
    var m := 0;
    while m < 256
      invariant 0 <= m <= 256
      invariant seen == alphabet * BytesBelow(m)
      invariant Partial(combinations, alphabet, done, first, seen)
    {
      var second := ToByte(m);
      BytesBelowStep(m);
      if second in alphabet {
        var value := first ^ second;
        InsertPair(combinations, alphabet, done, first, seen, second);
        combinations := Insert(combinations, value, first);
        combinations := Insert(combinations, value, second);
        seen := seen + {second};
      }
      m := m + 1;
    }
    AllBytesBelow();
    assert seen == alphabet;
    FinishFirst(combinations, alphabet, done, first);
  }

  /** Every ordered pair of alphabet bytes has both of its bytes recorded under
      its XOR. */
  lemma TableSound(table: map<Diff, set<bv8>>, alphabet: set<bv8>, a: bv8, b: bv8)
    requires TableOf(table, alphabet)
    requires a in alphabet && b in alphabet
    ensures Diff(a ^ b) in table
    ensures a in table[Diff(a ^ b)] && b in table[Diff(a ^ b)]
  {
    PairHit(a, b, a ^ b, a);
    PairHit(a, b, a ^ b, b);
    assert InTable(table, a ^ b, a);
    assert InTable(table, a ^ b, b);
  }

  /** Every byte of every entry is an alphabet byte, and the entry of the zero
      difference is exactly the alphabet (present whenever the alphabet is
      non-empty). */
  lemma TableEntries(table: map<Diff, set<bv8>>, alphabet: set<bv8>)
    requires TableOf(table, alphabet)
    ensures forall d, x :: d in table && x in table[d] ==> x in alphabet
    ensures alphabet != {} <==> Diff(0) in table
    ensures Diff(0) in table ==> table[Diff(0)] == alphabet
  {
    forall d, x | d in table && x in table[d]
      ensures x in alphabet
    {
      assert InTable(table, d.value, x);
    }
    if Diff(0) in table {
      forall x ensures x in table[Diff(0)] <==> x in alphabet {
        assert x ^ 0 == x;
        assert InTable(table, 0, x) <==> x in alphabet && x ^ 0 in alphabet;
      }
    } else {
      forall x ensures x !in alphabet {
        assert x ^ 0 == x;
        assert !InTable(table, 0, x);
      }
      assert alphabet == {};
    }
  }

  /** The entry of the zero difference: the only one the solver ever reads. */
  function ZeroEntry(table: map<Diff, set<bv8>>): set<bv8> {
    if Diff(0) in table then table[Diff(0)] else {}
  }

  /** A full block ends inside the contents. */
  lemma BlockFits(b: nat, keyLength: nat, length: nat)
    requires keyLength > 0
    requires b < length / keyLength
    ensures b * keyLength + keyLength <= length
  {
    var q := length / keyLength;
    assert q * keyLength <= length by {
      assert length == q * keyLength + length % keyLength;
    }
    MulMono(b + 1, q, keyLength);
    assert (b + 1) * keyLength == b * keyLength + keyLength;
  }

  lemma MulMono(a: nat, b: nat, k: nat)
    requires a <= b
    ensures a * k <= b * k
  {
  }

  /** Byte p of full block b. */
  function BlockByte(contents: seq<bv8>, keyLength: nat, b: nat, p: nat): bv8
    requires keyLength > 0 && p < keyLength
    requires b < |contents| / keyLength
  {
    BlockFits(b, keyLength, |contents|);
    contents[b * keyLength + p]
  }

  /** The key bytes one block byte c allows: c XOR each byte of the zero entry. */
  function Possibilities(zero: set<bv8>, c: bv8): set<bv8> {
    set x | x in zero :: c ^ x
  }

  /** A key byte k is allowed by c exactly when c ^ k is in the zero entry. */
  lemma PossibilitiesMeaning(zero: set<bv8>, c: bv8, k: bv8)
    ensures k in Possibilities(zero, c) <==> c ^ k in zero
  {
    XorCancel(c, k);
    if c ^ k in zero {
      assert c ^ (c ^ k) in Possibilities(zero, c);
    }
    forall x | x in zero && c ^ x == k
      ensures c ^ k in zero
    {
      XorCancel(c, x);
    }
  }

  lemma XorCancel(a: bv8, b: bv8)
    ensures a ^ (a ^ b) == b
  {
  }

  /** Reference definition of the solver at key position p after n full blocks:
      the set starts with all 256 bytes, is intersected with each block's
      possibilities, and is frozen as soon as it holds at most one byte. */
  function Narrowed(zero: set<bv8>, contents: seq<bv8>, keyLength: nat, p: nat, n: nat): set<bv8>
    requires keyLength > 0 && p < keyLength
    requires n <= |contents| / keyLength
  {
    if n == 0 then AllBytes()
    else
      var previous := Narrowed(zero, contents, keyLength, p, n - 1);
      if |previous| <= 1 then previous
      else previous * Possibilities(zero, BlockByte(contents, keyLength, n - 1, p))
  }

  /** Independent description: the key bytes that turn byte p of each of the
      first m full blocks into a byte of the zero entry. */
  function Consistent(zero: set<bv8>, contents: seq<bv8>, keyLength: nat, p: nat, m: nat): set<bv8>
    requires keyLength > 0 && p < keyLength
    requires m <= |contents| / keyLength
  {
    set k | k in AllBytes() && FitsBlocks(zero, contents, keyLength, p, m, k)
  }

  /** Key byte k turns byte p of each of the first m full blocks into a byte of
      the zero entry. */
  predicate FitsBlocks(zero: set<bv8>, contents: seq<bv8>, keyLength: nat, p: nat, m: nat, k: bv8)
    requires keyLength > 0 && p < keyLength
    requires m <= |contents| / keyLength
  {
    forall b :: 0 <= b < m ==> BlockByte(contents, keyLength, b, p) ^ k in zero
  }

  /** Candidate sets only shrink as more blocks are processed. */
  lemma {:induction false} NarrowedShrinks(zero: set<bv8>, contents: seq<bv8>, keyLength: nat, p: nat, n1: nat, n2: nat)
    requires keyLength > 0 && p < keyLength
    requires n1 <= n2 <= |contents| / keyLength
    ensures Narrowed(zero, contents, keyLength, p, n2) <= Narrowed(zero, contents, keyLength, p, n1)
    decreases n2
  {
    if n1 < n2 {
      NarrowedShrinks(zero, contents, keyLength, p, n1, n2 - 1);
    }
  }

  /** A set with at most one byte is never touched again; in particular a
      singleton never becomes empty. */
  lemma {:induction false} NarrowedFrozen(zero: set<bv8>, contents: seq<bv8>, keyLength: nat, p: nat, n1: nat, n2: nat)
    requires keyLength > 0 && p < keyLength
    requires n1 <= n2 <= |contents| / keyLength
    requires |Narrowed(zero, contents, keyLength, p, n1)| <= 1
    ensures Narrowed(zero, contents, keyLength, p, n2) == Narrowed(zero, contents, keyLength, p, n1)
    decreases n2
  {
    if n1 < n2 {
      NarrowedFrozen(zero, contents, keyLength, p, n1, n2 - 1);
    }
  }

  /** One step of the reference: intersecting the consistent keys of m blocks
      with block m's possibilities gives the consistent keys of m + 1 blocks. */
  lemma ConsistentStep(zero: set<bv8>, contents: seq<bv8>, keyLength: nat, p: nat, m: nat)
    requires keyLength > 0 && p < keyLength
    requires m < |contents| / keyLength
    ensures Consistent(zero, contents, keyLength, p, m + 1)
         == Consistent(zero, contents, keyLength, p, m) * Possibilities(zero, BlockByte(contents, keyLength, m, p))
  {
    forall k
      ensures k in Consistent(zero, contents, keyLength, p, m + 1)
          <==> k in Consistent(zero, contents, keyLength, p, m) && k in Possibilities(zero, BlockByte(contents, keyLength, m, p))
    {
      FitsBlocksStep(zero, contents, keyLength, p, m, k);
      PossibilitiesMeaning(zero, BlockByte(contents, keyLength, m, p), k);
    }
  }

  lemma FitsBlocksStep(zero: set<bv8>, contents: seq<bv8>, keyLength: nat, p: nat, m: nat, k: bv8)
    requires keyLength > 0 && p < keyLength
    requires m < |contents| / keyLength
    ensures FitsBlocks(zero, contents, keyLength, p, m + 1, k)
        <==> FitsBlocks(zero, contents, keyLength, p, m, k) && BlockByte(contents, keyLength, m, p) ^ k in zero
  {
    if FitsBlocks(zero, contents, keyLength, p, m, k) && BlockByte(contents, keyLength, m, p) ^ k in zero {
      forall b | 0 <= b < m + 1
        ensures BlockByte(contents, keyLength, b, p) ^ k in zero
      {
        if b < m {
          assert BlockByte(contents, keyLength, b, p) ^ k in zero;
        }
      }
    }
  }

  /** While a position has more than one candidate it has never been frozen,
      so its candidates are exactly the keys consistent with every block so far. */
  lemma {:induction false} NarrowedOpen(zero: set<bv8>, contents: seq<bv8>, keyLength: nat, p: nat, n: nat)
    requires keyLength > 0 && p < keyLength
    requires n <= |contents| / keyLength
    requires |Narrowed(zero, contents, keyLength, p, n)| > 1
    ensures Narrowed(zero, contents, keyLength, p, n) == Consistent(zero, contents, keyLength, p, n)
    decreases n
  {
    if n > 0 {
      var previous := Narrowed(zero, contents, keyLength, p, n - 1);
      if |previous| > 1 {
        NarrowedOpen(zero, contents, keyLength, p, n - 1);
        ConsistentStep(zero, contents, keyLength, p, n - 1);
      }
    } else {
      assert Consistent(zero, contents, keyLength, p, 0) == AllBytes();
    }
  }

  /** Position p's set after n blocks is the set of keys consistent with the
      first m blocks, and if m is before n it had already shrunk to at most one
      byte, which froze it. */
  predicate FrozenAt(zero: set<bv8>, contents: seq<bv8>, keyLength: nat, p: nat, n: nat, m: nat)
    requires keyLength > 0 && p < keyLength
    requires n <= |contents| / keyLength
  {
    && m <= n
    && Narrowed(zero, contents, keyLength, p, n) == Consistent(zero, contents, keyLength, p, m)
    && (m < n ==> |Consistent(zero, contents, keyLength, p, m)| <= 1)
  }

  /** The solver's set is always the set of keys consistent with the blocks up
      to some freeze point. */
  lemma {:induction false} NarrowedFreezePoint(zero: set<bv8>, contents: seq<bv8>, keyLength: nat, p: nat, n: nat)
    requires keyLength > 0 && p < keyLength
    requires n <= |contents| / keyLength
    ensures exists m :: FrozenAt(zero, contents, keyLength, p, n, m)
    decreases n
  {
    if |Narrowed(zero, contents, keyLength, p, n)| > 1 {
      NarrowedOpen(zero, contents, keyLength, p, n);
      assert FrozenAt(zero, contents, keyLength, p, n, n);
    } else if |Narrowed(zero, contents, keyLength, p, n - 1)| <= 1 {
      NarrowedFreezePoint(zero, contents, keyLength, p, n - 1);
      var m :| FrozenAt(zero, contents, keyLength, p, n - 1, m);
      FreezeCarried(zero, contents, keyLength, p, n, m);
    } else {
      FreezeReached(zero, contents, keyLength, p, n);
    }
  }

  /** A set that was already frozen keeps its freeze point. */
  lemma FreezeCarried(zero: set<bv8>, contents: seq<bv8>, keyLength: nat, p: nat, n: nat, m: nat)
    requires keyLength > 0 && p < keyLength
    requires 0 < n <= |contents| / keyLength
    requires |Narrowed(zero, contents, keyLength, p, n - 1)| <= 1
    requires FrozenAt(zero, contents, keyLength, p, n - 1, m)
    ensures FrozenAt(zero, contents, keyLength, p, n, m)
  {
  }

  /** A set that was open before block n - 1 is the consistent set of n blocks. */
  lemma FreezeReached(zero: set<bv8>, contents: seq<bv8>, keyLength: nat, p: nat, n: nat)
    requires keyLength > 0 && p < keyLength
    requires 0 < n <= |contents| / keyLength
    requires |Narrowed(zero, contents, keyLength, p, n - 1)| > 1
    ensures FrozenAt(zero, contents, keyLength, p, n, n)
  {
    NarrowedOpen(zero, contents, keyLength, p, n - 1);
    ConsistentStep(zero, contents, keyLength, p, n - 1);
  }

  /** With a table built from an alphabet, the zero entry is the alphabet, so
      the consistent keys are those that decode byte p of every block into an
      alphabet byte. */
  lemma ConsistentDecodes(table: map<Diff, set<bv8>>, alphabet: set<bv8>, contents: seq<bv8>, keyLength: nat, p: nat, m: nat, k: bv8)
    requires TableOf(table, alphabet)
    requires keyLength > 0 && p < keyLength
    requires m <= |contents| / keyLength
    ensures k in Consistent(ZeroEntry(table), contents, keyLength, p, m)
        <==> FitsBlocks(alphabet, contents, keyLength, p, m, k)
  {
    TableEntries(table, alphabet);
    assert ZeroEntry(table) == alphabet;
  }

  /** Number of positions that still hold more than one candidate. */
  function Live(key: seq<set<bv8>>): nat
    decreases |key|
  {
    if key == [] then 0
    else Live(key[..|key| - 1]) + (if |key[|key| - 1]| > 1 then 1 else 0)
  }

  lemma {:induction false} LiveUpdate(key: seq<set<bv8>>, p: nat, s: set<bv8>)
    requires p < |key|
    ensures Live(key[p := s]) + (if |key[p]| > 1 then 1 else 0) == Live(key) + (if |s| > 1 then 1 else 0)
    decreases |key|
  {
    var last := |key| - 1;
    if p < last {
      assert key[p := s][..last] == key[..last][p := s];
      LiveUpdate(key[..last], p, s);
    } else {
      assert key[p := s][..last] == key[..last];
    }
  }

  lemma {:induction false} LiveZero(key: seq<set<bv8>>)
    requires Live(key) == 0
    ensures forall p :: 0 <= p < |key| ==> |key[p]| <= 1
    decreases |key|
  {
    if key != [] {
      var last := |key| - 1;
      LiveZero(key[..last]);
      forall p | 0 <= p < last ensures |key[p]| <= 1 {
        assert key[p] == key[..last][p];
      }
    }
  }

  lemma {:induction false} LiveAllOpen(key: seq<set<bv8>>)
    requires forall p :: 0 <= p < |key| ==> |key[p]| > 1
    ensures Live(key) == |key|
    decreases |key|
  {
    if key != [] {
      LiveAllOpen(key[..|key| - 1]);
    }
  }

  /** A residue of an index below the modulus is the index itself. */
  lemma ModBelow(i: nat, n: nat)
    requires i < n
    ensures i % n == i
  {
  }

  /** The intersection the inner loop performs at an open position is the
      reference's next step: the lookup value is the zero difference. */
  lemma NarrowStep(table: map<Diff, set<bv8>>, contents: seq<bv8>, keyLength: nat, iteration: nat, p: nat,
                   value: bv8, possibilities: set<bv8>)
    requires keyLength > 0 && p < keyLength
    requires iteration < |contents| / keyLength
    requires value == 0 && Diff(value) in table
    requires possibilities == set x | x in table[Diff(value)] :: BlockByte(contents, keyLength, iteration, p) ^ x
    requires |Narrowed(ZeroEntry(table), contents, keyLength, p, iteration)| > 1
    ensures Narrowed(ZeroEntry(table), contents, keyLength, p, iteration) * possibilities
         == Narrowed(ZeroEntry(table), contents, keyLength, p, iteration + 1)
  {
    assert possibilities == Possibilities(ZeroEntry(table), BlockByte(contents, keyLength, iteration, p));
  }

  /** When no position is open any more, the positions the inner loop has not
      reached yet already hold their final set for this block. */
  lemma FinishEarly(zero: set<bv8>, contents: seq<bv8>, keyLength: nat, iteration: nat, index: nat, key: seq<set<bv8>>)
    requires keyLength > 0 && index < keyLength && |key| == keyLength
    requires iteration < |contents| / keyLength
    requires Live(key) == 0
    requires forall p :: 0 <= p <= index ==> key[p] == Narrowed(zero, contents, keyLength, p, iteration + 1)
    requires forall p :: index < p < keyLength ==> key[p] == Narrowed(zero, contents, keyLength, p, iteration)
    ensures forall p :: 0 <= p < keyLength ==> key[p] == Narrowed(zero, contents, keyLength, p, iteration + 1)
  {
    LiveZero(key);
    forall p | index < p < keyLength
      ensures key[p] == Narrowed(zero, contents, keyLength, p, iteration + 1)
    {
      NarrowedFrozen(zero, contents, keyLength, p, iteration, iteration + 1);
    }
  }

  /** Block-wise narrowing: returns one candidate set per key position, equal to
      the reference after every full block. A position with at most one
      candidate is skipped, and the scan stops early once every position is
      skipped; `remaining` counts the open positions, so it never underflows. */
  method XorAttack(c: Cracker, contents: seq<bv8>, keyLength: nat) returns (key: seq<set<bv8>>)
    requires keyLength > 0
    requires |contents| < keyLength || Diff(0) in c.combinations
    ensures |key| == keyLength
    ensures forall p :: 0 <= p < keyLength ==>
      key[p] == Narrowed(ZeroEntry(c.combinations), contents, keyLength, p, |contents| / keyLength)
    ensures |contents| < keyLength ==> forall p :: 0 <= p < keyLength ==> key[p] == AllBytes()
  {
    ghost var zero := ZeroEntry(c.combinations);
    var blocks := |contents| / keyLength;
    if |contents| < keyLength {
      DivBelow(|contents|, keyLength);
    }
    var remaining: nat := keyLength;
    key := seq(keyLength, _ => AllBytes());
    LiveAllOpen(key);
    var iteration := 0;
    while iteration < blocks
      invariant 0 <= iteration <= blocks
      invariant |key| == keyLength
      invariant forall p :: 0 <= p < keyLength ==> key[p] == Narrowed(zero, contents, keyLength, p, iteration)
      invariant remaining == Live(key) && remaining > 0
      invariant |contents| < keyLength ==> blocks == 0
    {
      var finished;
      key, remaining, finished := NarrowBlock(c, contents, keyLength, iteration, key, remaining);
      if finished {
        AllFrozen(zero, contents, keyLength, iteration + 1, blocks, key);
        return;
      }
      iteration := iteration + 1;
    }
  }

  lemma DivBelow(a: nat, b: nat)
    requires a < b
    ensures a / b == 0
  {
  }

  /** Once no position is open, the sets are final for all later blocks. */
  lemma AllFrozen(zero: set<bv8>, contents: seq<bv8>, keyLength: nat, n1: nat, n2: nat, key: seq<set<bv8>>)
    requires keyLength > 0 && |key| == keyLength
    requires n1 <= n2 <= |contents| / keyLength
    requires Live(key) == 0
    requires forall p :: 0 <= p < keyLength ==> key[p] == Narrowed(zero, contents, keyLength, p, n1)
    ensures forall p :: 0 <= p < keyLength ==> key[p] == Narrowed(zero, contents, keyLength, p, n2)
  {
    LiveZero(key);
    forall p | 0 <= p < keyLength
      ensures key[p] == Narrowed(zero, contents, keyLength, p, n2)
    {
      assert |key[p]| <= 1;
      NarrowedFrozen(zero, contents, keyLength, p, n1, n2);
    }
  }

  /** One pass of the solver's inner loop over full block `iteration`. It
      reports `finished` when the source returns early: every position then
      holds at most one candidate. */
  method NarrowBlock(c: Cracker, contents: seq<bv8>, keyLength: nat, iteration: nat, key0: seq<set<bv8>>, remaining0: nat)
    returns (key: seq<set<bv8>>, remaining: nat, finished: bool)
    requires keyLength > 0
    requires iteration < |contents| / keyLength
    requires Diff(0) in c.combinations
    requires |key0| == keyLength
    requires forall p :: 0 <= p < keyLength ==>
      key0[p] == Narrowed(ZeroEntry(c.combinations), contents, keyLength, p, iteration)
    requires remaining0 == Live(key0) && remaining0 > 0
    ensures |key| == keyLength
    ensures forall p :: 0 <= p < keyLength ==>
      key[p] == Narrowed(ZeroEntry(c.combinations), contents, keyLength, p, iteration + 1)
    ensures remaining == Live(key)
    ensures finished <==> remaining == 0
  {
    ghost var zero := ZeroEntry(c.combinations);
    key, remaining, finished := key0, remaining0, false;
    BlockFits(iteration, keyLength, |contents|);
    var chunk := contents[iteration * keyLength .. iteration * keyLength + keyLength];
    var index := 0;
    while index < keyLength
      invariant 0 <= index <= keyLength
      invariant |key| == keyLength
      invariant forall p :: 0 <= p < index ==> key[p] == Narrowed(zero, contents, keyLength, p, iteration + 1)
      invariant forall p :: index <= p < keyLength ==> key[p] == Narrowed(zero, contents, keyLength, p, iteration)
      invariant remaining == Live(key) && remaining > 0
      invariant !finished
    {
      var processed;
      key, remaining, processed := NarrowPosition(c, contents, keyLength, iteration, chunk, index, key, remaining);
      if processed && remaining == 0 {
        FinishEarly(zero, contents, keyLength, iteration, index, key);
        finished := true;
        return;
      }
      index := index + 1;
    }
  }

  /** The loop body at byte `index` of the block: a position holding at most one
      candidate is skipped; otherwise its set is intersected with the keys the
      table entry allows, and `remaining` drops when the set closes. */
  method NarrowPosition(c: Cracker, contents: seq<bv8>, keyLength: nat, iteration: nat, chunk: seq<bv8>,
                        index: nat, key0: seq<set<bv8>>, remaining0: nat)
    returns (key: seq<set<bv8>>, remaining: nat, processed: bool)
    requires keyLength > 0 && index < keyLength
    requires iteration < |contents| / keyLength
    requires Diff(0) in c.combinations
    requires |chunk| == keyLength
    requires forall p :: 0 <= p < keyLength ==> chunk[p] == BlockByte(contents, keyLength, iteration, p)
    requires |key0| == keyLength
    requires key0[index] == Narrowed(ZeroEntry(c.combinations), contents, keyLength, index, iteration)
    requires remaining0 == Live(key0)
    ensures |key| == keyLength
    ensures key[index] == Narrowed(ZeroEntry(c.combinations), contents, keyLength, index, iteration + 1)
    ensures forall p :: 0 <= p < keyLength && p != index ==> key[p] == key0[p]
    ensures remaining == Live(key)
    ensures !processed ==> remaining == remaining0
  {
    ModBelow(index, keyLength);
    var position := index % keyLength;
    if |key0[position]| <= 1 {
      return key0, remaining0, false;
    }
    var value := chunk[index] ^ chunk[position];
    var possibilities := set x | x in c.combinations[Diff(value)] :: chunk[position] ^ x;
    var narrowed := key0[position] * possibilities;
    NarrowStep(c.combinations, contents, keyLength, iteration, position, value, possibilities);
    LiveUpdate(key0, position, narrowed);
    key := key0[position := narrowed];
    remaining := remaining0;
    if |key[position]| <= 1 {
      remaining := remaining - 1;
    }
    processed := true;
  }

  /** The set_value calls one placement of `word` at offset `index` issues:
      byte i of the word fixes key position (index + i) mod keyLength to the
      byte that decrypts contents[index + i] into word[i]. */
  function PlacementWrites(word: seq<bv8>, contents: seq<bv8>, keyLength: nat, index: nat): seq<Selection>
    requires keyLength > 0
    requires index + |word| <= |contents|
  {
    seq(|word|, i requires 0 <= i < |word| =>
      Selection((index + i) % keyLength, word[i] ^ contents[index + i]))
  }

  /** A placement is accepted when every call it would make is legal, that
      is, when every key byte it implies is still a candidate at its position
      (AcceptedMeaning). */
  predicate Accepted(lists: seq<seq<bv8>>, word: seq<bv8>, contents: seq<bv8>, keyLength: nat, index: nat)
    requires keyLength > 0 && |lists| == keyLength
    requires index + |word| <= |contents|
  {
    Admissible(lists, PlacementWrites(word, contents, keyLength, index))
  }

  lemma AcceptedMeaning(lists: seq<seq<bv8>>, word: seq<bv8>, contents: seq<bv8>, keyLength: nat, index: nat)
    requires keyLength > 0 && |lists| == keyLength
    requires index + |word| <= |contents|
    ensures Accepted(lists, word, contents, keyLength, index) <==>
      forall i :: 0 <= i < |word| ==> word[i] ^ contents[index + i] in lists[(index + i) % keyLength]
  {
    var ws := PlacementWrites(word, contents, keyLength, index);
    forall i | 0 <= i < |word|
      ensures ws[i] == Selection((index + i) % keyLength, word[i] ^ contents[index + i])
    {
      PlacementAt(word, contents, keyLength, index, i);
    }
  }

  /** The calls of one word at offsets 0 .. n - 1, in order: an accepted
      placement contributes all of its calls, a rejected one none. */
  function WordWrites(lists: seq<seq<bv8>>, word: seq<bv8>, contents: seq<bv8>, keyLength: nat, n: nat): (ws: seq<Selection>)
    requires keyLength > 0 && |lists| == keyLength
    requires n + |word| <= |contents|
    ensures Admissible(lists, ws)
  {
    if n == 0 then []
    else
      var before := WordWrites(lists, word, contents, keyLength, n - 1);
      var here := if Accepted(lists, word, contents, keyLength, n - 1)
                  then PlacementWrites(word, contents, keyLength, n - 1) else [];
      before + here
  }

  /** Every word is at most as long as the contents (a longer word makes the
      source's offset range underflow). */
  predicate WordsFit(words: seq<seq<bv8>>, contents: seq<bv8>) {
    forall j :: 0 <= j < |words| ==> |words[j]| <= |contents|
  }

  /** All calls of the crib drag: the words in list order, each at offsets
      0 .. |contents| - |word| - 1. They depend only on the candidate lists. */
  function CribWrites(lists: seq<seq<bv8>>, words: seq<seq<bv8>>, contents: seq<bv8>, keyLength: nat): (ws: seq<Selection>)
    requires keyLength > 0 && |lists| == keyLength
    requires WordsFit(words, contents)
    ensures Admissible(lists, ws)
    decreases |words|
  {
    if words == [] then []
    else
      var word := words[|words| - 1];
      CribWrites(lists, words[..|words| - 1], contents, keyLength)
        + WordWrites(lists, word, contents, keyLength, |contents| - |word|)
  }

  /** The consistency check of one placement; it stops at the first byte that
      is not a candidate. */
  method CheckPlacement(pk: PotentialKey, word: seq<bv8>, contents: seq<bv8>, keyLength: nat, index: nat)
    returns (possible: bool)
    requires WellFormed(pk) && |pk.key| == keyLength && keyLength > 0
    requires index + |word| <= |contents|
    ensures possible <==> forall i :: 0 <= i < |word| ==>
      IsPossible(pk, (index + i) % keyLength, word[i] ^ contents[index + i])
    ensures possible == Accepted(pk.key, word, contents, keyLength, index)
  {
    possible := true;
    var i := 0;
    while i < |word|
      invariant 0 <= i <= |word|
      invariant possible
      invariant forall j :: 0 <= j < i ==> IsPossible(pk, (index + j) % keyLength, word[j] ^ contents[index + j])
    {
      if !IsPossible(pk, (index + i) % keyLength, word[i] ^ contents[index + i]) {
        possible := false;
        break;
      }
      i := i + 1;
    }
    AcceptedMeaning(pk.key, word, contents, keyLength, index);
  }

  /** Commits an accepted placement: one SetValue per byte of the word. */
  method PlaceWord(pk: PotentialKey, word: seq<bv8>, contents: seq<bv8>, keyLength: nat, index: nat)
    returns (r: PotentialKey)
    requires WellFormed(pk) && |pk.key| == keyLength && keyLength > 0
    requires index + |word| <= |contents|
    requires Accepted(pk.key, word, contents, keyLength, index)
    ensures r.key == pk.key
    ensures r == ApplyWrites(pk, PlacementWrites(word, contents, keyLength, index))
  {
    ghost var ws := PlacementWrites(word, contents, keyLength, index);
    PlaceStart(pk, ws);
    r := pk;
    var i := 0;
    while i < |word|
      invariant 0 <= i <= |word|
      invariant Admissible(pk.key, ws[..i])
      invariant r == ApplyWrites(pk, ws[..i])
    {
      PlacementAt(word, contents, keyLength, index, i);
      ApplyWritesStep(pk, ws, i);
      r := SetValue(r, (index + i) % keyLength, word[i] ^ contents[index + i]);
      i := i + 1;
    }
    assert ws[..|word|] == ws;
  }

  /** The i-th call of a placement writes the i-th byte of the word. */
  lemma PlacementAt(word: seq<bv8>, contents: seq<bv8>, keyLength: nat, index: nat, i: nat)
    requires keyLength > 0
    requires index + |word| <= |contents|
    requires i < |word|
    ensures PlacementWrites(word, contents, keyLength, index)[i]
            == Selection((index + i) % keyLength, word[i] ^ contents[index + i])
  {
  }

  /** Before the first call nothing has been written. */
  lemma PlaceStart(pk: PotentialKey, ws: seq<Selection>)
    requires WellFormed(pk) && Admissible(pk.key, ws)
    ensures Admissible(pk.key, ws[..0])
    ensures pk == ApplyWrites(pk, ws[..0])
  {
    assert ws[..0] == [];
  }

  /** Slides one word over offsets 0 .. |contents| - |word| - 1. */
  method DragWord(pk: PotentialKey, word: seq<bv8>, contents: seq<bv8>, keyLength: nat)
    returns (r: PotentialKey)
    requires WellFormed(pk) && |pk.key| == keyLength && keyLength > 0
    requires |word| <= |contents|
    ensures r.key == pk.key
    ensures r == ApplyWrites(pk, WordWrites(pk.key, word, contents, keyLength, |contents| - |word|))
  {
    r := pk;
    var index := 0;
    while index < |contents| - |word|
      invariant 0 <= index <= |contents| - |word|
      invariant r == ApplyWrites(pk, WordWrites(pk.key, word, contents, keyLength, index))
    {
      r := DragOffset(pk, r, word, contents, keyLength, index);
      index := index + 1;
    }
  }

  /** The body of the word loop at one offset: check the placement and commit
      it when every implied byte is possible. */
  method DragOffset(pk: PotentialKey, r: PotentialKey, word: seq<bv8>, contents: seq<bv8>, keyLength: nat, index: nat)
    returns (next: PotentialKey)
    requires WellFormed(pk) && |pk.key| == keyLength && keyLength > 0
    requires index + |word| < |contents|
    requires r == ApplyWrites(pk, WordWrites(pk.key, word, contents, keyLength, index))
    ensures next == ApplyWrites(pk, WordWrites(pk.key, word, contents, keyLength, index + 1))
  {
    assert WellFormed(r) && r.key == pk.key;
    var possible := CheckPlacement(r, word, contents, keyLength, index);
    if possible {
      next := PlaceWord(r, word, contents, keyLength, index);
    } else {
      next := r;
    }
    DragStep(pk, word, contents, keyLength, index, r, next);
  }

  /** One offset of the word loop extends the calls by this offset's placement
      when it is accepted and by nothing otherwise. */
  lemma DragStep(pk: PotentialKey, word: seq<bv8>, contents: seq<bv8>, keyLength: nat, index: nat,
                 previous: PotentialKey, next: PotentialKey)
    requires WellFormed(pk) && |pk.key| == keyLength && keyLength > 0
    requires index + |word| < |contents|
    requires previous == ApplyWrites(pk, WordWrites(pk.key, word, contents, keyLength, index))
    requires Accepted(pk.key, word, contents, keyLength, index) ==>
      next == ApplyWrites(previous, PlacementWrites(word, contents, keyLength, index))
    requires !Accepted(pk.key, word, contents, keyLength, index) ==> next == previous
    ensures next == ApplyWrites(pk, WordWrites(pk.key, word, contents, keyLength, index + 1))
  {
    var before := WordWrites(pk.key, word, contents, keyLength, index);
    var here := if Accepted(pk.key, word, contents, keyLength, index)
                then PlacementWrites(word, contents, keyLength, index) else [];
    assert WordWrites(pk.key, word, contents, keyLength, index + 1) == before + here;
    ApplyWritesAppend(pk, before, here);
  }

  /** Slides every word of the list, in order. */
  method CribDrag(pk: PotentialKey, words: seq<seq<bv8>>, contents: seq<bv8>, keyLength: nat)
    returns (r: PotentialKey)
    requires WellFormed(pk) && |pk.key| == keyLength && keyLength > 0
    requires WordsFit(words, contents)
    ensures r.key == pk.key
    ensures r == ApplyWrites(pk, CribWrites(pk.key, words, contents, keyLength))
  {
    r := pk;
    var j := 0;
    assert words[..0] == [];
    while j < |words|
      invariant 0 <= j <= |words|
      invariant WordsFit(words[..j], contents)
      invariant r.key == pk.key
      invariant r == ApplyWrites(pk, CribWrites(pk.key, words[..j], contents, keyLength))
    {
      ghost var previous := r;
      r := DragWord(r, words[j], contents, keyLength);
      CribStep(pk, words, contents, keyLength, j, previous, r);
      j := j + 1;
    }
    assert words[..|words|] == words;
  }

  lemma WordsFitPrefix(words: seq<seq<bv8>>, contents: seq<bv8>, n: nat)
    requires WordsFit(words, contents) && n <= |words|
    ensures WordsFit(words[..n], contents)
  {
    forall m | 0 <= m < n ensures |words[..n][m]| <= |contents| {
      assert words[..n][m] == words[m];
    }
  }

  /** The calls of the first j + 1 words are those of the first j words
      followed by word j's drag. */
  lemma CribWritesPrefix(lists: seq<seq<bv8>>, words: seq<seq<bv8>>, contents: seq<bv8>, keyLength: nat, j: nat)
    requires keyLength > 0 && |lists| == keyLength
    requires WordsFit(words, contents) && j < |words|
    ensures WordsFit(words[..j], contents) && WordsFit(words[..j + 1], contents)
    ensures CribWrites(lists, words[..j + 1], contents, keyLength)
      == CribWrites(lists, words[..j], contents, keyLength)
         + WordWrites(lists, words[j], contents, keyLength, |contents| - |words[j]|)
  {
    var prefix := words[..j + 1];
    WordsFitPrefix(words, contents, j);
    WordsFitPrefix(words, contents, j + 1);
    assert prefix[..j] == words[..j];
    assert prefix[j] == words[j];
    CribWritesUnfold(lists, prefix, contents, keyLength);
  }

  /** One word of the word loop extends the calls by that word's drag. */
  lemma CribStep(pk: PotentialKey, words: seq<seq<bv8>>, contents: seq<bv8>, keyLength: nat, j: nat,
                 previous: PotentialKey, next: PotentialKey)
    requires WellFormed(pk) && |pk.key| == keyLength && keyLength > 0
    requires WordsFit(words, contents) && j < |words|
    requires WordsFit(words[..j], contents)
    requires previous == ApplyWrites(pk, CribWrites(pk.key, words[..j], contents, keyLength))
    requires next == ApplyWrites(previous, WordWrites(pk.key, words[j], contents, keyLength, |contents| - |words[j]|))
    ensures WordsFit(words[..j + 1], contents)
    ensures next == ApplyWrites(pk, CribWrites(pk.key, words[..j + 1], contents, keyLength))
  {
    var before := CribWrites(pk.key, words[..j], contents, keyLength);
    var here := WordWrites(pk.key, words[j], contents, keyLength, |contents| - |words[j]|);
    CribWritesPrefix(pk.key, words, contents, keyLength, j);
    ApplyWritesAppend(pk, before, here);
  }

  /** Collects a candidate set into a list without repetitions. The source's
      order is the set's hash order, which the contracts leave open. */
  method Enumerate(s: set<bv8>) returns (xs: seq<bv8>)
    ensures Distinct(xs)
    ensures forall v :: v in xs <==> v in s
  {
    xs := [];
    var j := 0;
    while j < 256
      invariant 0 <= j <= 256
      invariant Distinct(xs)
      invariant forall v :: v in xs <==> v in s && v in BytesBelow(j)
    {
      var v := ToByte(j);
      BytesBelowStep(j);
      if v in s && v !in xs {
        xs := xs + [v];
      }
      j := j + 1;
    }
    AllBytesBelow();
  }

  /** The whole attack: narrow per position, turn the sets into candidate
      lists, then crib-drag the word list over the contents. */
  method Crack(c: Cracker, contents: seq<bv8>, keyLength: nat) returns (pk: PotentialKey)
    requires keyLength > 0
    requires |contents| < keyLength || Diff(0) in c.combinations
    requires WordsFit(c.words, contents)
    ensures WellFormed(pk) && |pk.key| == keyLength
    ensures forall p :: 0 <= p < keyLength ==> Distinct(pk.key[p])
    ensures forall p, v :: 0 <= p < keyLength ==>
      (v in pk.key[p] <==> v in Narrowed(ZeroEntry(c.combinations), contents, keyLength, p, |contents| / keyLength))
    ensures pk == ApplyWrites(PotentialKeys.New(pk.key), CribWrites(pk.key, c.words, contents, keyLength))
  {
    var sets := XorAttack(c, contents, keyLength);
    var lists: seq<seq<bv8>> := [];
    var p := 0;
    while p < keyLength
      invariant 0 <= p <= keyLength
      invariant |lists| == p
      invariant forall q :: 0 <= q < p ==> Distinct(lists[q])
      invariant forall q, v :: 0 <= q < p ==> (v in lists[q] <==> v in sets[q])
    {
      var list := Enumerate(sets[p]);
      lists := lists + [list];
      p := p + 1;
    }
    pk := PotentialKeys.New(lists);
    pk := CribDrag(pk, c.words, contents, keyLength);
  }

  /** Selection w is one of the calls of an accepted placement of some listed
      word at an offset the drag visits. */
  ghost predicate FromPlacement(lists: seq<seq<bv8>>, words: seq<seq<bv8>>, contents: seq<bv8>, keyLength: nat, w: Selection)
    requires keyLength > 0 && |lists| == keyLength
  {
    exists j: nat, index: nat, i: nat ::
      && j < |words| && index + |words[j]| < |contents| && i < |words[j]|
      && Accepted(lists, words[j], contents, keyLength, index)
      && PlacementWrites(words[j], contents, keyLength, index)[i] == w
  }

  /** The drag of one word at offsets 0 .. n - 1 extends the drag at offsets
      0 .. n - 2 by the placement at n - 1 when that placement is accepted. */
  lemma WordWritesUnfold(lists: seq<seq<bv8>>, word: seq<bv8>, contents: seq<bv8>, keyLength: nat, n: nat)
    requires keyLength > 0 && |lists| == keyLength
    requires 0 < n && n + |word| <= |contents|
    ensures Accepted(lists, word, contents, keyLength, n - 1) ==>
      WordWrites(lists, word, contents, keyLength, n)
        == WordWrites(lists, word, contents, keyLength, n - 1) + PlacementWrites(word, contents, keyLength, n - 1)
    ensures !Accepted(lists, word, contents, keyLength, n - 1) ==>
      WordWrites(lists, word, contents, keyLength, n) == WordWrites(lists, word, contents, keyLength, n - 1)
  {
  }

  /** Every call of one word's drag belongs to an accepted placement at an
      offset the drag visited; the placement is returned. */
  lemma {:induction false} WordWritesSound(lists: seq<seq<bv8>>, word: seq<bv8>, contents: seq<bv8>, keyLength: nat, n: nat, k: nat)
    returns (index: nat, i: nat)
    requires keyLength > 0 && |lists| == keyLength
    requires n + |word| <= |contents|
    requires k < |WordWrites(lists, word, contents, keyLength, n)|
    ensures index < n && i < |word|
    ensures Accepted(lists, word, contents, keyLength, index)
    ensures PlacementWrites(word, contents, keyLength, index)[i] == WordWrites(lists, word, contents, keyLength, n)[k]
  {
    var before := WordWrites(lists, word, contents, keyLength, n - 1);
    WordWritesUnfold(lists, word, contents, keyLength, n);
    if k < |before| {
      index, i := WordWritesSound(lists, word, contents, keyLength, n - 1, k);
    } else {
      index, i := n - 1, k - |before|;
    }
  }

  /** Every call of an accepted placement at an offset below n is part of the
      drag at offsets 0 .. n - 1; its place there is returned. */
  lemma {:induction false} WordWritesComplete(lists: seq<seq<bv8>>, word: seq<bv8>, contents: seq<bv8>, keyLength: nat, n: nat, index: nat, i: nat)
    returns (k: nat)
    requires keyLength > 0 && |lists| == keyLength
    requires n + |word| <= |contents|
    requires index < n && i < |word|
    requires Accepted(lists, word, contents, keyLength, index)
    ensures k < |WordWrites(lists, word, contents, keyLength, n)|
    ensures WordWrites(lists, word, contents, keyLength, n)[k] == PlacementWrites(word, contents, keyLength, index)[i]
  {
    var before := WordWrites(lists, word, contents, keyLength, n - 1);
    WordWritesUnfold(lists, word, contents, keyLength, n);
    if index < n - 1 {
      k := WordWritesComplete(lists, word, contents, keyLength, n - 1, index, i);
    } else {
      k := |before| + i;
    }
  }

  /** The crib drag over all words extends the drag over all but the last
      word by the last word's drag. */
  lemma CribWritesUnfold(lists: seq<seq<bv8>>, words: seq<seq<bv8>>, contents: seq<bv8>, keyLength: nat)
    requires keyLength > 0 && |lists| == keyLength
    requires WordsFit(words, contents) && words != []
    ensures WordsFit(words[..|words| - 1], contents)
    ensures CribWrites(lists, words, contents, keyLength)
      == CribWrites(lists, words[..|words| - 1], contents, keyLength)
         + WordWrites(lists, words[|words| - 1], contents, keyLength, |contents| - |words[|words| - 1]|)
  {
    var prefix := words[..|words| - 1];
    forall j | 0 <= j < |prefix| ensures |prefix[j]| <= |contents| {
      assert prefix[j] == words[j];
    }
  }

  /** Soundness of the crib drag: every call it makes belongs to an accepted
      placement of a listed word; the word and the placement are returned. */
  lemma {:induction false} CribWritesSound(lists: seq<seq<bv8>>, words: seq<seq<bv8>>, contents: seq<bv8>, keyLength: nat, k: nat)
    returns (j: nat, index: nat, i: nat)
    requires keyLength > 0 && |lists| == keyLength
    requires WordsFit(words, contents)
    requires k < |CribWrites(lists, words, contents, keyLength)|
    ensures j < |words| && index + |words[j]| < |contents| && i < |words[j]|
    ensures Accepted(lists, words[j], contents, keyLength, index)
    ensures PlacementWrites(words[j], contents, keyLength, index)[i] == CribWrites(lists, words, contents, keyLength)[k]
    decreases |words|
  {
    var last := |words| - 1;
    var word := words[last];
    CribWritesUnfold(lists, words, contents, keyLength);
    var before := CribWrites(lists, words[..last], contents, keyLength);
    if k < |before| {
      j, index, i := CribWritesSound(lists, words[..last], contents, keyLength, k);
      assert words[..last][j] == words[j];
    } else {
      j := last;
      index, i := WordWritesSound(lists, word, contents, keyLength, |contents| - |word|, k - |before|);
    }
  }

  /** Completeness of the crib drag: every call of every accepted placement of
      a listed word is made; its place in the calls is returned. */
  lemma {:induction false} CribWritesComplete(lists: seq<seq<bv8>>, words: seq<seq<bv8>>, contents: seq<bv8>, keyLength: nat,
                                              j: nat, index: nat, i: nat)
    returns (k: nat)
    requires keyLength > 0 && |lists| == keyLength
    requires WordsFit(words, contents)
    requires j < |words| && index + |words[j]| < |contents| && i < |words[j]|
    requires Accepted(lists, words[j], contents, keyLength, index)
    ensures k < |CribWrites(lists, words, contents, keyLength)|
    ensures CribWrites(lists, words, contents, keyLength)[k] == PlacementWrites(words[j], contents, keyLength, index)[i]
    decreases |words|
  {
    var last := |words| - 1;
    CribWritesUnfold(lists, words, contents, keyLength);
    var before := CribWrites(lists, words[..last], contents, keyLength);
    var after := WordWrites(lists, words[last], contents, keyLength, |contents| - |words[last]|);
    if j < last {
      assert words[..last][j] == words[j];
      k := CribWritesComplete(lists, words[..last], contents, keyLength, j, index, i);
      ConcatAt(before, after, k);
    } else {
      var m := WordWritesComplete(lists, words[last], contents, keyLength, |contents| - |words[last]|, index, i);
      k := |before| + m;
      ConcatAt(before, after, k);
    }
  }

  lemma ConcatAt<T>(a: seq<T>, b: seq<T>, k: nat)
    requires k < |a| + |b|
    ensures k < |a| ==> (a + b)[k] == a[k]
    ensures |a| <= k ==> (a + b)[k] == b[k - |a|]
  {
  }

  /** What the attack selects at position q: a position no accepted placement
      touches keeps its first candidate and stays uncertain; any other position
      selects the byte of the last accepted placement that touches it, which is
      a candidate there, and is no longer uncertain. */
  lemma CrackSelection(c: Cracker, contents: seq<bv8>, keyLength: nat, pk: PotentialKey, q: nat)
    requires keyLength > 0 && WordsFit(c.words, contents)
    requires WellFormed(pk) && |pk.key| == keyLength && q < keyLength
    requires pk == ApplyWrites(PotentialKeys.New(pk.key), CribWrites(pk.key, c.words, contents, keyLength))
    ensures LastWrite(CribWrites(pk.key, c.words, contents, keyLength), q).None? ==>
      pk.positions[q] == 0 && IsUncertain(pk, q)
    ensures LastWrite(CribWrites(pk.key, c.words, contents, keyLength), q).Some? ==>
      && !IsUncertain(pk, q)
      && CurrentKey(pk)[q] == LastWrite(CribWrites(pk.key, c.words, contents, keyLength), q).value
      && IsPossible(pk, q, CurrentKey(pk)[q])
      && FromPlacement(pk.key, c.words, contents, keyLength, Selection(q, CurrentKey(pk)[q]))
  {
    var ws := CribWrites(pk.key, c.words, contents, keyLength);
    ApplyWritesLastWins(PotentialKeys.New(pk.key), ws, q);
    if LastWrite(ws, q).Some? {
      var k := LastWriteAt(ws, q);
      var j, index, i := CribWritesSound(pk.key, c.words, contents, keyLength, k);
    }
  }

  /** Some accepted placement of a listed word writes key position q. */
  ghost predicate Touched(lists: seq<seq<bv8>>, words: seq<seq<bv8>>, contents: seq<bv8>, keyLength: nat, q: nat)
    requires keyLength > 0 && |lists| == keyLength
  {
    exists j: nat, index: nat, i: nat ::
      && j < |words| && index + |words[j]| < |contents| && i < |words[j]|
      && Accepted(lists, words[j], contents, keyLength, index)
      && PlacementWrites(words[j], contents, keyLength, index)[i].index == q
  }

  /** After the attack a position is still uncertain exactly when no accepted
      placement of any listed word reaches it. */
  lemma CrackUncertain(c: Cracker, contents: seq<bv8>, keyLength: nat, pk: PotentialKey, q: nat)
    requires keyLength > 0 && WordsFit(c.words, contents)
    requires WellFormed(pk) && |pk.key| == keyLength && q < keyLength
    requires pk == ApplyWrites(PotentialKeys.New(pk.key), CribWrites(pk.key, c.words, contents, keyLength))
    ensures IsUncertain(pk, q) <==> !Touched(pk.key, c.words, contents, keyLength, q)
  {
    var ws := CribWrites(pk.key, c.words, contents, keyLength);
    CrackSelection(c, contents, keyLength, pk, q);
    LastWriteNone(ws, q);
    if Touched(pk.key, c.words, contents, keyLength, q) {
      var j: nat, index: nat, i: nat :|
        && j < |c.words| && index + |c.words[j]| < |contents| && i < |c.words[j]|
        && Accepted(pk.key, c.words[j], contents, keyLength, index)
        && PlacementWrites(c.words[j], contents, keyLength, index)[i].index == q;
      var k := CribWritesComplete(pk.key, c.words, contents, keyLength, j, index, i);
      assert ws[k].index == q;
    } else {
      forall k | 0 <= k < |ws| ensures ws[k].index != q {
        var j, index, i := CribWritesSound(pk.key, c.words, contents, keyLength, k);
      }
    }
  }

  /** Byte p of every full block is encrypted with key byte p. */
  lemma {:induction false} BlockResidue(b: nat, keyLength: nat, p: nat)
    requires p < keyLength
    ensures (b * keyLength + p) % keyLength == p
    decreases b
  {
    if b == 0 {
      ModBelow(p, keyLength);
    } else {
      BlockResidue(b - 1, keyLength, p);
      Ciphers.ModShift((b - 1) * keyLength + p, keyLength);
      assert (b - 1) * keyLength + p + keyLength == b * keyLength + p;
    }
  }

  /** The true key byte decodes byte p of every full block of a ciphertext
      whose plaintext is written in the alphabet. */
  lemma TrueKeyFits(alphabet: set<bv8>, key: seq<bv8>, plain: seq<bv8>, p: nat, m: nat)
    requires |key| > 0 && p < |key|
    requires forall i :: 0 <= i < |plain| ==> plain[i] in alphabet
    requires m <= |plain| / |key|
    ensures FitsBlocks(alphabet, Ciphers.XorWith(key, plain), |key|, p, m, key[p])
  {
    forall b | 0 <= b < m
      ensures BlockByte(Ciphers.XorWith(key, plain), |key|, b, p) ^ key[p] in alphabet
    {
      BlockFits(b, |key|, |plain|);
      assert plain[b * |key| + p] in alphabet;
      TrueKeyBlock(alphabet, key, plain, p, b);
    }
  }

  lemma TrueKeyBlock(alphabet: set<bv8>, key: seq<bv8>, plain: seq<bv8>, p: nat, b: nat)
    requires |key| > 0 && p < |key|
    requires b < |plain| / |key|
    requires b * |key| + p < |plain| && plain[b * |key| + p] in alphabet
    ensures BlockByte(Ciphers.XorWith(key, plain), |key|, b, p) ^ key[p] in alphabet
  {
    CipherBlockByte(key, plain, p, b);
    XorUndo(plain[b * |key| + p], key[p]);
  }

  /** Byte p of full block b of the ciphertext is the plaintext byte XOR key
      byte p. */
  lemma CipherBlockByte(key: seq<bv8>, plain: seq<bv8>, p: nat, b: nat)
    requires |key| > 0 && p < |key|
    requires b < |plain| / |key|
    requires b * |key| + p < |plain|
    ensures BlockByte(Ciphers.XorWith(key, plain), |key|, b, p) == plain[b * |key| + p] ^ key[p]
  {
    assert BlockByte(Ciphers.XorWith(key, plain), |key|, b, p) == Ciphers.XorWith(key, plain)[b * |key| + p];
    CipherAt(key, plain, p, b);
  }

  lemma CipherAt(key: seq<bv8>, plain: seq<bv8>, p: nat, b: nat)
    requires |key| > 0 && p < |key|
    requires b * |key| + p < |plain|
    ensures Ciphers.XorWith(key, plain)[b * |key| + p] == plain[b * |key| + p] ^ key[p]
  {
    BlockResidue(b, |key|, p);
  }

  lemma XorUndo(a: bv8, b: bv8)
    ensures (a ^ b) ^ b == a
  {
  }


  /** The solver never loses the true key: when the contents are a plaintext
      over the alphabet encrypted with a repeating key of the guessed length,
      the key byte stays a candidate at its position after every block, and a
      position narrowed to a single candidate holds exactly the key byte. */
  lemma TrueKeySurvives(table: map<Diff, set<bv8>>, alphabet: set<bv8>, key: seq<bv8>, plain: seq<bv8>, p: nat, n: nat)
    requires TableOf(table, alphabet)
    requires |key| > 0 && p < |key|
    requires forall i :: 0 <= i < |plain| ==> plain[i] in alphabet
    requires n <= |plain| / |key|
    ensures key[p] in Narrowed(ZeroEntry(table), Ciphers.XorWith(key, plain), |key|, p, n)
    ensures |Narrowed(ZeroEntry(table), Ciphers.XorWith(key, plain), |key|, p, n)| == 1 ==>
      Narrowed(ZeroEntry(table), Ciphers.XorWith(key, plain), |key|, p, n) == {key[p]}
  {
    var contents := Ciphers.XorWith(key, plain);
    var zero := ZeroEntry(table);
    NarrowedFreezePoint(zero, contents, |key|, p, n);
    var m :| FrozenAt(zero, contents, |key|, p, n, m);
    TrueKeyFits(alphabet, key, plain, p, m);
    ConsistentDecodes(table, alphabet, contents, |key|, p, m, key[p]);
    AllBytesHas(key[p]);
    var s := Narrowed(zero, contents, |key|, p, n);
    if |s| == 1 {
      SingletonHas(s, key[p]);
    }
  }

  lemma AllBytesHas(k: bv8)
    ensures k in AllBytes()
  {
  }

  /** A one-element set holding k is {k}. */
  lemma SingletonHas(s: set<bv8>, k: bv8)
    requires |s| == 1 && k in s
    ensures s == {k}
  {
    assert |s - {k}| == 0;
  }
}
