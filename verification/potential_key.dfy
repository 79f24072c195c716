/** The per-position key state the cracker hands to its caller: for every key
    position a list of candidate bytes, the index of the selected candidate,
    and whether the position is still unconfirmed. */
module PotentialKeys {
  import opened Bytes

  datatype PotentialKey = PotentialKey(key: seq<seq<bv8>>, positions: seq<nat>, uncertain: seq<bool>)

  /** The three vectors always have one entry per key position. */
  predicate WellFormed(pk: PotentialKey) {
    |pk.positions| == |pk.key| && |pk.uncertain| == |pk.key|
  }

  /** Every position that still has candidates selects one of them. */
  predicate SelectionInRange(pk: PotentialKey) {
    && WellFormed(pk)
    && forall i :: 0 <= i < |pk.key| && pk.key[i] != [] ==> pk.positions[i] < |pk.key[i]|
  }

  /** Creation keeps the candidate lists, selects the first candidate of every
      position and marks every position uncertain. */
  function New(key: seq<seq<bv8>>): (pk: PotentialKey)
    ensures WellFormed(pk)
    ensures pk.key == key
    ensures forall i :: 0 <= i < |key| ==> pk.positions[i] == 0 && IsUncertain(pk, i)
  {
    PotentialKey(key, seq(|key|, _ => 0), seq(|key|, _ => true))
  }

  /** The key materialised from the selections: a position whose selected index
      lies outside its list (in particular an empty list) contributes 0. */
  function CurrentKey(pk: PotentialKey): (r: seq<bv8>)
    requires WellFormed(pk)
    ensures |r| == |pk.key|
    ensures forall i :: 0 <= i < |pk.key| && pk.positions[i] < |pk.key[i]| ==> r[i] == pk.key[i][pk.positions[i]]
    ensures forall i :: 0 <= i < |pk.key| && pk.positions[i] < |pk.key[i]| ==> r[i] in pk.key[i]
    ensures forall i :: 0 <= i < |pk.key| && pk.positions[i] >= |pk.key[i]| ==> r[i] == 0
  {
    seq(|pk.key|, i requires 0 <= i < |pk.key| =>
      if pk.positions[i] < |pk.key[i]| then pk.key[i][pk.positions[i]] else 0)
  }

  predicate IsDecoded(pk: PotentialKey, i: nat)
    requires i < |pk.key|
  {
    |pk.key[i]| == 1
  }

  predicate IsUncertain(pk: PotentialKey, i: nat)
    requires WellFormed(pk) && i < |pk.key|
  {
    pk.uncertain[i]
  }

  predicate IsPossible(pk: PotentialKey, i: nat, v: bv8)
    requires i < |pk.key|
  {
    v in pk.key[i]
  }

  predicate IsError(pk: PotentialKey, i: nat)
    requires i < |pk.key|
  {
    pk.key[i] == []
  }

  /** The candidate list of a position, as the other queries see it. */
  function GetPossibilities(pk: PotentialKey, i: nat): (r: seq<bv8>)
    requires i < |pk.key|
    ensures forall v :: v in r <==> IsPossible(pk, i, v)
    ensures r == [] <==> IsError(pk, i)
    ensures |r| == 1 <==> IsDecoded(pk, i)
  {
    pk.key[i]
  }

  /** Index of the first occurrence of v; the source unwraps this search, so
      v must be present. */
  function IndexOf(xs: seq<bv8>, v: bv8): (r: nat)
    requires v in xs
    ensures r < |xs| && xs[r] == v
    ensures forall j :: 0 <= j < r ==> xs[j] != v
  {
    if xs[0] == v then 0 else 1 + IndexOf(xs[1..], v)
  }

  /** Selects candidate v at position i and marks the position as no longer
      uncertain; the candidate lists are not touched. */
  function SetValue(pk: PotentialKey, i: nat, v: bv8): (r: PotentialKey)
    requires WellFormed(pk) && i < |pk.key|
    requires IsPossible(pk, i, v)
    ensures WellFormed(r)
    ensures r.key == pk.key
    ensures CurrentKey(r)[i] == v
    ensures !IsUncertain(r, i)
    ensures r.positions[i] < |pk.key[i]|
    ensures forall j :: 0 <= j < r.positions[i] ==> pk.key[i][j] != v
    ensures forall j :: 0 <= j < |pk.key| && j != i ==>
      r.positions[j] == pk.positions[j] && r.uncertain[j] == pk.uncertain[j]
  {
    pk.(positions := pk.positions[i := IndexOf(pk.key[i], v)], uncertain := pk.uncertain[i := false])
  }

  /** Collapses the candidate list of position i to its current selection. */
  function AcceptValue(pk: PotentialKey, i: nat): (r: PotentialKey)
    requires WellFormed(pk) && i < |pk.key|
    requires pk.positions[i] < |pk.key[i]|
    ensures WellFormed(r) && |r.key| == |pk.key|
    ensures r.key[i] == [CurrentKey(pk)[i]]
    ensures r.positions[i] == 0
    ensures IsDecoded(r, i)
    ensures CurrentKey(r) == CurrentKey(pk)
    ensures r.uncertain == pk.uncertain
    ensures forall j :: 0 <= j < |pk.key| && j != i ==>
      r.key[j] == pk.key[j] && r.positions[j] == pk.positions[j]
  {
    var value := pk.key[i][pk.positions[i]];
    pk.(key := pk.key[i := [value]], positions := pk.positions[i := 0])
  }

  /** Accepting the same position twice is the same as accepting it once. */
  lemma AcceptValueIdempotent(pk: PotentialKey, i: nat)
    requires WellFormed(pk) && i < |pk.key|
    requires pk.positions[i] < |pk.key[i]|
    ensures AcceptValue(AcceptValue(pk, i), i) == AcceptValue(pk, i)
  {
  }

  /** The selection invariant holds for a fresh key ... */
  lemma NewSelectionInRange(key: seq<seq<bv8>>)
    ensures SelectionInRange(New(key))
    ensures forall i :: 0 <= i < |key| && key[i] != [] ==> CurrentKey(New(key))[i] == key[i][0]
  {
  }

  /** ... and is preserved by selecting a candidate ... */
  lemma SetValueSelectionInRange(pk: PotentialKey, i: nat, v: bv8)
    requires SelectionInRange(pk) && i < |pk.key|
    requires IsPossible(pk, i, v)
    ensures SelectionInRange(SetValue(pk, i, v))
  {
  }

  /** ... and by accepting the selection. */
  lemma AcceptValueSelectionInRange(pk: PotentialKey, i: nat)
    requires SelectionInRange(pk) && i < |pk.key|
    requires pk.positions[i] < |pk.key[i]|
    ensures SelectionInRange(AcceptValue(pk, i))
  {
  }

  /** With distinct candidates and an in-range selection, a position is decoded
      exactly when its current byte is its only possible value, and it is in
      error exactly when no value is possible. */
  lemma DecodedMeansOnlyCurrent(pk: PotentialKey, i: nat)
    requires SelectionInRange(pk) && i < |pk.key|
    requires Distinct(pk.key[i])
    ensures IsDecoded(pk, i) <==> forall v :: IsPossible(pk, i, v) <==> v == CurrentKey(pk)[i]
    ensures IsError(pk, i) <==> forall v :: !IsPossible(pk, i, v)
  {
    var xs := pk.key[i];
    var current := CurrentKey(pk)[i];
    if xs == [] {
      assert !IsPossible(pk, i, current);
    } else if |xs| == 1 {
      assert current == xs[0];
      assert forall v :: IsPossible(pk, i, v) <==> v == xs[0];
      assert IsPossible(pk, i, xs[0]);
    } else {
      var other := if pk.positions[i] == 0 then 1 else 0;
      assert xs[other] != xs[pk.positions[i]];
      assert IsPossible(pk, i, xs[other]);
    }
  }

  datatype Option<T> = None | Some(value: T)

  /** One `SetValue(pk, index, value)` call, as the crib drag issues them. */
  datatype Selection = Selection(index: nat, value: bv8)

  /** Every selection names a position of the key and one of its candidates. */
  predicate Admissible(key: seq<seq<bv8>>, ws: seq<Selection>) {
    forall j :: 0 <= j < |ws| ==> ws[j].index < |key| && ws[j].value in key[ws[j].index]
  }

  /** The selections applied one after the other, in order. */
  function ApplyWrites(pk: PotentialKey, ws: seq<Selection>): (r: PotentialKey)
    requires WellFormed(pk)
    requires Admissible(pk.key, ws)
    ensures WellFormed(r)
    ensures r.key == pk.key
    ensures SelectionInRange(pk) ==> SelectionInRange(r)
    decreases |ws|
  {
    if ws == [] then pk
    else
      var before := ApplyWrites(pk, ws[..|ws| - 1]);
      var last := ws[|ws| - 1];
      var r := SetValue(before, last.index, last.value);
      assert SelectionInRange(before) ==> SelectionInRange(r) by {
        if SelectionInRange(before) {
          SetValueSelectionInRange(before, last.index, last.value);
        }
      }
      r
  }

  /** The value of the last selection made at position q, if any. */
  function LastWrite(ws: seq<Selection>, q: nat): Option<bv8>
    decreases |ws|
  {
    if ws == [] then None
    else if ws[|ws| - 1].index == q then Some(ws[|ws| - 1].value)
    else LastWrite(ws[..|ws| - 1], q)
  }

  /** The last selection at a position wins: after the selections, a position
      that was written selects the first occurrence of the last value written
      there and is no longer uncertain; any other position is unchanged. */
  lemma {:induction false} ApplyWritesLastWins(pk: PotentialKey, ws: seq<Selection>, q: nat)
    requires WellFormed(pk)
    requires Admissible(pk.key, ws)
    requires q < |pk.key|
    ensures LastWrite(ws, q).None? ==>
      ApplyWrites(pk, ws).positions[q] == pk.positions[q] && ApplyWrites(pk, ws).uncertain[q] == pk.uncertain[q]
    ensures LastWrite(ws, q).Some? ==>
      && !IsUncertain(ApplyWrites(pk, ws), q)
      && CurrentKey(ApplyWrites(pk, ws))[q] == LastWrite(ws, q).value
      && ApplyWrites(pk, ws).positions[q] < |pk.key[q]|
      && forall j :: 0 <= j < ApplyWrites(pk, ws).positions[q] ==> pk.key[q][j] != LastWrite(ws, q).value
    decreases |ws|
  {
    if ws != [] {
      var prefix := ws[..|ws| - 1];
      assert Admissible(pk.key, prefix);
      if ws[|ws| - 1].index != q {
        ApplyWritesLastWins(pk, prefix, q);
      }
    }
  }

  /** Two in-range indices that are both the first occurrence of v coincide. */
  lemma FirstOccurrenceUnique(xs: seq<bv8>, v: bv8, a: nat, b: nat)
    requires a < |xs| && b < |xs| && xs[a] == v && xs[b] == v
    requires forall j :: 0 <= j < a ==> xs[j] != v
    requires forall j :: 0 <= j < b ==> xs[j] != v
    ensures a == b
  {
  }

  /** Replaying the same selections on their own result changes nothing. */
  lemma ApplyWritesIdempotent(pk: PotentialKey, ws: seq<Selection>)
    requires WellFormed(pk)
    requires Admissible(pk.key, ws)
    ensures ApplyWrites(ApplyWrites(pk, ws), ws) == ApplyWrites(pk, ws)
  {
    var once := ApplyWrites(pk, ws);
    var twice := ApplyWrites(once, ws);
    forall q | 0 <= q < |pk.key|
      ensures twice.positions[q] == once.positions[q] && twice.uncertain[q] == once.uncertain[q]
    {
      ApplyWritesLastWins(pk, ws, q);
      ApplyWritesLastWins(once, ws, q);
      if LastWrite(ws, q).Some? {
        FirstOccurrenceUnique(pk.key[q], LastWrite(ws, q).value, once.positions[q], twice.positions[q]);
      }
    }
    assert twice.positions == once.positions;
    assert twice.uncertain == once.uncertain;
  }

  /** Applying a concatenation is applying its two parts in turn. */
  lemma {:induction false} ApplyWritesAppend(pk: PotentialKey, a: seq<Selection>, b: seq<Selection>)
    requires WellFormed(pk)
    requires Admissible(pk.key, a + b)
    ensures Admissible(pk.key, a) && Admissible(pk.key, b)
    ensures ApplyWrites(pk, a + b) == ApplyWrites(ApplyWrites(pk, a), b)
    decreases |b|
  {
    assert Admissible(pk.key, a) by {
      forall j | 0 <= j < |a| ensures a[j] == (a + b)[j] { }
    }
    assert Admissible(pk.key, b) by {
      forall j | 0 <= j < |b| ensures b[j] == (a + b)[|a| + j] { }
    }
    if b != [] {
      var b' := b[..|b| - 1];
      assert (a + b)[..|a + b| - 1] == a + b';
      ApplyWritesAppend(pk, a, b');
    } else {
      assert a + b == a;
    }
  }

  /** Admissibility carries over to every prefix. */
  lemma AdmissiblePrefix(key: seq<seq<bv8>>, ws: seq<Selection>, i: nat)
    requires Admissible(key, ws) && i <= |ws|
    ensures Admissible(key, ws[..i])
  {
    forall j | 0 <= j < i ensures ws[..i][j] == ws[j] { }
  }

  /** Applying one more selection is one more SetValue. */
  lemma ApplyWritesSnoc(pk: PotentialKey, ws: seq<Selection>, w: Selection)
    requires WellFormed(pk)
    requires Admissible(pk.key, ws + [w])
    ensures Admissible(pk.key, ws)
    ensures w.index < |pk.key| && w.value in pk.key[w.index]
    ensures ApplyWrites(pk, ws + [w]) == SetValue(ApplyWrites(pk, ws), w.index, w.value)
  {
    AdmissiblePrefix(pk.key, ws + [w], |ws|);
    assert (ws + [w])[..|ws|] == ws;
    assert (ws + [w])[|ws|] == w;
  }

  lemma SliceSnoc<T>(s: seq<T>, i: nat)
    requires i < |s|
    ensures s[..i + 1] == s[..i] + [s[i]]
  {
  }

  /** Applying an admissible list call by call: the i-th call is legal on
      the result of the first i and extends it by one. */
  lemma ApplyWritesStep(pk: PotentialKey, ws: seq<Selection>, i: nat)
    requires WellFormed(pk)
    requires Admissible(pk.key, ws)
    requires i < |ws|
    ensures Admissible(pk.key, ws[..i]) && Admissible(pk.key, ws[..i + 1])
    ensures ws[i].index < |pk.key| && IsPossible(ApplyWrites(pk, ws[..i]), ws[i].index, ws[i].value)
    ensures SetValue(ApplyWrites(pk, ws[..i]), ws[i].index, ws[i].value) == ApplyWrites(pk, ws[..i + 1])
  {
    AdmissiblePrefix(pk.key, ws, i + 1);
    SliceSnoc(ws, i);
    ApplyWritesSnoc(pk, ws[..i], ws[i]);
  }

  /** Where the last selection at q sits in the list. */
  lemma {:induction false} LastWriteAt(ws: seq<Selection>, q: nat) returns (k: nat)
    requires LastWrite(ws, q).Some?
    ensures k < |ws| && ws[k] == Selection(q, LastWrite(ws, q).value)
    ensures forall m :: k < m < |ws| ==> ws[m].index != q
    decreases |ws|
  {
    if ws[|ws| - 1].index == q {
      k := |ws| - 1;
    } else {
      k := LastWriteAt(ws[..|ws| - 1], q);
    }
  }

  /** No selection names q exactly when LastWrite finds none. */
  lemma {:induction false} LastWriteNone(ws: seq<Selection>, q: nat)
    ensures LastWrite(ws, q).None? <==> forall k :: 0 <= k < |ws| ==> ws[k].index != q
    decreases |ws|
  {
    if ws != [] {
      LastWriteNone(ws[..|ws| - 1], q);
    }
  }
}
