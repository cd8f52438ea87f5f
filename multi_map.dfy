/**
 * The document's ordered multi-map as a sequence of slots: slots keep their
 * order and a key may occur in several of them. A unit entry targets the
 * FIRST slot with its key.
 */
module MultiMap {
  import opened Wrappers
  import opened Values
  import opened KeyValues

  /** Some slot holds `key`. */
  predicate HasKey(slots: seq<KeyValue>, key: string)
  {
    exists i :: 0 <= i < |slots| && slots[i].key == key
  }

  /** Slot `i` is the first slot holding `key`. */
  predicate IsFirst(slots: seq<KeyValue>, key: string, i: int)
  {
    0 <= i < |slots| && slots[i].key == key && forall j :: 0 <= j < i ==> slots[j].key != key
  }

  /** The position of the first slot with `key`, as the cursor's `first(key)` finds it. */
  function FirstIndex(slots: seq<KeyValue>, key: string): (r: Option<nat>)
    ensures r.Some? <==> HasKey(slots, key)
    ensures r.Some? ==> IsFirst(slots, key, r.value)
  {
    if slots == [] then None
    else if slots[0].key == key then Some(0)
    else
      match FirstIndex(slots[1..], key)
      case None => None
      case Some(j) => Some(j + 1)
  }

  lemma FirstIsUnique(slots: seq<KeyValue>, key: string, i: int, j: int)
    requires IsFirst(slots, key, i) && IsFirst(slots, key, j)
    ensures i == j
  {
  }

  /** The value of the first slot with `key`, `None` when no slot has it. */
  function FirstValue(slots: seq<KeyValue>, key: string): (r: Option<Value>)
    ensures r.Some? <==> HasKey(slots, key)
    ensures forall i :: IsFirst(slots, key, i) ==> r == Some(slots[i].value)
  {
    match FirstIndex(slots, key)
    case None => None
    case Some(i) => Some(slots[i].value)
  }

  /** The number of slots holding `key`. */
  function Occurrences(slots: seq<KeyValue>, key: string): nat
  {
    if slots == [] then 0
    else (if slots[0].key == key then 1 else 0) + Occurrences(slots[1..], key)
  }

  /** The first slot with `key` gets `value`; without such a slot nothing changes. */
  function ReplaceFirst(slots: seq<KeyValue>, key: string, value: Value): seq<KeyValue>
  {
    match FirstIndex(slots, key)
    case None => slots
    case Some(i) => slots[i := KeyValue(key, value)]
  }

  /** `kv` inserted as slot `i`. */
  function InsertAt(slots: seq<KeyValue>, i: nat, kv: KeyValue): seq<KeyValue>
    requires i <= |slots|
  {
    slots[..i] + [kv] + slots[i..]
  }

  /**
   * `after` is what a unit put of `value` under `key` may leave: the first slot
   * with the key replaced in place, or, for an absent key, one new slot inserted
   * at a position the multi-map chooses.
   */
  ghost predicate IsPutOf(before: seq<KeyValue>, after: seq<KeyValue>, key: string, value: Value)
  {
    if HasKey(before, key) then after == ReplaceFirst(before, key, value)
    else exists i :: 0 <= i <= |before| && after == InsertAt(before, i, KeyValue(key, value))
  }

  /** The first slot with `key` deleted; without such a slot nothing changes. */
  function WithoutFirst(slots: seq<KeyValue>, key: string): seq<KeyValue>
  {
    match FirstIndex(slots, key)
    case None => slots
    case Some(i) => slots[..i] + slots[i + 1..]
  }

  /** No key occurs in two slots. */
  predicate DistinctKeys(slots: seq<KeyValue>)
  {
    forall i, j :: 0 <= i < j < |slots| ==> slots[i].key != slots[j].key
  }

  /** Unit iteration: one slot per distinct key, its first one, in first-occurrence order. */
  function UnitEntries(slots: seq<KeyValue>): seq<KeyValue>
    decreases |slots|
  {
    if slots == [] then []
    else
      var init, last := slots[..|slots| - 1], slots[|slots| - 1];
      if HasKey(init, last.key) then UnitEntries(init) else UnitEntries(init) + [last]
  }

  // ---------------------------------------------------------------------------
  // Appending a slot

  lemma FirstIndexAppend(slots: seq<KeyValue>, kv: KeyValue, key: string)
    ensures FirstIndex(slots + [kv], key) ==
              if HasKey(slots, key) then FirstIndex(slots, key)
              else if kv.key == key then Some(|slots|)
              else None
  {
    var s := slots + [kv];
    assert forall j :: 0 <= j < |slots| ==> s[j] == slots[j];
    if HasKey(slots, key) {
      var i := FirstIndex(slots, key).value;
      assert IsFirst(s, key, i);
      FirstIsUnique(s, key, i, FirstIndex(s, key).value);
    } else if kv.key == key {
      assert IsFirst(s, key, |slots|);
      FirstIsUnique(s, key, |slots|, FirstIndex(s, key).value);
    } else {
      assert !HasKey(s, key);
    }
  }

  // ---------------------------------------------------------------------------
  // Put

  /** After a put, the key is assigned and its first slot holds the value put. */
  lemma PutTargetsFirstSlot(before: seq<KeyValue>, after: seq<KeyValue>, key: string, value: Value)
    requires IsPutOf(before, after, key, value)
    ensures HasKey(after, key)
    ensures FirstValue(after, key) == Some(value)
  {
    if HasKey(before, key) {
      var i := FirstIndex(before, key).value;
      assert IsFirst(after, key, i);
    } else {
      var i :| 0 <= i <= |before| && after == InsertAt(before, i, KeyValue(key, value));
      assert after[i] == KeyValue(key, value);
      assert forall j :: 0 <= j < i ==> after[j] == before[j];
      assert IsFirst(after, key, i);
    }
  }

  /** A put on a present key keeps the slot count, the slot's position and every other slot. */
  lemma PutOnPresentKey(before: seq<KeyValue>, key: string, value: Value)
    requires HasKey(before, key)
    ensures var after := ReplaceFirst(before, key, value);
      && |after| == |before|
      && FirstIndex(after, key) == FirstIndex(before, key)
      && forall j :: 0 <= j < |before| && !IsFirst(before, key, j) ==> after[j] == before[j]
  {
    var after := ReplaceFirst(before, key, value);
    var i := FirstIndex(before, key).value;
    assert IsFirst(after, key, i);
    FirstIsUnique(after, key, i, FirstIndex(after, key).value);
  }

  /** A put on an absent key adds exactly one slot, `(key, value)`, and keeps every other slot in order. */
  lemma PutOnAbsentKey(before: seq<KeyValue>, after: seq<KeyValue>, key: string, value: Value)
    requires !HasKey(before, key)
    requires IsPutOf(before, after, key, value)
    ensures |after| == |before| + 1
    ensures multiset(after) == multiset(before) + multiset{KeyValue(key, value)}
    ensures Occurrences(after, key) == 1
    ensures exists i :: 0 <= i < |after| && after[i] == KeyValue(key, value) && after[..i] + after[i + 1..] == before
  {
    var i :| 0 <= i <= |before| && after == InsertAt(before, i, KeyValue(key, value));
    assert after[..i] + after[i + 1..] == before by {
      assert after[..i] == before[..i];
      assert after[i + 1..] == before[i..];
    }
    assert before == before[..i] + before[i..];
    OccurrencesConcat(before[..i], [KeyValue(key, value)] + before[i..], key);
    OccurrencesConcat([KeyValue(key, value)], before[i..], key);
    OccurrencesConcat(before[..i], before[i..], key);
    assert after == before[..i] + ([KeyValue(key, value)] + before[i..]);
    NoOccurrences(before, key);
  }

  /** Putting under `key` does not change what any other key reads. */
  lemma PutKeepsOtherKeys(before: seq<KeyValue>, after: seq<KeyValue>, key: string, value: Value, other: string)
    requires IsPutOf(before, after, key, value)
    requires other != key
    ensures HasKey(after, other) <==> HasKey(before, other)
    ensures FirstValue(after, other) == FirstValue(before, other)
  {
    if HasKey(before, key) {
      var i := FirstIndex(before, key).value;
      assert forall j :: 0 <= j < |before| ==> after[j].key == before[j].key;
      assert forall j :: 0 <= j < |before| && j != i ==> after[j] == before[j];
      if HasKey(before, other) {
        var f := FirstIndex(before, other).value;
        assert f != i;
        assert IsFirst(after, other, f);
      }
    } else {
      var i :| 0 <= i <= |before| && after == InsertAt(before, i, KeyValue(key, value));
      assert forall j :: 0 <= j < i ==> after[j] == before[j];
      assert forall j :: i < j < |after| ==> after[j] == before[j - 1];
      if HasKey(before, other) {
        var f := FirstIndex(before, other).value;
        if f < i {
          assert IsFirst(after, other, f);
        } else {
          assert IsFirst(after, other, f + 1);
        }
      } else {
        assert !HasKey(after, other) by {
          forall j | 0 <= j < |after| ensures after[j].key != other {
            if j > i { assert after[j] == before[j - 1]; }
          }
        }
      }
    }
  }

  // ---------------------------------------------------------------------------
  // Remove

  /** Removing deletes exactly the first slot with the key (matched by key only), or nothing if there is none. */
  lemma RemoveDeletesFirstSlot(slots: seq<KeyValue>, key: string)
    ensures !HasKey(slots, key) ==> WithoutFirst(slots, key) == slots
    ensures HasKey(slots, key) ==> |WithoutFirst(slots, key)| == |slots| - 1
    ensures forall i :: IsFirst(slots, key, i) ==> WithoutFirst(slots, key) == slots[..i] + slots[i + 1..]
  {
    if HasKey(slots, key) {
      var i := FirstIndex(slots, key).value;
      forall j | IsFirst(slots, key, j) ensures j == i {
        FirstIsUnique(slots, key, i, j);
      }
    }
  }

  /** Removing a present key leaves its later slots: the key has exactly one slot fewer. */
  lemma RemoveDropsOneOccurrence(slots: seq<KeyValue>, key: string)
    requires HasKey(slots, key)
    ensures Occurrences(WithoutFirst(slots, key), key) == Occurrences(slots, key) - 1
  {
    var i := FirstIndex(slots, key).value;
    assert WithoutFirst(slots, key) == slots[..i] + slots[i + 1..];
    OccurrencesWithoutSlot(slots, i, key);
  }

  /** Removing under `key` does not change what any other key reads. */
  lemma RemoveKeepsOtherKeys(slots: seq<KeyValue>, key: string, other: string)
    requires other != key
    ensures HasKey(WithoutFirst(slots, key), other) <==> HasKey(slots, other)
    ensures FirstValue(WithoutFirst(slots, key), other) == FirstValue(slots, other)
  {
    if HasKey(slots, key) {
      var i := FirstIndex(slots, key).value;
      assert WithoutFirst(slots, key) == slots[..i] + slots[i + 1..];
      DropSlotKeepsOtherKeys(slots, i, other);
    }
  }

  /** Taking out a slot of another key leaves what `other` reads unchanged. */
  lemma DropSlotKeepsOtherKeys(slots: seq<KeyValue>, i: nat, other: string)
    requires i < |slots| && slots[i].key != other
    ensures HasKey(slots[..i] + slots[i + 1..], other) <==> HasKey(slots, other)
    ensures FirstValue(slots[..i] + slots[i + 1..], other) == FirstValue(slots, other)
  {
    var after := slots[..i] + slots[i + 1..];
    assert forall j :: 0 <= j < i ==> after[j] == slots[j];
    assert forall j :: i <= j < |after| ==> after[j] == slots[j + 1];
    if HasKey(slots, other) {
      var f := FirstIndex(slots, other).value;
      if f < i {
        assert IsFirst(after, other, f);
      } else {
        assert IsFirst(after, other, f - 1);
      }
    } else {
      assert !HasKey(after, other) by {
        forall j | 0 <= j < |after| ensures after[j].key != other {
          if j >= i { assert after[j] == slots[j + 1]; }
        }
      }
    }
  }

  /** A put on an absent key followed by a remove of that key gives back the original slots. */
  lemma PutThenRemoveRestores(before: seq<KeyValue>, after: seq<KeyValue>, key: string, value: Value)
    requires !HasKey(before, key)
    requires IsPutOf(before, after, key, value)
    ensures WithoutFirst(after, key) == before
  {
    var i :| 0 <= i <= |before| && after == InsertAt(before, i, KeyValue(key, value));
    assert forall j :: 0 <= j < i ==> after[j] == before[j];
    assert IsFirst(after, key, i);
    FirstIsUnique(after, key, i, FirstIndex(after, key).value);
    assert after[..i] == before[..i];
    assert after[i + 1..] == before[i..];
  }

  /** On a present key, a put followed by a remove loses a slot instead of restoring the document. */
  lemma PutThenRemoveOnPresentKey(before: seq<KeyValue>, key: string, value: Value)
    requires HasKey(before, key)
    ensures |WithoutFirst(ReplaceFirst(before, key, value), key)| == |before| - 1
  {
    PutOnPresentKey(before, key, value);
    RemoveDeletesFirstSlot(ReplaceFirst(before, key, value), key);
  }

  // ---------------------------------------------------------------------------
  // Occurrences

  lemma {:induction false} OccurrencesConcat(a: seq<KeyValue>, b: seq<KeyValue>, key: string)
    ensures Occurrences(a + b, key) == Occurrences(a, key) + Occurrences(b, key)
  {
    if a != [] {
      assert (a + b)[1..] == a[1..] + b;
      OccurrencesConcat(a[1..], b, key);
    } else {
      assert a + b == b;
    }
  }

  /** Taking slot `i` out of `slots` removes exactly that slot's occurrence. */
  lemma OccurrencesWithoutSlot(slots: seq<KeyValue>, i: nat, key: string)
    requires i < |slots|
    ensures Occurrences(slots, key) == Occurrences(slots[..i] + slots[i + 1..], key) + (if slots[i].key == key then 1 else 0)
  {
    var before, here, rest := slots[..i], [slots[i]], slots[i + 1..];
    assert slots == before + (here + rest);
    OccurrencesConcat(before, here + rest, key);
    OccurrencesConcat(here, rest, key);
    OccurrencesConcat(before, rest, key);
    assert here[1..] == [];
  }

  lemma {:induction false} NoOccurrences(slots: seq<KeyValue>, key: string)
    requires !HasKey(slots, key)
    ensures Occurrences(slots, key) == 0
  {
    if slots != [] {
      assert !HasKey(slots[1..], key) by {
        forall j | 0 <= j < |slots| - 1 ensures slots[1..][j].key != key {
          assert slots[1..][j] == slots[j + 1];
        }
      }
      NoOccurrences(slots[1..], key);
    }
  }

  // ---------------------------------------------------------------------------
  // Unit iteration

  /** Unit iteration covers exactly the keys present in the document. */
  lemma {:induction false} UnitEntriesCoverKeys(slots: seq<KeyValue>, key: string)
    ensures HasKey(slots, key) <==> HasKey(UnitEntries(slots), key)
    decreases |slots|
  {
    if slots != [] {
      var init, last := slots[..|slots| - 1], slots[|slots| - 1];
      assert slots == init + [last];
      UnitEntriesCoverKeys(init, key);
      FirstIndexAppend(init, last, key);
      var w := UnitEntries(init);
      if !HasKey(init, last.key) {
        var u := w + [last];
        assert u[|w|] == last;
        if HasKey(w, key) {
          var j :| 0 <= j < |w| && w[j].key == key;
          assert u[j].key == key;
        }
        if HasKey(u, key) {
          var j :| 0 <= j < |u| && u[j].key == key;
          if j < |w| { assert w[j].key == key; }
        }
      } else if last.key == key {
        UnitEntriesCoverKeys(init, last.key);
      }
    }
  }

  /** Unit iteration yields each key at most once. */
  lemma {:induction false} UnitEntriesDistinctKeys(slots: seq<KeyValue>)
    ensures DistinctKeys(UnitEntries(slots))
    decreases |slots|
  {
    if slots != [] {
      var init, last := slots[..|slots| - 1], slots[|slots| - 1];
      UnitEntriesDistinctKeys(init);
      var w := UnitEntries(init);
      if !HasKey(init, last.key) {
        var u := w + [last];
        assert UnitEntries(slots) == u;
        assert forall i :: 0 <= i < |w| ==> u[i] == w[i];
        assert u[|w|] == last;
        forall i | 0 <= i < |w| ensures w[i].key != last.key {
          assert HasKey(w, w[i].key);
          UnitEntriesCoverKeys(init, w[i].key);
        }
        forall i, j | 0 <= i < j < |u| ensures u[i].key != u[j].key {
          if j < |w| { assert u[i] == w[i] && u[j] == w[j]; }
        }
      } else {
        assert UnitEntries(slots) == w;
      }
    }
  }

  /** Each slot unit iteration yields is the first slot of its key. */
  lemma {:induction false} UnitEntriesAreFirstSlots(slots: seq<KeyValue>)
    ensures var u := UnitEntries(slots);
      forall i :: 0 <= i < |u| ==> FirstIndex(slots, u[i].key).Some? && slots[FirstIndex(slots, u[i].key).value] == u[i]
    decreases |slots|
  {
    if slots != [] {
      var init, last := slots[..|slots| - 1], slots[|slots| - 1];
      assert slots == init + [last];
      UnitEntriesAreFirstSlots(init);
      var w := UnitEntries(init);
      forall i | 0 <= i < |w|
        ensures FirstIndex(slots, w[i].key).Some? && slots[FirstIndex(slots, w[i].key).value] == w[i]
      {
        assert HasKey(w, w[i].key);
        UnitEntriesCoverKeys(init, w[i].key);
        FirstIndexAppend(init, last, w[i].key);
      }
      if !HasKey(init, last.key) {
        FirstIndexAppend(init, last, last.key);
        var u := w + [last];
        assert forall i :: 0 <= i < |w| ==> u[i] == w[i];
        assert u[|w|] == last;
        assert FirstIndex(slots, last.key) == Some(|init|);
        assert UnitEntries(slots) == u;
      } else {
        assert UnitEntries(slots) == w;
      }
    }
  }

  /** Key `a` first occurs in `slots` before key `b` does. */
  predicate FirstOccursBefore(slots: seq<KeyValue>, a: string, b: string)
  {
    FirstIndex(slots, a).Some? && FirstIndex(slots, b).Some? &&
    FirstIndex(slots, a).value < FirstIndex(slots, b).value
  }

  /** The keys of `u` come in the order of their first occurrence in `slots`. */
  predicate InFirstOccurrenceOrder(slots: seq<KeyValue>, u: seq<KeyValue>)
  {
    forall i, j :: 0 <= i < j < |u| ==> FirstOccursBefore(slots, u[i].key, u[j].key)
  }

  /** Unit iteration follows the order in which keys first occur. */
  lemma {:induction false} UnitEntriesInFirstOccurrenceOrder(slots: seq<KeyValue>)
    ensures InFirstOccurrenceOrder(slots, UnitEntries(slots))
    decreases |slots|
  {
    if slots != [] {
      var init, last := slots[..|slots| - 1], slots[|slots| - 1];
      assert slots == init + [last];
      UnitEntriesInFirstOccurrenceOrder(init);
      var w := UnitEntries(init);
      forall i | 0 <= i < |w|
        ensures FirstIndex(slots, w[i].key) == FirstIndex(init, w[i].key)
        ensures FirstIndex(init, w[i].key).Some?
      {
        assert HasKey(w, w[i].key);
        UnitEntriesCoverKeys(init, w[i].key);
        FirstIndexAppend(init, last, w[i].key);
      }
      if !HasKey(init, last.key) {
        FirstIndexAppend(init, last, last.key);
        var u := w + [last];
        assert UnitEntries(slots) == u;
        forall i, j | 0 <= i < j < |u| ensures FirstOccursBefore(slots, u[i].key, u[j].key) {
          assert u[i] == w[i];
          if j < |w| {
            assert u[j] == w[j];
            assert FirstOccursBefore(init, w[i].key, w[j].key);
          } else {
            assert u[j] == last;
            assert IsFirst(init, w[i].key, FirstIndex(init, w[i].key).value);
          }
        }
      } else {
        forall i, j | 0 <= i < j < |w| ensures FirstOccursBefore(slots, w[i].key, w[j].key) {
          assert FirstOccursBefore(init, w[i].key, w[j].key);
        }
      }
    }
  }

  /** Slots x, z, y, x, z: unit iteration yields x, z, y with the values of their first slots. */
  lemma UnitEntriesOfRepeatedKeys(v0: Value, v1: Value, v2: Value, v3: Value, v4: Value)
    ensures var slots := [KeyValue("x", v0), KeyValue("z", v1), KeyValue("y", v2), KeyValue("x", v3), KeyValue("z", v4)];
      UnitEntries(slots) == [KeyValue("x", v0), KeyValue("z", v1), KeyValue("y", v2)]
  {
    var slots := [KeyValue("x", v0), KeyValue("z", v1), KeyValue("y", v2), KeyValue("x", v3), KeyValue("z", v4)];
    var x0, z1, y2 := KeyValue("x", v0), KeyValue("z", v1), KeyValue("y", v2);
    assert UnitEntries([x0]) == [x0] by { assert [x0][..0] == []; }
    assert UnitEntries([x0, z1]) == [x0, z1] by { assert [x0, z1][..1] == [x0]; }
    assert UnitEntries([x0, z1, y2]) == [x0, z1, y2] by { assert [x0, z1, y2][..2] == [x0, z1]; }
    assert slots[..4][..3] == [x0, z1, y2];
    assert HasKey(slots[..3], "x") by { assert slots[..3][0].key == "x"; }
    assert UnitEntries(slots[..4]) == [x0, z1, y2];
    assert HasKey(slots[..4], "z") by { assert slots[..4][1].key == "z"; }
  }
}
