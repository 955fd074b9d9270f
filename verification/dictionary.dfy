/** The compressor's dictionary: an open-addressing hash table of TABLE_SIZE
    slots keyed by (prefix code, appended byte), probed by `FindMatch`.

    The three parallel `short` arrays `codeValue`, `prefixCode` and
    `appendCharacter` are modelled as one sequence of `Slot` records; a slot
    whose code is -1 is empty. `Represents` relates the hash table to the
    code table of module Lzw, and the lemmas below show that a lookup
    through `FindMatch` answers exactly what `Lzw.Lookup` answers. */
module Dictionary {
  import opened Params
  import opened Probe
  import Lzw

  /** `codeValue[i]`, `prefixCode[i]` and `appendCharacter[i]`. */
  datatype Slot = Slot(code: int, prefix: int, append: int)

  /** `codeValue` of an empty slot. */
  const UNUSED: int := -1

  type HashTable = seq<Slot>

  predicate IsEmpty(s: Slot) {
    s.code == UNUSED
  }

  predicate Holds(s: Slot, prefix: int, character: int) {
    s.prefix == prefix && s.append == character
  }

  /** The Java cast `(short) x`. */
  function Short(x: int): (r: int)
    ensures -0x8000 <= r < 0x8000
    ensures -0x8000 <= x < 0x8000 ==> r == x
  {
    (x + 0x8000) % 0x1_0000 - 0x8000
  }

  /** The table after the two initialisation loops of `compress`: roots in
      slots 0..127, every other slot empty. Java's zero-initialised arrays
      leave 0 in the prefix and byte of empty slots. */
  function InitialSlots(): (t: HashTable)
    ensures |t| == TABLE_SIZE
    ensures forall i :: 0 <= i < ROOTS ==> t[i] == Slot(i, Lzw.NO_PREFIX, i)
    ensures forall i :: ROOTS <= i < TABLE_SIZE ==> IsEmpty(t[i])
  {
    seq(TABLE_SIZE, i => if i < ROOTS then Slot(Short(i), Lzw.NO_PREFIX, Short(i)) else Slot(UNUSED, 0, 0))
  }

  /** Keys the compressor looks up: a non-negative code and a byte. */
  predicate ValidKey(prefix: int, character: int) {
    0 <= prefix < CODE_SPACE && IsByte(character)
  }

  /** The slot probed after `k` steps for a key. */
  function Pos(prefix: int, character: int, k: nat): (i: int)
    requires ValidKey(prefix, character)
    ensures IsSlot(i)
  {
    var h := Home(prefix, character);
    ProbeAt(h, Stride(h), k)
  }

  /** The probe for the key stops at its k-th slot: every earlier slot on
      the probe sequence is occupied by another key, and the k-th slot is
      empty or holds the key. */
  ghost predicate StopsAt(t: HashTable, prefix: int, character: int, k: nat)
    requires |t| == TABLE_SIZE && ValidKey(prefix, character)
  {
    && (forall j :: 0 <= j < k ==>
          !IsEmpty(t[Pos(prefix, character, j)]) && !Holds(t[Pos(prefix, character, j)], prefix, character))
    && (IsEmpty(t[Pos(prefix, character, k)]) || Holds(t[Pos(prefix, character, k)], prefix, character))
  }

  /** A probe has exactly one stopping point. */
  lemma StopsAtUnique(t: HashTable, prefix: int, character: int, k1: nat, k2: nat)
    requires |t| == TABLE_SIZE && ValidKey(prefix, character)
    requires StopsAt(t, prefix, character, k1) && StopsAt(t, prefix, character, k2)
    ensures k1 == k2
  {
  }

  /** `findMatch`: probe from the home slot, subtracting the stride with
      wrap-around, until an empty slot or a slot holding the key. The table
      is a value, so the probe cannot change it. The loop ends because the
      probe sequence reaches every slot (`ProbeCovers`) and some slot is
      empty. */
  method FindMatch(t: HashTable, prefix: int, character: int) returns (index: int, ghost k: nat)
    requires |t| == TABLE_SIZE && ValidKey(prefix, character)
    requires exists e :: 0 <= e < TABLE_SIZE && IsEmpty(t[e])
    ensures IsSlot(index) && (IsEmpty(t[index]) || Holds(t[index], prefix, character))
    ensures k < TABLE_SIZE && index == Pos(prefix, character, k)
    ensures StopsAt(t, prefix, character, k)
  {
    index := Home(prefix, character);
    var offset := if index == 0 then 1 else TABLE_SIZE - index;
    ghost var h := index;
    ghost var e :| 0 <= e < TABLE_SIZE && IsEmpty(t[e]);
    assert offset == Stride(h);
    ghost var last := ProbeCovers(h, e);
    k := 0;
    while t[index].code != UNUSED
      invariant h == Home(prefix, character) && offset == Stride(h)
      invariant k <= last
      invariant index == ProbeAt(h, offset, k)
      invariant forall j :: 0 <= j < k ==>
        !IsEmpty(t[ProbeAt(h, offset, j)]) && !Holds(t[ProbeAt(h, offset, j)], prefix, character)
      decreases last - k
    {
      if prefix == t[index].prefix && character == t[index].append {
        assert index == Pos(prefix, character, k);
        return;
      }
      assert k != last by {
        assert index != e;
      }
      ghost var passed := index;
      index := index - offset;
      if index < 0 {
        index := index + TABLE_SIZE;
      }
      assert index == NextProbe(passed, offset);
      forall j | 0 <= j < k + 1
        ensures !IsEmpty(t[ProbeAt(h, offset, j)]) && !Holds(t[ProbeAt(h, offset, j)], prefix, character)
      {
        if j == k {
          assert ProbeAt(h, offset, j) == passed;
        }
      }
      k := k + 1;
    }
    assert index == Pos(prefix, character, k);
  }

  // ---------------------------------------------------------------------------
  // The hash table represents the code table

  ghost function Occupied(t: HashTable): set<int> {
    set i | 0 <= i < |t| && !IsEmpty(t[i])
  }

  predicate IsLearnedKey(codes: Lzw.Table, c: int)
    requires 0 <= c < |codes|
  {
    ROOTS <= c && ValidKey(codes[c].prefix, codes[c].append)
  }

  /** The slot that holds learned code `c`, given its probe count. */
  function SlotOf(codes: Lzw.Table, steps: seq<nat>, c: int): (i: int)
    requires 0 <= c < |codes| == |steps| && IsLearnedKey(codes, c)
    ensures IsSlot(i)
  {
    Pos(codes[c].prefix, codes[c].append, steps[c])
  }

  /** The hash table `t` stores the code table `codes`: roots in slots
      0..127; learned code `c` in the slot where the probe for its key stops
      (after `steps[c]` steps); no other slot occupied. */
  ghost predicate Represents(t: HashTable, codes: Lzw.Table, steps: seq<nat>) {
    && |t| == TABLE_SIZE && |steps| == |codes|
    && Lzw.WellFormed(codes)
    && (forall i :: 0 <= i < ROOTS ==> t[i] == Slot(i, Lzw.NO_PREFIX, i))
    && (forall c :: ROOTS <= c < |codes| ==>
          && IsLearnedKey(codes, c)
          && StopsAt(t, codes[c].prefix, codes[c].append, steps[c])
          && t[SlotOf(codes, steps, c)] == Slot(c, codes[c].prefix, codes[c].append))
    && (forall i :: ROOTS <= i < TABLE_SIZE && !IsEmpty(t[i]) ==>
          ROOTS <= t[i].code < |codes| && IsLearnedKey(codes, t[i].code) && i == SlotOf(codes, steps, t[i].code))
    && |Occupied(t)| == |codes|
  }

  function InitialSteps(): (steps: seq<nat>)
    ensures |steps| == ROOTS
  {
    seq(ROOTS, _ => 0)
  }

  lemma InitialRepresents()
    ensures Represents(InitialSlots(), Lzw.InitialTable(), InitialSteps())
  {
    var t := InitialSlots();
    OccupiedBelow(t, ROOTS);
  }

  /** A table whose occupied slots are exactly those below `n` has `n`
      occupied slots. (The bound is a parameter so that the set of slots is
      not expanded element by element.) */
  lemma OccupiedBelow(t: HashTable, n: nat)
    requires n <= |t| && forall i :: 0 <= i < |t| ==> (IsEmpty(t[i]) <==> n <= i)
    ensures |Occupied(t)| == n
  {
    assert Occupied(t) == Slots(n);
  }

  /** A set of fewer than `n` indices below `n` misses one of them. */
  lemma {:induction false} SmallSetMisses(a: set<int>, n: nat) returns (e: int)
    requires forall i :: i in a ==> 0 <= i < n
    requires |a| < n
    ensures 0 <= e < n && e !in a
  {
    if n - 1 !in a {
      e := n - 1;
    } else {
      e := SmallSetMisses(a - {n - 1}, n - 1);
    }
  }

  /** At most 4095 of the 5021 slots are occupied, so one is empty. */
  lemma HasEmptySlot(t: HashTable, codes: Lzw.Table, steps: seq<nat>)
    requires Represents(t, codes, steps)
    ensures exists e :: 0 <= e < TABLE_SIZE && IsEmpty(t[e])
  {
    var e := SmallSetMisses(Occupied(t), TABLE_SIZE);
    assert IsEmpty(t[e]);
  }

  /** Keys are unique: two occupied learned slots with the same key are the
      same slot. */
  lemma KeysUnique(t: HashTable, codes: Lzw.Table, steps: seq<nat>, i1: int, i2: int)
    requires Represents(t, codes, steps)
    requires ROOTS <= i1 < TABLE_SIZE && ROOTS <= i2 < TABLE_SIZE
    requires !IsEmpty(t[i1]) && !IsEmpty(t[i2])
    requires Holds(t[i1], t[i2].prefix, t[i2].append)
    ensures i1 == i2
  {
    var c1, c2 := t[i1].code, t[i2].code;
    assert codes[c1] == codes[c2];
  }

  /** Lookups are stable: once learned, a key is found by every later probe
      in the slot that holds its code. */
  lemma StoredKeyFound(t: HashTable, codes: Lzw.Table, steps: seq<nat>, c: int, k: nat)
    requires Represents(t, codes, steps) && ROOTS <= c < |codes|
    requires StopsAt(t, codes[c].prefix, codes[c].append, k)
    ensures Pos(codes[c].prefix, codes[c].append, k) == SlotOf(codes, steps, c)
    ensures t[Pos(codes[c].prefix, codes[c].append, k)].code == c
  {
    StopsAtUnique(t, codes[c].prefix, codes[c].append, k, steps[c]);
  }

  /** What the stopping slot of a probe says: it is occupied exactly when
      the key is in the code table, and then it holds the key's code. */
  lemma ProbeAnswers(t: HashTable, codes: Lzw.Table, steps: seq<nat>, prefix: int, character: int, k: nat)
    requires Represents(t, codes, steps) && ValidKey(prefix, character)
    requires StopsAt(t, prefix, character, k)
    ensures var slot := t[Pos(prefix, character, k)];
      && (IsEmpty(slot) <==> Lzw.Lookup(codes, Lzw.Key(prefix, character)).None?)
      && (!IsEmpty(slot) ==> Lzw.Lookup(codes, Lzw.Key(prefix, character)) == Lzw.Some(slot.code))
  {
    var key := Lzw.Key(prefix, character);
    var i := Pos(prefix, character, k);
    match Lzw.Lookup(codes, key)
    case Some(c) =>
      assert c >= ROOTS;
      StoredKeyFound(t, codes, steps, c, k);
    case None =>
  }

  /** Inserting a missing key into the empty slot where its probe stops
      keeps the representation, with the key's code the next one. */
  lemma InsertRepresents(t: HashTable, codes: Lzw.Table, steps: seq<nat>, prefix: int, character: int, k: nat)
    requires Represents(t, codes, steps) && ValidKey(prefix, character)
    requires |codes| <= MAX_CODE
    requires prefix < |codes| || IsByte(prefix)
    requires StopsAt(t, prefix, character, k) && IsEmpty(t[Pos(prefix, character, k)])
    ensures var key := Lzw.Key(prefix, character);
      Represents(t[Pos(prefix, character, k) := Slot(|codes|, prefix, character)], codes + [key], steps + [k])
  {
    var key := Lzw.Key(prefix, character);
    var e := Pos(prefix, character, k);
    var t' := t[e := Slot(|codes|, prefix, character)];
    ProbeAnswers(t, codes, steps, prefix, character, k);
    Lzw.LearnWellFormed(codes, key);
    OccupiedInsert(t, e, Slot(|codes|, prefix, character));
    InsertKeepsCodes(t, codes, steps, prefix, character, k);
    InsertKeepsSlots(t, codes, steps, prefix, character, k);
  }

  /** Filling an empty slot adds one occupied slot. */
  lemma OccupiedInsert(t: HashTable, e: int, slot: Slot)
    requires 0 <= e < |t| && IsEmpty(t[e]) && !IsEmpty(slot)
    ensures |Occupied(t[e := slot])| == |Occupied(t)| + 1
  {
    assert e !in Occupied(t);
    assert Occupied(t[e := slot]) == Occupied(t) + {e};
  }

  /** After the insertion every learned code, old or new, is still found
      where its probe stops. */
  lemma InsertKeepsCodes(t: HashTable, codes: Lzw.Table, steps: seq<nat>, prefix: int, character: int, k: nat)
    requires Represents(t, codes, steps) && ValidKey(prefix, character)
    requires StopsAt(t, prefix, character, k) && IsEmpty(t[Pos(prefix, character, k)])
    ensures var t', codes', steps' :=
        t[Pos(prefix, character, k) := Slot(|codes|, prefix, character)], codes + [Lzw.Key(prefix, character)], steps + [k];
      forall c :: ROOTS <= c < |codes'| ==>
        && IsLearnedKey(codes', c)
        && StopsAt(t', codes'[c].prefix, codes'[c].append, steps'[c])
        && t'[SlotOf(codes', steps', c)] == Slot(c, codes'[c].prefix, codes'[c].append)
  {
    var e := Pos(prefix, character, k);
    var t', codes', steps' := t[e := Slot(|codes|, prefix, character)], codes + [Lzw.Key(prefix, character)], steps + [k];
    forall c | ROOTS <= c < |codes'|
      ensures IsLearnedKey(codes', c)
      ensures StopsAt(t', codes'[c].prefix, codes'[c].append, steps'[c])
      ensures t'[SlotOf(codes', steps', c)] == Slot(c, codes'[c].prefix, codes'[c].append)
    {
      var p, a := codes'[c].prefix, codes'[c].append;
      if c < |codes| {
        assert codes'[c] == codes[c] && steps'[c] == steps[c];
        assert SlotOf(codes', steps', c) == SlotOf(codes, steps, c);
        forall j | 0 <= j <= steps[c]
          ensures t'[Pos(p, a, j)] == t[Pos(p, a, j)]
        {
          assert !IsEmpty(t[Pos(p, a, j)]);
        }
      } else {
        forall j | 0 <= j < k
          ensures t'[Pos(p, a, j)] == t[Pos(p, a, j)]
        {
          assert !IsEmpty(t[Pos(p, a, j)]);
        }
      }
    }
  }

  /** After the insertion every occupied slot past the roots holds a learned
      code, in the slot where that code's probe stops. */
  lemma InsertKeepsSlots(t: HashTable, codes: Lzw.Table, steps: seq<nat>, prefix: int, character: int, k: nat)
    requires Represents(t, codes, steps) && ValidKey(prefix, character)
    requires IsEmpty(t[Pos(prefix, character, k)])
    ensures var t', codes', steps' :=
        t[Pos(prefix, character, k) := Slot(|codes|, prefix, character)], codes + [Lzw.Key(prefix, character)], steps + [k];
      forall i :: ROOTS <= i < TABLE_SIZE && !IsEmpty(t'[i]) ==>
        ROOTS <= t'[i].code < |codes'| && IsLearnedKey(codes', t'[i].code) && i == SlotOf(codes', steps', t'[i].code)
  {
    var e := Pos(prefix, character, k);
    var t', codes', steps' := t[e := Slot(|codes|, prefix, character)], codes + [Lzw.Key(prefix, character)], steps + [k];
    forall i | ROOTS <= i < TABLE_SIZE && !IsEmpty(t'[i])
      ensures ROOTS <= t'[i].code < |codes'| && IsLearnedKey(codes', t'[i].code) && i == SlotOf(codes', steps', t'[i].code)
    {
      if i != e {
        var c := t[i].code;
        assert codes'[c] == codes[c] && steps'[c] == steps[c];
      }
    }
  }
}
