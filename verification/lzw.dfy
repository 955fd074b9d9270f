/** The LZW encoding computed by the compressor, independent of how the
    dictionary is stored. The dictionary is the code table a decoder would
    build: entry `c` holds the (prefix code, appended byte) key of code `c`.
    Codes 0..127 are roots; new codes are handed out in order from 128.

    `Codes(input)` is the code sequence the compressor passes to its bit
    packer: one code per dictionary miss, then the pending code, then the
    end-of-stream sentinel. */
module Lzw {
  import opened Params

  datatype Option<T> = None | Some(value: T)

  /** Prefix of a root entry. */
  const NO_PREFIX: int := -1

  /** A dictionary key: the code of a known string and one more byte. */
  datatype Key = Key(prefix: int, append: int)

  /** Code table: entry `c` is the key of code `c`. */
  type Table = seq<Key>

  function InitialTable(): (t: Table)
    ensures |t| == ROOTS
    ensures forall c :: 0 <= c < ROOTS ==> t[c] == Key(NO_PREFIX, c)
  {
    seq(ROOTS, c => Key(NO_PREFIX, c))
  }

  /** The first code whose key is `key`, if any. */
  function Lookup(t: Table, key: Key): (r: Option<int>)
    ensures r.Some? ==> 0 <= r.value < |t| && t[r.value] == key
    ensures r.Some? ==> forall c :: 0 <= c < r.value ==> t[c] != key
    ensures r.None? <==> forall c :: 0 <= c < |t| ==> t[c] != key
  {
    if |t| == 0 then None
    else match Lookup(t[..|t| - 1], key)
      case Some(c) => Some(c)
      case None => if t[|t| - 1] == key then Some(|t| - 1) else None
  }

  /** Encoder state: the code table (its length is `nextCode`), the code of
      the string matched so far (`stringCode`), and the codes emitted. */
  datatype State = State(table: Table, cur: int, emitted: seq<int>)

  /** The state before the loop: the first byte read is the seed match, or
      EOF when the input is empty. */
  function Start(input: seq<int>): (st: State)
    ensures AllBytes(input) && |input| > 0 ==> Valid(st)
    ensures |input| == 0 ==> st.cur == EOF
  {
    State(InitialTable(), if |input| == 0 then EOF else input[0], [])
  }

  /** One iteration of the loop on byte `b`: extend the match on a hit;
      on a miss emit the match, learn the new key while codes remain, and
      restart the match at `b`. */
  function Step(st: State, b: int): (next: State)
    ensures |st.table| <= |next.table| <= |st.table| + 1 && next.table[..|st.table|] == st.table
    ensures next.table != st.table ==>
      |st.table| <= MAX_CODE && Lookup(st.table, Key(st.cur, b)).None? && next.table[|st.table|] == Key(st.cur, b)
    ensures |st.emitted| <= |next.emitted| <= |st.emitted| + 1 && next.emitted[..|st.emitted|] == st.emitted
    ensures |next.emitted| > |st.emitted| ==> next.emitted[|st.emitted|] == st.cur && next.cur == b
    ensures |next.emitted| > |st.emitted| <==> Lookup(st.table, Key(st.cur, b)).None?
    ensures Lookup(st.table, Key(st.cur, b)).None? && |st.table| <= MAX_CODE ==> |next.table| == |st.table| + 1
  {
    var key := Key(st.cur, b);
    match Lookup(st.table, key)
    case Some(code) => st.(cur := code)
    case None =>
      var table := if |st.table| <= MAX_CODE then st.table + [key] else st.table;
      State(table, b, st.emitted + [st.cur])
  }

  function Run(st: State, bytes: seq<int>): State
    decreases |bytes|
  {
    if |bytes| == 0 then st else Step(Run(st, bytes[..|bytes| - 1]), bytes[|bytes| - 1])
  }

  /** The bytes consumed by the loop: all but the seed. */
  function Rest(input: seq<int>): seq<int> {
    if |input| == 0 then [] else input[1..]
  }

  /** The state when the input is exhausted. */
  function Final(input: seq<int>): State {
    Run(Start(input), Rest(input))
  }

  /** Every code handed to the bit packer, in order. Each is a code of the
      12-bit space, except the pending match of an empty input, which is
      EOF. */
  function Codes(input: seq<int>): (codes: seq<int>)
    requires AllBytes(input)
    ensures forall i :: 0 <= i < |codes| ==> codes[i] == EOF || 0 <= codes[i] <= MAX_VALUE
    ensures |input| > 0 ==> forall i :: 0 <= i < |codes| ==> 0 <= codes[i] <= MAX_VALUE
  {
    var st := Final(input);
    assert |input| > 0 ==> Valid(st) by {
      if |input| > 0 {
        FinalValid(input);
      }
    }
    st.emitted + [st.cur, MAX_VALUE]
  }

  /** On empty input the loop never runs: the codes are EOF and the
      sentinel. */
  lemma CodesEmpty()
    ensures Codes([]) == [EOF, MAX_VALUE]
  {
    assert Final([]) == Start([]);
  }

  // ---------------------------------------------------------------------------
  // Invariants

  /** The shape of every code table the encoder builds: the roots, then at
      most MAX_CODE - 127 learned keys, each new, each extending a code that
      is a byte or an earlier code by a byte. */
  ghost predicate WellFormed(t: Table) {
    && ROOTS <= |t| <= MAX_CODE + 1
    && (forall c :: 0 <= c < ROOTS ==> t[c] == Key(NO_PREFIX, c))
    && (forall c :: ROOTS <= c < |t| ==>
          0 <= t[c].prefix && (t[c].prefix < c || IsByte(t[c].prefix)) && IsByte(t[c].append))
    && (forall c, d :: ROOTS <= c < d < |t| ==> t[c] != t[d])
  }

  /** The current match is a byte or a known code, and everything emitted
      is a code below the sentinel. */
  ghost predicate Valid(st: State) {
    && WellFormed(st.table)
    && 0 <= st.cur && (st.cur < |st.table| || IsByte(st.cur))
    && (forall i :: 0 <= i < |st.emitted| ==> 0 <= st.emitted[i] <= MAX_CODE)
  }

  lemma StepValid(st: State, b: int)
    requires Valid(st) && IsByte(b)
    ensures Valid(Step(st, b))
  {
    var key := Key(st.cur, b);
    if Lookup(st.table, key).None? && |st.table| <= MAX_CODE {
      LearnWellFormed(st.table, key);
    }
  }

  /** Learning a key that is not in the table, while codes remain, keeps the
      table well formed. */
  lemma LearnWellFormed(t: Table, key: Key)
    requires WellFormed(t) && |t| <= MAX_CODE && Lookup(t, key).None?
    requires 0 <= key.prefix && (key.prefix < |t| || IsByte(key.prefix)) && IsByte(key.append)
    ensures WellFormed(t + [key])
  {
    var u := t + [key];
    forall c, d | ROOTS <= c < d < |u|
      ensures u[c] != u[d]
    {
      if d == |t| {
        assert u[c] == t[c];
      }
    }
  }

  /** The encoder state stays valid over any byte sequence. */
  lemma {:induction false} RunValid(st: State, bytes: seq<int>)
    requires Valid(st) && AllBytes(bytes)
    ensures Valid(Run(st, bytes))
    decreases |bytes|
  {
    if |bytes| > 0 {
      RunValid(st, bytes[..|bytes| - 1]);
      StepValid(Run(st, bytes[..|bytes| - 1]), bytes[|bytes| - 1]);
    }
  }

  lemma FinalValid(input: seq<int>)
    requires AllBytes(input) && |input| > 0
    ensures Valid(Final(input))
  {
    RunValid(Start(input), Rest(input));
  }

  /** Code assignment: codes are never revoked or reassigned (the old table is
      a prefix of the new one), at most one code is added per byte, and the
      table never holds more than MAX_CODE + 1 codes, so the sentinel 4095 is
      never assigned. Once full, the table no longer changes. */
  lemma {:induction false} RunTable(st: State, bytes: seq<int>)
    requires Valid(st) && AllBytes(bytes)
    ensures var t := Run(st, bytes).table;
      && |st.table| <= |t| <= |st.table| + |bytes|
      && |t| <= MAX_CODE + 1
      && t[..|st.table|] == st.table
      && (|st.table| == MAX_CODE + 1 ==> t == st.table)
    decreases |bytes|
  {
    if |bytes| > 0 {
      var init := bytes[..|bytes| - 1];
      RunTable(st, init);
      RunValid(st, init);
      var mid := Run(st, init);
      StepTable(mid, bytes[|bytes| - 1]);
      var t := Run(st, bytes).table;
      assert t[..|st.table|] == mid.table[..|st.table|];
    }
  }

  /** One step appends at most one key and changes nothing else. */
  lemma StepTable(st: State, b: int)
    requires Valid(st) && IsByte(b)
    ensures var t := Step(st, b).table;
      && |st.table| <= |t| <= |st.table| + 1
      && |t| <= MAX_CODE + 1
      && t[..|st.table|] == st.table
      && (|st.table| == MAX_CODE + 1 ==> t == st.table)
  {
    StepValid(st, b);
  }

  /** Framing: every code before the last is a real code in [0, MAX_CODE]
      (one per miss, then the final match), the last is the sentinel, so the
      sentinel occurs exactly once; and no more codes than bytes plus one
      are emitted. */
  lemma CodesFraming(input: seq<int>)
    requires AllBytes(input) && |input| > 0
    ensures var codes := Codes(input);
      && 2 <= |codes| <= |input| + 1
      && codes[|codes| - 1] == MAX_VALUE
      && (forall i :: 0 <= i < |codes| - 1 ==> 0 <= codes[i] <= MAX_CODE)
  {
    FinalValid(input);
    EmittedCount(Start(input), Rest(input));
  }

  lemma {:induction false} EmittedCount(st: State, bytes: seq<int>)
    ensures |Run(st, bytes).emitted| <= |st.emitted| + |bytes|
    decreases |bytes|
  {
    if |bytes| > 0 {
      EmittedCount(st, bytes[..|bytes| - 1]);
    }
  }

  // ---------------------------------------------------------------------------
  // Decodability

  /** Learned entries extend strictly earlier codes. This holds when every
      input byte is a root (below 128); a byte of 128 or more taken as a
      prefix would be read as the learned code with that number. */
  ghost predicate Ordered(t: Table) {
    forall c :: ROOTS <= c < |t| ==> t[c].prefix < c
  }

  /** The string a code stands for. */
  ghost function Denote(t: Table, code: int): (s: seq<int>)
    requires WellFormed(t) && Ordered(t) && 0 <= code < |t|
    ensures |s| >= 1
    decreases code
  {
    if code < ROOTS then [code] else Denote(t, t[code].prefix) + [t[code].append]
  }

  /** The concatenated strings of a code sequence. */
  ghost function Expand(t: Table, codes: seq<int>): seq<int>
    requires WellFormed(t) && Ordered(t)
    requires forall i :: 0 <= i < |codes| ==> 0 <= codes[i] < |t|
  {
    if |codes| == 0 then [] else Expand(t, codes[..|codes| - 1]) + Denote(t, codes[|codes| - 1])
  }

  lemma {:induction false} DenoteExtend(t: Table, u: Table, code: int)
    requires WellFormed(t) && Ordered(t) && WellFormed(u) && Ordered(u)
    requires |t| <= |u| && u[..|t|] == t && 0 <= code < |t|
    ensures Denote(u, code) == Denote(t, code)
    decreases code
  {
    if code >= ROOTS {
      assert u[code] == t[code];
      DenoteExtend(t, u, t[code].prefix);
    }
  }

  lemma {:induction false} ExpandExtend(t: Table, u: Table, codes: seq<int>)
    requires WellFormed(t) && Ordered(t) && WellFormed(u) && Ordered(u)
    requires |t| <= |u| && u[..|t|] == t
    requires forall i :: 0 <= i < |codes| ==> 0 <= codes[i] < |t|
    ensures Expand(u, codes) == Expand(t, codes)
    decreases |codes|
  {
    if |codes| > 0 {
      ExpandExtend(t, u, codes[..|codes| - 1]);
      DenoteExtend(t, u, codes[|codes| - 1]);
    }
  }

  predicate AllRoots(s: seq<int>) {
    forall i :: 0 <= i < |s| ==> 0 <= s[i] < ROOTS
  }

  /** The decoding invariant of the loop: the strings of the emitted codes
      followed by the string of the current match spell the bytes read. */
  ghost predicate Spells(st: State, read: seq<int>) {
    && Valid(st) && Ordered(st.table) && st.cur < |st.table|
    && (forall i :: 0 <= i < |st.emitted| ==> st.emitted[i] < |st.table|)
    && Expand(st.table, st.emitted) + Denote(st.table, st.cur) == read
  }

  lemma StepSpells(st: State, read: seq<int>, b: int)
    requires Spells(st, read) && 0 <= b < ROOTS
    ensures Spells(Step(st, b), read + [b])
  {
    match Lookup(st.table, Key(st.cur, b))
    case Some(code) => HitSpells(st, read, b, code);
    case None => MissSpells(st, read, b);
  }

  /** On a hit the match grows by the byte, and so does its string. */
  lemma HitSpells(st: State, read: seq<int>, b: int, code: int)
    requires Spells(st, read) && 0 <= b < ROOTS
    requires Lookup(st.table, Key(st.cur, b)) == Some(code)
    ensures Spells(st.(cur := code), read + [b])
  {
    assert code >= ROOTS;
    assert Denote(st.table, code) == Denote(st.table, st.cur) + [b];
  }

  /** On a miss the match's code moves to the emitted codes, the match
      restarts at the byte, and a learned entry leaves old strings alone. */
  lemma MissSpells(st: State, read: seq<int>, b: int)
    requires Spells(st, read) && 0 <= b < ROOTS
    requires Lookup(st.table, Key(st.cur, b)).None?
    ensures Spells(Step(st, b), read + [b])
  {
    StepValid(st, b);
    var t, next := st.table, Step(st, b);
    var u := next.table;
    assert u[..|t|] == t;
    assert Ordered(u);
    ExpandExtend(t, u, st.emitted);
    DenoteExtend(t, u, st.cur);
    assert next.emitted[..|next.emitted| - 1] == st.emitted;
    assert Expand(u, next.emitted) == Expand(t, st.emitted) + Denote(t, st.cur);
    assert Denote(u, b) == [b];
  }

  lemma {:induction false} RunSpells(input: seq<int>, n: nat)
    requires AllRoots(input) && 1 <= n <= |input|
    ensures Spells(Run(Start(input), input[1..n]), input[..n])
    decreases n
  {
    if n == 1 {
      assert input[1..1] == [] && input[..1] == [input[0]];
      StartSpells(input);
    } else {
      RunSpells(input, n - 1);
      RunSlice(input, n);
      SliceSnoc(input, n);
      StepSpells(Run(Start(input), input[1..n - 1]), input[..n - 1], input[n - 1]);
    }
  }

  /** Running over the bytes `1..n` is one more step after `1..n-1`. */
  lemma RunSlice(input: seq<int>, n: nat)
    requires 2 <= n <= |input|
    ensures Run(Start(input), input[1..n]) == Step(Run(Start(input), input[1..n - 1]), input[n - 1])
  {
    var bytes := input[1..n];
    assert bytes[..|bytes| - 1] == input[1..n - 1];
  }

  lemma SliceSnoc(s: seq<int>, n: nat)
    requires 1 <= n <= |s|
    ensures s[..n] == s[..n - 1] + [s[n - 1]]
  {
  }

  /** Before the loop the seed byte is the whole match. */
  lemma StartSpells(input: seq<int>)
    requires AllRoots(input) && |input| > 0
    ensures Spells(Start(input), [input[0]])
  {
    assert Expand(Start(input).table, []) == [];
  }

  /** LZW correctness: when every byte is below 128, the strings denoted by
      the emitted codes (sentinel excluded) in the final code table
      concatenate to the input. */
  lemma Decodable(input: seq<int>)
    requires AllRoots(input) && |input| > 0
    ensures var codes := Codes(input); var t := Final(input).table;
      && WellFormed(t) && Ordered(t)
      && (forall i :: 0 <= i < |codes| - 1 ==> 0 <= codes[i] < |t|)
      && Expand(t, codes[..|codes| - 1]) == input
  {
    RunSpells(input, |input|);
    assert input[..|input|] == input;
    var st := Final(input);
    var codes := Codes(input);
    assert codes[..|codes| - 1] == st.emitted + [st.cur];
    assert (st.emitted + [st.cur])[..|st.emitted|] == st.emitted;
  }

  /** Without the 128 bound the encoding is ambiguous: for "AA" followed by
      byte 128 the encoder learns code 128 = "AA" and then emits the raw
      byte 128 as a code, so the stream reads back as "AAAA". */
  lemma HighByteCollision()
    ensures Codes([65, 65, 128]) == [65, 65, 128, MAX_VALUE]
    ensures |Final([65, 65, 128]).table| == 130
    ensures Final([65, 65, 128]).table[128] == Key(65, 65)
    ensures var t := Final([65, 65, 128]).table;
      && WellFormed(t) && Ordered(t) && Expand(t, [65, 65, 128]) == [65, 65, 65, 65]
  {
    var t2 := InitialTable() + [Key(65, 65)] + [Key(65, 128)];
    CollisionFinal();
    assert [65, 65] + [128, MAX_VALUE] == [65, 65, 128, MAX_VALUE];
    CollisionReadsBack(t2);
  }

  /** The encoder's state after 65, 65, 128: two misses, codes 128 and 129
      learned, 65 emitted twice, and the match is the raw byte 128. */
  lemma CollisionFinal()
    ensures Final([65, 65, 128]) == State(InitialTable() + [Key(65, 65)] + [Key(65, 128)], 128, [65, 65])
  {
    var input := [65, 65, 128];
    assert Rest(input) == [65, 128];
    CollisionLookups();
    LearnTwice(InitialTable(), 65, 65, 128);
    assert [65] + [65] == [65, 65];
  }

  /** Two bytes that both miss while codes remain: both keys are learned
      and the two matches before them are emitted. */
  lemma LearnTwice(t: Table, a: int, b: int, c: int)
    requires |t| < MAX_CODE
    requires Lookup(t, Key(a, b)).None?
    requires Lookup(t + [Key(a, b)], Key(b, c)).None?
    ensures Run(State(t, a, []), [b, c]) == State(t + [Key(a, b)] + [Key(b, c)], c, [a] + [b])
  {
    var s0 := State(t, a, []);
    var s1 := State(t + [Key(a, b)], b, [a]);
    assert [] + [a] == [a];
    StepLearn(s0, b);
    assert Step(s0, b) == s1;
    StepLearn(s1, c);
    RunTwo(s0, b, c);
  }

  /** Running two bytes is two steps. */
  lemma RunTwo(st: State, a: int, b: int)
    ensures Run(st, [a, b]) == Step(Step(st, a), b)
  {
    assert [a, b][..1] == [a] && [a][..0] == [];
    assert Run(st, [a]) == Step(st, a);
  }

  /** The two dictionary lookups of `HighByteCollision`: both miss. */
  lemma CollisionLookups()
    ensures Lookup(InitialTable(), Key(65, 65)) == None
    ensures Lookup(InitialTable() + [Key(65, 65)], Key(65, 128)) == None
  {
    var t1 := InitialTable() + [Key(65, 65)];
    assert forall c :: 0 <= c < |t1| ==> t1[c] != Key(65, 128);
  }

  /** The table of `HighByteCollision` reads the codes 65, 65, 128 as
      "AAAA". */
  lemma CollisionReadsBack(t: Table)
    requires t == InitialTable() + [Key(65, 65)] + [Key(65, 128)]
    ensures WellFormed(t) && Ordered(t) && Expand(t, [65, 65, 128]) == [65, 65, 65, 65]
  {
    assert t[128] == Key(65, 65) && t[129] == Key(65, 128);
    assert WellFormed(t);
    assert Denote(t, 128) == [65, 65] by {
      assert Denote(t, 65) == [65];
    }
    ExpandThree(t, 65, 65, 128);
  }

  lemma ExpandThree(t: Table, a: int, b: int, c: int)
    requires WellFormed(t) && Ordered(t)
    requires 0 <= a < |t| && 0 <= b < |t| && 0 <= c < |t|
    ensures Expand(t, [a, b, c]) == Denote(t, a) + Denote(t, b) + Denote(t, c)
  {
    assert [a, b, c][..2] == [a, b] && [a, b][..1] == [a] && [a][..0] == [];
    assert Expand(t, [a]) == Denote(t, a) by {
      assert Expand(t, [a]) == Expand(t, []) + Denote(t, a);
    }
    assert Expand(t, [a, b]) == Denote(t, a) + Denote(t, b);
  }

  /** The input "AAAA": the encoder emits 65, learns 128 = (65, 'A'), matches
      "AA" as 128, emits it on the next miss while learning 129 = (128, 'A'),
      and ends with the pending 65 and the sentinel. */
  lemma RepeatedByteCodes()
    ensures Codes([65, 65, 65, 65]) == [65, 128, 65, MAX_VALUE]
    ensures var t := Final([65, 65, 65, 65]).table; |t| == 130 && t[128] == Key(65, 65) && t[129] == Key(128, 65)
  {
    RepeatedByteFinal();
    assert [65, 128] + [65, MAX_VALUE] == [65, 128, 65, MAX_VALUE];
  }

  /** The encoder's state after "AAAA": codes 128 and 129 learned, 65 and
      128 emitted, and the match is 65. */
  lemma RepeatedByteFinal()
    ensures Final([65, 65, 65, 65])
      == State(InitialTable() + [Key(65, 65)] + [Key(128, 65)], 65, [65, 128])
  {
    var input := [65, 65, 65, 65];
    assert Rest(input) == [65, 65, 65];
    RepeatedByteLookups();
    RepeatThrice(InitialTable(), 65, 128);
  }

  /** Three more copies of the byte the match `a` started from: a miss
      that learns (a, a), a hit on that code, and a miss that learns
      (code, a). */
  lemma RepeatThrice(t: Table, a: int, code: int)
    requires |t| < MAX_CODE
    requires Lookup(t, Key(a, a)).None?
    requires Lookup(t + [Key(a, a)], Key(a, a)) == Some(code)
    requires Lookup(t + [Key(a, a)], Key(code, a)).None?
    ensures Run(State(t, a, []), [a, a, a]) == State(t + [Key(a, a)] + [Key(code, a)], a, [a] + [code])
  {
    var s0 := State(t, a, []);
    var s1 := State(t + [Key(a, a)], a, [a]);
    var s2 := State(t + [Key(a, a)], code, [a]);
    assert [] + [a] == [a];
    StepLearn(s0, a);
    assert Step(s0, a) == s1;
    StepHit(s1, a, code);
    assert Step(s1, a) == s2;
    StepLearn(s2, a);
    RunThree(s0, a, a, a);
  }

  /** A hit moves the match to the code found and changes nothing else. */
  lemma StepHit(st: State, b: int, code: int)
    requires Lookup(st.table, Key(st.cur, b)) == Some(code)
    ensures Step(st, b) == st.(cur := code)
  {
  }

  /** A miss while codes remain learns the key, emits the match and
      restarts from the byte. */
  lemma StepLearn(st: State, b: int)
    requires Lookup(st.table, Key(st.cur, b)).None? && |st.table| <= MAX_CODE
    ensures Step(st, b) == State(st.table + [Key(st.cur, b)], b, st.emitted + [st.cur])
  {
  }

  /** Running three bytes is three steps. */
  lemma RunThree(st: State, a: int, b: int, c: int)
    ensures Run(st, [a, b, c]) == Step(Step(Step(st, a), b), c)
  {
    assert [a, b, c][..2] == [a, b] && [a, b][..1] == [a] && [a][..0] == [];
    assert Run(st, [a]) == Step(st, a);
    assert Run(st, [a, b]) == Step(Step(st, a), b);
  }

  /** The three dictionary lookups of "AAAA". */
  lemma RepeatedByteLookups()
    ensures Lookup(InitialTable(), Key(65, 65)) == None
    ensures Lookup(InitialTable() + [Key(65, 65)], Key(65, 65)) == Some(128)
    ensures Lookup(InitialTable() + [Key(65, 65)], Key(128, 65)) == None
  {
    var t1 := InitialTable() + [Key(65, 65)];
    assert t1[128] == Key(65, 65);
    assert forall c :: 0 <= c < |t1| ==> t1[c] != Key(128, 65);
  }

  /** Roots never produce a hit: every key the loop looks up has a
      non-negative prefix, and the roots' prefix is -1. */
  lemma RootsNeverHit(t: Table, prefix: int, b: int)
    requires WellFormed(t) && 0 <= prefix
    ensures Lookup(t, Key(prefix, b)).Some? ==> Lookup(t, Key(prefix, b)).value >= ROOTS
  {
  }
}
