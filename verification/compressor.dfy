/** `compress`: the main loop of the compressor, over the hash table of
    module Dictionary and the Java bit packer of module BitPacker. The input
    stream is the byte sequence `input` (`readByte` returns its bytes in
    order, then EOF); the output stream is the sequence of bytes written.

    The contract ties the loop to the table-free description of module Lzw:
    the bytes written are the Java packer's bytes for `Lzw.Codes(input)`,
    which for non-empty input are the declarative packing `Pack` of those
    codes. */
module Compressor {
  import opened Params
  import opened Probe
  import Lzw
  import opened Dictionary
  import opened BitPacker

  /** The fields and locals `compress` updates: the three table arrays,
      `nextCode`, `stringCode`, and the bit packer with its output. */
  datatype Loop = Loop(t: HashTable, nextCode: int, stringCode: int, packer: Packer)

  /** The state after the two initialisation loops and the first `readByte`. */
  function Init(input: seq<int>): (l: Loop)
    ensures Mirrors(l, Lzw.Start(input), InitialSteps())
  {
    InitialRepresents();
    Loop(InitialSlots(), ROOTS, if |input| == 0 then EOF else input[0], BitPacker.Start)
  }

  /** The body of the main loop once `findMatch` has returned `index` for
      the key (`stringCode`, `character`): on a hit continue from the slot's
      code; on a miss output `stringCode`, fill the slot while codes remain
      (each value narrowed to `short`), and restart from the byte. */
  function Iteration(l: Loop, index: int, character: int): (r: Loop)
    requires |l.t| == TABLE_SIZE && IsSlot(index)
    requires 0 <= l.packer.count < 8 && InCodeSpace(l.stringCode)
    ensures |r.t| == TABLE_SIZE && 0 <= r.packer.count < 8
    ensures forall i :: 0 <= i < TABLE_SIZE && i != index ==> r.t[i] == l.t[i]
    ensures !IsEmpty(l.t[index]) ==> r.t == l.t && r.nextCode == l.nextCode && r.packer == l.packer
    ensures l.nextCode <= r.nextCode <= l.nextCode + 1
    ensures l.nextCode <= MAX_CODE + 1 ==> r.nextCode <= MAX_CODE + 1
    ensures r.t != l.t ==> IsEmpty(l.t[index]) && l.nextCode <= MAX_CODE
    ensures IsEmpty(l.t[index]) <==> |l.packer.written| < |r.packer.written|
    ensures IsEmpty(l.t[index]) ==> r.stringCode == character
    ensures IsEmpty(l.t[index]) && 0 <= l.nextCode <= MAX_CODE && IsByte(character) ==>
      r.t[index] == Slot(l.nextCode, l.stringCode, character) && r.nextCode == l.nextCode + 1
  {
    if l.t[index].code != UNUSED then l.(stringCode := l.t[index].code)
    else
      var packer := OutputCode(l.packer, l.stringCode);
      if l.nextCode <= MAX_CODE then
        Loop(l.t[index := Slot(Short(l.nextCode), Short(l.stringCode), Short(character))], l.nextCode + 1, character, packer)
      else
        Loop(l.t, l.nextCode, character, packer)
  }

  /** After the loop: output the pending code and the sentinel, then write
      a part byte, if any, shifted to the top. */
  function Finish(l: Loop): (out: seq<int>)
    requires 0 <= l.packer.count < 8 && (l.stringCode == EOF || InCodeSpace(l.stringCode))
    ensures |out| == |l.packer.written| + (l.packer.count + 24 + 7) / 8
    ensures out[..|l.packer.written|] == l.packer.written
  {
    var p := OutputCode(l.packer, l.stringCode);
    Flush(OutputCode(p, MAX_VALUE))
  }

  method Compress(input: seq<int>) returns (output: seq<int>)
    requires AllBytes(input)
    ensures Emittable(Lzw.Codes(input)) && output == Emit(Lzw.Codes(input))
    ensures |input| > 0 ==> CodesInRange(Lzw.Codes(input)) && output == Pack(Lzw.Codes(input))
    ensures |input| == 0 ==> output == [0xFF, 0xFF, 0xFF]
  {
    var l := Init(input);
    var pos := 1;
    ghost var st, steps := Lzw.Start(input), InitialSteps();
    InitInv(input);
    while pos < |input|
      invariant Tracks(input, pos, st) && Mirrors(l, st, steps)
    {
      var character := input[pos];
      ReadyToProbe(input, pos, l, st, steps);
      var index, k := FindMatch(l.t, l.stringCode, character);
      IterationInv(input, pos, l, st, steps, index, k);
      ghost var learned := Learned(l, steps, index, k);
      l := Iteration(l, index, character);
      st, steps := Lzw.Step(st, character), learned;
      pos := pos + 1;
    }
    FinishInv(input, pos, l, st, steps);
    output := Finish(l);
    if |input| > 0 {
      EmitIsPack(Lzw.Codes(input));
    } else {
      Lzw.CodesEmpty();
      EmptyOutput();
    }
  }

  // ---------------------------------------------------------------------------
  // The loop invariant

  /** The abstract encoder has consumed the bytes read so far: `pos` is the
      index of the next byte, byte 0 being the seed match. */
  ghost predicate Tracks(input: seq<int>, pos: int, st: Lzw.State) {
    && AllBytes(input)
    && 1 <= pos <= |Lzw.Rest(input)| + 1
    && st == Lzw.Run(Lzw.Start(input), Lzw.Rest(input)[..pos - 1])
    && (|input| > 0 ==> Lzw.Valid(st))
    && (|input| == 0 ==> st == Lzw.Start(input))
  }

  /** The Java state mirrors the abstract encoder state: the hash table
      stores its code table, `nextCode` is the table's length, and the packer
      has been handed the codes emitted. */
  ghost predicate Mirrors(l: Loop, st: Lzw.State, steps: seq<nat>) {
    && l.stringCode == st.cur && l.nextCode == |st.table|
    && Represents(l.t, st.table, steps)
    && Emittable(st.emitted) && l.packer == EmitAll(st.emitted)
  }

  /** The probe counts after an iteration: one more when a key is learned. */
  ghost function Learned(l: Loop, steps: seq<nat>, index: int, k: nat): seq<nat>
    requires |l.t| == TABLE_SIZE && IsSlot(index)
  {
    if l.t[index].code == UNUSED && l.nextCode <= MAX_CODE then steps + [k] else steps
  }

  lemma InitInv(input: seq<int>)
    requires AllBytes(input)
    ensures Tracks(input, 1, Lzw.Start(input))
    ensures Mirrors(Init(input), Lzw.Start(input), InitialSteps())
  {
    InitialRepresents();
    assert Lzw.Rest(input)[..0] == [];
  }

  /** Inside the loop `findMatch` may be called: the key is valid and the
      table has an empty slot. */
  lemma ReadyToProbe(input: seq<int>, pos: int, l: Loop, st: Lzw.State, steps: seq<nat>)
    requires Tracks(input, pos, st) && Mirrors(l, st, steps) && pos < |input|
    ensures |l.t| == TABLE_SIZE && ValidKey(l.stringCode, input[pos])
    ensures exists e :: 0 <= e < TABLE_SIZE && IsEmpty(l.t[e])
    ensures 0 <= l.packer.count < 8
  {
    HasEmptySlot(l.t, st.table, steps);
  }

  /** One iteration keeps the invariant, with the abstract encoder taking
      one `Lzw.Step` on the byte read. */
  lemma IterationInv(input: seq<int>, pos: int, l: Loop, st: Lzw.State, steps: seq<nat>, index: int, k: nat)
    requires Tracks(input, pos, st) && Mirrors(l, st, steps) && pos < |input|
    requires |l.t| == TABLE_SIZE && ValidKey(l.stringCode, input[pos])
    requires k < TABLE_SIZE && index == Pos(l.stringCode, input[pos], k)
    requires StopsAt(l.t, l.stringCode, input[pos], k)
    ensures Tracks(input, pos + 1, Lzw.Step(st, input[pos]))
    ensures Mirrors(Iteration(l, index, input[pos]), Lzw.Step(st, input[pos]), Learned(l, steps, index, k))
  {
    TracksStep(input, pos, st);
    MirrorsStep(l, st, steps, input[pos], index, k);
  }

  lemma TracksStep(input: seq<int>, pos: int, st: Lzw.State)
    requires Tracks(input, pos, st) && pos < |input|
    ensures Tracks(input, pos + 1, Lzw.Step(st, input[pos]))
  {
    var rest := Lzw.Rest(input);
    assert rest[..pos][..pos - 1] == rest[..pos - 1];
    assert rest[..pos][pos - 1] == input[pos];
    Lzw.StepValid(st, input[pos]);
  }

  lemma MirrorsStep(l: Loop, st: Lzw.State, steps: seq<nat>, c: int, index: int, k: nat)
    requires Mirrors(l, st, steps) && Lzw.Valid(st) && IsByte(c)
    requires |l.t| == TABLE_SIZE && ValidKey(l.stringCode, c)
    requires k < TABLE_SIZE && index == Pos(l.stringCode, c, k) && StopsAt(l.t, l.stringCode, c, k)
    ensures Mirrors(Iteration(l, index, c), Lzw.Step(st, c), Learned(l, steps, index, k))
  {
    ProbeAnswers(l.t, st.table, steps, l.stringCode, c, k);
    if IsEmpty(l.t[index]) {
      EmitAllSnoc(st.emitted, st.cur);
      if l.nextCode <= MAX_CODE {
        InsertRepresents(l.t, st.table, steps, l.stringCode, c, k);
      }
    }
  }

  /** When the input is exhausted the abstract encoder has run to the end,
      and finishing outputs exactly `Lzw.Codes(input)`. */
  lemma FinishInv(input: seq<int>, pos: int, l: Loop, st: Lzw.State, steps: seq<nat>)
    requires Tracks(input, pos, st) && Mirrors(l, st, steps) && pos >= |input|
    ensures 0 <= l.packer.count < 8 && (l.stringCode == EOF || InCodeSpace(l.stringCode))
    ensures Emittable(Lzw.Codes(input)) && Finish(l) == Emit(Lzw.Codes(input))
  {
    assert Lzw.Rest(input)[..pos - 1] == Lzw.Rest(input);
    var codes := st.emitted + [st.cur];
    assert Lzw.Codes(input) == codes + [MAX_VALUE];
    EmitAllSnoc(st.emitted, st.cur);
    EmitAllSnoc(codes, MAX_VALUE);
  }

  /** End to end on "AAAA": the codes 65, 128, 65, 4095, and the six bytes
      `Compress` writes for them. */
  lemma RepeatedByteOutput()
    ensures Lzw.Codes([65, 65, 65, 65]) == [65, 128, 65, MAX_VALUE]
    ensures Emittable(Lzw.Codes([65, 65, 65, 65]))
    ensures Emit(Lzw.Codes([65, 65, 65, 65])) == [0x04, 0x10, 0x80, 0x04, 0x1F, 0xFF]
  {
    Lzw.RepeatedByteCodes();
    PackExample();
    EmitIsPack([65, 128, 65, MAX_VALUE]);
  }
}
