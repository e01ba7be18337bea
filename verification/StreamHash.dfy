/** The SHA-256 object: what is given to update, in whatever pieces, is what finish hashes. */
module StreamHash {
  import opened Wrappers
  import opened Words
  import opened HashSpec
  import opened HashBlocks

  datatype HashError = AlreadyFinished

  class HashSha256 {
    const f: Compression
    const state: array<Word32>
    const buffer: array<Byte>
    var bufferLength: nat
    var bytesHashed: nat
    var finished: bool
    // everything that update was given since the last reset
    ghost var message: seq<Byte>

    /** The state has taken full blocks, and the buffer holds what is behind them. */
    ghost predicate Holds(taken: seq<Byte>, rest: seq<Byte>)
      reads `bufferLength, state, buffer
    {
      && state.Length == 8 && buffer.Length == 128
      && |taken| % 64 == 0 && state[..] == Fold(f, 64, IV256, taken)
      && bufferLength <= 64 && buffer[..bufferLength] == rest
    }

    ghost predicate Open()
      reads this, state, buffer
    {
      && !finished && bytesHashed == |message| && bufferLength < 64 && bufferLength <= |message|
      && var cut := |message| - bufferLength;
      Holds(message[..cut], message[cut..])
    }

    ghost predicate Closed()
      reads this, state, buffer
    {
      && finished && state.Length == 8 && buffer.Length == 128
      && state[..] == Fold(f, 64, IV256, message + Padding(|message|, 64))
    }

    ghost predicate Valid()
      reads this, state, buffer
    {
      if finished then Closed() else Open()
    }

    constructor (f: Compression)
      ensures Valid() && !finished && message == [] && this.f == f
      ensures fresh(state) && fresh(buffer) && state.Length == 8 && buffer.Length == 128
    {
      this.f := f;
      state := new Word32[8];
      buffer := new Byte[128];
      new;
      Reset();
    }

    method Reset()
      requires state.Length == 8 && buffer.Length == 128
      modifies this, state
      ensures Valid() && !finished && message == []
    {
      state[0], state[1], state[2], state[3] := 0x6a09e667, 0xbb67ae85, 0x3c6ef372, 0xa54ff53a;
      state[4], state[5], state[6], state[7] := 0x510e527f, 0x9b05688c, 0x1f83d9ab, 0x5be0cd19;
      bufferLength, bytesHashed, finished := 0, 0, false;
      message := [];
      assert state[..] == IV256;
      assert message[..0] == [] && message[0..] == [] && buffer[..0] == [];
    }

    method Clean()
      requires state.Length == 8 && buffer.Length == 128
      modifies this, state, buffer
      ensures Valid() && !finished && message == [] && forall i :: 0 <= i < 128 ==> buffer[i] == 0
    {
      hide Valid;
      var i := 0;
      while i < buffer.Length
        invariant i <= 128 && forall j :: 0 <= j < i ==> buffer[j] == 0
        modifies buffer
      {
        buffer[i] := 0;
        i := i + 1;
      }
      Reset();
    }

    lemma Opens()
      requires Open()
      ensures bufferLength <= |message|
      ensures var cut := |message| - bufferLength; Holds(message[..cut], message[cut..])
    {
    }

    lemma Closes(taken: seq<Byte>, rest: seq<Byte>)
      requires Holds(taken, rest) && bufferLength < 64 && message == taken + rest
      requires !finished && bytesHashed == |message|
      ensures Valid()
    {
      hide Fold;
      var cut := |message| - bufferLength;
      assert message[..cut] == taken && message[cut..] == rest;
    }

    lemma Rest(taken: seq<Byte>, rest: seq<Byte>)
      requires Holds(taken, rest)
      ensures |rest| == bufferLength
    {
    }

    /** Bytes are put behind those in the buffer. */
    method Keep(data: array<Byte>, start: nat, count: nat, ghost taken: seq<Byte>, ghost rest: seq<Byte>)
      requires Holds(taken, rest) && data != buffer && start + count <= data.Length && bufferLength + count <= 64
      modifies buffer, `bufferLength
      ensures bufferLength == old(bufferLength) + count && Holds(taken, rest + data[start..start + count])
    {
      hide Fold;
      var dataPos, dataLength := start, count;
      while dataLength > 0
        invariant start <= dataPos && 0 <= dataLength && dataPos + dataLength == start + count
        invariant bufferLength == old(bufferLength) + (dataPos - start)
        invariant Holds(taken, rest + data[start..dataPos])
      {
        buffer[bufferLength] := data[dataPos];
        bufferLength := bufferLength + 1;
        dataPos := dataPos + 1;
        dataLength := dataLength - 1;
        assert buffer[..bufferLength] == rest + data[start..dataPos - 1] + [data[dataPos - 1]];
        assert data[start..dataPos] == data[start..dataPos - 1] + [data[dataPos - 1]];
      }
    }

    /** The full buffer is taken. */
    method TakeBuffer(ghost taken: seq<Byte>, ghost rest: seq<Byte>)
      requires Holds(taken, rest) && bufferLength == 64
      modifies state, `bufferLength
      ensures bufferLength == 0 && Holds(taken + rest, [])
    {
      hide Fold;
      ghost var full := buffer[0..64];
      assert full == rest;
      var _ := TakeBlocks(f, state, buffer, 0, 64);
      Together(f, 64, IV256, taken, full);
      bufferLength := 0;
    }

    /** Full blocks are taken from the data itself. */
    method TakeDirectly(data: array<Byte>, dataPos: nat, dataLength: nat, ghost taken: seq<Byte>) returns (pos: nat)
      requires Holds(taken, []) && data != buffer && dataPos + dataLength <= data.Length && bufferLength == 0
      modifies state
      ensures pos == dataPos + dataLength - dataLength % 64
      ensures Holds(taken + data[dataPos..pos], [])
    {
      hide Fold;
      ghost var end := dataPos + dataLength - dataLength % 64;
      ghost var part := data[dataPos..dataPos + dataLength];
      ghost var was := state[..];
      pos := TakeBlocks(f, state, data, dataPos, dataLength);
      assert part[..end - dataPos] == data[dataPos..end];
      FullBlocks(f, was, part);
      WholeBlocks(dataLength);
      Together(f, 64, IV256, taken, data[dataPos..end]);
    }

    /** The first part of update: the buffer is filled up, and taken when it is full. */
    method FillUp(data: array<Byte>, dataLength: nat, ghost taken: seq<Byte>, ghost rest: seq<Byte>)
      returns (dataPos: nat, ghost newTaken: seq<Byte>, ghost newRest: seq<Byte>)
      requires Holds(taken, rest) && data != buffer && dataLength <= data.Length && 0 < bufferLength < 64
      modifies state, buffer, `bufferLength
      ensures dataPos <= dataLength && Holds(newTaken, newRest) && newTaken + newRest == taken + rest + data[..dataPos]
      ensures bufferLength < 64 && (bufferLength == 0 || dataPos == dataLength)
    {
      hide Holds;
      dataPos := if dataLength < 64 - bufferLength then dataLength else 64 - bufferLength;
      Keep(data, 0, dataPos, taken, rest);
      newTaken, newRest := taken, rest + data[0..dataPos];
      assert data[0..dataPos] == data[..dataPos];
      if bufferLength == 64 {
        TakeBuffer(newTaken, newRest);
        newTaken, newRest := newTaken + newRest, [];
      }
      assert newTaken + newRest == taken + rest + data[..dataPos];
    }

    /** The second part of update: full blocks are taken, and what is behind them is kept. */
    method TakeAndKeep(data: array<Byte>, start: nat, count: nat, ghost taken: seq<Byte>)
      returns (ghost newTaken: seq<Byte>, ghost newRest: seq<Byte>)
      requires Holds(taken, []) && data != buffer && start + count <= data.Length && bufferLength == 0
      modifies state, buffer, `bufferLength
      ensures Holds(newTaken, newRest) && bufferLength < 64 && newTaken + newRest == taken + data[start..start + count]
    {
      hide Holds;
      var dataPos, dataLength := start, count;
      newTaken := taken;
      if dataLength >= 64 {
        dataPos := TakeDirectly(data, dataPos, dataLength, taken);
        newTaken := taken + data[start..dataPos];
        dataLength := dataLength % 64;
      }
      assert dataPos + dataLength == start + count;
      Keep(data, dataPos, dataLength, newTaken, []);
      newRest := [] + data[dataPos..dataPos + dataLength];
      assert newTaken + newRest == taken + data[start..start + count];
    }

    method Update(data: array<Byte>, dataLength: nat) returns (r: Result<(), HashError>)
      requires Valid() && data != buffer && dataLength <= data.Length
      modifies this, state, buffer
      ensures Valid() && finished == old(finished) && r.Err? == finished
      ensures message == old(message) + if r.Ok? then data[..dataLength] else []
    {
      hide Holds, Padding, Fold;
      if finished {
        return Err(AlreadyFinished);
      }
      Opens();
      ghost var given := data[..dataLength];
      ghost var cut := |message| - bufferLength;
      ghost var taken, rest := message[..cut], message[cut..];
      bytesHashed := bytesHashed + dataLength;
      Absorb(data, dataLength, taken, rest, given);
      r := Ok(());
    }

    method Absorb(data: array<Byte>, dataLength: nat, ghost taken: seq<Byte>, ghost rest: seq<Byte>, ghost given: seq<Byte>)
      requires Holds(taken, rest) && data != buffer && dataLength <= data.Length && given == data[..dataLength]
      requires taken + rest == message && bufferLength < 64 && !finished && bytesHashed == |message| + dataLength
      modifies this, state, buffer
      ensures Valid() && !finished && message == old(message) + given
    {
      hide Holds, Valid;
      var dataPos := 0;
      ghost var nowTaken, nowRest := taken, rest;
      assert given[..0] == [];
      Rest(taken, rest);
      if bufferLength > 0 {
        dataPos, nowTaken, nowRest := FillUp(data, dataLength, taken, rest);
        assert data[..dataPos] == given[..dataPos];
      }
      assert nowTaken + nowRest == message + given[..dataPos];
      if bufferLength == 0 {
        Rest(nowTaken, nowRest);
        ghost var first := nowTaken;
        assert first + nowRest == first;
        nowTaken, nowRest := TakeAndKeep(data, dataPos, dataLength - dataPos, nowTaken);
        assert data[dataPos..dataPos + (dataLength - dataPos)] == given[dataPos..];
        assert given[..dataPos] + given[dataPos..] == given;
      } else {
        assert given[..dataPos] == given;
      }
      message := message + given;
      Closes(nowTaken, nowRest);
    }

    /** The bit, the zeros and the length are put behind what is in the buffer. */
    method PutEnd(ghost rest: seq<Byte>) returns (padLength: nat)
      requires buffer.Length == 128 && bufferLength == bytesHashed % 64 && buffer[..bufferLength] == rest
      modifies buffer
      ensures padLength == PaddedLength(|rest|, 64) && padLength <= 128 && Ends(buffer[..padLength], rest, bytesHashed)
    {
      hide BigEndian;
      var left := bufferLength;
      padLength := if bytesHashed % 64 < 56 then 64 else 128;
      buffer[left] := 0x80;
      var i := left + 1;
      while i < padLength - 8
        invariant left < i <= padLength - 8
        invariant buffer[..left] == rest && buffer[left] == 0x80 && forall j :: left < j < i ==> buffer[j] == 0
      {
        buffer[i] := 0;
        i := i + 1;
      }
      ghost var start := buffer[..padLength - 8];
      WriteWord(buffer, padLength - 8, High(bytesHashed));
      ghost var high := buffer[..padLength - 4];
      WriteWord(buffer, padLength - 4, Low(bytesHashed));
      EndsPut(buffer[..padLength], start, high, rest, bytesHashed);
    }

    method WriteState(out: array<Byte>)
      requires state.Length == 8 && out.Length >= 32
      modifies out
      ensures out[..32] == WordBytes(state[..]) && out[32..] == old(out[32..])
    {
      hide WordBytes;
      var words := state[..];
      assert out[..0] == WordBytes(words[..0]) by { assert WordBytes([]) == []; assert words[..0] == []; }
      var i := 0;
      while i < 8
        invariant i <= 8 && out[..4 * i] == WordBytes(words[..i]) && out[32..] == old(out[32..])
      {
        WriteWord(out, 4 * i, words[i]);
        OneMoreWord(words, i);
        assert out[..4 * (i + 1)] == out[..4 * i] + out[4 * i..4 * i + 4];
        i := i + 1;
      }
      assert words[..8] == words;
    }

    /** finish puts the digest of everything given to update into out, as often as it is called. */
    method Finish(out: array<Byte>)
      requires Valid() && out != buffer && out.Length >= 32
      modifies this, state, buffer, out
      ensures Valid() && finished && message == old(message)
      ensures out[..32] == Sha256(f, message) && out[32..] == old(out[32..])
    {
      hide Fold, Padding, WordBytes;
      if !finished {
        Close();
      }
      WriteState(out);
    }

    method Close()
      requires Open()
      modifies this, state, buffer
      ensures Closed() && message == old(message)
    {
      hide Fold, Padding, Ends, PaddedLength, IV256;
      ghost var cut := |message| - bufferLength;
      ghost var taken, rest := message[..cut], message[cut..];
      assert taken + rest == message;
      Divides(bytesHashed, 64, |taken| / 64, |rest|);
      var padLength := PutEnd(rest);
      assert buffer[0..0 + padLength] == buffer[..padLength];
      WholePadding(|rest|);
      EndOfFold(f, 64, IV256, taken, rest, buffer[..padLength]);
      var _ := TakeBlocks(f, state, buffer, 0, padLength);
      finished := true;
    }

    method Digest() returns (out: array<Byte>)
      requires Valid()
      modifies this, state, buffer
      ensures Valid() && finished && message == old(message)
      ensures fresh(out) && out[..] == Sha256(f, message)
    {
      hide Valid, Sha256;
      out := new Byte[32];
      Finish(out);
      assert out[..] == out[..32];
    }

    method SaveState(out: array<Word32>)
      requires state.Length == 8 && out.Length == 8 && out != state
      modifies out
      ensures out[..] == state[..]
    {
      var i := 0;
      while i < state.Length
        invariant i <= 8 && forall j :: 0 <= j < i ==> out[j] == state[j]
      {
        out[i] := state[i];
        i := i + 1;
      }
    }

    /** A state that was saved when full blocks had been taken is taken up again. */
    method RestoreState(from: array<Word32>, bytesHashed: nat, ghost taken: seq<Byte>)
      requires state.Length == 8 && buffer.Length == 128 && from.Length == 8 && from != state
      requires |taken| == bytesHashed && |taken| % 64 == 0 && from[..] == Fold(f, 64, IV256, taken)
      modifies this, state
      ensures Valid() && !finished && message == taken
    {
      hide Fold;
      var i := 0;
      while i < state.Length
        invariant i <= 8 && forall j :: 0 <= j < i ==> state[j] == from[j]
        invariant from[..] == old(from[..])
        modifies state
      {
        state[i] := from[i];
        i := i + 1;
      }
      assert state[..] == from[..];
      this.bytesHashed := bytesHashed;
      finished := false;
      bufferLength := 0;
      message := taken;
      Closes(taken, []);
    }
  }

  /** With a whole number of blocks given, the state has taken all of them. */
  lemma NothingKept(h: HashSha256)
    requires h.Valid() && !h.finished && |h.message| % 64 == 0
    ensures h.state.Length == 8 && h.state[..] == Fold(h.f, 64, IV256, h.message)
  {
    hide Fold;
    var cut := |h.message| - h.bufferLength;
    h.Rest(h.message[..cut], h.message[cut..]);
    assert h.message[..cut] == h.message;
  }

  lemma WholePadding(left: nat)
    requires left < 64
    ensures PaddedLength(left, 64) % 64 == 0
  {
  }

  lemma WholeBlocks(n: nat)
    ensures (n - n % 64) % 64 == 0
  {
  }

  lemma {:induction false} FullBlocks(f: Compression, v: seq<Word32>, m: seq<Byte>)
    ensures Fold(f, 64, v, m) == Fold(f, 64, v, m[..|m| - |m| % 64])
    decreases |m|
  {
    hide Compress, Fold;
    FoldStep(f, 64, v, m);
    var whole := m[..|m| - |m| % 64];
    FoldStep(f, 64, v, whole);
    if |m| >= 64 {
      FullBlocks(f, Compress(f, v, m[..64]), m[64..]);
      assert m[64..][..|m| - 64 - (|m| - 64) % 64] == whole[64..] && whole[..64] == m[..64];
    }
  }

  lemma EndsPut(x: seq<Byte>, start: seq<Byte>, high: seq<Byte>, rest: seq<Byte>, n: nat)
    requires |rest| + 9 <= |x| && |start| == |x| - 8 && |high| == |x| - 4
    requires start[..|rest|] == rest && start[|rest|] == 0x80 && forall j :: |rest| < j < |start| ==> start[j] == 0
    requires high[..|x| - 8] == start && high[|x| - 8..] == BigEndian(High(n), 4)
    requires x[..|x| - 4] == high && x[|x| - 4..] == BigEndian(Low(n), 4)
    ensures Ends(x, rest, n)
  {
    hide BigEndian;
    assert x[|x| - 8..] == high[|x| - 8..] + x[|x| - 4..];
    assert x[..|x| - 8] == start && x[..|rest|] == rest;
    assert x[|rest| + 1..|x| - 8] == start[|rest| + 1..];
  }
}
