/** Strings from the test vectors of BIP 173 and BIP 350: they pin the alphabet, the generator and the constants. */
module Bech32Samples {
  import opened Wrappers
  import opened Utf16
  import opened Bech32
  import opened Bech32Codec

  /** The checksum of values, from all of its states */
  lemma {:induction false} Chained(states: seq<Word>, values: seq<Value>)
    requires |states| == |values| + 1 && forall k :: 0 <= k < |values| ==> Step(states[k], Bits(values[k])) == states[k + 1]
    ensures Poly(states[0], values) == states[|values|]
    decreases |values|
  {
    hide Step;
    if values != [] {
      Chained(states[1..], values[1..]);
    }
  }

  const BECH32_SAMPLE: seq<CodeUnit> := [0x61, 0x31, 0x32, 0x75, 0x65, 0x6c, 0x35, 0x6c]
  const BECH32_SAMPLE_DATA: seq<Symbol> := [10, 28, 25, 31, 20, 31]
  const BECH32_SAMPLE_VALUES: seq<Value> := [3, 0, 1, 10, 28, 25, 31, 20, 31]
  const BECH32_SAMPLE_STATES: seq<Word> := [0x1, 0x23, 0x460, 0x8c01, 0x11802a, 0x230055c, 0x3d6afc2b, 0x2f84386, 0x24622766, 0x1]

  lemma SampleBech32Steps()
    ensures forall k :: 0 <= k < 9 ==> Step(BECH32_SAMPLE_STATES[k], Bits(BECH32_SAMPLE_VALUES[k])) == BECH32_SAMPLE_STATES[k + 1]
  {
    assert Step(0x1, 0x3) == 0x23;
    assert Step(0x23, 0x0) == 0x460;
    assert Step(0x460, 0x1) == 0x8c01;
    assert Step(0x8c01, 0xa) == 0x11802a;
    assert Step(0x11802a, 0x1c) == 0x230055c;
    assert Step(0x230055c, 0x19) == 0x3d6afc2b;
    assert Step(0x3d6afc2b, 0x1f) == 0x2f84386;
    assert Step(0x2f84386, 0x14) == 0x24622766;
    assert Step(0x24622766, 0x1f) == 0x1;
  }

  lemma SampleBech32Chars()
    ensures LowerCase(BECH32_SAMPLE) == BECH32_SAMPLE && AllPrintable(BECH32_SAMPLE) && !HasUpper(BECH32_SAMPLE) && LastOne(BECH32_SAMPLE) == 1
    ensures BECH32_SAMPLE[2..] == Chars(BECH32_SAMPLE_DATA)
  {
    LastOneIs(BECH32_SAMPLE, 1);
  }

  /** "a12uel5l" is valid in Bech32. */
  lemma SampleBech32()
    ensures Decoded(BECH32_SAMPLE, BECH32) == Some(Contents(BECH32_SAMPLE[..1], BECH32_SAMPLE_DATA[..0]))
  {
    hide Step, LowerCase, LastOne, CharIndex, SymbolChar, Chars;
    SampleBech32Steps();
    SampleBech32Chars();
    SymbolsOfChars(BECH32_SAMPLE_DATA);
    Chained(BECH32_SAMPLE_STATES, BECH32_SAMPLE_VALUES);
    assert HrpExpand(BECH32_SAMPLE[..1]) + BECH32_SAMPLE_DATA == BECH32_SAMPLE_VALUES;
  }

  const BECH32M_SAMPLE: seq<CodeUnit> := [0x61, 0x31, 0x6c, 0x71, 0x66, 0x6e, 0x33, 0x61]
  const BECH32M_SAMPLE_DATA: seq<Symbol> := [31, 0, 9, 19, 17, 29]
  const BECH32M_SAMPLE_VALUES: seq<Value> := [3, 0, 1, 31, 0, 9, 19, 17, 29]
  const BECH32M_SAMPLE_STATES: seq<Word> := [0x1, 0x23, 0x460, 0x8c01, 0x11803f, 0x23007e0, 0x3d6aabbb, 0x2f2b18a, 0x253c66e3, 0x2bc830a3]

  lemma SampleBech32mSteps()
    ensures forall k :: 0 <= k < 9 ==> Step(BECH32M_SAMPLE_STATES[k], Bits(BECH32M_SAMPLE_VALUES[k])) == BECH32M_SAMPLE_STATES[k + 1]
  {
    assert Step(0x1, 0x3) == 0x23;
    assert Step(0x23, 0x0) == 0x460;
    assert Step(0x460, 0x1) == 0x8c01;
    assert Step(0x8c01, 0x1f) == 0x11803f;
    assert Step(0x11803f, 0x0) == 0x23007e0;
    assert Step(0x23007e0, 0x9) == 0x3d6aabbb;
    assert Step(0x3d6aabbb, 0x13) == 0x2f2b18a;
    assert Step(0x2f2b18a, 0x11) == 0x253c66e3;
    assert Step(0x253c66e3, 0x1d) == 0x2bc830a3;
  }

  lemma SampleBech32mChars()
    ensures LowerCase(BECH32M_SAMPLE) == BECH32M_SAMPLE && AllPrintable(BECH32M_SAMPLE) && !HasUpper(BECH32M_SAMPLE) && LastOne(BECH32M_SAMPLE) == 1
    ensures BECH32M_SAMPLE[2..] == Chars(BECH32M_SAMPLE_DATA)
  {
    LastOneIs(BECH32M_SAMPLE, 1);
  }

  /** "a1lqfn3a" is valid in Bech32m. */
  lemma SampleBech32m()
    ensures Decoded(BECH32M_SAMPLE, BECH32M) == Some(Contents(BECH32M_SAMPLE[..1], BECH32M_SAMPLE_DATA[..0]))
  {
    hide Step, LowerCase, LastOne, CharIndex, SymbolChar, Chars;
    SampleBech32mSteps();
    SampleBech32mChars();
    SymbolsOfChars(BECH32M_SAMPLE_DATA);
    Chained(BECH32M_SAMPLE_STATES, BECH32M_SAMPLE_VALUES);
    assert HrpExpand(BECH32M_SAMPLE[..1]) + BECH32M_SAMPLE_DATA == BECH32M_SAMPLE_VALUES;
  }

  /** The table of BIP 173: the character for each symbol, and the symbol for each character */
  lemma Alphabet(d: nat)
    requires d < 32
    ensures SymbolChar(d) == [0x71, 0x70, 0x7a, 0x72, 0x79, 0x39, 0x78, 0x38,
                              0x67, 0x66, 0x32, 0x74, 0x76, 0x64, 0x77, 0x30,
                              0x73, 0x33, 0x6a, 0x6e, 0x35, 0x34, 0x6b, 0x68,
                              0x63, 0x65, 0x36, 0x6d, 0x75, 0x61, 0x37, 0x6c][d]
    ensures CharIndex(SymbolChar(d)) == d
  {
    hide CharIndex;
    CharIndexOfSymbol(d);
  }
}
