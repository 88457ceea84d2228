/**
 * Simple-8b word codec (Anh & Moffat, "Index compression using 64-bit words"),
 * in MongoDB's numbering. A 64-bit word holds a 4-bit selector in bits 0..3 and
 * a 60-bit payload in bits 4..63. The selector names a layout: the payload is
 * `count` slots of `width` bits each, slot i at bits [4 + i*width, 4 + (i+1)*width),
 * slot 0 next to the selector.
 */
module Simple8b {
  import opened BitArith
  import opened Wrappers

  const SelectorBits: nat := 4
  const PayloadBits: nat := 60
  const WordModulus: nat := 0x1_0000_0000_0000_0000

  /** uint64_t */
  type Word = w: nat | w < WordModulus
  /** uint8_t, the type of the selector argument of encode */
  type Byte = b: nat | b < 0x100

  /** How a selector divides the payload. */
  datatype Layout = Layout(count: nat, width: nat)

  /**
   * The selector table. Selectors 0 and 15 (and anything that does not fit
   * the nibble) have no layout. Every valid layout packs the most `width`-bit
   * slots the 60-bit payload can hold.
   */
  function LayoutOf(selector: int): (r: Option<Layout>)
    ensures r.Some? <==> 1 <= selector <= 14
    ensures r.Some? ==> 1 <= r.value.width <= PayloadBits
    ensures r.Some? ==> r.value.count == PayloadBits / r.value.width
    ensures r.Some? ==> r.value.width == PayloadBits / r.value.count
    ensures r.Some? ==> r.value.count * r.value.width <= PayloadBits
  {
    match selector
    case 1 => Some(Layout(60, 1))
    case 2 => Some(Layout(30, 2))
    case 3 => Some(Layout(20, 3))
    case 4 => Some(Layout(15, 4))
    case 5 => Some(Layout(12, 5))
    case 6 => Some(Layout(10, 6))
    case 7 => Some(Layout(8, 7))
    case 8 => Some(Layout(7, 8))
    case 9 => Some(Layout(6, 10))
    case 10 => Some(Layout(5, 12))
    case 11 => Some(Layout(4, 15))
    case 12 => Some(Layout(3, 20))
    case 13 => Some(Layout(2, 30))
    case 14 => Some(Layout(1, 60))
    case _ => None
  }

  /** Each selector has wider (and so fewer) slots than the one before it. */
  lemma WidthIncreasing(s: int, t: int)
    requires 1 <= s < t <= 14
    ensures LayoutOf(s).value.width < LayoutOf(t).value.width
  {
  }

  /** Values a layout can hold without loss: no more than `count`, each below 2^width. */
  predicate Fits(values: seq<Word>, layout: Layout)
  {
    |values| <= layout.count &&
    forall i :: 0 <= i < |values| ==> values[i] < Pow2(layout.width)
  }

  /** `n` zero slots. */
  function Zeros(n: nat): (s: seq<Word>)
    ensures |s| == n && forall i :: 0 <= i < n ==> s[i] == 0
  {
    seq(n, _ => 0)
  }

  /**
   * The payload: `values[0] | (values[1] << width) | (values[2] << 2*width) | ...`.
   * The slots do not overlap, so each `|` is an addition.
   */
  function Pack(values: seq<nat>, width: nat): nat
  {
    if values == [] then 0 else values[0] + Pow2(width) * Pack(values[1..], width)
  }

  /** Field i of a payload, i.e. `(payload >> (i * width)) & ((1 << width) - 1)`. */
  function Slot(payload: nat, width: nat, i: nat): nat
  {
    Field(payload, i * width, width)
  }

  /** The first `count` slots of a payload. */
  function Slots(payload: nat, width: nat, count: nat): (s: seq<Word>)
    requires width <= PayloadBits
    ensures |s| == count
    ensures forall i :: 0 <= i < count ==> s[i] < Pow2(width)
  {
    Pow2Monotone(width, 64);
    Pow2Of64();
    seq(count, i requires 0 <= i < count => Slot(payload, width, i))
  }

  /**
   * `Simple8b::encodeSimple8b(selector, values)`: the selector in the low nibble,
   * the values packed above it. A selector with no layout yields the zero word.
   * The result leaves every bit above the last slot zero.
   */
  function Encode(selector: Byte, values: seq<Word>): (word: Word)
    requires LayoutOf(selector).Some? ==> Fits(values, LayoutOf(selector).value)
    ensures LayoutOf(selector).None? ==> word == 0
    ensures LayoutOf(selector).Some? ==> word % Pow2(SelectorBits) == selector
    ensures LayoutOf(selector).Some? ==>
      word < Pow2(SelectorBits + LayoutOf(selector).value.count * LayoutOf(selector).value.width)
  {
    match LayoutOf(selector)
    case None => 0
    case Some(layout) =>
      PackedWordBound(selector, values, layout);
      selector + Pow2(SelectorBits) * Pack(values, layout.width)
  }

  /**
   * `Simple8b::decodeSimple8b(word)`: exactly `count` slot values for the word's
   * selector nibble, or nothing when that selector has no layout.
   */
  function Decode(word: Word): (values: seq<Word>)
    ensures LayoutOf(word % Pow2(SelectorBits)).None? ==> values == []
    ensures LayoutOf(word % Pow2(SelectorBits)).Some? ==>
      |values| == LayoutOf(word % Pow2(SelectorBits)).value.count &&
      forall i :: 0 <= i < |values| ==> values[i] < Pow2(LayoutOf(word % Pow2(SelectorBits)).value.width)
  {
    match LayoutOf(word % Pow2(SelectorBits))
    case None => []
    case Some(layout) => Slots(Shr(word, SelectorBits), layout.width, layout.count)
  }

  // ---------------------------------------------------------------------------
  // Packing

  /** A packed payload stays below 2^(width * number of values). */
  lemma {:induction false} PackBound(values: seq<nat>, width: nat)
    requires forall i :: 0 <= i < |values| ==> values[i] < Pow2(width)
    ensures Pack(values, width) < Pow2(width * |values|)
    decreases values
  {
    if values != [] {
      var rest := values[1..];
      assert Pack(rest, width) < Pow2(width * |rest|) by {
        PackBound(rest, width);
      }
      assert Pack(values, width) < Pow2(width) * Pow2(width * |rest|) by {
        PlaceBound(values[0], Pack(rest, width), Pow2(width), Pow2(width * |rest|));
      }
      assert Pow2(width) * Pow2(width * |rest|) == Pow2(width * |values|) by {
        assert width * |values| == width + width * |rest|;
        Pow2Add(width, width * |rest|);
      }
    }
  }

  /** The word Encode builds fits in 64 bits and leaves the padding above the slots zero. */
  lemma PackedWordBound(selector: nat, values: seq<Word>, layout: Layout)
    requires selector < Pow2(SelectorBits)
    requires 1 <= layout.width && layout.count * layout.width <= PayloadBits
    requires Fits(values, layout)
    ensures selector + Pow2(SelectorBits) * Pack(values, layout.width)
            < Pow2(SelectorBits + layout.count * layout.width)
    ensures selector + Pow2(SelectorBits) * Pack(values, layout.width) < WordModulus
    ensures (selector + Pow2(SelectorBits) * Pack(values, layout.width)) % Pow2(SelectorBits) == selector
  {
    var used := layout.count * layout.width;
    PackFitsLayout(values, layout);
    WordBelow(selector, Pack(values, layout.width), used);
    SplitAt(selector, Pack(values, layout.width), SelectorBits);
  }

  /** Values that fit a layout pack into its count*width payload bits. */
  lemma PackFitsLayout(values: seq<Word>, layout: Layout)
    requires Fits(values, layout)
    ensures Pack(values, layout.width) < Pow2(layout.count * layout.width)
  {
    PackBound(values, layout.width);
    MulMonotone(layout.width, |values|, layout.count);
    Pow2Monotone(layout.width * |values|, layout.count * layout.width);
  }

  /** A selector below a payload of `used` <= 60 bits fits 4 + used bits, hence 64. */
  lemma WordBelow(selector: nat, payload: nat, used: nat)
    requires selector < Pow2(SelectorBits) && payload < Pow2(used) && used <= PayloadBits
    ensures selector + Pow2(SelectorBits) * payload < Pow2(SelectorBits + used)
    ensures Pow2(SelectorBits + used) <= WordModulus
  {
    PlaceBound(selector, payload, Pow2(SelectorBits), Pow2(used));
    Pow2Add(SelectorBits, used);
    Pow2Monotone(SelectorBits + used, 64);
    Pow2Of64();
  }

  /** Slot i + 1 of a payload is slot i of the payload shifted down by one slot. */
  lemma SlotShift(payload: nat, width: nat, i: nat)
    ensures Slot(payload, width, i + 1) == Slot(Shr(payload, width), width, i)
  {
    MulSucc(i, width);
    ShrShr(payload, width, i * width);
  }

  /** Slot i of a packed payload is value i, and zero past the values. */
  lemma {:induction false} SlotOfPack(values: seq<nat>, width: nat, i: nat)
    requires forall j :: 0 <= j < |values| ==> values[j] < Pow2(width)
    ensures Slot(Pack(values, width), width, i) == if i < |values| then values[i] else 0
  {
    var p := Pack(values, width);
    if values == [] {
      assert Shr(0, i * width) == 0;
    } else {
      var rest := values[1..];
      SplitAt(values[0], Pack(rest, width), width);
      if i == 0 {
        assert Shr(p, 0 * width) == p;
      } else {
        SlotShift(p, width, i - 1);
        SlotOfPack(rest, width, i - 1);
      }
    }
  }

  /** The first slot of a payload is its low `width` bits; the others are the slots of the rest. */
  lemma SlotsCons(payload: nat, width: nat, count: nat)
    requires width <= PayloadBits && count > 0
    ensures Slots(payload, width, count)[0] == payload % Pow2(width)
    ensures Slots(payload, width, count)[1..] == Slots(Shr(payload, width), width, count - 1)
  {
    var s := Slots(payload, width, count);
    var tail := Slots(Shr(payload, width), width, count - 1);
    forall i | 0 <= i < count - 1
      ensures s[1..][i] == tail[i]
    {
      SlotShift(payload, width, i);
    }
    assert Shr(payload, 0 * width) == payload;
  }

  /** Packing the first `count` slots of a payload rebuilds its low count*width bits. */
  lemma {:induction false} PackSlots(payload: nat, width: nat, count: nat)
    requires width <= PayloadBits
    ensures Pack(Slots(payload, width, count), width) == payload % Pow2(count * width)
    decreases count
  {
    var s := Slots(payload, width, count);
    if count == 0 {
      assert s == [];
    } else {
      var below, rest := Shr(payload, width), (count - 1) * width;
      var joined := payload % Pow2(width) + Pow2(width) * (below % Pow2(rest));
      assert Pack(s, width) == joined by {
        SlotsCons(payload, width, count);
        PackSlots(below, width, count - 1);
      }
      assert payload % Pow2(count * width) == joined by {
        MulSucc(count - 1, width);
        MaskSplit(payload, width, rest);
      }
    }
  }

  /** Slots below `count` do not see the bits above count*width. */
  lemma SlotOfLowBits(payload: nat, width: nat, count: nat, i: nat)
    requires i < count
    ensures Slot(payload % Pow2(count * width), width, i) == Slot(payload, width, i)
  {
    MulNat(i, width);
    MulNat(count - i - 1, width);
    var a, rest := i * width, (count - i - 1) * width;
    var y := Shr(payload, a);
    calc {
      Slot(payload % Pow2(count * width), width, i);
      Shr(payload % Pow2(count * width), a) % Pow2(width);
    == { assert count * width == a + (width + rest) by { MulSplit(i, count - i - 1, width); } }
      Shr(payload % Pow2(a + (width + rest)), a) % Pow2(width);
    == { LowBits(payload, a, width + rest); }
      (y % Pow2(width + rest)) % Pow2(width);
    == { LowBits(y, width, rest); }
      y % Pow2(width);
    }
  }

  // ---------------------------------------------------------------------------
  // Layout of the encoded word

  /** Decoded value i is bits [4 + i*width, 4 + (i+1)*width) of the word. */
  lemma DecodeSlotBits(word: Word, i: nat)
    requires LayoutOf(word % Pow2(SelectorBits)).Some?
    requires i < LayoutOf(word % Pow2(SelectorBits)).value.count
    ensures Decode(word)[i] ==
      Field(word, SelectorBits + i * LayoutOf(word % Pow2(SelectorBits)).value.width,
            LayoutOf(word % Pow2(SelectorBits)).value.width)
  {
    var layout := LayoutOf(word % Pow2(SelectorBits)).value;
    var payload := Shr(word, SelectorBits);
    assert Decode(word) == Slots(payload, layout.width, layout.count);
    assert Decode(word)[i] == Field(payload, i * layout.width, layout.width);
    ShrShr(word, SelectorBits, i * layout.width);
  }

  /**
   * The selector nibble of an encoded word holds the selector, slot i holds
   * value i, and slots past the values hold zero.
   */
  lemma EncodeLayout(selector: Byte, values: seq<Word>, i: nat)
    requires LayoutOf(selector).Some? && Fits(values, LayoutOf(selector).value)
    requires i < LayoutOf(selector).value.count
    ensures Field(Encode(selector, values), 0, SelectorBits) == selector
    ensures Field(Encode(selector, values), SelectorBits + i * LayoutOf(selector).value.width,
                  LayoutOf(selector).value.width)
            == if i < |values| then values[i] else 0
  {
    var word := Encode(selector, values);
    var width := LayoutOf(selector).value.width;
    assert Shr(word, 0) == word;
    SplitAt(selector, Pack(values, width), SelectorBits);
    DecodeSlotBits(word, i);
    SlotOfPack(values, width, i);
  }

  // ---------------------------------------------------------------------------
  // Round trips

  /**
   * Decode undoes Encode: the values come back, followed by zeros for the
   * slots they did not fill.
   */
  lemma DecodeEncode(selector: Byte, values: seq<Word>)
    requires LayoutOf(selector).Some? && Fits(values, LayoutOf(selector).value)
    ensures Decode(Encode(selector, values)) == values + Zeros(LayoutOf(selector).value.count - |values|)
  {
    var layout := LayoutOf(selector).value;
    var pack := Pack(values, layout.width);
    SplitAt(selector, pack, SelectorBits);
    var decoded := Decode(Encode(selector, values));
    var expected := values + Zeros(layout.count - |values|);
    forall i | 0 <= i < layout.count
      ensures decoded[i] == expected[i]
    {
      SlotOfPack(values, layout.width, i);
    }
  }

  /** With every slot filled, Decode returns exactly the encoded values. */
  lemma DecodeEncodeFull(selector: Byte, values: seq<Word>)
    requires LayoutOf(selector).Some? && Fits(values, LayoutOf(selector).value)
    requires |values| == LayoutOf(selector).value.count
    ensures Decode(Encode(selector, values)) == values
  {
    DecodeEncode(selector, values);
    assert Zeros(0) == [];
  }

  /**
   * Encode undoes Decode on every well-formed word: a valid selector and zero
   * padding above the last slot.
   */
  lemma EncodeDecode(word: Word)
    requires LayoutOf(word % Pow2(SelectorBits)).Some?
    requires word < Pow2(SelectorBits + LayoutOf(word % Pow2(SelectorBits)).value.count
                                      * LayoutOf(word % Pow2(SelectorBits)).value.width)
    ensures Fits(Decode(word), LayoutOf(word % Pow2(SelectorBits)).value)
    ensures Encode(word % Pow2(SelectorBits), Decode(word)) == word
  {
    var selector := word % Pow2(SelectorBits);
    var layout := LayoutOf(selector).value;
    var payload := Shr(word, SelectorBits);
    assert Pack(Decode(word), layout.width) == payload by {
      var used := layout.count * layout.width;
      PackSlots(payload, layout.width, layout.count);
      ShrBound(word, SelectorBits, used);
      ShrSmall(payload, used);
    }
    Recombine(word, SelectorBits);
  }

  /** Clearing the payload bits above the used slots leaves every slot as it was. */
  lemma SlotsOfLowBits(payload: nat, width: nat, count: nat)
    requires width <= PayloadBits
    ensures Slots(payload % Pow2(count * width), width, count) == Slots(payload, width, count)
  {
    forall i | 0 <= i < count
      ensures Slots(payload % Pow2(count * width), width, count)[i] == Slots(payload, width, count)[i]
    {
      SlotOfLowBits(payload, width, count, i);
    }
  }

  /**
   * Decode ignores the padding bits above the last slot: clearing them does
   * not change the result.
   */
  lemma DecodeIgnoresPadding(word: Word)
    requires LayoutOf(word % Pow2(SelectorBits)).Some?
    ensures word % Pow2(SelectorBits + LayoutOf(word % Pow2(SelectorBits)).value.count
                                     * LayoutOf(word % Pow2(SelectorBits)).value.width) < WordModulus
    ensures Decode(word % Pow2(SelectorBits + LayoutOf(word % Pow2(SelectorBits)).value.count
                                            * LayoutOf(word % Pow2(SelectorBits)).value.width))
            == Decode(word)
  {
    var layout := LayoutOf(word % Pow2(SelectorBits)).value;
    MulNat(layout.count, layout.width);
    var used := layout.count * layout.width;
    var low := word % Pow2(SelectorBits + used);
    assert low < WordModulus by {
      Pow2Monotone(SelectorBits + used, 64);
      Pow2Of64();
    }
    assert low % Pow2(SelectorBits) == word % Pow2(SelectorBits)
        && Shr(low, SelectorBits) == Shr(word, SelectorBits) % Pow2(used) by {
      LowBits(word, SelectorBits, used);
    }
    SlotsOfLowBits(Shr(word, SelectorBits), layout.width, layout.count);
  }
}
