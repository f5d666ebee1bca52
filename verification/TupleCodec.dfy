/**
 The tuple encoding: a null bitmap, a fixed slot per column, and the strings. String slots are
 first written with offsets relative to the string section and patched in a second pass.
 */
module TupleCodec {
  import opened Storage
  import opened Values
  import opened Predicate
  import opened Bytes
  import opened Sequences

  datatype TupleError =
    | ColumnCountMismatch(schemaCount: nat, valueCount: nat)
    | NullNotAllowed(columnName: string)
    | Deserialization
    /** A slice past the fixed section, where the program stops. */
    | OutOfBounds

  /** Strings are turned into bytes and checked on the way back by the platform's UTF-8 codec. */
  datatype Utf8 = Utf8(encode: string -> Buffer, decode: Buffer -> Option<string>)

  ghost predicate Lossless(utf8: Utf8) {
    && (forall s: string :: utf8.decode(utf8.encode(s)) == Some(s))
    && (forall b: Buffer :: utf8.decode(b).Some? ==> utf8.encode(utf8.decode(b).value) == b)
  }

  // ----- Null bits

  predicate Bit(b: nat, i: nat)
    decreases i
  {
    if i == 0 then b % 2 == 1 else Bit(b / 2, i - 1)
  }

  /** `b |= 1 << i`. */
  function SetBit(b: nat, i: nat): nat
    decreases i
  {
    if i == 0 then (if b % 2 == 1 then b else b + 1) else 2 * SetBit(b / 2, i - 1) + b % 2
  }

  lemma {:induction false} SetBitBits(b: nat, i: nat, j: nat)
    ensures Bit(SetBit(b, i), j) <==> j == i || Bit(b, j)
    decreases i
  {
    if i == 0 {
      assert j > 0 ==> SetBit(b, 0) / 2 == b / 2;
    } else {
      var c := SetBit(b, i);
      assert c / 2 == SetBit(b / 2, i - 1) && c % 2 == b % 2;
      if j > 0 {
        SetBitBits(b / 2, i - 1, j - 1);
      }
    }
  }

  function Pow2(n: nat): nat {
    if n == 0 then 1 else 2 * Pow2(n - 1)
  }

  lemma {:induction false} SetBitBound(b: nat, i: nat, n: nat)
    requires i < n && b < Pow2(n)
    ensures SetBit(b, i) < Pow2(n)
    decreases i
  {
    hide Pow2;
    HalfBelow(b, n);
    if i > 0 {
      SetBitBound(b / 2, i - 1, n - 1);
    }
  }

  lemma {:induction false} HalfBelow(b: nat, n: nat)
    requires 0 < n && b < Pow2(n)
    ensures Pow2(n) == 2 * Pow2(n - 1) && b / 2 < Pow2(n - 1)
  {
  }

  function SetByteBit(b: Byte, i: nat): Byte
    requires i < 8
  {
    SetBitBound(b, i, 8);
    assert Pow2(4) == 16 && Pow2(8) == 16 * Pow2(4) by {
      assert Pow2(8) == 16 * Pow2(4) by { assert Pow2(6) == 4 * Pow2(4); }
    }
    SetBit(b, i)
  }

  lemma {:induction false} ZeroBits(j: nat)
    ensures !Bit(0, j)
  {
    if j > 0 {
      ZeroBits(j - 1);
    }
  }

  function BitmapSize(columns: nat): nat {
    (columns + 7) / 8
  }

  predicate BitAt(bitmap: Buffer, i: nat)
    requires i < 8 * |bitmap|
  {
    Bit(bitmap[i / 8], i % 8)
  }

  /** The bitmap after the first k values. */
  function NullBits(values: seq<Value>, k: nat): (r: Buffer)
    requires k <= |values|
    ensures |r| == BitmapSize(|values|)
  {
    if k == 0 then seq(BitmapSize(|values|), _ => 0)
    else
      var prev := NullBits(values, k - 1);
      if values[k - 1] == Null then prev[(k - 1) / 8 := SetByteBit(prev[(k - 1) / 8], (k - 1) % 8)] else prev
  }

  lemma {:induction false} NullBitsNone(values: seq<Value>)
    ensures NullBits(values, 0) == seq(BitmapSize(|values|), _ => 0)
  {
  }

  lemma {:induction false} NullBitsStep(values: seq<Value>, i: nat)
    requires i < |values|
    ensures i / 8 < BitmapSize(|values|)
    ensures NullBits(values, i + 1) ==
              var prev := NullBits(values, i);
              if values[i] == Null then prev[i / 8 := SetByteBit(prev[i / 8], i % 8)] else prev
  {
  }

  /** Bit i is set exactly for the NULLs among the values written so far. */
  lemma {:induction false} NullBitsAt(values: seq<Value>, k: nat, i: nat)
    requires k <= |values| && i < 8 * BitmapSize(|values|)
    ensures BitAt(NullBits(values, k), i) <==> i < k && values[i] == Null
  {
    if k == 0 {
      ZeroBits(i % 8);
    } else {
      NullBitsAt(values, k - 1, i);
      var prev := NullBits(values, k - 1);
      if values[k - 1] == Null && i / 8 == (k - 1) / 8 {
        SetBitBits(prev[i / 8], (k - 1) % 8, i % 8);
        assert i % 8 == (k - 1) % 8 <==> i == k - 1;
      }
    }
  }

  // ----- Fixed slots

  function SlotSize(t: DataType): nat {
    match t
    case IntegerType => 4
    case BooleanType => 1
    case VarcharType => 4
  }

  predicate TypeMatches(col: Column, v: Value) {
    match v
    case Null => true
    case Integer(i) => col.dataType == IntegerType && KEY_MIN <= i < KEY_END
    case Boolean(_) => col.dataType == BooleanType
    case Varchar(_) => col.dataType == VarcharType
  }

  /** Integers are 32 bits wide. */
  predicate Ranged(v: Value) {
    v.Integer? ==> KEY_MIN <= v.i < KEY_END
  }

  ghost predicate AllRanged(values: seq<Value>) {
    forall i :: 0 <= i < |values| ==> Ranged(values[i])
  }

  ghost predicate Typed(schema: Schema, values: seq<Value>) {
    |schema| == |values| && forall i :: 0 <= i < |schema| ==> TypeMatches(schema[i], values[i])
  }

  lemma {:induction false} TypedIsRanged(schema: Schema, values: seq<Value>)
    requires Typed(schema, values)
    ensures AllRanged(values)
  {
    assert forall i :: 0 <= i < |values| ==> TypeMatches(schema[i], values[i]);
  }

  /** `try_into::<u16>().unwrap_or(0)`. */
  function FitU16(n: nat): nat {
    if n < U16_END then n else 0
  }

  function Unsigned(v: int): nat
    requires KEY_MIN <= v < KEY_END
  {
    if v < 0 then v + U32_END else v
  }

  function Signed(n: nat): int {
    if n < KEY_END then n else n - U32_END
  }

  /** The bytes of a value in the string section. */
  function StringBytes(utf8: Utf8, v: Value): Buffer {
    if v.Varchar? then utf8.encode(v.s) else []
  }

  /** The string section of the first k values. */
  function Strings(utf8: Utf8, values: seq<Value>, k: nat): Buffer
    requires k <= |values|
  {
    if k == 0 then [] else Strings(utf8, values, k - 1) + StringBytes(utf8, values[k - 1])
  }

  /** The u16 sum of a relative offset and the base of the string section. */
  function StoredOffset(relative: nat, base: nat): nat {
    (FitU16(relative) + base % U16_END) % U16_END
  }

  /** One slot; `base` is 0 in the first pass and the start of the string section after the second. */
  function SlotBytes(utf8: Utf8, col: Column, v: Value, relative: nat, base: nat): (r: Buffer)
    requires Ranged(v)
    ensures TypeMatches(col, v) ==> |r| == SlotSize(col.dataType)
  {
    match v
    case Null => seq(SlotSize(col.dataType), _ => 0)
    case Integer(i) => ToLE(Unsigned(i), 4)
    case Boolean(b) => [if b then 1 else 0]
    case Varchar(s) => ToLE(StoredOffset(relative, base), 2) + ToLE(FitU16(|utf8.encode(s)|), 2)
  }

  /** The slots of the first k columns. A value of another type takes the slot of its own type. */
  function Slots(utf8: Utf8, schema: Schema, values: seq<Value>, k: nat, base: nat): (r: Buffer)
    requires |schema| == |values| && AllRanged(values) && k <= |schema|
    ensures Typed(schema, values) ==> |r| == SlotsSize(schema, k)
  {
    if k == 0 then []
    else Slots(utf8, schema, values, k - 1, base)
         + SlotBytes(utf8, schema[k - 1], values[k - 1], |Strings(utf8, values, k - 1)|, base)
  }

  function SlotsSize(schema: Schema, k: nat): nat
    requires k <= |schema|
  {
    if k == 0 then 0 else SlotsSize(schema, k - 1) + SlotSize(schema[k - 1].dataType)
  }

  function Base(schema: Schema): nat {
    BitmapSize(|schema|) + SlotsSize(schema, |schema|)
  }

  function Encode(utf8: Utf8, schema: Schema, values: seq<Value>): Buffer
    requires Typed(schema, values)
  {
    var n := |schema|;
    NullBits(values, n) + Slots(utf8, schema, values, n, Base(schema)) + Strings(utf8, values, n)
  }

  // ----- from_values

  predicate NullsAllowed(schema: Schema, values: seq<Value>, k: nat)
    requires k <= |schema| && k <= |values|
  {
    forall i :: 0 <= i < k ==> values[i] == Null ==> schema[i].nullable
  }

  lemma {:induction false} SlotsNone(utf8: Utf8, schema: Schema, values: seq<Value>, base: nat)
    requires |schema| == |values| && AllRanged(values)
    ensures Slots(utf8, schema, values, 0, base) == [] && Strings(utf8, values, 0) == []
  {
  }

  lemma {:induction false} SlotsStep(utf8: Utf8, schema: Schema, values: seq<Value>, i: nat, base: nat)
    requires |schema| == |values| && AllRanged(values) && i < |schema|
    ensures Slots(utf8, schema, values, i + 1, base) ==
              Slots(utf8, schema, values, i, base)
              + SlotBytes(utf8, schema[i], values[i], |Strings(utf8, values, i)|, base)
    ensures Strings(utf8, values, i + 1) == Strings(utf8, values, i) + StringBytes(utf8, values[i])
  {
  }

  /** The first pass over the values. */
  method Collect(utf8: Utf8, schema: Schema, values: seq<Value>)
      returns (r: Result<(Buffer, Buffer, Buffer), TupleError>)
    requires |schema| == |values| && AllRanged(values)
    ensures NullsAllowed(schema, values, |schema|) ==>
              r == Ok((NullBits(values, |schema|), Slots(utf8, schema, values, |schema|, 0),
                       Strings(utf8, values, |schema|)))
    ensures !NullsAllowed(schema, values, |schema|) ==>
              exists i :: && 0 <= i < |schema| && values[i] == Null && !schema[i].nullable
                          && NullsAllowed(schema, values, i) && r == Err(NullNotAllowed(schema[i].name))
  {
    hide ToLE, NullBits, SetByteBit, Pow256, FromLE, Slots, Strings, SlotsSize;
    SlotsNone(utf8, schema, values, 0);
    var bitmap: Buffer := seq(BitmapSize(|schema|), _ => 0);
    NullBitsNone(values);
    var fixed: Buffer := [];
    var strings: Buffer := [];
    for i := 0 to |schema|
      invariant NullsAllowed(schema, values, i)
      invariant bitmap == NullBits(values, i)
      invariant fixed == Slots(utf8, schema, values, i, 0)
      invariant strings == Strings(utf8, values, i)
    {
      var col, v := schema[i], values[i];
      NullBitsStep(values, i);
      SlotsStep(utf8, schema, values, i, 0);
      assert Ranged(v);
      match v
      case Null =>
        if !col.nullable {
          return Err(NullNotAllowed(col.name));
        }
        bitmap := bitmap[i / 8 := SetByteBit(bitmap[i / 8], i % 8)];
        fixed := fixed + seq(SlotSize(col.dataType), _ => 0);
      case Integer(n) =>
        fixed := fixed + ToLE(Unsigned(n), 4);
      case Boolean(b) =>
        fixed := fixed + [if b then 1 else 0];
      case Varchar(s) =>
        var bytes := utf8.encode(s);
        fixed := fixed + (ToLE(FitU16(|strings|), 2) + ToLE(FitU16(|bytes|), 2));
        strings := strings + bytes;
    }
    r := Ok((bitmap, fixed, strings));
  }

  lemma {:induction false} SlotsSizeMonotone(schema: Schema, i: nat, k: nat)
    requires i <= k <= |schema|
    ensures SlotsSize(schema, i) <= SlotsSize(schema, k)
  {
    if i < k {
      SlotsSizeMonotone(schema, i, k - 1);
    }
  }

  /** The slot of column i among the slots of the first k columns. */
  lemma {:induction false} SlotAt(utf8: Utf8, schema: Schema, values: seq<Value>, i: nat, k: nat, base: nat)
    requires Typed(schema, values) && i < k <= |schema|
    ensures SlotsSize(schema, i) <= SlotsSize(schema, i + 1) <= SlotsSize(schema, k)
    ensures Slots(utf8, schema, values, k, base)[SlotsSize(schema, i)..SlotsSize(schema, i + 1)] ==
              SlotBytes(utf8, schema[i], values[i], |Strings(utf8, values, i)|, base)
  {
    hide SlotBytes, Strings, StringBytes;
    SlotsSizeMonotone(schema, i + 1, k);
    var prev := Slots(utf8, schema, values, k - 1, base);
    var last := SlotBytes(utf8, schema[k - 1], values[k - 1], |Strings(utf8, values, k - 1)|, base);
    if i < k - 1 {
      SlotAt(utf8, schema, values, i, k - 1, base);
      AppendSlice(prev, last, SlotsSize(schema, i), SlotsSize(schema, i + 1));
    } else {
      assert (prev + last)[|prev|..] == last;
    }
  }

  lemma {:induction false} AppendSlice(a: Buffer, b: Buffer, i: nat, j: nat)
    requires i <= j <= |a|
    ensures (a + b)[i..j] == a[i..j]
  {
    assert forall k :: 0 <= k < j - i ==> (a + b)[i..j][k] == a[i..j][k];
  }

  /** One step of the second pass: patching a string pointer, or leaving any other slot as it is. */
  lemma {:induction false} PatchStep(utf8: Utf8, schema: Schema, values: seq<Value>, i: nat, base: nat)
    requires Typed(schema, values) && i < |schema|
    ensures SlotsSize(schema, i + 1) <= SlotsSize(schema, |schema|)
    ensures var slots, cursor := Slots(utf8, schema, values, |schema|, 0), SlotsSize(schema, i);
            var fixed := Slots(utf8, schema, values, i, base) + slots[cursor..];
            var done := Slots(utf8, schema, values, i + 1, base) + slots[SlotsSize(schema, i + 1)..];
            if values[i] != Null && schema[i].dataType == VarcharType then
              && cursor + 2 <= |fixed|
              && done == CopyFrom(fixed, cursor,
                   ToLE((FromLE(fixed[cursor..cursor + 2]) + base % U16_END) % U16_END, 2))
            else done == fixed
  {
    hide ToLE, FromLE, Pow256, Strings, StoredOffset, FitU16, Slots, SlotBytes;
    var n := |schema|;
    SlotsStep(utf8, schema, values, i, base);
    var slots, cursor, next := Slots(utf8, schema, values, n, 0), SlotsSize(schema, i), SlotsSize(schema, i + 1);
    SlotAt(utf8, schema, values, i, n, 0);
    var relative := |Strings(utf8, values, i)|;
    var prefix, rest := Slots(utf8, schema, values, i, base), slots[next..];
    var was := SlotBytes(utf8, schema[i], values[i], relative, 0);
    var now := SlotBytes(utf8, schema[i], values[i], relative, base);
    assert slots[cursor..] == was + rest;
    assert TypeMatches(schema[i], values[i]);
    PatchSlot(utf8, schema[i], values[i], relative, base, prefix, rest);
    assert prefix + (now + rest) == (prefix + now) + rest;
  }

  lemma {:induction false} PatchSlot(utf8: Utf8, col: Column, v: Value, relative: nat, base: nat,
                                     prefix: Buffer, rest: Buffer)
    requires TypeMatches(col, v)
    ensures var was, now := SlotBytes(utf8, col, v, relative, 0), SlotBytes(utf8, col, v, relative, base);
            var fixed := prefix + (was + rest);
            if v.Varchar? then
              prefix + (now + rest) == CopyFrom(fixed, |prefix|,
                ToLE((FromLE(fixed[|prefix|..|prefix| + 2]) + base % U16_END) % U16_END, 2))
            else now == was
  {
    hide ToLE, FromLE, Pow256;
    if v.Varchar? {
      var was, now := SlotBytes(utf8, col, v, relative, 0), SlotBytes(utf8, col, v, relative, base);
      var fixed, at := prefix + (was + rest), |prefix|;
      assert fixed[at..at + 2] == ToLE(StoredOffset(relative, 0), 2);
      Pow256Values();
      LERoundTrip(StoredOffset(relative, 0), 2);
      var pointer := ToLE(StoredOffset(relative, base), 2);
      var length := ToLE(FitU16(|utf8.encode(v.s)|), 2);
      assert fixed[at + 2..] == length + rest;
      assert prefix + (now + rest) == prefix + pointer + (length + rest);
    }
  }

  /** The second pass from column i on, whose slot is taken to start at `cursor`. */
  function PatchedFrom(schema: Schema, bitmap: Buffer, fixed: Buffer, base: nat, i: nat, cursor: nat): Option<Buffer>
    requires i <= |schema| <= 8 * |bitmap|
    decreases |schema| - i
  {
    if i == |schema| then Some(fixed)
    else if BitAt(bitmap, i) || schema[i].dataType != VarcharType then
      PatchedFrom(schema, bitmap, fixed, base, i + 1, cursor + SlotSize(schema[i].dataType))
    else if cursor + 2 > |fixed| then None
    else
      var offset := (FromLE(fixed[cursor..cursor + 2]) + base % U16_END) % U16_END;
      PatchedFrom(schema, bitmap, CopyFrom(fixed, cursor, ToLE(offset, 2)), base, i + 1,
                  cursor + SlotSize(schema[i].dataType))
  }

  /** Over typed values the second pass makes exactly the string offsets absolute. */
  lemma {:induction false} PatchedIsSlots(utf8: Utf8, schema: Schema, values: seq<Value>, i: nat)
    requires Typed(schema, values) && i <= |schema| && SlotsSize(schema, i) <= SlotsSize(schema, |schema|)
    ensures var base, slots := Base(schema), Slots(utf8, schema, values, |schema|, 0);
            var fixed := Slots(utf8, schema, values, i, base) + slots[SlotsSize(schema, i)..];
            PatchedFrom(schema, NullBits(values, |schema|), fixed, base, i, SlotsSize(schema, i)) ==
              Some(Slots(utf8, schema, values, |schema|, base))
    decreases |schema| - i
  {
    hide ToLE, FromLE, Pow256, Strings, SlotBytes, BitAt, NullBits, CopyFrom, Slots;
    var n, base := |schema|, Base(schema);
    var slots := Slots(utf8, schema, values, n, 0);
    if i == n {
      var done := Slots(utf8, schema, values, n, base);
      assert done + slots[SlotsSize(schema, n)..] == done;
    } else {
      PatchStep(utf8, schema, values, i, base);
      NullBitsAt(values, n, i);
      PatchedIsSlots(utf8, schema, values, i + 1);
    }
  }

  /** Column i has a string pointer to patch that would end outside the fixed section. */
  predicate PointerOutside(schema: Schema, values: seq<Value>, size: nat, i: nat)
    requires |schema| == |values|
  {
    i < |schema| && values[i] != Null && schema[i].dataType == VarcharType && SlotsSize(schema, i) + 2 > size
  }

  lemma {:induction false} PatchFailsIff(schema: Schema, values: seq<Value>, fixed: Buffer, base: nat, i: nat)
    requires |schema| == |values| && i <= |schema|
    ensures PatchedFrom(schema, NullBits(values, |schema|), fixed, base, i, SlotsSize(schema, i)).None? <==>
              exists j :: i <= j < |schema| && PointerOutside(schema, values, |fixed|, j)
    decreases |schema| - i
  {
    hide ToLE, FromLE, BitAt, NullBits;
    if i < |schema| {
      NullBitsAt(values, |schema|, i);
      var cursor := SlotsSize(schema, i);
      if values[i] == Null || schema[i].dataType != VarcharType {
        PatchFailsIff(schema, values, fixed, base, i + 1);
      } else if cursor + 2 > |fixed| {
        assert PointerOutside(schema, values, |fixed|, i);
      } else {
        var offset := (FromLE(fixed[cursor..cursor + 2]) + base % U16_END) % U16_END;
        PatchFailsIff(schema, values, CopyFrom(fixed, cursor, ToLE(offset, 2)), base, i + 1);
      }
    }
  }

  /** The second pass, in place. */
  method Patch(schema: Schema, bitmap: Buffer, slots: Buffer) returns (r: Result<Buffer, TupleError>)
    requires |schema| <= 8 * |bitmap|
    ensures r == match PatchedFrom(schema, bitmap, slots, |bitmap| + |slots|, 0, 0)
                 case Some(fixed) => Ok(fixed)
                 case None => Err(OutOfBounds)
  {
    hide ToLE, FromLE, BitAt, CopyFrom;
    var fixed := slots;
    var base := |bitmap| + |fixed|;
    var cursor := 0;
    for i := 0 to |schema|
      invariant 0 <= cursor
      invariant PatchedFrom(schema, bitmap, slots, base, 0, 0) == PatchedFrom(schema, bitmap, fixed, base, i, cursor)
    {
      if !BitAt(bitmap, i) && schema[i].dataType == VarcharType {
        if cursor + 2 > |fixed| {
          return Err(OutOfBounds);
        }
        var relative := FromLE(fixed[cursor..cursor + 2]);
        fixed := CopyFrom(fixed, cursor, ToLE((relative + base % U16_END) % U16_END, 2));
      }
      cursor := cursor + SlotSize(schema[i].dataType);
    }
    r := Ok(fixed);
  }

  /**
   Typed values get the documented layout. Values of other types are encoded unchecked, or stop
   the program when a string pointer lies outside the fixed section; they never read back.
   */
  method FromValues(utf8: Utf8, schema: Schema, values: seq<Value>) returns (r: Result<Buffer, TupleError>)
    requires |schema| == |values| ==> AllRanged(values)
    ensures |schema| != |values| ==> r == Err(ColumnCountMismatch(|schema|, |values|))
    ensures |schema| == |values| && !NullsAllowed(schema, values, |schema|) ==>
              exists i :: && 0 <= i < |schema| && values[i] == Null && !schema[i].nullable
                          && NullsAllowed(schema, values, i) && r == Err(NullNotAllowed(schema[i].name))
    ensures Typed(schema, values) && NullsAllowed(schema, values, |schema|) ==> r == Ok(Encode(utf8, schema, values))
    ensures |schema| == |values| && NullsAllowed(schema, values, |schema|) && !Typed(schema, values) ==>
              var size := |Slots(utf8, schema, values, |schema|, 0)|;
              && (r == Err(OutOfBounds) <==> exists i :: 0 <= i < |schema| && PointerOutside(schema, values, size, i))
              && (r.Err? ==> r == Err(OutOfBounds))
              && (r.Ok? ==> Decode(utf8, r.value, schema) != Ok(values))
  {
    hide Slots, NullBits, Strings, Decode, PatchedFrom, BitAt;
    if |schema| != |values| {
      return Err(ColumnCountMismatch(|schema|, |values|));
    }
    var collected := Collect(utf8, schema, values);
    if collected.Err? {
      return Err(collected.error);
    }
    var (bitmap, slots, strings) := collected.value;
    var fixed := Patch(schema, bitmap, slots);
    PatchFailsIff(schema, values, slots, |bitmap| + |slots|, 0);
    if Typed(schema, values) {
      SlotsNone(utf8, schema, values, Base(schema));
      PatchedIsSlots(utf8, schema, values, 0);
      assert [] + slots[0..] == slots;
    }
    if fixed.Err? {
      return Err(fixed.error);
    }
    r := Ok(bitmap + fixed.value + strings);
    DecodeIsTyped(utf8, r.value, schema);
  }

  // ----- to_values

  /** One column of to_values, on any bytes. */
  function ReadSlot(utf8: Utf8, data: Buffer, col: Column, isNull: bool, cursor: nat): Result<Value, TupleError> {
    if isNull then Ok(Null)
    else match col.dataType
      case IntegerType =>
        if cursor + 4 > |data| then Err(Deserialization)
        else Ok(Integer(Signed(FromLE(data[cursor..cursor + 4]))))
      case BooleanType =>
        if cursor + 1 > |data| then Err(Deserialization) else Ok(Boolean(data[cursor] != 0))
      case VarcharType =>
        if cursor + 4 > |data| then Err(Deserialization)
        else
          var offset, length := FromLE(data[cursor..cursor + 2]), FromLE(data[cursor + 2..cursor + 4]);
          if offset + length > |data| then Err(Deserialization)
          else match utf8.decode(data[offset..offset + length])
            case None => Err(Deserialization)
            case Some(s) => Ok(Varchar(s))
  }

  /** Column i of a tuple of this schema. */
  function ReadColumn(utf8: Utf8, data: Buffer, schema: Schema, i: nat): Result<Value, TupleError>
    requires i < |schema| && BitmapSize(|schema|) <= |data|
  {
    ReadSlot(utf8, data, schema[i], BitAt(data[..BitmapSize(|schema|)], i),
             BitmapSize(|schema|) + SlotsSize(schema, i))
  }

  /** The values when every column can be read, and otherwise the first error. */
  function DecodeFrom(utf8: Utf8, data: Buffer, schema: Schema, i: nat): Result<seq<Value>, TupleError>
    requires i <= |schema| && BitmapSize(|schema|) <= |data|
    decreases |schema| - i
  {
    if i == |schema| then Ok([])
    else match ReadColumn(utf8, data, schema, i)
      case Err(e) => Err(e)
      case Ok(v) =>
        match DecodeFrom(utf8, data, schema, i + 1)
        case Err(e) => Err(e)
        case Ok(rest) => Ok([v] + rest)
  }

  function Decode(utf8: Utf8, data: Buffer, schema: Schema): Result<seq<Value>, TupleError> {
    if |data| < BitmapSize(|schema|) then Err(Deserialization) else DecodeFrom(utf8, data, schema, 0)
  }

  method ToValues(utf8: Utf8, data: Buffer, schema: Schema) returns (r: Result<seq<Value>, TupleError>)
    ensures r == Decode(utf8, data, schema)
  {
    hide ReadSlot, BitAt;
    var size := BitmapSize(|schema|);
    if |data| < size {
      return Err(Deserialization);
    }
    var bitmap := data[..size];
    var cursor := size;
    var values: seq<Value> := [];
    PrependNothing(DecodeFrom(utf8, data, schema, 0));
    for i := 0 to |schema|
      invariant cursor == size + SlotsSize(schema, i)
      invariant Decode(utf8, data, schema) == Prepend(values, DecodeFrom(utf8, data, schema, i))
    {
      var v := ReadSlot(utf8, data, schema[i], BitAt(bitmap, i), cursor);
      assert v == ReadColumn(utf8, data, schema, i);
      if v.Err? {
        return Err(v.error);
      }
      PrependStep(values, v.value, DecodeFrom(utf8, data, schema, i + 1));
      values := values + [v.value];
      cursor := cursor + SlotSize(schema[i].dataType);
    }
    assert values + [] == values;
    r := Ok(values);
  }

  ghost function Prepend(values: seq<Value>, rest: Result<seq<Value>, TupleError>): Result<seq<Value>, TupleError> {
    match rest
    case Err(e) => Err(e)
    case Ok(more) => Ok(values + more)
  }

  lemma {:induction false} PrependNothing(rest: Result<seq<Value>, TupleError>)
    ensures Prepend([], rest) == rest
  {
    if rest.Ok? {
      assert [] + rest.value == rest.value;
    }
  }

  lemma {:induction false} PrependStep(values: seq<Value>, v: Value, rest: Result<seq<Value>, TupleError>)
    ensures Prepend(values + [v], rest) == Prepend(values, Prepend([v], rest))
  {
    if rest.Ok? {
      assert values + [v] + rest.value == values + ([v] + rest.value);
    }
  }

  /** On any bytes the result is an error or one value per column, NULL or of the column's type. */
  lemma {:induction false} DecodedColumns(utf8: Utf8, data: Buffer, schema: Schema, i: nat, values: seq<Value>)
    requires i <= |schema| && BitmapSize(|schema|) <= |data|
    ensures DecodeFrom(utf8, data, schema, i) == Ok(values) <==>
              && |values| == |schema| - i
              && forall j {:trigger ReadColumn(utf8, data, schema, j)} :: i <= j < |schema| ==>
                   ReadColumn(utf8, data, schema, j) == Ok(values[j - i])
    decreases |schema| - i
  {
    hide ReadColumn;
    if i < |schema| {
      var first := ReadColumn(utf8, data, schema, i);
      if values != [] {
        DecodedColumns(utf8, data, schema, i + 1, values[1..]);
        assert values == [values[0]] + values[1..];
      }
      if DecodeFrom(utf8, data, schema, i).Ok? {
        DecodedColumns(utf8, data, schema, i + 1, DecodeFrom(utf8, data, schema, i + 1).value);
      }
    }
  }

  lemma {:induction false} DecodeIsTyped(utf8: Utf8, data: Buffer, schema: Schema)
    ensures var r := Decode(utf8, data, schema);
            r.Ok? ==> Typed(schema, r.value)
  {
    var r := Decode(utf8, data, schema);
    if r.Ok? {
      DecodedColumns(utf8, data, schema, 0, r.value);
      forall j | 0 <= j < |schema| ensures TypeMatches(schema[j], r.value[j]) {
        assert ReadColumn(utf8, data, schema, j) == Ok(r.value[j]);
        var at := BitmapSize(|schema|) + SlotsSize(schema, j);
        if at + 4 <= |data| {
          Pow256Values();
          FromLEBound(data[at..at + 4]);
        }
      }
    }
  }

  // ----- Round trip

  /** Every string starts at an offset that fits its 16-bit pointer. */
  ghost predicate OffsetsFit(utf8: Utf8, schema: Schema, values: seq<Value>)
    requires |schema| == |values|
  {
    forall i :: 0 <= i < |values| && values[i].Varchar? ==> Base(schema) + |Strings(utf8, values, i)| < U16_END
  }

  ghost predicate LengthsFit(utf8: Utf8, values: seq<Value>) {
    forall i :: 0 <= i < |values| && values[i].Varchar? ==> |utf8.encode(values[i].s)| < U16_END
  }

  lemma {:induction false} StringAt(utf8: Utf8, values: seq<Value>, i: nat, k: nat)
    requires i < k <= |values|
    ensures |Strings(utf8, values, i)| + |StringBytes(utf8, values[i])| <= |Strings(utf8, values, k)|
    ensures var at := |Strings(utf8, values, i)|;
            Strings(utf8, values, k)[at..at + |StringBytes(utf8, values[i])|] == StringBytes(utf8, values[i])
  {
    var at, bytes := |Strings(utf8, values, i)|, StringBytes(utf8, values[i]);
    var prev := Strings(utf8, values, k - 1);
    if i < k - 1 {
      StringAt(utf8, values, i, k - 1);
      AppendSlice(prev, StringBytes(utf8, values[k - 1]), at, at + |bytes|);
    } else {
      assert (prev + bytes)[|prev|..|prev| + |bytes|] == bytes;
    }
  }

  /** Where the parts of column i are in the encoded tuple. */
  lemma {:induction false} EncodedParts(utf8: Utf8, schema: Schema, values: seq<Value>, i: nat)
    requires Typed(schema, values) && i < |schema|
    ensures var data, size := Encode(utf8, schema, values), BitmapSize(|schema|);
            var at, base, rel := size + SlotsSize(schema, i), Base(schema), |Strings(utf8, values, i)|;
            && size <= |data| && at + SlotSize(schema[i].dataType) <= base <= |data|
            && (BitAt(data[..size], i) <==> values[i] == Null)
            && data[at..at + SlotSize(schema[i].dataType)] == SlotBytes(utf8, schema[i], values[i], rel, base)
            && base + rel + |StringBytes(utf8, values[i])| <= |data|
            && data[base + rel..base + rel + |StringBytes(utf8, values[i])|] == StringBytes(utf8, values[i])
  {
    hide SlotBytes, StringBytes, BitAt, NullBits, Slots, Strings;
    var n, size := |schema|, BitmapSize(|schema|);
    var bitmap, strings := NullBits(values, n), Strings(utf8, values, n);
    var slots := Slots(utf8, schema, values, n, Base(schema));
    var data := bitmap + slots + strings;
    assert data[..size] == bitmap;
    NullBitsAt(values, n, i);
    SlotAt(utf8, schema, values, i, n, Base(schema));
    var from, to := SlotsSize(schema, i), SlotsSize(schema, i + 1);
    assert data[size + from..size + to] == slots[from..to];
    StringAt(utf8, values, i, n);
    var rel, length := |Strings(utf8, values, i)|, |StringBytes(utf8, values[i])|;
    assert data[Base(schema) + rel..Base(schema) + rel + length] == strings[rel..rel + length];
  }

  /** The bytes that the stored pointer of string column i leads to are those of the string. */
  ghost predicate Reachable(utf8: Utf8, schema: Schema, values: seq<Value>, i: nat)
    requires Typed(schema, values) && i < |schema| && values[i].Varchar?
  {
    var data, bytes := Encode(utf8, schema, values), utf8.encode(values[i].s);
    var at := StoredOffset(|Strings(utf8, values, i)|, Base(schema));
    |bytes| < U16_END && at + |bytes| <= |data| && data[at..at + |bytes|] == bytes
  }

  ghost predicate AllReachable(utf8: Utf8, schema: Schema, values: seq<Value>)
    requires Typed(schema, values)
  {
    forall i {:trigger values[i]} :: 0 <= i < |values| && values[i].Varchar? ==> Reachable(utf8, schema, values, i)
  }

  /** Reading the slot of a value gives the value back exactly when its pointer, if any, leads to its bytes. */
  lemma {:induction false} SlotRoundTrip(utf8: Utf8, data: Buffer, col: Column, v: Value, at: nat, base: nat, rel: nat)
    requires Lossless(utf8) && TypeMatches(col, v)
    requires at + SlotSize(col.dataType) <= |data|
    requires data[at..at + SlotSize(col.dataType)] == SlotBytes(utf8, col, v, rel, base)
    ensures ReadSlot(utf8, data, col, v == Null, at) == Ok(v) <==>
              (v.Varchar? ==>
                 var bytes, off := utf8.encode(v.s), StoredOffset(rel, base);
                 |bytes| < U16_END && off + |bytes| <= |data| && data[off..off + |bytes|] == bytes)
  {
    hide ToLE, FromLE, Pow256;
    Pow256Values();
    var slot := data[at..at + SlotSize(col.dataType)];
    match v
    case Null =>
    case Integer(i) =>
      LERoundTrip(Unsigned(i), 4);
    case Boolean(b) =>
      assert data[at] == slot[0];
    case Varchar(s) =>
      var off, length := StoredOffset(rel, base), FitU16(|utf8.encode(s)|);
      assert data[at..at + 2] == slot[..2] == ToLE(off, 2);
      assert data[at + 2..at + 4] == slot[2..] == ToLE(length, 2);
      LERoundTrip(off, 2);
      LERoundTrip(length, 2);
      assert ReadSlot(utf8, data, col, false, at) == Ok(v) ==> utf8.encode(s) == data[off..off + length];
  }

  lemma {:induction false} ColumnRoundTrip(utf8: Utf8, schema: Schema, values: seq<Value>, i: nat)
    requires Lossless(utf8) && Typed(schema, values) && i < |schema|
    ensures BitmapSize(|schema|) <= |Encode(utf8, schema, values)|
    ensures ReadColumn(utf8, Encode(utf8, schema, values), schema, i) == Ok(values[i]) <==>
              (values[i].Varchar? ==> Reachable(utf8, schema, values, i))
  {
    hide Encode, Slots, Strings, NullBits, SlotBytes, ReadSlot, StringBytes, BitAt, Pow256, ToLE, FromLE, StoredOffset;
    EncodedParts(utf8, schema, values, i);
    var data, at := Encode(utf8, schema, values), BitmapSize(|schema|) + SlotsSize(schema, i);
    assert TypeMatches(schema[i], values[i]);
    SlotRoundTrip(utf8, data, schema[i], values[i], at, Base(schema), |Strings(utf8, values, i)|);
  }

  /** For all typed values: decoding returns them exactly when every stored pointer leads to its string. */
  lemma {:induction false} RoundTripIff(utf8: Utf8, schema: Schema, values: seq<Value>)
    requires Lossless(utf8) && Typed(schema, values)
    ensures Decode(utf8, Encode(utf8, schema, values), schema) == Ok(values) <==> AllReachable(utf8, schema, values)
  {
    hide Encode, Reachable, ReadColumn, Lossless, Typed;
    var data := Encode(utf8, schema, values);
    EncodedSize(utf8, schema, values);
    DecodedColumns(utf8, data, schema, 0, values);
    forall j {:trigger ReadColumn(utf8, data, schema, j)} | 0 <= j < |schema|
      ensures ReadColumn(utf8, data, schema, j) == Ok(values[j]) <==>
                (values[j].Varchar? ==> Reachable(utf8, schema, values, j))
    {
      ColumnRoundTrip(utf8, schema, values, j);
    }
    if AllReachable(utf8, schema, values) {
      assert Decode(utf8, data, schema) == Ok(values);
    } else {
      var j :| 0 <= j < |values| && values[j].Varchar? && !Reachable(utf8, schema, values, j);
      assert ReadColumn(utf8, data, schema, j) != Ok(values[j]);
    }
  }

  lemma {:induction false} EncodedSize(utf8: Utf8, schema: Schema, values: seq<Value>)
    requires Typed(schema, values)
    ensures |schema| == |values| && BitmapSize(|schema|) <= |Encode(utf8, schema, values)|
  {
  }

  /** With offsets that fit, every pointer leads to its string exactly when the lengths fit too. */
  lemma {:induction false} ReachableIffFits(utf8: Utf8, schema: Schema, values: seq<Value>)
    requires Typed(schema, values) && OffsetsFit(utf8, schema, values)
    ensures AllReachable(utf8, schema, values) <==> LengthsFit(utf8, values)
  {
    hide Encode, Strings, Reachable;
    forall i | 0 <= i < |values| && values[i].Varchar?
      ensures Reachable(utf8, schema, values, i) <==> |utf8.encode(values[i].s)| < U16_END
    {
      StringReachable(utf8, schema, values, i);
    }
  }

  lemma {:induction false} StringReachable(utf8: Utf8, schema: Schema, values: seq<Value>, i: nat)
    requires Typed(schema, values) && i < |schema| && values[i].Varchar?
    requires Base(schema) + |Strings(utf8, values, i)| < U16_END
    ensures Reachable(utf8, schema, values, i) <==> |utf8.encode(values[i].s)| < U16_END
  {
    hide Encode, Slots, Strings, NullBits, SlotBytes, BitAt;
    EncodedParts(utf8, schema, values, i);
  }

  /** So with offsets that fit, values survive exactly when every string length fits. */
  lemma {:induction false} FittingRoundTripIff(utf8: Utf8, schema: Schema, values: seq<Value>)
    requires Lossless(utf8) && Typed(schema, values) && OffsetsFit(utf8, schema, values)
    ensures Decode(utf8, Encode(utf8, schema, values), schema) == Ok(values) <==> LengthsFit(utf8, values)
  {
    hide Encode, Decode, Lossless, OffsetsFit, LengthsFit;
    ReachableIffFits(utf8, schema, values);
    RoundTripIff(utf8, schema, values);
  }

  /** Tuples of at most 65535 bytes always survive. */
  lemma {:induction false} SmallTuplesRoundTrip(utf8: Utf8, schema: Schema, values: seq<Value>)
    requires Lossless(utf8) && Typed(schema, values) && |Encode(utf8, schema, values)| < U16_END
    ensures Decode(utf8, Encode(utf8, schema, values), schema) == Ok(values)
  {
    forall i | 0 <= i < |values| && values[i].Varchar?
      ensures Base(schema) + |Strings(utf8, values, i)| < U16_END && |utf8.encode(values[i].s)| < U16_END
    {
      StringAt(utf8, values, i, |values|);
    }
    FittingRoundTripIff(utf8, schema, values);
  }

  /**
   Three strings of 40000 bytes: each length fits, but the third starts 80000 bytes into the
   string section, its offset is stored as 0, and the third column reads back as the first.
   */
  lemma {:induction false} ThreeStringsCollide(utf8: Utf8, schema: Schema, a: string, b: string, c: string)
    requires Lossless(utf8) && |schema| == 3 && forall i :: 0 <= i < 3 ==> schema[i].dataType == VarcharType
    requires |utf8.encode(a)| == 40000 && |utf8.encode(b)| == 40000 && |utf8.encode(c)| == 40000
    ensures var values := [Varchar(a), Varchar(b), Varchar(c)];
            LengthsFit(utf8, values) &&
            Decode(utf8, Encode(utf8, schema, values), schema) == Ok([Varchar(a), Varchar(b), Varchar(a)])
  {
    hide Encode, SlotBytes, ReadSlot, BitAt, NullBits, Slots;
    var values := [Varchar(a), Varchar(b), Varchar(c)];
    var data := Encode(utf8, schema, values);
    ThreeStrings(utf8, schema, a, b, c);
    ColumnRoundTrip(utf8, schema, values, 0);
    ColumnRoundTrip(utf8, schema, values, 1);
    EncodedParts(utf8, schema, values, 0);
    EncodedParts(utf8, schema, values, 1);
    EncodedParts(utf8, schema, values, 2);
    SameSlot(utf8, data, schema[2], a, c, BitmapSize(3) + SlotsSize(schema, 2), |Strings(utf8, values, 2)|, 13);
    DecodedColumns(utf8, data, schema, 0, [Varchar(a), Varchar(b), Varchar(a)]);
  }

  lemma {:induction false} ThreeStrings(utf8: Utf8, schema: Schema, a: string, b: string, c: string)
    requires |schema| == 3 && forall i :: 0 <= i < 3 ==> schema[i].dataType == VarcharType
    ensures var values := [Varchar(a), Varchar(b), Varchar(c)];
            && Typed(schema, values) && Base(schema) == 13 && SlotsSize(schema, 2) == 8
            && |Strings(utf8, values, 0)| == 0 && |Strings(utf8, values, 1)| == |utf8.encode(a)|
            && |Strings(utf8, values, 2)| == |utf8.encode(a)| + |utf8.encode(b)|
  {
    assert SlotsSize(schema, 1) == SlotsSize(schema, 0) + SlotSize(schema[0].dataType) == 4;
    assert SlotsSize(schema, 2) == SlotsSize(schema, 1) + SlotSize(schema[1].dataType) == 8;
    assert SlotsSize(schema, 3) == SlotsSize(schema, 2) + SlotSize(schema[2].dataType) == 12;
    var values := [Varchar(a), Varchar(b), Varchar(c)];
    assert |Strings(utf8, values, 2)| == |Strings(utf8, values, 1)| + |utf8.encode(b)|;
  }

  /** A slot whose pointer leads to the bytes of a, of the same length, reads as a. */
  lemma {:induction false} SameSlot(utf8: Utf8, data: Buffer, col: Column, a: string, c: string, at: nat, rel: nat,
      base: nat)
    requires Lossless(utf8) && col.dataType == VarcharType && |utf8.encode(a)| == |utf8.encode(c)| < U16_END
    requires at + 4 <= |data| && data[at..at + 4] == SlotBytes(utf8, col, Varchar(c), rel, base)
    requires var off := StoredOffset(rel, base);
             off + |utf8.encode(a)| <= |data| && data[off..off + |utf8.encode(a)|] == utf8.encode(a)
    ensures ReadSlot(utf8, data, col, false, at) == Ok(Varchar(a))
  {
    hide ToLE, FromLE, Pow256;
    SlotRoundTrip(utf8, data, col, Varchar(a), at, base, rel);
  }
}
