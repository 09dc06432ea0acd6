/** `BinarySerializer` of rpc/serializer.hpp over every type built from integers, bool, floating-point
    bit patterns, strings and arbitrarily nested vectors. */
module Serializer {
  import opened Modular
  import opened Bytes

  datatype Width = W1 | W2 | W4 | W8 {
    function Bytes(): nat {
      match this case W1 => 1 case W2 => 2 case W4 => 4 case W8 => 8
    }
  }

  /** The C++ types with both an `encode` and a `decode` overload. */
  datatype Ty =
    | TBool
    | TInt(width: Width, signed: bool)
    | TFloat
    | TDouble
    | TString
    | TVector(elem: Ty)

  datatype Val =
    | VBool(b: bool)
    | VInt(i: int)
    | VReal(bits: nat)  // a float or double, by its bit pattern
    | VString(chars: seq<Byte>)
    | VVector(items: seq<Val>)

  /** `DecodeResult` and the out-parameter; a failure reports no bytes. */
  datatype Decoded<T> = Fail | Ok(value: T, bytesRead: nat)

  predicate HasType(v: Val, ty: Ty)
    decreases ty
  {
    match ty
    case TBool => v.VBool?
    case TInt(w, signed) =>
      v.VInt? && if signed then FitsSigned(v.i, w.Bytes()) else FitsUnsigned(v.i, w.Bytes())
    case TFloat => v.VReal? && FitsUnsigned(v.bits, 4)
    case TDouble => v.VReal? && FitsUnsigned(v.bits, 8)
    case TString => v.VString?
    case TVector(t) => v.VVector? && forall x :: x in v.items ==> HasType(x, t)
  }

  /** Every container in the value has a size its 32-bit length field can hold. */
  predicate Fits(v: Val) {
    match v
    case VString(s) => |s| < Pow256(4)
    case VVector(items) => |items| < Pow256(4) && forall x :: x in items ==> Fits(x)
    case _ => true
  }

  // ---------------------------------------------------------------- specification

  function Encode(ty: Ty, v: Val): seq<Byte>
    requires HasType(v, ty)
    decreases ty, 0
  {
    match ty
    case TBool => [if v.b then 1 else 0]
    case TInt(w, _) => ToBytes(v.i, w.Bytes())
    case TFloat => ToBytes(v.bits, 4)
    case TDouble => ToBytes(v.bits, 8)
    case TString => ToBytes(|v.chars|, 4) + v.chars
    case TVector(t) => ToBytes(|v.items|, 4) + EncodeItems(t, v.items)
  }

  function EncodeItems(t: Ty, items: seq<Val>): seq<Byte>
    requires forall x :: x in items ==> HasType(x, t)
    decreases t, 1 + |items|
  {
    if items == [] then [] else Encode(t, items[0]) + EncodeItems(t, items[1..])
  }

  function DecodeInt(w: nat, signed: bool, data: seq<Byte>): Decoded<int> {
    if |data| < w then Fail
    else
      var u := FromBytes(data[..w]);
      Ok(if signed then AsSigned(u, w) else u, w)
  }

  function Decode(ty: Ty, data: seq<Byte>): Decoded<Val>
    decreases ty, 0
  {
    match ty
    case TBool => if |data| < 1 then Fail else Ok(VBool(data[0] != 0), 1)
    case TInt(w, signed) =>
      (match DecodeInt(w.Bytes(), signed, data)
       case Fail => Fail
       case Ok(i, n) => Ok(VInt(i), n))
    case TFloat => if |data| < 4 then Fail else Ok(VReal(FromBytes(data[..4])), 4)
    case TDouble => if |data| < 8 then Fail else Ok(VReal(FromBytes(data[..8])), 8)
    case TString =>
      if |data| < 4 then Fail
      else
        var len := FromBytes(data[..4]);
        if |data| < 4 + len then Fail else Ok(VString(data[4..4 + len]), 4 + len)
    case TVector(t) =>
      if |data| < 4 then Fail
      else
        match DecodeItems(t, data[4..], FromBytes(data[..4]))
        case Fail => Fail
        case Ok(items, n) => Ok(VVector(items), 4 + n)
  }

  function DecodeItems(t: Ty, data: seq<Byte>, count: nat): Decoded<seq<Val>>
    decreases t, 1 + count
  {
    if count == 0 then Ok([], 0)
    else
      match Decode(t, data)
      case Fail => Fail
      case Ok(x, n) =>
        if n > |data| then Fail  // never happens: DecodeSound
        else
          match DecodeItems(t, data[n..], count - 1)
          case Fail => Fail
          case Ok(xs, m) => Ok([x] + xs, n + m)
  }

  // ---------------------------------------------------------------- the bytes on the wire

  /** The value ranges of the C++ integer types. */
  lemma IntRanges(i: int)
    ensures HasType(VInt(i), TInt(W1, false)) <==> 0 <= i < 0x100
    ensures HasType(VInt(i), TInt(W2, false)) <==> 0 <= i < 0x1_0000
    ensures HasType(VInt(i), TInt(W4, false)) <==> 0 <= i < 0x1_0000_0000
    ensures HasType(VInt(i), TInt(W8, false)) <==> 0 <= i < 0x1_0000_0000_0000_0000
    ensures HasType(VInt(i), TInt(W1, true)) <==> -0x80 <= i < 0x80
    ensures HasType(VInt(i), TInt(W2, true)) <==> -0x8000 <= i < 0x8000
    ensures HasType(VInt(i), TInt(W4, true)) <==> -0x8000_0000 <= i < 0x8000_0000
    ensures HasType(VInt(i), TInt(W8, true)) <==> -0x8000_0000_0000_0000 <= i < 0x8000_0000_0000_0000
  {
    Pow256Values();
  }

  /** Integers and bit patterns go out least significant byte first, in as many bytes as the type has; negative
      ones in two's complement. */
  lemma IntOnTheWire(w: Width, signed: bool, v: Val, k: nat)
    requires HasType(v, TInt(w, signed))
    ensures var e := Encode(TInt(w, signed), v);
            && |e| == (match w case W1 => 1 case W2 => 2 case W4 => 4 case W8 => 8)
            && (k < |e| ==> e[k] == (v.i / Pow256(k)) % 256)
  {
    if k < w.Bytes() {
      ByteOfShift(v.i, w.Bytes(), k);
    }
  }

  /** A bool goes out as the byte 1 or 0, a float or double as the unsigned integer with its bits. */
  lemma OthersAsInts(b: bool, bits: nat)
    ensures Encode(TBool, VBool(b)) == Encode(TInt(W1, false), VInt(if b then 1 else 0)) == [if b then 1 else 0]
    ensures bits < Pow256(4) ==> Encode(TFloat, VReal(bits)) == Encode(TInt(W4, false), VInt(bits))
    ensures bits < Pow256(8) ==> Encode(TDouble, VReal(bits)) == Encode(TInt(W8, false), VInt(bits))
  {
    IntRanges(if b then 1 else 0);
    var one := if b then 1 else 0;
    assert ToBytes(one, 1) == [one % 256] + ToBytes(one / 256, 0);
  }

  /** Where element i of a vector starts, after the length field. */
  function ItemOffset(t: Ty, items: seq<Val>, i: nat): nat
    requires i <= |items| && forall x :: x in items ==> HasType(x, t)
    decreases i
  {
    if i == 0 then 4 else ItemOffset(t, items, i - 1) + |Encode(t, items[i - 1])|
  }

  /** A vector goes out as its 32-bit element count and then the elements, one after the other in order. */
  lemma VectorOnTheWire(t: Ty, items: seq<Val>, i: nat)
    requires i < |items| && forall x :: x in items ==> HasType(x, t)
    ensures var e, at := Encode(TVector(t), VVector(items)), ItemOffset(t, items, i);
            && at + |Encode(t, items[i])| <= |e|
            && e[at..at + |Encode(t, items[i])|] == Encode(t, items[i])
            && |e| == ItemOffset(t, items, |items|)
            && (|items| < Pow256(4) ==> e[..4] == Encode(TInt(W4, false), VInt(|items|)))
  {
    hide Encode, EncodeItems, HasType, ItemOffset, Pow256;
    VectorCount(t, items);
    ItemsSplit(t, items, i);
    ItemsSplit(t, items, |items|);
    SliceBehind(Encode(TVector(t), VVector(items)), EncodeItems(t, items), ItemOffset(t, items, i), Encode(t, items[i]));
  }

  lemma SliceBehind(e: seq<Byte>, all: seq<Byte>, at: nat, x: seq<Byte>)
    requires |e| == 4 + |all| && e[4..] == all && 4 <= at <= |e| && x <= all[at - 4..]
    ensures at + |x| <= |e| && e[at..at + |x|] == x
  {
    assert e[at..] == all[at - 4..];
  }

  /** A string goes out as its 32-bit length and then its bytes. */
  lemma StringOnTheWire(chars: seq<Byte>)
    ensures var s := Encode(TString, VString(chars));
            && |s| == 4 + |chars| && s[4..] == chars
            && (|chars| < Pow256(4) ==> s[..4] == Encode(TInt(W4, false), VInt(|chars|)))
  {
    hide ToBytes;
  }

  lemma VectorCount(t: Ty, items: seq<Val>)
    requires forall x :: x in items ==> HasType(x, t)
    ensures HasType(VVector(items), TVector(t))
    ensures var e := Encode(TVector(t), VVector(items));
            && |e| == 4 + |EncodeItems(t, items)| && e[4..] == EncodeItems(t, items)
            && (|items| < Pow256(4) ==> e[..4] == Encode(TInt(W4, false), VInt(|items|)))
  {
    hide ToBytes, EncodeItems;
  }

  lemma {:induction false} ItemsSplit(t: Ty, items: seq<Val>, i: nat)
    requires i <= |items| && forall x :: x in items ==> HasType(x, t)
    ensures ItemOffset(t, items, i) >= 4
    ensures var all, at := EncodeItems(t, items), ItemOffset(t, items, i) - 4;
            && at <= |all| && all[at..] == EncodeItems(t, items[i..])
            && (i < |items| ==> Encode(t, items[i]) <= all[at..])
            && (i == |items| ==> at == |all|)
    decreases i
  {
    hide Encode, HasType;
    if i == 0 {
      assert items[0..] == items;
    } else {
      ItemsSplit(t, items, i - 1);
      assert items[i - 1..][1..] == items[i..];
    }
  }

  predicate Scalar(ty: Ty) {
    !ty.TString? && !ty.TVector?
  }

  /** Of the inputs as wide as a scalar type, exactly the all-zero one decodes to its zero: false, 0, or the bit
      pattern 0. */
  lemma ZeroMeansZero(ty: Ty, data: seq<Byte>)
    requires Scalar(ty)
    requires |data| == match ty
                       case TInt(w, _) => (match w case W1 => 1 case W2 => 2 case W4 => 4 case W8 => 8)
                       case TFloat => 4
                       case TDouble => 8
                       case _ => 1
    ensures var r := Decode(ty, data);
            && r.Ok? && r.bytesRead == |data|
            && (r.value == (if ty.TBool? then VBool(false) else if ty.TInt? then VInt(0) else VReal(0))
                <==> forall i :: 0 <= i < |data| ==> data[i] == 0)
  {
    assert data[..|data|] == data;
    ZeroBytes(data);
    FromBytesBound(data);
    if ty.TBool? {
      assert data == [data[0]];
    }
  }

  lemma {:induction false} ZeroBytes(data: seq<Byte>)
    ensures FromBytes(data) == 0 <==> forall i :: 0 <= i < |data| ==> data[i] == 0
  {
    if data != [] {
      ZeroBytes(data[1..]);
      assert forall i :: 0 < i < |data| ==> data[i] == data[1..][i - 1];
      assert forall i :: 0 <= i < |data[1..]| ==> data[1..][i] == data[i + 1];
    }
  }

  // ---------------------------------------------------------------- what decoding guarantees

  lemma IntDecodes(w: nat, signed: bool, data: seq<Byte>)
    requires |data| >= w
    ensures var r := DecodeInt(w, signed, data);
            r.Ok? && r.bytesRead == w
            && (if signed then FitsSigned(r.value, w) else FitsUnsigned(r.value, w))
  {
    FromBytesBound(data[..w]);
  }

  /** On arbitrary bytes a successful decode never reports more bytes than it was given; the value it
      returns has the type asked for, fits its length fields, and re-encodes to as many bytes. */
  lemma {:induction false} DecodeSound(ty: Ty, data: seq<Byte>)
    ensures var r := Decode(ty, data);
            r.Ok? ==> r.bytesRead <= |data| && HasType(r.value, ty) && Fits(r.value)
                      && |Encode(ty, r.value)| == r.bytesRead
    decreases ty, 0
  {
    match ty
    case TBool =>
    case TInt(w, signed) => if |data| >= w.Bytes() { IntDecodes(w.Bytes(), signed, data); }
    case TFloat => if |data| >= 4 { FromBytesBound(data[..4]); }
    case TDouble => if |data| >= 8 { FromBytesBound(data[..8]); }
    case TString => if |data| >= 4 { FromBytesBound(data[..4]); }
    case TVector(t) =>
      if |data| >= 4 {
        FromBytesBound(data[..4]);
        DecodeItemsSound(t, data[4..], FromBytes(data[..4]));
      }
  }

  lemma {:induction false} DecodeItemsSound(t: Ty, data: seq<Byte>, count: nat)
    ensures var r := DecodeItems(t, data, count);
            r.Ok? ==> r.bytesRead <= |data| && |r.value| == count
                      && (forall x :: x in r.value ==> HasType(x, t) && Fits(x))
                      && |EncodeItems(t, r.value)| == r.bytesRead
    decreases t, 1 + count
  {
    if count > 0 {
      DecodeSound(t, data);
      var r := Decode(t, data);
      if r.Ok? {
        DecodeItemsSound(t, data[r.bytesRead..], count - 1);
      }
    }
  }

  /** Decoding looks only at the bytes it reports: what follows them is irrelevant. */
  lemma {:induction false} DecodeLocal(ty: Ty, data: seq<Byte>, more: seq<Byte>)
    requires Decode(ty, data).Ok?
    ensures Decode(ty, data).bytesRead <= |data|
    ensures Decode(ty, data[..Decode(ty, data).bytesRead] + more) == Decode(ty, data)
    decreases ty, 0
  {
    match ty
    case TString => StringLocal(data, more);
    case TVector(t) =>
      DecodeItemsLocal(t, data[4..], FromBytes(data[..4]), more);
      VectorLocal(t, data, more);
    case _ => ScalarLocal(ty, data, more);
  }

  lemma ScalarLocal(ty: Ty, data: seq<Byte>, more: seq<Byte>)
    requires !ty.TString? && !ty.TVector? && Decode(ty, data).Ok?
    ensures Decode(ty, data).bytesRead <= |data|
    ensures Decode(ty, data[..Decode(ty, data).bytesRead] + more) == Decode(ty, data)
  {
    hide FromBytes, AsSigned;
    var n := Decode(ty, data).bytesRead;
    assert (data[..n] + more)[..n] == data[..n];
  }

  lemma StringLocal(data: seq<Byte>, more: seq<Byte>)
    requires Decode(TString, data).Ok?
    ensures Decode(TString, data).bytesRead <= |data|
    ensures Decode(TString, data[..Decode(TString, data).bytesRead] + more) == Decode(TString, data)
  {
    hide FromBytes;
    var n := Decode(TString, data).bytesRead;
    assert (data[..n] + more)[..4] == data[..4];
    assert (data[..n] + more)[4..n] == data[4..n];
  }

  lemma VectorLocal(t: Ty, data: seq<Byte>, more: seq<Byte>)
    requires Decode(TVector(t), data).Ok?
    requires var r := DecodeItems(t, data[4..], FromBytes(data[..4]));
             r.Ok? && r.bytesRead <= |data[4..]| &&
             DecodeItems(t, data[4..][..r.bytesRead] + more, FromBytes(data[..4])) == r
    ensures Decode(TVector(t), data).bytesRead <= |data|
    ensures Decode(TVector(t), data[..Decode(TVector(t), data).bytesRead] + more) == Decode(TVector(t), data)
  {
    hide FromBytes, DecodeItems;
    var n := Decode(TVector(t), data).bytesRead;
    assert (data[..n] + more)[..4] == data[..4];
    assert (data[..n] + more)[4..] == data[4..][..n - 4] + more;
  }

  lemma {:induction false} DecodeItemsLocal(t: Ty, data: seq<Byte>, count: nat, more: seq<Byte>)
    requires DecodeItems(t, data, count).Ok?
    ensures DecodeItems(t, data, count).bytesRead <= |data|
    ensures DecodeItems(t, data[..DecodeItems(t, data, count).bytesRead] + more, count) == DecodeItems(t, data, count)
    decreases t, 1 + count
  {
    hide Decode, Encode, EncodeItems, HasType, Fits, FromBytes, ToBytes;
    DecodeItemsSound(t, data, count);
    if count > 0 {
      var n := Decode(t, data).bytesRead;
      var total := DecodeItems(t, data, count).bytesRead;
      DecodeSound(t, data);
      DecodeItemsLocal(t, data[n..], count - 1, more);
      var rest := data[n..][..total - n] + more;
      DecodeLocal(t, data, rest);
      assert data[..total] + more == data[..n] + rest;
      assert (data[..n] + rest)[n..] == rest;
    }
  }

  // ---------------------------------------------------------------- round trip

  lemma LengthField(len: nat, rest: seq<Byte>)
    requires len < Pow256(4)
    ensures var d := ToBytes(len, 4) + rest;
            d[..4] == ToBytes(len, 4) && FromBytes(d[..4]) == len && d[4..] == rest
  {
    UnsignedRoundTrip(len, 4);
  }

  lemma {:induction false} DecodeEncode(ty: Ty, v: Val, rest: seq<Byte>)
    requires HasType(v, ty) && Fits(v)
    ensures Decode(ty, Encode(ty, v) + rest) == Ok(v, |Encode(ty, v)|)
    decreases ty, 0
  {
    var e := Encode(ty, v);
    var data := e + rest;
    match ty
    case TBool =>
    case TInt(w, signed) =>
      assert data[..w.Bytes()] == e;
      if signed { SignedRoundTrip(v.i, w.Bytes()); } else { UnsignedRoundTrip(v.i, w.Bytes()); }
    case TFloat =>
      assert data[..4] == e;
      UnsignedRoundTrip(v.bits, 4);
    case TDouble =>
      assert data[..8] == e;
      UnsignedRoundTrip(v.bits, 8);
    case TString => DecodeEncodeString(v.chars, rest);
    case TVector(t) =>
      DecodeEncodeItems(t, v.items, rest);
      DecodeEncodeVector(t, v.items, rest);
  }

  lemma DecodeEncodeString(chars: seq<Byte>, rest: seq<Byte>)
    requires |chars| < Pow256(4)
    ensures var e := Encode(TString, VString(chars)); Decode(TString, e + rest) == Ok(VString(chars), |e|)
  {
    hide ToBytes, FromBytes;
    var e := Encode(TString, VString(chars));
    assert e + rest == ToBytes(|chars|, 4) + (chars + rest);
    LengthField(|chars|, chars + rest);
    assert (e + rest)[4..4 + |chars|] == chars;
  }

  lemma DecodeEncodeVector(t: Ty, items: seq<Val>, rest: seq<Byte>)
    requires |items| < Pow256(4) && forall x :: x in items ==> HasType(x, t)
    requires DecodeItems(t, EncodeItems(t, items) + rest, |items|) == Ok(items, |EncodeItems(t, items)|)
    ensures var e := Encode(TVector(t), VVector(items));
            Decode(TVector(t), e + rest) == Ok(VVector(items), |e|)
  {
    hide ToBytes, FromBytes, EncodeItems, DecodeItems;
    var e := Encode(TVector(t), VVector(items));
    assert e + rest == ToBytes(|items|, 4) + (EncodeItems(t, items) + rest);
    LengthField(|items|, EncodeItems(t, items) + rest);
  }

  lemma {:induction false} DecodeEncodeItems(t: Ty, items: seq<Val>, rest: seq<Byte>)
    requires forall x :: x in items ==> HasType(x, t) && Fits(x)
    ensures DecodeItems(t, EncodeItems(t, items) + rest, |items|) == Ok(items, |EncodeItems(t, items)|)
    decreases t, 1 + |items|
  {
    hide Decode, Encode, HasType, Fits, FromBytes, ToBytes;
    if items != [] {
      var e, es := Encode(t, items[0]), EncodeItems(t, items[1..]);
      DecodeEncode(t, items[0], es + rest);
      DecodeEncodeItems(t, items[1..], rest);
      DecodeItemsStep(t, e, es + rest, |items|, items[0]);
      assert (e + es) + rest == e + (es + rest);
      assert [items[0]] + items[1..] == items;
    }
  }

  lemma DecodeItemsStep(t: Ty, e: seq<Byte>, rest: seq<Byte>, count: nat, x: Val)
    requires count >= 1 && Decode(t, e + rest) == Ok(x, |e|) && DecodeItems(t, rest, count - 1).Ok?
    ensures var r := DecodeItems(t, rest, count - 1);
            DecodeItems(t, e + rest, count) == Ok([x] + r.value, |e| + r.bytesRead)
  {
    hide Decode;
    assert (e + rest)[|e|..] == rest;
  }

  /** Decoding an encoding followed by any trailing bytes returns the same value and reports exactly
      the encoding's length, if and only if every container size fits its 32-bit length field. */
  lemma RoundTripIff(ty: Ty, v: Val, rest: seq<Byte>)
    requires HasType(v, ty)
    ensures Decode(ty, Encode(ty, v) + rest) == Ok(v, |Encode(ty, v)|) <==> Fits(v)
  {
    DecodeSound(ty, Encode(ty, v) + rest);
    if Fits(v) {
      DecodeEncode(ty, v, rest);
    }
  }

  /** Every strict prefix of an encoding fails to decode. */
  lemma StrictPrefixFails(ty: Ty, v: Val, k: nat)
    requires HasType(v, ty) && Fits(v) && k < |Encode(ty, v)|
    ensures Decode(ty, Encode(ty, v)[..k]) == Fail
  {
    hide Decode, Encode, HasType, Fits;
    var e := Encode(ty, v);
    var r := Decode(ty, e[..k]);
    DecodeEncode(ty, v, []);
    assert e + [] == e;
    DecodeSound(ty, e[..k]);
    if r.Ok? {
      var n := r.bytesRead;
      assert e[..k][..n] + e[n..] == e;
      DecodeLocal(ty, e[..k], e[n..]);
    }
  }

  /** Encodings of a type are prefix-free, hence also injective. */
  lemma PrefixFree(ty: Ty, v: Val, v': Val)
    requires HasType(v, ty) && Fits(v) && HasType(v', ty) && Fits(v')
    ensures Encode(ty, v) <= Encode(ty, v') ==> v == v'
  {
    hide Decode, HasType, Fits, Encode;
    var e, e' := Encode(ty, v), Encode(ty, v');
    if e <= e' {
      assert e' == e + e'[|e|..];
      DecodeEncode(ty, v, e'[|e|..]);
      DecodeEncode(ty, v', []);
      assert e' + [] == e';
    }
  }

  // ---------------------------------------------------------------- the other way round

  predicate NoBool(ty: Ty) {
    match ty
    case TBool => false
    case TVector(t) => NoBool(t)
    case _ => true
  }

  lemma IntReencodes(w: nat, signed: bool, data: seq<Byte>)
    requires |data| >= w
    ensures ToBytes(DecodeInt(w, signed, data).value, w) == data[..w]
  {
    hide ToBytes, FromBytes;
    var u := FromBytes(data[..w]);
    ToFromBytes(data[..w]);
    if signed && 2 * u >= Pow256(w) {
      SameLowBytes(u, -1, w);
    }
  }

  /** Every byte string a bool-free type accepts is the encoding of the value it decodes to. */
  lemma {:induction false} EncodeDecode(ty: Ty, data: seq<Byte>)
    requires NoBool(ty) && Decode(ty, data).Ok?
    ensures var r := Decode(ty, data);
            r.bytesRead <= |data| && HasType(r.value, ty) && Encode(ty, r.value) == data[..r.bytesRead]
    decreases ty, 0
  {
    DecodeSound(ty, data);
    match ty
    case TInt(w, signed) => IntReencodes(w.Bytes(), signed, data);
    case TFloat => ToFromBytes(data[..4]);
    case TDouble => ToFromBytes(data[..8]);
    case TString =>
      ToFromBytes(data[..4]);
      var n := Decode(ty, data).bytesRead;
      assert data[..4] + data[4..n] == data[..n];
    case TVector(t) =>
      ToFromBytes(data[..4]);
      EncodeDecodeItems(t, data[4..], FromBytes(data[..4]));
      var n := Decode(ty, data).bytesRead;
      assert data[..4] + data[4..][..n - 4] == data[..n];
  }

  lemma {:induction false} EncodeDecodeItems(t: Ty, data: seq<Byte>, count: nat)
    requires NoBool(t) && DecodeItems(t, data, count).Ok?
    ensures var r := DecodeItems(t, data, count);
            && r.bytesRead <= |data| && |r.value| == count && (forall x :: x in r.value ==> HasType(x, t))
            && EncodeItems(t, r.value) == data[..r.bytesRead]
    decreases t, 1 + count
  {
    hide Decode, Encode, HasType, Fits;
    DecodeItemsSound(t, data, count);
    if count > 0 {
      EncodeDecode(t, data);
      var n := Decode(t, data).bytesRead;
      var rest := DecodeItems(t, data[n..], count - 1);
      EncodeDecodeItems(t, data[n..], count - 1);
      assert data[..n] + data[n..][..rest.bytesRead] == data[..n + rest.bytesRead];
      assert ([Decode(t, data).value] + rest.value)[1..] == rest.value;
    }
  }

  /** A type with a bool in it accepts bytes it never writes: any non-zero byte reads as true. */
  lemma {:induction false} NonCanonicalBytes(ty: Ty) returns (data: seq<Byte>)
    requires !NoBool(ty)
    ensures var r := Decode(ty, data);
            r.Ok? && r.bytesRead == |data| && HasType(r.value, ty) && Encode(ty, r.value) != data
  {
    match ty
    case TBool => data := [2];
    case TVector(t) =>
      var d := NonCanonicalBytes(t);
      data := ToBytes(1, 4) + d;
      Pow256Values();
      LengthField(1, d);
      var x := Decode(t, d).value;
      assert d + [] == d;
      DecodeItemsStep(t, d, [], 1, x);
      assert [x] + [] == [x];
      assert EncodeItems(t, [x]) == Encode(t, x) + [];
      assert data[4..] == d;
  }

  ghost predicate Canonical(ty: Ty) {
    forall data: seq<Byte> :: Decode(ty, data).Ok? ==>
      var r := Decode(ty, data);
      HasType(r.value, ty) && r.bytesRead <= |data| && Encode(ty, r.value) == data[..r.bytesRead]
  }

  /** Re-encoding what was decoded gives back the same bytes, for all bytes, exactly for the types that
      contain no bool. */
  lemma CanonicalIff(ty: Ty)
    ensures Canonical(ty) <==> NoBool(ty)
  {
    if NoBool(ty) {
      forall data: seq<Byte> | Decode(ty, data).Ok?
        ensures var r := Decode(ty, data);
                HasType(r.value, ty) && r.bytesRead <= |data| && Encode(ty, r.value) == data[..r.bytesRead]
      {
        EncodeDecode(ty, data);
      }
    } else {
      var data := NonCanonicalBytes(ty);
      assert data[..|data|] == data;
    }
  }

  // ---------------------------------------------------------------- the code

  /** `std::vector<uint8_t>`, as `encode` appends to it. */
  class ByteVector {
    var data: seq<Byte>

    constructor ()
      ensures data == []
    {
      data := [];
    }

    method PushBack(b: Byte)
      modifies this
      ensures data == old(data) + [b]
    {
      data := data + [b];
    }

    /** The int64 overload's loop; the narrower ones are the same shifts written out. */
    method EncodeInt(value: int, width: nat)
      modifies this
      ensures data == old(data) + ToBytes(value, width)
    {
      var i := 0;
      while i < width
        invariant 0 <= i <= width
        invariant data == old(data) + ToBytes(value, width)[..i]
      {
        ByteOfShift(value, width, i);
        PushBack((value / Pow256(i)) % 256);
        i := i + 1;
      }
    }

    method EncodeValue(ty: Ty, v: Val)
      requires HasType(v, ty)
      modifies this
      ensures data == old(data) + Encode(ty, v)
      decreases ty, 0
    {
      hide ToBytes, EncodeItems, FitsSigned, FitsUnsigned;
      match ty
      case TBool => PushBack(if v.b then 1 else 0);
      case TInt(w, _) => EncodeInt(v.i, w.Bytes());
      case TFloat => EncodeInt(v.bits, 4);
      case TDouble => EncodeInt(v.bits, 8);
      case TString =>
        EncodeInt(|v.chars|, 4);
        data := data + v.chars;
      case TVector(t) =>
        EncodeInt(|v.items|, 4);
        EncodeAll(t, v.items);
    }

    /** The element loop of the vector encoder. */
    method EncodeAll(t: Ty, items: seq<Val>)
      requires forall x :: x in items ==> HasType(x, t)
      modifies this
      ensures data == old(data) + EncodeItems(t, items)
      decreases t, 1
    {
      hide Encode;
      ghost var start := data;
      var i := 0;
      while i < |items|
        invariant 0 <= i <= |items|
        invariant data + EncodeItems(t, items[i..]) == start + EncodeItems(t, items)
      {
        ghost var before := data;
        assert items[i..][0] == items[i] && items[i..][1..] == items[i + 1..];
        EncodeValue(t, items[i]);
        assert data + EncodeItems(t, items[i + 1..]) == before + EncodeItems(t, items[i..]);
        i := i + 1;
      }
      assert items[i..] == [];
      assert data + [] == data;
    }
  }

  /** The shifts of the integer decoders: bytes are or-ed into disjoint places, which adds them up. */
  method DecodeIntBytes(width: nat, signed: bool, data: seq<Byte>) returns (r: Decoded<int>)
    ensures r == DecodeInt(width, signed, data)
  {
    if |data| < width {
      return Fail;
    }
    var value := 0;
    var i := 0;
    while i < width
      invariant 0 <= i <= width
      invariant value == FromBytes(data[..i])
    {
      assert data[..i + 1] == data[..i] + [data[i]];
      FromBytesSnoc(data[..i], data[i]);
      value := value + data[i] * Pow256(i);
      i := i + 1;
    }
    return Ok(if signed then AsSigned(value, width) else value, width);
  }

  method DecodeFrom(ty: Ty, data: seq<Byte>) returns (r: Decoded<Val>)
    ensures r == Decode(ty, data)
    decreases ty, 0
  {
    match ty
    case TBool =>
      if |data| < 1 { return Fail; }
      return Ok(VBool(data[0] != 0), 1);
    case TInt(w, signed) =>
      var d := DecodeIntBytes(w.Bytes(), signed, data);
      if d.Fail? { return Fail; }
      return Ok(VInt(d.value), d.bytesRead);
    case TFloat =>
      var d := DecodeIntBytes(4, false, data);
      if d.Fail? { return Fail; }
      return Ok(VReal(d.value), d.bytesRead);
    case TDouble =>
      var d := DecodeIntBytes(8, false, data);
      if d.Fail? { return Fail; }
      return Ok(VReal(d.value), d.bytesRead);
    case TString =>
      var d := DecodeIntBytes(4, false, data);
      if d.Fail? || |data| < d.bytesRead + d.value { return Fail; }
      return Ok(VString(data[d.bytesRead..d.bytesRead + d.value]), d.bytesRead + d.value);
    case TVector(t) =>
      var d := DecodeIntBytes(4, false, data);
      if d.Fail? { return Fail; }
      r := DecodeVector(t, data, d.bytesRead, d.value);
  }

  /** The element loop of the vector decoder. */
  method DecodeVector(t: Ty, data: seq<Byte>, start: nat, len: nat) returns (r: Decoded<Val>)
    requires start <= |data|
    ensures r == match DecodeItems(t, data[start..], len)
                 case Fail => Fail
                 case Ok(items, n) => Ok(VVector(items), start + n)
    decreases t, 1
  {
    hide Decode, Encode, EncodeItems, DecodeItems, HasType, Fits, FromBytes, ToBytes, Then;
    var offset := start;
    var items: seq<Val> := [];
    ThenNothing(DecodeItems(t, data[start..], len));
    var i := 0;
    while i < len
      invariant 0 <= i <= len && start <= offset <= |data|
      invariant DecodeItems(t, data[start..], len) == Then(items, offset - start, DecodeItems(t, data[offset..], len - i))
    {
      var d := DecodeFrom(t, data[offset..]);
      ThenItem(t, data[offset..], len - i, items, offset - start);
      if d.Fail? {
        return Fail;
      }
      DecodeSound(t, data[offset..]);
      assert data[offset..][d.bytesRead..] == data[offset + d.bytesRead..];
      offset := offset + d.bytesRead;
      items := items + [d.value];
      i := i + 1;
    }
    NoItems(t, data[offset..]);
    ThenEnd(items, offset - start);
    return Ok(VVector(items), offset);
  }

  /** A decoded front followed by a decoded rest. */
  function Then(front: seq<Val>, n: nat, rest: Decoded<seq<Val>>): Decoded<seq<Val>> {
    match rest
    case Fail => Fail
    case Ok(xs, m) => Ok(front + xs, n + m)
  }

  lemma ThenNothing(rest: Decoded<seq<Val>>)
    ensures Then([], 0, rest) == rest
  {
    if rest.Ok? {
      assert [] + rest.value == rest.value;
    }
  }

  lemma NoItems(t: Ty, data: seq<Byte>)
    ensures DecodeItems(t, data, 0) == Ok([], 0)
  {
  }

  lemma ThenEnd(front: seq<Val>, n: nat)
    ensures Then(front, n, Ok([], 0)) == Ok(front, n)
  {
    assert front + [] == front;
  }

  lemma ThenItem(t: Ty, data: seq<Byte>, count: nat, front: seq<Val>, n: nat)
    requires count >= 1
    ensures var d := Decode(t, data);
            Then(front, n, DecodeItems(t, data, count)) ==
              if d.Fail? || d.bytesRead > |data| then Fail
              else Then(front + [d.value], n + d.bytesRead, DecodeItems(t, data[d.bytesRead..], count - 1))
  {
    hide Decode;
    var d := Decode(t, data);
    if d.Ok? && d.bytesRead <= |data| {
      var rest := DecodeItems(t, data[d.bytesRead..], count - 1);
      if rest.Ok? {
        assert front + ([d.value] + rest.value) == (front + [d.value]) + rest.value;
      }
    }
  }

  /** `serialize` followed by `deserialize` on the same type. */
  method SerializeThenDeserialize(ty: Ty, v: Val) returns (ok: bool, v': Val)
    requires HasType(v, ty) && Fits(v)
    ensures ok && v' == v
  {
    var buffer := new ByteVector();
    buffer.EncodeValue(ty, v);
    var r := DecodeFrom(ty, buffer.data);
    DecodeEncode(ty, v, []);
    assert buffer.data == Encode(ty, v) + [];
    ok := r.Ok?;
    v' := r.value;
  }
}
