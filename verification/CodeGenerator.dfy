/** `generate_serialization_code` of idl/code_generator.hpp: the statements it emits for a struct, a
    semantics for them, and the proof that the two emitted functions undo each other. */
module CodeGenerator {
  import opened Bytes
  import opened Serializer

  /** A field, with the C++ type its declaration gives the member. */
  datatype Field = Field(name: string, ty: Ty)
  datatype StructDef = StructDef(name: string, fields: seq<Field>)

  datatype SerializeStmt =
    | NewBuffer                      // std::vector<uint8_t> buffer;
    | EncodeMember(member: string)   // BinarySerializer::encode(buffer, obj.f);
    | ReturnBuffer                   // return buffer;

  datatype DeserializeStmt =
    | ZeroOffset                     // size_t offset = 0;
    | DecodeMember(member: string)   // auto r_f = BinarySerializer::decode(data + offset, size - offset, obj.f);
    | FailUnless(member: string)     // if (!r_f.success) return false;
    | AdvanceBy(member: string)      // offset += r_f.bytes_read;
    | ReturnTrue                     // return true;

  type Object = map<string, Val>

  // ---------------------------------------------------------------- generation

  function EncodeStmts(fields: seq<Field>): seq<SerializeStmt> {
    if fields == [] then [] else [EncodeMember(fields[0].name)] + EncodeStmts(fields[1..])
  }

  function DecodeStmts(fields: seq<Field>): seq<DeserializeStmt> {
    if fields == [] then []
    else
      var f := fields[0].name;
      [DecodeMember(f), FailUnless(f), AdvanceBy(f)] + DecodeStmts(fields[1..])
  }

  lemma {:induction false} EncodeStmtsSnoc(fs: seq<Field>, f: Field)
    ensures EncodeStmts(fs + [f]) == EncodeStmts(fs) + [EncodeMember(f.name)]
  {
    if fs == [] {
      assert fs + [f] == [f];
    } else {
      assert (fs + [f])[1..] == fs[1..] + [f];
      EncodeStmtsSnoc(fs[1..], f);
    }
  }

  lemma {:induction false} DecodeStmtsSnoc(fs: seq<Field>, f: Field)
    ensures DecodeStmts(fs + [f]) ==
              DecodeStmts(fs) + [DecodeMember(f.name), FailUnless(f.name), AdvanceBy(f.name)]
  {
    if fs == [] {
      assert fs + [f] == [f];
    } else {
      assert (fs + [f])[1..] == fs[1..] + [f];
      DecodeStmtsSnoc(fs[1..], f);
    }
  }

  lemma {:induction false} EncodeStmtAt(fields: seq<Field>, i: nat)
    requires i < |fields|
    ensures |EncodeStmts(fields)| == |fields| && EncodeStmts(fields)[i] == EncodeMember(fields[i].name)
  {
    if |fields| > 1 {
      EncodeStmtAt(fields[1..], if i == 0 then 0 else i - 1);
    }
  }

  lemma {:induction false} DecodeStmtsAt(fields: seq<Field>, i: nat)
    requires i < |fields|
    ensures |DecodeStmts(fields)| == 3 * |fields|
    ensures DecodeStmts(fields)[3 * i..3 * i + 3] ==
              [DecodeMember(fields[i].name), FailUnless(fields[i].name), AdvanceBy(fields[i].name)]
  {
    var f, rest := fields[0].name, DecodeStmts(fields[1..]);
    if |fields| > 1 {
      DecodeStmtsAt(fields[1..], if i == 0 then 0 else i - 1);
    }
    if i > 0 {
      assert DecodeStmts(fields)[3 * i..3 * i + 3] == rest[3 * (i - 1)..3 * (i - 1) + 3];
    }
  }

  /** One encode statement per field, and three decode statements per field, in declaration order. */
  method GenerateSerializationCode(s: StructDef)
      returns (ser: seq<SerializeStmt>, des: seq<DeserializeStmt>)
    ensures ser == [NewBuffer] + EncodeStmts(s.fields) + [ReturnBuffer]
    ensures des == [ZeroOffset] + DecodeStmts(s.fields) + [ReturnTrue]
    ensures |ser| == |s.fields| + 2 && ser[0] == NewBuffer && ser[|s.fields| + 1] == ReturnBuffer
    ensures forall i :: 0 <= i < |s.fields| ==> ser[1..][i] == EncodeMember(s.fields[i].name)
    ensures |des| == 3 * |s.fields| + 2 && des[0] == ZeroOffset && des[|des| - 1] == ReturnTrue
    ensures forall i :: 0 <= i < |s.fields| ==>
              var f := s.fields[i].name;
              des[1..][3 * i..3 * i + 3] == [DecodeMember(f), FailUnless(f), AdvanceBy(f)]
  {
    ser := [NewBuffer];
    for i := 0 to |s.fields|
      invariant ser == [NewBuffer] + EncodeStmts(s.fields[..i])
    {
      assert s.fields[..i + 1] == s.fields[..i] + [s.fields[i]];
      EncodeStmtsSnoc(s.fields[..i], s.fields[i]);
      ser := ser + [EncodeMember(s.fields[i].name)];
    }
    assert s.fields[..|s.fields|] == s.fields;
    ser := ser + [ReturnBuffer];

    des := [ZeroOffset];
    for i := 0 to |s.fields|
      invariant des == [ZeroOffset] + DecodeStmts(s.fields[..i])
    {
      var f := s.fields[i].name;
      assert s.fields[..i + 1] == s.fields[..i] + [s.fields[i]];
      DecodeStmtsSnoc(s.fields[..i], s.fields[i]);
      des := des + [DecodeMember(f), FailUnless(f), AdvanceBy(f)];
    }
    des := des + [ReturnTrue];
    StatementsInOrder(s.fields, ser, des);
  }

  lemma {:induction false} StatementsInOrder(fields: seq<Field>, ser: seq<SerializeStmt>, des: seq<DeserializeStmt>)
    requires ser == [NewBuffer] + EncodeStmts(fields) + [ReturnBuffer]
    requires des == [ZeroOffset] + DecodeStmts(fields) + [ReturnTrue]
    ensures |ser| == |fields| + 2 && |des| == 3 * |fields| + 2
    ensures forall i :: 0 <= i < |fields| ==> ser[1..][i] == EncodeMember(fields[i].name)
    ensures forall i :: 0 <= i < |fields| ==>
              var f := fields[i].name;
              des[1..][3 * i..3 * i + 3] == [DecodeMember(f), FailUnless(f), AdvanceBy(f)]
  {
    if fields != [] {
      EncodeStmtAt(fields, 0);
      DecodeStmtsAt(fields, 0);
    }
    forall i | 0 <= i < |fields|
      ensures ser[1..][i] == EncodeMember(fields[i].name)
      ensures var f := fields[i].name;
              des[1..][3 * i..3 * i + 3] == [DecodeMember(f), FailUnless(f), AdvanceBy(f)]
    {
      EncodeStmtAt(fields, i);
      DecodeStmtsAt(fields, i);
      assert des[1..][3 * i..3 * i + 3] == DecodeStmts(fields)[3 * i..3 * i + 3];
    }
  }

  // ---------------------------------------------------------------- semantics of the emitted code

  /** Overload resolution: a member's declared type picks the encode/decode it gets. */
  function Types(fields: seq<Field>): map<string, Ty> {
    if fields == [] then map[] else Types(fields[1..])[fields[0].name := fields[0].ty]
  }

  datatype SerializeResult = NoReturn | Buffer(bytes: seq<Byte>)

  function RunSerialize(types: map<string, Ty>, obj: Object, code: seq<SerializeStmt>, buffer: seq<Byte>)
      : SerializeResult
  {
    if code == [] then NoReturn
    else
      match code[0]
      case NewBuffer => RunSerialize(types, obj, code[1..], [])
      case ReturnBuffer => Buffer(buffer)
      case EncodeMember(f) =>
        if f in types && f in obj && HasType(obj[f], types[f]) then
          RunSerialize(types, obj, code[1..], buffer + Encode(types[f], obj[f]))
        else NoReturn
  }

  datatype DeserializeResult = Stuck | Returned(ok: bool, obj: Object)

  function RunDeserialize(types: map<string, Ty>, data: seq<Byte>, code: seq<DeserializeStmt>,
                          offset: nat, results: map<string, Decoded<Val>>, obj: Object)
      : DeserializeResult
    decreases |code|
  {
    if code == [] || offset > |data| then Stuck
    else
      match code[0]
      case ZeroOffset => RunDeserialize(types, data, code[1..], 0, results, obj)
      case ReturnTrue => Returned(true, obj)
      case DecodeMember(f) =>
        if f !in types then Stuck
        else
          var r := Decode(types[f], data[offset..]);
          RunDeserialize(types, data, code[1..], offset, results[f := r], if r.Ok? then obj[f := r.value] else obj)
      case FailUnless(f) =>
        if f !in results then Stuck
        else if results[f].Fail? then Returned(false, obj)
        else RunDeserialize(types, data, code[1..], offset, results, obj)
      case AdvanceBy(f) =>
        if f !in results || results[f].Fail? then Stuck
        else RunDeserialize(types, data, code[1..], offset + results[f].bytesRead, results, obj)
  }

  // ---------------------------------------------------------------- what the emitted code computes

  ghost predicate DistinctNames(fields: seq<Field>) {
    forall i, j :: 0 <= i < j < |fields| ==> fields[i].name != fields[j].name
  }

  ghost predicate WellTyped(fields: seq<Field>, obj: Object) {
    forall f :: f in fields ==> f.name in obj && HasType(obj[f.name], f.ty)
  }

  ghost predicate AllFit(fields: seq<Field>, obj: Object) {
    forall f :: f in fields && f.name in obj ==> Fits(obj[f.name])
  }

  function EncodeFields(fields: seq<Field>, obj: Object): seq<Byte>
    requires WellTyped(fields, obj)
  {
    if fields == [] then []
    else
      assert fields[0] in fields;
      Encode(fields[0].ty, obj[fields[0].name]) + EncodeFields(fields[1..], obj)
  }

  /** Decode the members one after the other, stopping at the first that fails. */
  function DecodeFields(fields: seq<Field>, data: seq<Byte>, obj: Object): (bool, Object)
    decreases |fields|
  {
    if fields == [] then (true, obj)
    else
      match Decode(fields[0].ty, data)
      case Fail => (false, obj)
      case Ok(v, n) =>
        if n > |data| then (false, obj)  // never happens: DecodeSound
        else DecodeFields(fields[1..], data[n..], obj[fields[0].name := v])
  }

  lemma {:induction false} TypesLookup(fields: seq<Field>, f: Field)
    requires DistinctNames(fields) && f in fields
    ensures f.name in Types(fields) && Types(fields)[f.name] == f.ty
  {
    if f != fields[0] {
      TypesLookup(fields[1..], f);
      var j :| 0 <= j < |fields[1..]| && fields[1..][j] == f;
      assert fields[j + 1] == f;
    }
  }

  lemma {:induction false} SerializeRuns(types: map<string, Ty>, obj: Object, fields: seq<Field>, buffer: seq<Byte>)
    requires WellTyped(fields, obj)
    requires forall f :: f in fields ==> f.name in types && types[f.name] == f.ty
    ensures RunSerialize(types, obj, EncodeStmts(fields) + [ReturnBuffer], buffer) ==
              Buffer(buffer + EncodeFields(fields, obj))
  {
    hide Encode, HasType, Decode, Fits;
    if fields == [] {
      assert buffer + [] == buffer;
    } else {
      var f := fields[0];
      var code := EncodeStmts(fields) + [ReturnBuffer];
      assert code[1..] == EncodeStmts(fields[1..]) + [ReturnBuffer];
      var e := Encode(f.ty, obj[f.name]);
      SerializeRuns(types, obj, fields[1..], buffer + e);
      assert buffer + (e + EncodeFields(fields[1..], obj)) == (buffer + e) + EncodeFields(fields[1..], obj);
    }
  }

  lemma {:induction false} DeserializeRuns(types: map<string, Ty>, data: seq<Byte>, fields: seq<Field>, offset: nat,
                                           results: map<string, Decoded<Val>>, obj: Object)
    requires offset <= |data|
    requires forall f :: f in fields ==> f.name in types && types[f.name] == f.ty
    ensures var (ok, obj') := DecodeFields(fields, data[offset..], obj);
            RunDeserialize(types, data, DecodeStmts(fields) + [ReturnTrue], offset, results, obj) == Returned(ok, obj')
    decreases |fields|
  {
    hide Decode, HasType, Encode, Fits;
    if fields != [] {
      var f, rest := fields[0], DecodeStmts(fields[1..]) + [ReturnTrue];
      assert DecodeStmts(fields) + [ReturnTrue] ==
             [DecodeMember(f.name), FailUnless(f.name), AdvanceBy(f.name)] + rest;
      var r := Decode(f.ty, data[offset..]);
      DecodeSound(f.ty, data[offset..]);
      RunOneField(types, data, f, rest, offset, results, obj);
      if r.Ok? {
        assert data[offset..][r.bytesRead..] == data[offset + r.bytesRead..];
        DeserializeRuns(types, data, fields[1..], offset + r.bytesRead, results[f.name := r], obj[f.name := r.value]);
      }
    }
  }

  /** The three statements emitted for one member. */
  lemma RunOneField(types: map<string, Ty>, data: seq<Byte>, f: Field, rest: seq<DeserializeStmt>, offset: nat,
                    results: map<string, Decoded<Val>>, obj: Object)
    requires offset <= |data| && f.name in types && types[f.name] == f.ty
    ensures var code := [DecodeMember(f.name), FailUnless(f.name), AdvanceBy(f.name)] + rest;
            var r := Decode(f.ty, data[offset..]);
            RunDeserialize(types, data, code, offset, results, obj) ==
              if r.Fail? then Returned(false, obj)
              else RunDeserialize(types, data, rest, offset + r.bytesRead, results[f.name := r], obj[f.name := r.value])
  {
    hide Decode, HasType, Encode, Fits;
    var code := [DecodeMember(f.name), FailUnless(f.name), AdvanceBy(f.name)] + rest;
    var r := Decode(f.ty, data[offset..]);
    assert code[1..] == [FailUnless(f.name), AdvanceBy(f.name)] + rest;
    assert code[1..][1..] == [AdvanceBy(f.name)] + rest;
    assert code[1..][1..][1..] == rest;
    if r.Ok? {
      var results', obj' := results[f.name := r], obj[f.name := r.value];
      assert RunDeserialize(types, data, code[1..][1..], offset, results', obj') ==
             RunDeserialize(types, data, rest, offset + r.bytesRead, results', obj');
    }
  }

  /** Running the emitted `serialize` and `deserialize` bodies of a struct is encoding and decoding its
      members in declaration order. */
  lemma EmittedCodeMeans(s: StructDef, obj: Object, data: seq<Byte>, obj0: Object)
    requires DistinctNames(s.fields) && WellTyped(s.fields, obj)
    ensures RunSerialize(Types(s.fields), obj, [NewBuffer] + EncodeStmts(s.fields) + [ReturnBuffer], []) ==
              Buffer(EncodeFields(s.fields, obj))
    ensures var (ok, obj') := DecodeFields(s.fields, data, obj0);
            RunDeserialize(Types(s.fields), data, [ZeroOffset] + DecodeStmts(s.fields) + [ReturnTrue], 0, map[], obj0)
              == Returned(ok, obj')
  {
    hide Decode, Encode, HasType, Fits;
    forall f | f in s.fields ensures f.name in Types(s.fields) && Types(s.fields)[f.name] == f.ty {
      TypesLookup(s.fields, f);
    }
    var ser := [NewBuffer] + EncodeStmts(s.fields) + [ReturnBuffer];
    assert ser[1..] == EncodeStmts(s.fields) + [ReturnBuffer];
    SerializeRuns(Types(s.fields), obj, s.fields, []);
    assert [] + EncodeFields(s.fields, obj) == EncodeFields(s.fields, obj);
    var des := [ZeroOffset] + DecodeStmts(s.fields) + [ReturnTrue];
    assert des[1..] == DecodeStmts(s.fields) + [ReturnTrue];
    DeserializeRuns(Types(s.fields), data, s.fields, 0, map[], obj0);
    assert data[0..] == data;
  }

  /** The members lie in the output in declaration order: those before field k, field k, those after it. */
  lemma {:induction false} FieldsInOrder(fields: seq<Field>, obj: Object, k: nat)
    requires WellTyped(fields, obj) && k < |fields|
    ensures WellTyped(fields[..k], obj) && WellTyped(fields[k + 1..], obj)
    ensures fields[k].name in obj && HasType(obj[fields[k].name], fields[k].ty)
    ensures EncodeFields(fields, obj) ==
              EncodeFields(fields[..k], obj) + Encode(fields[k].ty, obj[fields[k].name]) + EncodeFields(fields[k + 1..], obj)
    decreases |fields|
  {
    hide Encode, HasType;
    assert fields[0] in fields && fields[k] in fields;
    if k > 0 {
      FieldsInOrder(fields[1..], obj, k - 1);
      assert fields[..k][1..] == fields[1..][..k - 1] && fields[1..][k..] == fields[k + 1..];
      var e := Encode(fields[0].ty, obj[fields[0].name]);
      var a, b, c := EncodeFields(fields[1..][..k - 1], obj), Encode(fields[k].ty, obj[fields[k].name]),
                     EncodeFields(fields[k + 1..], obj);
      assert e + (a + b + c) == (e + a) + b + c;
    } else {
      assert fields[..0] == [];
      assert [] + Encode(fields[0].ty, obj[fields[0].name]) == Encode(fields[0].ty, obj[fields[0].name]);
    }
  }

  // ---------------------------------------------------------------- round trip

  ghost predicate Recovers(fields: seq<Field>, obj: Object, obj': Object) {
    forall f :: f in fields ==> f.name in obj && f.name in obj' && obj'[f.name] == obj[f.name]
  }

  lemma {:induction false} DecodeFieldsKeepsOthers(fields: seq<Field>, data: seq<Byte>, obj: Object, name: string)
    requires forall f :: f in fields ==> f.name != name
    ensures var obj' := DecodeFields(fields, data, obj).1;
            (name in obj' <==> name in obj) && (name in obj ==> obj'[name] == obj[name])
    decreases |fields|
  {
    if fields != [] {
      var r := Decode(fields[0].ty, data);
      assert fields[0] in fields;
      if r.Ok? && r.bytesRead <= |data| {
        DecodeFieldsKeepsOthers(fields[1..], data[r.bytesRead..], obj[fields[0].name := r.value], name);
      }
    }
  }

  lemma {:induction false} FieldsRoundTrip(fields: seq<Field>, obj: Object, rest: seq<Byte>, obj0: Object)
    requires DistinctNames(fields) && WellTyped(fields, obj) && AllFit(fields, obj)
    ensures var (ok, obj') := DecodeFields(fields, EncodeFields(fields, obj) + rest, obj0);
            ok && Recovers(fields, obj, obj')
    decreases |fields|
  {
    hide Decode, Encode, HasType, Fits;
    if fields != [] {
      var f := fields[0];
      assert f in fields;
      var v := obj[f.name];
      var e, es := Encode(f.ty, v), EncodeFields(fields[1..], obj);
      DecodeEncode(f.ty, v, es + rest);
      assert (e + es) + rest == e + (es + rest);
      assert (e + (es + rest))[|e|..] == es + rest;
      FieldsRoundTrip(fields[1..], obj, rest, obj0[f.name := v]);
      NamesDiffer(fields);
      DecodeFieldsKeepsOthers(fields[1..], es + rest, obj0[f.name := v], f.name);
      assert forall g :: g in fields ==> g == f || g in fields[1..];
    }
  }

  lemma NamesDiffer(fields: seq<Field>)
    requires DistinctNames(fields) && fields != []
    ensures forall f :: f in fields[1..] ==> f.name != fields[0].name
    ensures DistinctNames(fields[1..])
  {
    forall f | f in fields[1..] ensures f.name != fields[0].name {
      var j :| 0 <= j < |fields[1..]| && fields[1..][j] == f;
      assert fields[j + 1] == f;
    }
  }

  /** A member that was decoded fits its length fields, whatever the bytes were. */
  lemma {:induction false} DecodedFieldsFit(fields: seq<Field>, data: seq<Byte>, obj0: Object)
    requires DistinctNames(fields) && DecodeFields(fields, data, obj0).0
    ensures AllFit(fields, DecodeFields(fields, data, obj0).1)
    decreases |fields|
  {
    hide Decode, Encode, HasType, Fits;
    if fields != [] {
      var f := fields[0];
      DecodeSound(f.ty, data);
      var r := Decode(f.ty, data);
      NamesDiffer(fields);
      DecodedFieldsFit(fields[1..], data[r.bytesRead..], obj0[f.name := r.value]);
      DecodeFieldsKeepsOthers(fields[1..], data[r.bytesRead..], obj0[f.name := r.value], f.name);
      assert forall g :: g in fields ==> g == f || g in fields[1..];
    }
  }

  /** For every struct with distinct member names: running the generated `deserialize` on the output of
      the generated `serialize`, with any bytes after it, returns true and recovers every member, if and
      only if every container in the object fits its 32-bit length field. */
  lemma GeneratedCodeRoundTrips(s: StructDef, obj: Object, rest: seq<Byte>, obj0: Object)
    requires DistinctNames(s.fields) && WellTyped(s.fields, obj)
    ensures var ser := [NewBuffer] + EncodeStmts(s.fields) + [ReturnBuffer];
            var des := [ZeroOffset] + DecodeStmts(s.fields) + [ReturnTrue];
            var out := RunSerialize(Types(s.fields), obj, ser, []);
            && out.Buffer?
            && var back := RunDeserialize(Types(s.fields), out.bytes + rest, des, 0, map[], obj0);
            back.Returned? && (back.ok && Recovers(s.fields, obj, back.obj) <==> AllFit(s.fields, obj))
  {
    hide Decode, Encode, HasType, Fits, RunSerialize, RunDeserialize, EncodeStmts, DecodeStmts;
    var bytes := EncodeFields(s.fields, obj);
    EmittedCodeMeans(s, obj, bytes + rest, obj0);
    var (ok, obj') := DecodeFields(s.fields, bytes + rest, obj0);
    if AllFit(s.fields, obj) {
      FieldsRoundTrip(s.fields, obj, rest, obj0);
    }
    if ok && Recovers(s.fields, obj, obj') {
      DecodedFieldsFit(s.fields, bytes + rest, obj0);
    }
  }

  lemma {:induction false} TruncatedFieldsFail(fields: seq<Field>, obj: Object, k: nat, obj0: Object)
    requires WellTyped(fields, obj) && AllFit(fields, obj) && k < |EncodeFields(fields, obj)|
    ensures !DecodeFields(fields, EncodeFields(fields, obj)[..k], obj0).0
    decreases |fields|
  {
    hide Decode, Encode, HasType, Fits;
    var f := fields[0];
    assert f in fields;
    var v := obj[f.name];
    var e, es := Encode(f.ty, v), EncodeFields(fields[1..], obj);
    if k < |e| {
      StrictPrefixFails(f.ty, v, k);
      assert (e + es)[..k] == e[..k];
    } else {
      DecodeEncode(f.ty, v, es[..k - |e|]);
      assert (e + es)[..k] == e + es[..k - |e|];
      assert (e + es[..k - |e|])[|e|..] == es[..k - |e|];
      TruncatedFieldsFail(fields[1..], obj, k - |e|, obj0[f.name := v]);
    }
  }

  /** Running the generated `deserialize` on any strict prefix of what the generated `serialize` returned
      returns false. */
  lemma TruncatedStructFails(s: StructDef, obj: Object, k: nat, obj0: Object)
    requires DistinctNames(s.fields) && WellTyped(s.fields, obj) && AllFit(s.fields, obj)
    ensures var ser := [NewBuffer] + EncodeStmts(s.fields) + [ReturnBuffer];
            var des := [ZeroOffset] + DecodeStmts(s.fields) + [ReturnTrue];
            var out := RunSerialize(Types(s.fields), obj, ser, []);
            && out.Buffer?
            && (k < |out.bytes| ==>
                  var back := RunDeserialize(Types(s.fields), out.bytes[..k], des, 0, map[], obj0);
                  back.Returned? && !back.ok)
  {
    hide Decode, Encode, HasType, Fits, RunSerialize, RunDeserialize, EncodeStmts, DecodeStmts;
    var bytes := EncodeFields(s.fields, obj);
    EmittedCodeMeans(s, obj, if k < |bytes| then bytes[..k] else [], obj0);
    if k < |bytes| {
      TruncatedFieldsFail(s.fields, obj, k, obj0);
    }
  }
}
