/** The Parse and Build methods of construct.go as they run: against a
    shared reader that advances and a writer that only grows. Each method
    is proved to compute what Decode and Encode say. */
module Stream {
  import opened ByteSeq
  import opened Scalars
  import opened Construct

  /** An in-memory io.Reader over fixed bytes with a read position, as
      bytes.NewReader gives. */
  class Reader {
    const data: seq<byte>
    var pos: nat

    ghost predicate Valid()
      reads this
    {
      pos <= |data|
    }

    /** The bytes not yet read. */
    function Rest(): seq<byte>
      reads this
      requires Valid()
    {
      data[pos..]
    }

    constructor (data: seq<byte>)
      ensures Valid() && this.data == data && Rest() == data
    {
      this.data := data;
      pos := 0;
    }

    /** io.ReadFull: fill buf from the stream. When fewer bytes are left
        than buf holds, it reads what there is and fails, leaving the
        reader at its end. */
    method ReadFull(buf: array<byte>) returns (ok: bool)
      requires Valid()
      modifies this, buf
      ensures Valid()
      ensures ok <==> buf.Length <= |old(Rest())|
      ensures ok ==> buf[..] == old(Rest())[..buf.Length] && Rest() == old(Rest())[buf.Length..]
      ensures !ok ==> Rest() == []
    {
      ghost var rest0 := Rest();
      var n := 0;
      while n < buf.Length && pos < |data|
        invariant 0 <= n <= buf.Length && Valid()
        invariant n <= |rest0| && Rest() == rest0[n..]
        invariant buf[..n] == rest0[..n]
      {
        buf[n] := data[pos];
        n, pos := n + 1, pos + 1;
      }
      ok := n == buf.Length;
    }
  }

  /** An io.Writer that keeps everything written to it (bytes.Buffer). */
  class Writer {
    var out: seq<byte>

    constructor ()
      ensures out == []
    {
      out := [];
    }

    method Write(b: seq<byte>)
      modifies this
      ensures out == old(out) + b
    {
      out := out + b;
    }
  }

  /** Go's `error`: nil or an error of some kind. */
  datatype Outcome = Pass | Fail(error: Error)

  /** Parse of f moved the reader from `before` to `after` and returned res
      exactly as Decode says; on a failure the reader was drained. */
  ghost predicate ParsedAs(f: Field, before: seq<byte>, res: Result<Value>, after: seq<byte>)
  {
    match Decode(f, before)
    case Ok((v, rest)) => res == Ok(v) && after == rest
    case Err(e) => res == Err(e) && after == []
  }

  /** Build of v for f appended exactly Encode's output, or failed with
      Encode's error after appending some bytes (no rollback). */
  ghost predicate BuiltAs(f: Field, v: Value, before: seq<byte>, res: Outcome, after: seq<byte>)
  {
    match Encode(f, v)
    case Ok(b) => res == Pass && after == before + b
    case Err(e) => res == Fail(e) && before <= after
  }

  // ---------------------------------------------------------------------
  // Parse

  /** Field.Parse: dispatch on the descriptor. */
  method Parse(f: Field, r: Reader) returns (res: Result<Value>)
    requires r.Valid()
    modifies r
    ensures r.Valid() && ParsedAs(f, old(r.Rest()), res, r.Rest())
    decreases f, 0
  {
    match f
    case Struct(fs) => res := StructParse(fs, r);
    case Int(sc) => res := IntParse(sc, r);
    case Bytes(n) => res := BytesParse(n, r);
    case Str(n) => res := StringParse(n, r);
    case Array(n, e) => res := ArrayParse(n, e, r);
  }

  /** Struct.Parse: a value slice of one entry per field, filled in order
      from the shared reader; the first error is returned and the partly
      filled slice dropped. */
  method StructParse(fs: seq<Field>, r: Reader) returns (res: Result<Value>)
    requires r.Valid()
    modifies r
    ensures r.Valid() && ParsedAs(Struct(fs), old(r.Rest()), res, r.Rest())
    decreases fs, 0
  {
    ghost var s0 := r.Rest();
    var values := new Value[|fs|];
    var i := 0;
    while i < |fs|
      invariant 0 <= i <= |fs| && r.Valid()
      invariant DecodeFields(fs[..i], s0) == Ok((values[..i], r.Rest()))
    {
      ghost var before := r.Rest();
      ghost var prev := values[..i];
      var v := Parse(fs[i], r);
      DecodeFieldsAppend(fs[..i], [fs[i]], s0);
      assert fs[..i + 1] == fs[..i] + [fs[i]];
      assert DecodeFields([fs[i]], before) ==
        match Decode(fs[i], before)
        case Err(e) => Err(e)
        case Ok((u, rest)) => Ok(([u], rest))
      by {
        assert ([fs[i]])[0] == fs[i] && ([fs[i]])[1..] == [];
        if Decode(fs[i], before).Ok? {
          var u, rest := Decode(fs[i], before).value.0, Decode(fs[i], before).value.1;
          assert [u] + [] == [u];
        }
      }
      if v.Err? {
        DecodeFieldsAppend(fs[..i + 1], fs[i + 1..], s0);
        assert fs[..i + 1] + fs[i + 1..] == fs;
        return Err(v.error);
      }
      values[i] := v.value;
      assert values[..i + 1] == prev + [v.value];
      i := i + 1;
    }
    assert fs[..|fs|] == fs && values[..|fs|] == values[..];
    return Ok(SeqV(values[..]));
  }

  /** Array.Parse: Count values of the element field, filled in order. */
  method ArrayParse(n: nat, e: Field, r: Reader) returns (res: Result<Value>)
    requires r.Valid()
    modifies r
    ensures r.Valid() && ParsedAs(Array(n, e), old(r.Rest()), res, r.Rest())
    decreases e, 1
  {
    ghost var s0 := r.Rest();
    var values := new Value[n];
    var i := 0;
    while i < n
      invariant 0 <= i <= n && r.Valid()
      invariant DecodeRepeat(i, e, s0) == Ok((values[..i], r.Rest()))
    {
      ghost var before := r.Rest();
      ghost var prev := values[..i];
      var v := Parse(e, r);
      DecodeRepeatAdd(i, 1, e, s0);
      assert DecodeRepeat(1, e, before) ==
        match Decode(e, before)
        case Err(err) => Err(err)
        case Ok((u, rest)) => Ok(([u], rest))
      by {
        if Decode(e, before).Ok? {
          var u, rest := Decode(e, before).value.0, Decode(e, before).value.1;
          assert [u] + [] == [u];
        }
      }
      if v.Err? {
        DecodeRepeatAdd(i + 1, n - (i + 1), e, s0);
        return Err(v.error);
      }
      values[i] := v.value;
      assert values[..i + 1] == prev + [v.value];
      i := i + 1;
    }
    assert values[..n] == values[..];
    return Ok(SeqV(values[..]));
  }

  /** Int8.Parse ... Uint64be.Parse: binary.Read of Width() bytes. */
  method IntParse(sc: Scalar, r: Reader) returns (res: Result<Value>)
    requires r.Valid()
    modifies r
    ensures r.Valid() && ParsedAs(Int(sc), old(r.Rest()), res, r.Rest())
  {
    var buf := new byte[sc.Width()](_ => 0);
    var ok := r.ReadFull(buf);
    if !ok {
      return Err(ShortRead);
    }
    return Ok(IntV(sc.Kind(), DecodeScalar(sc, buf[..])));
  }

  /** Bytes.Parse: a Length-byte buffer filled by io.ReadFull. */
  method BytesParse(n: nat, r: Reader) returns (res: Result<Value>)
    requires r.Valid()
    modifies r
    ensures r.Valid() && ParsedAs(Bytes(n), old(r.Rest()), res, r.Rest())
  {
    var buf := new byte[n](_ => 0);
    var ok := r.ReadFull(buf);
    if !ok {
      return Err(ShortRead);
    }
    return Ok(BytesV(buf[..]));
  }

  /** String.Parse: Length bytes, then the trailing zero bytes trimmed. */
  method StringParse(n: nat, r: Reader) returns (res: Result<Value>)
    requires r.Valid()
    modifies r
    ensures r.Valid() && ParsedAs(Str(n), old(r.Rest()), res, r.Rest())
  {
    var buf := new byte[n](_ => 0);
    var ok := r.ReadFull(buf);
    if !ok {
      return Err(ShortRead);
    }
    return Ok(StrV(TrimZeros(buf[..])));
  }

  // ---------------------------------------------------------------------
  // Build

  /** Field.Build: dispatch on the descriptor. */
  method Build(f: Field, w: Writer, v: Value) returns (res: Outcome)
    modifies w
    ensures BuiltAs(f, v, old(w.out), res, w.out)
    decreases f, 0
  {
    match f
    case Struct(fs) => res := StructBuild(fs, w, v);
    case Int(sc) => res := IntBuild(sc, w, v);
    case Bytes(n) => res := BytesBuild(n, w, v);
    case Str(n) => res := StringBuild(n, w, v);
    case Array(n, e) => res := ArrayBuild(n, e, w, v);
  }

  /** Struct.Build: check the value is a sequence of one value per field,
      then build each field in order; stop at the first error. */
  method StructBuild(fs: seq<Field>, w: Writer, v: Value) returns (res: Outcome)
    modifies w
    ensures BuiltAs(Struct(fs), v, old(w.out), res, w.out)
    decreases fs, 0
  {
    if !v.SeqV? {
      return Fail(TypeMismatch);
    }
    var values := v.items;
    if |values| != |fs| {
      return Fail(CountMismatch);
    }
    ghost var out0 := w.out;
    var i := 0;
    while i < |fs|
      invariant 0 <= i <= |fs|
      invariant EncodeFields(fs[..i], values[..i]).Ok?
      invariant w.out == out0 + EncodeFields(fs[..i], values[..i]).value
    {
      ghost var done := EncodeFields(fs[..i], values[..i]).value;
      var o := Build(fs[i], w, values[i]);
      EncodeFieldsAppend(fs[..i], [fs[i]], values[..i], [values[i]]);
      assert fs[..i + 1] == fs[..i] + [fs[i]] && values[..i + 1] == values[..i] + [values[i]];
      assert EncodeFields([fs[i]], [values[i]]) ==
        match Encode(fs[i], values[i])
        case Err(e) => Err(e)
        case Ok(b) => Ok(b)
      by {
        assert ([fs[i]])[0] == fs[i] && ([values[i]])[0] == values[i];
        assert ([fs[i]])[1..] == [] && ([values[i]])[1..] == [];
        if Encode(fs[i], values[i]).Ok? {
          assert Encode(fs[i], values[i]).value + [] == Encode(fs[i], values[i]).value;
        }
      }
      if o.Fail? {
        EncodeFieldsAppend(fs[..i + 1], fs[i + 1..], values[..i + 1], values[i + 1..]);
        assert fs[..i + 1] + fs[i + 1..] == fs && values[..i + 1] + values[i + 1..] == values;
        return o;
      }
      assert w.out == out0 + (done + Encode(fs[i], values[i]).value);
      i := i + 1;
    }
    assert fs[..|fs|] == fs && values[..|fs|] == values;
    return Pass;
  }

  /** Array.Build: check the value is a sequence of exactly Count values,
      then build each with the element field; stop at the first error. */
  method ArrayBuild(n: nat, e: Field, w: Writer, v: Value) returns (res: Outcome)
    modifies w
    ensures BuiltAs(Array(n, e), v, old(w.out), res, w.out)
    decreases e, 1
  {
    if !v.SeqV? {
      return Fail(TypeMismatch);
    }
    var values := v.items;
    if |values| != n {
      return Fail(CountMismatch);
    }
    ghost var out0 := w.out;
    var i := 0;
    while i < n
      invariant 0 <= i <= n
      invariant EncodeRepeat(e, values[..i]).Ok?
      invariant w.out == out0 + EncodeRepeat(e, values[..i]).value
    {
      ghost var done := EncodeRepeat(e, values[..i]).value;
      var o := Build(e, w, values[i]);
      EncodeRepeatAppend(e, values[..i], [values[i]]);
      assert values[..i + 1] == values[..i] + [values[i]];
      assert EncodeRepeat(e, [values[i]]) ==
        match Encode(e, values[i])
        case Err(err) => Err(err)
        case Ok(b) => Ok(b)
      by {
        assert ([values[i]])[0] == values[i] && ([values[i]])[1..] == [];
        if Encode(e, values[i]).Ok? {
          assert Encode(e, values[i]).value + [] == Encode(e, values[i]).value;
        }
      }
      if o.Fail? {
        EncodeRepeatAppend(e, values[..i + 1], values[i + 1..]);
        assert values[..i + 1] + values[i + 1..] == values;
        return o;
      }
      assert w.out == out0 + (done + Encode(e, values[i]).value);
      i := i + 1;
    }
    assert values[..n] == values;
    return Pass;
  }

  /** Int8.Build ... Uint64be.Build: a value of exactly the field's Go type,
      written by binary.Write in the field's byte order. */
  method IntBuild(sc: Scalar, w: Writer, v: Value) returns (res: Outcome)
    modifies w
    ensures BuiltAs(Int(sc), v, old(w.out), res, w.out)
  {
    if !(v.IntV? && v.kind == sc.Kind() && sc.Kind().InRange(v.n)) {
      return Fail(TypeMismatch);
    }
    w.Write(EncodeScalar(sc, v.n));
    return Pass;
  }

  /** Bytes.Build: a []byte of exactly Length bytes, written unchanged. */
  method BytesBuild(n: nat, w: Writer, v: Value) returns (res: Outcome)
    modifies w
    ensures BuiltAs(Bytes(n), v, old(w.out), res, w.out)
  {
    if !v.BytesV? {
      return Fail(TypeMismatch);
    }
    if |v.bytes| != n {
      return Fail(TypeMismatch);
    }
    w.Write(v.bytes);
    return Pass;
  }

  /** String.Build: a zero-filled Length-byte buffer with the text copied
      into its start, then written whole. */
  method StringBuild(n: nat, w: Writer, v: Value) returns (res: Outcome)
    modifies w
    ensures BuiltAs(Str(n), v, old(w.out), res, w.out)
  {
    if !v.StrV? {
      return Fail(TypeMismatch);
    }
    var buf := FillBuffer(v.text, n);
    w.Write(buf);
    return Pass;
  }

  /** `buf := make([]byte, n); copy(buf, text)`: Go's copy moves
      min(n, len(text)) bytes and leaves the rest of the buffer zero. */
  method FillBuffer(text: seq<byte>, n: nat) returns (b: seq<byte>)
    ensures b == PadTo(text, n)
  {
    var buf := new byte[n](_ => 0);
    var k := 0;
    while k < n && k < |text|
      invariant 0 <= k <= n && k <= |text|
      invariant buf[..k] == text[..k]
      invariant forall j :: k <= j < n ==> buf[j] == 0
    {
      buf[k] := text[k];
      k := k + 1;
    }
    b := buf[..];
    PadToSpec(text, n);
    assert b == PadTo(text, n);
  }

  // ---------------------------------------------------------------------
  // Whole messages

  /** `f.Parse(bytes.NewReader(data))`, also returning the unread bytes. */
  method ParseBytes(f: Field, data: seq<byte>) returns (res: Result<(Value, seq<byte>)>)
    ensures res == Decode(f, data)
  {
    var r := new Reader(data);
    var v := Parse(f, r);
    if v.Err? {
      return Err(v.error);
    }
    return Ok((v.value, r.Rest()));
  }

  /** `f.Build(&buf, v)` into a fresh bytes.Buffer, returning the buffer's
      contents on success. */
  method BuildBytes(f: Field, v: Value) returns (res: Result<seq<byte>>)
    ensures res == Encode(f, v)
  {
    var w := new Writer();
    var o := Build(f, w, v);
    if o.Fail? {
      return Err(o.error);
    }
    assert w.out == [] + Encode(f, v).value;
    assert [] + Encode(f, v).value == Encode(f, v).value;
    return Ok(w.out);
  }
}
