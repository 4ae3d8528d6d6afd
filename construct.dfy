/** The field descriptors of construct.go and what their Parse and Build
    methods compute, as functions of the input bytes and the value. */
module Construct {
  import opened ByteSeq
  import opened Scalars

  /** A field descriptor: static configuration, never changed after it is
      made. A Struct holds its sub-fields by value, so descriptors form a
      finite tree. */
  datatype Field =
    | Struct(fields: seq<Field>)
    | Int(scalar: Scalar)
    | Bytes(length: nat)
    | Str(length: nat)
    | Array(count: nat, elem: Field)

  /** What Parse returns and Build accepts (Go's `any` as used here): a
      typed integer, a `[]byte`, a `string` (as its bytes) or an `[]any`. */
  datatype Value =
    | IntV(kind: IntKind, n: int)
    | BytesV(bytes: seq<byte>)
    | StrV(text: seq<byte>)
    | SeqV(items: seq<Value>)

  datatype Error =
    | ShortRead     // fewer bytes left than the field reads
    | TypeMismatch  // Build got a value of another type, width or length
    | CountMismatch // Build got a sequence of the wrong length

  datatype Result<T> = Ok(value: T) | Err(error: Error)

  /** Bytes every successful Parse consumes and every successful Build
      writes: fixed by the descriptor alone. */
  function Size(f: Field): nat
    decreases f, 0
  {
    match f
    case Struct(fs) => SizeFields(fs)
    case Int(s) => s.Width()
    case Bytes(n) => n
    case Str(n) => n
    case Array(n, e) => RepeatSize(n, e)
  }

  /** Bytes taken by n elements of e laid end to end. */
  function RepeatSize(n: nat, e: Field): nat
    decreases e, n + 1
  {
    if n == 0 then 0 else Size(e) + RepeatSize(n - 1, e)
  }

  function SizeFields(fs: seq<Field>): nat
    decreases fs, 0
  {
    if fs == [] then 0 else Size(fs[0]) + SizeFields(fs[1..])
  }

  // ---------------------------------------------------------------------
  // Parse

  /** Parse of field f from the bytes s: the value and the bytes left. */
  function Decode(f: Field, s: seq<byte>): Result<(Value, seq<byte>)>
    decreases f, 0
  {
    match f
    case Struct(fs) =>
      (match DecodeFields(fs, s)
       case Ok((vs, rest)) => Ok((SeqV(vs), rest))
       case Err(e) => Err(e))
    case Int(sc) =>
      if |s| < sc.Width() then Err(ShortRead)
      else Ok((IntV(sc.Kind(), DecodeScalar(sc, s[..sc.Width()])), s[sc.Width()..]))
    case Bytes(n) =>
      if |s| < n then Err(ShortRead) else Ok((BytesV(s[..n]), s[n..]))
    case Str(n) =>
      if |s| < n then Err(ShortRead) else Ok((StrV(TrimZeros(s[..n])), s[n..]))
    case Array(n, e) =>
      (match DecodeRepeat(n, e, s)
       case Ok((vs, rest)) => Ok((SeqV(vs), rest))
       case Err(e) => Err(e))
  }

  /** Struct.Parse: each field in order, from the bytes its predecessor
      left; the first failure is the result. */
  function DecodeFields(fs: seq<Field>, s: seq<byte>): Result<(seq<Value>, seq<byte>)>
    decreases fs, 0
  {
    if fs == [] then Ok(([], s))
    else
      match Decode(fs[0], s)
      case Err(e) => Err(e)
      case Ok((v, rest)) =>
        match DecodeFields(fs[1..], rest)
        case Err(e) => Err(e)
        case Ok((vs, rest')) => Ok(([v] + vs, rest'))
  }

  /** Array.Parse: the element field n times in a row. */
  function DecodeRepeat(n: nat, e: Field, s: seq<byte>): Result<(seq<Value>, seq<byte>)>
    decreases e, n + 1
  {
    if n == 0 then Ok(([], s))
    else
      match Decode(e, s)
      case Err(err) => Err(err)
      case Ok((v, rest)) =>
        match DecodeRepeat(n - 1, e, rest)
        case Err(err) => Err(err)
        case Ok((vs, rest')) => Ok(([v] + vs, rest'))
  }

  // ---------------------------------------------------------------------
  // Build

  /** Build of value v for field f: the bytes written, or the error. */
  function Encode(f: Field, v: Value): Result<seq<byte>>
    decreases f, 0
  {
    match f
    case Struct(fs) =>
      if !v.SeqV? then Err(TypeMismatch)
      else if |v.items| != |fs| then Err(CountMismatch)
      else EncodeFields(fs, v.items)
    case Int(sc) =>
      if v.IntV? && v.kind == sc.Kind() && sc.Kind().InRange(v.n)
      then Ok(EncodeScalar(sc, v.n))
      else Err(TypeMismatch)
    case Bytes(n) =>
      if !v.BytesV? then Err(TypeMismatch)
      else if |v.bytes| != n then Err(TypeMismatch)
      else Ok(v.bytes)
    case Str(n) =>
      if !v.StrV? then Err(TypeMismatch) else Ok(PadTo(v.text, n))
    case Array(n, e) =>
      if !v.SeqV? then Err(TypeMismatch)
      else if |v.items| != n then Err(CountMismatch)
      else EncodeRepeat(e, v.items)
  }

  /** Struct.Build after its checks: field i builds value i, in order. */
  function EncodeFields(fs: seq<Field>, vs: seq<Value>): Result<seq<byte>>
    requires |fs| == |vs|
    decreases fs, 0
  {
    if fs == [] then Ok([])
    else
      match Encode(fs[0], vs[0])
      case Err(e) => Err(e)
      case Ok(b) =>
        match EncodeFields(fs[1..], vs[1..])
        case Err(e) => Err(e)
        case Ok(bs) => Ok(b + bs)
  }

  /** Array.Build after its checks: the element field builds each value. */
  function EncodeRepeat(e: Field, vs: seq<Value>): Result<seq<byte>>
    decreases e, |vs| + 1
  {
    if vs == [] then Ok([])
    else
      match Encode(e, vs[0])
      case Err(err) => Err(err)
      case Ok(b) =>
        match EncodeRepeat(e, vs[1..])
        case Err(err) => Err(err)
        case Ok(bs) => Ok(b + bs)
  }

  // ---------------------------------------------------------------------
  // Which values each field accepts, and what survives a round trip

  /** The values Build accepts for f: the right Go type for every leaf, an
      integer of exactly the field's type, a []byte of exactly the field's
      length, any string, and sequences of exactly the right count. */
  predicate WellTyped(f: Field, v: Value)
    decreases f
  {
    match f
    case Struct(fs) =>
      v.SeqV? && |v.items| == |fs| &&
      forall i :: 0 <= i < |fs| ==> WellTyped(fs[i], v.items[i])
    case Int(sc) => v.IntV? && v.kind == sc.Kind() && sc.Kind().InRange(v.n)
    case Bytes(n) => v.BytesV? && |v.bytes| == n
    case Str(n) => v.StrV?
    case Array(n, e) =>
      v.SeqV? && |v.items| == n &&
      forall i :: 0 <= i < n ==> WellTyped(e, v.items[i])
  }

  /** Well-typed values that Parse can return: every text fits its field
      and does not end in a zero byte. Exactly these survive a Build
      followed by a Parse unchanged. */
  predicate Canonical(f: Field, v: Value)
    decreases f
  {
    match f
    case Struct(fs) =>
      v.SeqV? && |v.items| == |fs| &&
      forall i :: 0 <= i < |fs| ==> Canonical(fs[i], v.items[i])
    case Int(sc) => v.IntV? && v.kind == sc.Kind() && sc.Kind().InRange(v.n)
    case Bytes(n) => v.BytesV? && |v.bytes| == n
    case Str(n) => v.StrV? && |v.text| <= n && NoTrailingZero(v.text)
    case Array(n, e) =>
      v.SeqV? && |v.items| == n &&
      forall i :: 0 <= i < n ==> Canonical(e, v.items[i])
  }

  /** The first n bytes of s, or all of s if it is shorter. */
  function Truncate(s: seq<byte>, n: nat): seq<byte>
  {
    if |s| <= n then s else s[..n]
  }

  /** The value a Build and a Parse of v make of it: each text cut to its
      field's length and stripped of its trailing zero bytes, everything
      else unchanged. */
  function Canon(f: Field, v: Value): Value
    requires WellTyped(f, v)
    decreases f, 0
  {
    match f
    case Struct(fs) => SeqV(CanonFields(fs, v.items))
    case Int(_) => v
    case Bytes(_) => v
    case Str(n) => StrV(TrimZeros(Truncate(v.text, n)))
    case Array(n, e) => SeqV(CanonRepeat(e, v.items))
  }

  function CanonFields(fs: seq<Field>, vs: seq<Value>): (cs: seq<Value>)
    requires |fs| == |vs| && forall i :: 0 <= i < |fs| ==> WellTyped(fs[i], vs[i])
    ensures |cs| == |vs|
    decreases fs, 0
  {
    if fs == [] then [] else [Canon(fs[0], vs[0])] + CanonFields(fs[1..], vs[1..])
  }

  function CanonRepeat(e: Field, vs: seq<Value>): (cs: seq<Value>)
    requires forall i :: 0 <= i < |vs| ==> WellTyped(e, vs[i])
    ensures |cs| == |vs|
    decreases e, |vs| + 1
  {
    if vs == [] then [] else [Canon(e, vs[0])] + CanonRepeat(e, vs[1..])
  }

  lemma {:induction false} CanonicalIsWellTyped(f: Field, v: Value)
    requires Canonical(f, v)
    ensures WellTyped(f, v)
    decreases f
  {
    match f
    case Struct(fs) =>
      forall i | 0 <= i < |fs| ensures WellTyped(fs[i], v.items[i]) {
        CanonicalIsWellTyped(fs[i], v.items[i]);
      }
    case Array(n, e) =>
      forall i | 0 <= i < n ensures WellTyped(e, v.items[i]) {
        CanonicalIsWellTyped(e, v.items[i]);
      }
    case _ =>
  }

  // ---------------------------------------------------------------------
  // Parse: how much it reads, when it fails, what it returns

  /** Parse succeeds exactly when at least Size(f) bytes are left, and then
      consumes exactly Size(f) of them; the only failure is a short read;
      every value it returns is canonical. */
  lemma {:induction false} DecodeShape(f: Field, s: seq<byte>)
    ensures Decode(f, s).Ok? <==> |s| >= Size(f)
    ensures Decode(f, s).Err? ==> Decode(f, s).error == ShortRead
    ensures Decode(f, s).Ok? ==>
              Decode(f, s).value.1 == s[Size(f)..] && Canonical(f, Decode(f, s).value.0)
    decreases f, 0
  {
    match f
    case Struct(fs) => DecodeFieldsShape(fs, s);
    case Int(sc) =>
    case Bytes(n) =>
    case Str(n) =>
      if |s| >= n {
        TrimZerosSpec(s[..n]);
      }
    case Array(n, e) => DecodeRepeatShape(n, e, s);
  }

  lemma {:induction false} DecodeFieldsShape(fs: seq<Field>, s: seq<byte>)
    ensures DecodeFields(fs, s).Ok? <==> |s| >= SizeFields(fs)
    ensures DecodeFields(fs, s).Err? ==> DecodeFields(fs, s).error == ShortRead
    ensures DecodeFields(fs, s).Ok? ==>
              var vs, rest := DecodeFields(fs, s).value.0, DecodeFields(fs, s).value.1;
              rest == s[SizeFields(fs)..] && |vs| == |fs| &&
              forall i :: 0 <= i < |fs| ==> Canonical(fs[i], vs[i])
    decreases fs, 0
  {
    if fs != [] {
      DecodeShape(fs[0], s);
      if |s| >= Size(fs[0]) {
        var v, rest := Decode(fs[0], s).value.0, Decode(fs[0], s).value.1;
        DecodeFieldsShape(fs[1..], rest);
        if DecodeFields(fs[1..], rest).Ok? {
          var vs, rest' := DecodeFields(fs[1..], rest).value.0, DecodeFields(fs[1..], rest).value.1;
          assert forall i :: 1 <= i < |fs| ==> Canonical(fs[i], ([v] + vs)[i]) by {
            forall i | 1 <= i < |fs| ensures Canonical(fs[i], ([v] + vs)[i]) {
              assert fs[i] == fs[1..][i - 1];
            }
          }
        }
      }
    }
  }

  lemma {:induction false} DecodeRepeatShape(n: nat, e: Field, s: seq<byte>)
    ensures DecodeRepeat(n, e, s).Ok? <==> |s| >= RepeatSize(n, e)
    ensures DecodeRepeat(n, e, s).Err? ==> DecodeRepeat(n, e, s).error == ShortRead
    ensures DecodeRepeat(n, e, s).Ok? ==>
              var vs, rest := DecodeRepeat(n, e, s).value.0, DecodeRepeat(n, e, s).value.1;
              rest == s[RepeatSize(n, e)..] && |vs| == n &&
              forall i :: 0 <= i < n ==> Canonical(e, vs[i])
    decreases e, n + 1
  {
    if n > 0 {
      var k := Size(e);
      DecodeShape(e, s);
      if |s| >= k {
        var v, rest := Decode(e, s).value.0, Decode(e, s).value.1;
        DecodeRepeatShape(n - 1, e, rest);
        if DecodeRepeat(n - 1, e, rest).Ok? {
          var vs, rest' := DecodeRepeat(n - 1, e, rest).value.0, DecodeRepeat(n - 1, e, rest).value.1;
          CanonicalCons(e, v, vs);
          DropDrop(s, k, RepeatSize(n - 1, e));
        }
      }
    }
  }

  /** A canonical element in front of canonical elements. */
  lemma CanonicalCons(e: Field, v: Value, vs: seq<Value>)
    requires Canonical(e, v) && forall i :: 0 <= i < |vs| ==> Canonical(e, vs[i])
    ensures forall i :: 0 <= i < |vs| + 1 ==> Canonical(e, ([v] + vs)[i])
  {
    forall i | 0 <= i < |vs| + 1 ensures Canonical(e, ([v] + vs)[i]) {
      if i > 0 {
        assert ([v] + vs)[i] == vs[i - 1];
      }
    }
  }

  lemma MulSucc(m: nat, k: nat)
    ensures (m + 1) * k == k + m * k && m * k >= 0
  {
  }

  /** An Array field of n elements takes n times the element's size. */
  lemma {:induction false} RepeatSizeProduct(n: nat, e: Field)
    ensures Size(Array(n, e)) == RepeatSize(n, e) == n * Size(e)
  {
    if n > 0 {
      RepeatSizeProduct(n - 1, e);
      MulSucc(n - 1, Size(e));
    }
  }

  // ---------------------------------------------------------------------
  // Build: when it succeeds and how much it writes

  /** Build succeeds exactly for well-typed values, and then writes exactly
      Size(f) bytes. */
  lemma {:induction false} EncodeShape(f: Field, v: Value)
    ensures Encode(f, v).Ok? <==> WellTyped(f, v)
    ensures Encode(f, v).Ok? ==> |Encode(f, v).value| == Size(f)
    decreases f, 0
  {
    match f
    case Struct(fs) =>
      if v.SeqV? && |v.items| == |fs| {
        EncodeFieldsShape(fs, v.items);
      }
    case Int(sc) =>
    case Bytes(n) =>
    case Str(n) =>
      if v.StrV? {
        PadToSpec(v.text, n);
      }
    case Array(n, e) =>
      if v.SeqV? && |v.items| == n {
        EncodeRepeatShape(e, v.items);
      }
  }

  lemma {:induction false} EncodeFieldsShape(fs: seq<Field>, vs: seq<Value>)
    requires |fs| == |vs|
    ensures EncodeFields(fs, vs).Ok? <==> forall i :: 0 <= i < |fs| ==> WellTyped(fs[i], vs[i])
    ensures EncodeFields(fs, vs).Ok? ==> |EncodeFields(fs, vs).value| == SizeFields(fs)
    decreases fs, 0
  {
    if fs != [] {
      EncodeShape(fs[0], vs[0]);
      EncodeFieldsShape(fs[1..], vs[1..]);
      if forall i :: 1 <= i < |fs| ==> WellTyped(fs[i], vs[i]) {
        assert forall i :: 0 <= i < |fs| - 1 ==> WellTyped(fs[1..][i], vs[1..][i]) by {
          forall i | 0 <= i < |fs| - 1 ensures WellTyped(fs[1..][i], vs[1..][i]) {
            assert fs[1..][i] == fs[i + 1] && vs[1..][i] == vs[i + 1];
          }
        }
      } else {
        var i :| 1 <= i < |fs| && !WellTyped(fs[i], vs[i]);
        assert fs[1..][i - 1] == fs[i] && vs[1..][i - 1] == vs[i];
      }
    }
  }

  lemma {:induction false} EncodeRepeatShape(e: Field, vs: seq<Value>)
    ensures EncodeRepeat(e, vs).Ok? <==> forall i :: 0 <= i < |vs| ==> WellTyped(e, vs[i])
    ensures EncodeRepeat(e, vs).Ok? ==> |EncodeRepeat(e, vs).value| == RepeatSize(|vs|, e)
    decreases e, |vs| + 1
  {
    if vs != [] {
      EncodeShape(e, vs[0]);
      EncodeRepeatShape(e, vs[1..]);
      if forall i :: 1 <= i < |vs| ==> WellTyped(e, vs[i]) {
        assert forall i :: 0 <= i < |vs| - 1 ==> WellTyped(e, vs[1..][i]) by {
          forall i | 0 <= i < |vs| - 1 ensures WellTyped(e, vs[1..][i]) {
            assert vs[1..][i] == vs[i + 1];
          }
        }
      } else {
        var i :| 1 <= i < |vs| && !WellTyped(e, vs[i]);
        assert vs[1..][i - 1] == vs[i];
      }
    }
  }

  // ---------------------------------------------------------------------
  // One step of each loop

  /** Building a list of fields is building the first and then the rest. */
  lemma EncodeFieldsCons(f: Field, fs: seq<Field>, v: Value, vs: seq<Value>)
    requires |fs| == |vs| && Encode(f, v).Ok? && EncodeFields(fs, vs).Ok?
    ensures EncodeFields([f] + fs, [v] + vs) == Ok(Encode(f, v).value + EncodeFields(fs, vs).value)
  {
    assert ([f] + fs)[0] == f && ([f] + fs)[1..] == fs;
    assert ([v] + vs)[0] == v && ([v] + vs)[1..] == vs;
  }

  /** Building an element list: the first element's bytes, then the rest. */
  lemma EncodeRepeatCons(e: Field, v: Value, vs: seq<Value>)
    requires Encode(e, v).Ok? && EncodeRepeat(e, vs).Ok?
    ensures EncodeRepeat(e, [v] + vs) == Ok(Encode(e, v).value + EncodeRepeat(e, vs).value)
  {
    assert ([v] + vs)[0] == v && ([v] + vs)[1..] == vs;
  }

  /** Parsing n > 0 elements: one element, then n - 1 from what it left. */
  lemma DecodeRepeatCons(n: nat, e: Field, s: seq<byte>)
    requires n > 0 && Decode(e, s).Ok? && DecodeRepeat(n - 1, e, Decode(e, s).value.1).Ok?
    ensures var v, rest := Decode(e, s).value.0, Decode(e, s).value.1;
            var vs, rest' := DecodeRepeat(n - 1, e, rest).value.0, DecodeRepeat(n - 1, e, rest).value.1;
            DecodeRepeat(n, e, s) == Ok(([v] + vs, rest'))
  {
  }

  /** The step of DecodeEncodeRepeat: an element parsed from b and n - 1
      parsed from bs give n parsed from b + bs, whatever follows. */
  lemma DecodeRepeatJoin(n: nat, e: Field, b: seq<byte>, bs: seq<byte>, t: seq<byte>,
                         c: Value, cs: seq<Value>)
    requires n > 0
    requires Decode(e, b + (bs + t)) == Ok((c, bs + t))
    requires DecodeRepeat(n - 1, e, bs + t) == Ok((cs, t))
    ensures DecodeRepeat(n, e, (b + bs) + t) == Ok(([c] + cs, t))
  {
    assert (b + bs) + t == b + (bs + t);
    DecodeRepeatCons(n, e, b + (bs + t));
  }

  /** The tail of a list of well-typed elements is well typed. */
  lemma WellTypedTail(e: Field, vs: seq<Value>)
    requires vs != [] && forall i :: 0 <= i < |vs| ==> WellTyped(e, vs[i])
    ensures forall i :: 0 <= i < |vs[1..]| ==> WellTyped(e, vs[1..][i])
  {
    forall i | 0 <= i < |vs[1..]| ensures WellTyped(e, vs[1..][i]) {
      assert vs[1..][i] == vs[i + 1];
    }
  }

  lemma WellTypedFieldsTail(fs: seq<Field>, vs: seq<Value>)
    requires fs != [] && |fs| == |vs| && forall i :: 0 <= i < |fs| ==> WellTyped(fs[i], vs[i])
    ensures forall i :: 0 <= i < |fs[1..]| ==> WellTyped(fs[1..][i], vs[1..][i])
  {
    forall i | 0 <= i < |fs[1..]| ensures WellTyped(fs[1..][i], vs[1..][i]) {
      assert fs[1..][i] == fs[i + 1] && vs[1..][i] == vs[i + 1];
    }
  }

  // ---------------------------------------------------------------------
  // Round trips

  /** Build then Parse: every well-typed value is built, and parsing the
      output (with anything after it) gives back Canon(f, v) and exactly the
      bytes that followed. */
  lemma {:induction false} DecodeEncode(f: Field, v: Value, t: seq<byte>)
    requires WellTyped(f, v)
    ensures Encode(f, v).Ok?
    ensures Decode(f, Encode(f, v).value + t) == Ok((Canon(f, v), t))
    decreases f, 0
  {
    EncodeShape(f, v);
    match f
    case Struct(fs) => DecodeEncodeFields(fs, v.items, t);
    case Int(sc) =>
      var b := EncodeScalar(sc, v.n);
      assert (b + t)[..sc.Width()] == b && (b + t)[sc.Width()..] == t;
      ScalarRoundTrip(sc, v.n);
    case Bytes(n) =>
      assert (v.bytes + t)[..n] == v.bytes && (v.bytes + t)[n..] == t;
    case Str(n) =>
      var b := PadTo(v.text, n);
      PadToSpec(v.text, n);
      assert (b + t)[..n] == b && (b + t)[n..] == t;
      if |v.text| <= n {
        TrimZerosPadded(v.text, n - |v.text|);
      }
    case Array(n, e) => DecodeEncodeRepeat(e, v.items, t);
  }

  lemma {:induction false} DecodeEncodeFields(fs: seq<Field>, vs: seq<Value>, t: seq<byte>)
    requires |fs| == |vs| && forall i :: 0 <= i < |fs| ==> WellTyped(fs[i], vs[i])
    ensures EncodeFields(fs, vs).Ok?
    ensures DecodeFields(fs, EncodeFields(fs, vs).value + t) == Ok((CanonFields(fs, vs), t))
    decreases fs, 0
  {
    EncodeFieldsShape(fs, vs);
    if fs != [] {
      var b := Encode(fs[0], vs[0]).value;
      var bs := EncodeFields(fs[1..], vs[1..]).value;
      assert forall i :: 0 <= i < |fs| - 1 ==> WellTyped(fs[1..][i], vs[1..][i]) by {
        forall i | 0 <= i < |fs| - 1 ensures WellTyped(fs[1..][i], vs[1..][i]) {
          assert fs[1..][i] == fs[i + 1] && vs[1..][i] == vs[i + 1];
        }
      }
      DecodeEncode(fs[0], vs[0], bs + t);
      DecodeEncodeFields(fs[1..], vs[1..], t);
      assert EncodeFields(fs, vs).value == b + bs;
      assert (b + bs) + t == b + (bs + t);
      assert Decode(fs[0], b + (bs + t)) == Ok((Canon(fs[0], vs[0]), bs + t));
      assert DecodeFields(fs[1..], bs + t) == Ok((CanonFields(fs[1..], vs[1..]), t));
    } else {
      assert [] + t == t;
    }
  }

  lemma {:induction false} DecodeEncodeRepeat(e: Field, vs: seq<Value>, t: seq<byte>)
    requires forall i :: 0 <= i < |vs| ==> WellTyped(e, vs[i])
    ensures EncodeRepeat(e, vs).Ok?
    ensures DecodeRepeat(|vs|, e, EncodeRepeat(e, vs).value + t) == Ok((CanonRepeat(e, vs), t))
    decreases e, |vs| + 1
  {
    if vs != [] {
      var n := |vs|;
      assert EncodeRepeat(e, vs[1..]).Ok? &&
             DecodeRepeat(n - 1, e, EncodeRepeat(e, vs[1..]).value + t)
               == Ok((CanonRepeat(e, vs[1..]), t)) by {
        WellTypedTail(e, vs);
        DecodeEncodeRepeat(e, vs[1..], t);
      }
      var bs := EncodeRepeat(e, vs[1..]).value;
      assert Encode(e, vs[0]).Ok? &&
             Decode(e, Encode(e, vs[0]).value + (bs + t)) == Ok((Canon(e, vs[0]), bs + t)) by {
        DecodeEncode(e, vs[0], bs + t);
      }
      var b := Encode(e, vs[0]).value;
      EncodeRepeatCons(e, vs[0], vs[1..]);
      assert [vs[0]] + vs[1..] == vs;
      DecodeRepeatJoin(n, e, b, bs, t, Canon(e, vs[0]), CanonRepeat(e, vs[1..]));
    } else {
      assert [] + t == t;
    }
  }

  /** Canon leaves v unchanged exactly when v is canonical. */
  lemma {:induction false} CanonFixed(f: Field, v: Value)
    requires WellTyped(f, v)
    ensures Canon(f, v) == v <==> Canonical(f, v)
    decreases f, 0
  {
    match f
    case Struct(fs) => CanonFieldsFixed(fs, v.items);
    case Int(_) =>
    case Bytes(_) =>
    case Str(n) =>
      if |v.text| <= n {
        TrimZerosPadded(v.text, n - |v.text|);
      }
      TrimPad(v.text, n);
    case Array(n, e) => CanonRepeatFixed(e, v.items);
  }

  lemma {:induction false} CanonFieldsFixed(fs: seq<Field>, vs: seq<Value>)
    requires |fs| == |vs| && forall i :: 0 <= i < |fs| ==> WellTyped(fs[i], vs[i])
    ensures CanonFields(fs, vs) == vs <==> forall i :: 0 <= i < |fs| ==> Canonical(fs[i], vs[i])
    decreases fs, 0
  {
    if fs != [] {
      WellTypedFieldsTail(fs, vs);
      CanonFixed(fs[0], vs[0]);
      CanonFieldsFixed(fs[1..], vs[1..]);
      ConsEq(Canon(fs[0], vs[0]), CanonFields(fs[1..], vs[1..]), vs[0], vs[1..]);
      assert [vs[0]] + vs[1..] == vs;
      CanonicalFieldsTail(fs, vs);
    }
  }

  lemma {:induction false} CanonRepeatFixed(e: Field, vs: seq<Value>)
    requires forall i :: 0 <= i < |vs| ==> WellTyped(e, vs[i])
    ensures CanonRepeat(e, vs) == vs <==> forall i :: 0 <= i < |vs| ==> Canonical(e, vs[i])
    decreases e, |vs| + 1
  {
    if vs != [] {
      var c, cs := Canon(e, vs[0]), CanonRepeat(e, vs[1..]);
      assert CanonRepeat(e, vs) == [c] + cs;
      assert c == vs[0] <==> Canonical(e, vs[0]) by {
        CanonFixed(e, vs[0]);
      }
      assert cs == vs[1..] <==> forall i :: 0 <= i < |vs[1..]| ==> Canonical(e, vs[1..][i]) by {
        WellTypedTail(e, vs);
        CanonRepeatFixed(e, vs[1..]);
      }
      ConsEq(c, cs, vs[0], vs[1..]);
      assert [vs[0]] + vs[1..] == vs;
      CanonicalTail(e, vs);
    }
  }

  lemma ConsEq<T>(a: T, xs: seq<T>, b: T, ys: seq<T>)
    ensures [a] + xs == [b] + ys <==> a == b && xs == ys
  {
    if [a] + xs == [b] + ys {
      assert ([a] + xs)[0] == a && ([b] + ys)[0] == b;
      assert ([a] + xs)[1..] == xs && ([b] + ys)[1..] == ys;
    }
  }

  /** Every element is canonical exactly when the first is and every one
      of the rest is. */
  lemma CanonicalTail(e: Field, vs: seq<Value>)
    requires vs != []
    ensures (forall i :: 0 <= i < |vs| ==> Canonical(e, vs[i])) <==>
            Canonical(e, vs[0]) && forall i :: 0 <= i < |vs[1..]| ==> Canonical(e, vs[1..][i])
  {
    if Canonical(e, vs[0]) && forall i :: 0 <= i < |vs[1..]| ==> Canonical(e, vs[1..][i]) {
      forall i | 0 <= i < |vs| ensures Canonical(e, vs[i]) {
        if i > 0 {
          assert vs[i] == vs[1..][i - 1];
        }
      }
    }
  }

  lemma CanonicalFieldsTail(fs: seq<Field>, vs: seq<Value>)
    requires fs != [] && |fs| == |vs|
    ensures (forall i :: 0 <= i < |fs| ==> Canonical(fs[i], vs[i])) <==>
            Canonical(fs[0], vs[0]) &&
            forall i :: 0 <= i < |fs[1..]| ==> Canonical(fs[1..][i], vs[1..][i])
  {
    if Canonical(fs[0], vs[0]) && forall i :: 0 <= i < |fs[1..]| ==> Canonical(fs[1..][i], vs[1..][i]) {
      forall i | 0 <= i < |fs| ensures Canonical(fs[i], vs[i]) {
        if i > 0 {
          assert fs[i] == fs[1..][i - 1] && vs[i] == vs[1..][i - 1];
        }
      }
    }
  }

  /** The value round trip: a well-typed value comes back from Build then
      Parse unchanged exactly when it is canonical; other values come back
      as Canon(f, v) (texts cut to length, trailing zeros dropped). */
  lemma RoundTrip(f: Field, v: Value)
    requires WellTyped(f, v)
    ensures Encode(f, v).Ok?
    ensures Decode(f, Encode(f, v).value) == Ok((v, [])) <==> Canonical(f, v)
  {
    DecodeEncode(f, v, []);
    assert Encode(f, v).value + [] == Encode(f, v).value;
    CanonFixed(f, v);
  }

  /** Parse then Build: the value parsed from s builds back exactly the
      bytes it was parsed from. This direction is exact for every field,
      fixed-length text included. */
  lemma {:induction false} EncodeDecode(f: Field, s: seq<byte>)
    requires Decode(f, s).Ok?
    ensures |s| >= Size(f) && Encode(f, Decode(f, s).value.0) == Ok(s[..Size(f)])
    decreases f, 0
  {
    DecodeShape(f, s);
    match f
    case Struct(fs) =>
      DecodeFieldsShape(fs, s);
      EncodeDecodeFields(fs, s);
    case Int(sc) => ScalarBytesRoundTrip(sc, s[..sc.Width()]);
    case Bytes(n) =>
    case Str(n) => PadTrim(s[..n]);
    case Array(n, e) =>
      DecodeRepeatShape(n, e, s);
      EncodeDecodeRepeat(n, e, s);
  }

  lemma {:induction false} EncodeDecodeFields(fs: seq<Field>, s: seq<byte>)
    requires DecodeFields(fs, s).Ok?
    ensures |s| >= SizeFields(fs) && |DecodeFields(fs, s).value.0| == |fs|
    ensures EncodeFields(fs, DecodeFields(fs, s).value.0) == Ok(s[..SizeFields(fs)])
    decreases fs, 0
  {
    DecodeFieldsShape(fs, s);
    if fs != [] {
      var v, rest := Decode(fs[0], s).value.0, Decode(fs[0], s).value.1;
      var vs := DecodeFields(fs[1..], rest).value.0;
      EncodeDecode(fs[0], s);
      DecodeShape(fs[0], s);
      EncodeDecodeFields(fs[1..], rest);
      var a, b := Size(fs[0]), SizeFields(fs[1..]);
      assert ([v] + vs)[1..] == vs;
      PrefixSplit(s, a, b);
    }
  }

  lemma {:induction false} EncodeDecodeRepeat(n: nat, e: Field, s: seq<byte>)
    requires DecodeRepeat(n, e, s).Ok?
    ensures |s| >= RepeatSize(n, e) && |DecodeRepeat(n, e, s).value.0| == n
    ensures EncodeRepeat(e, DecodeRepeat(n, e, s).value.0) == Ok(s[..RepeatSize(n, e)])
    decreases e, n + 1
  {
    if n > 0 {
      var k, m := Size(e), RepeatSize(n - 1, e);
      var v, rest := Decode(e, s).value.0, Decode(e, s).value.1;
      var vs := DecodeRepeat(n - 1, e, rest).value.0;
      DecodeRepeatCons(n, e, s);
      EncodeDecode(e, s);
      assert rest == s[k..] by {
        DecodeShape(e, s);
      }
      EncodeDecodeRepeat(n - 1, e, rest);
      EncodeRepeatPrefix(e, v, vs, s, k, m);
    }
  }

  /** The step of EncodeDecodeRepeat: an element built from the first k
      bytes and a list built from the m after them build the first k + m. */
  lemma EncodeRepeatPrefix(e: Field, v: Value, vs: seq<Value>, s: seq<byte>, k: nat, m: nat)
    requires k + m <= |s|
    requires Encode(e, v) == Ok(s[..k]) && EncodeRepeat(e, vs) == Ok(s[k..][..m])
    ensures EncodeRepeat(e, [v] + vs) == Ok(s[..k + m])
  {
    EncodeRepeatCons(e, v, vs);
    PrefixSplit(s, k, m);
  }

  lemma PrefixSplit(s: seq<byte>, a: nat, b: nat)
    requires a + b <= |s|
    ensures s[..a] + s[a..][..b] == s[..a + b]
  {
  }

  // ---------------------------------------------------------------------
  // Composition: splitting a field list or a repeat count

  /** Parsing fields fs + gs is parsing fs, then gs from what fs left; a
      failure in fs is the failure of the whole. */
  lemma {:induction false} DecodeFieldsAppend(fs: seq<Field>, gs: seq<Field>, s: seq<byte>)
    ensures DecodeFields(fs + gs, s) ==
              match DecodeFields(fs, s)
              case Err(e) => Err(e)
              case Ok((vs, rest)) =>
                match DecodeFields(gs, rest)
                case Err(e) => Err(e)
                case Ok((ws, rest')) => Ok((vs + ws, rest'))
  {
    if fs == [] {
      assert [] + gs == gs;
      if DecodeFields(gs, s).Ok? {
        assert [] + DecodeFields(gs, s).value.0 == DecodeFields(gs, s).value.0;
      }
    } else {
      assert (fs + gs)[0] == fs[0] && (fs + gs)[1..] == fs[1..] + gs;
      if Decode(fs[0], s).Ok? {
        var v, rest := Decode(fs[0], s).value.0, Decode(fs[0], s).value.1;
        DecodeFieldsAppend(fs[1..], gs, rest);
        if DecodeFields(fs[1..], rest).Ok? {
          var vs, rest' := DecodeFields(fs[1..], rest).value.0, DecodeFields(fs[1..], rest).value.1;
          if DecodeFields(gs, rest').Ok? {
            var ws := DecodeFields(gs, rest').value.0;
            assert [v] + (vs + ws) == ([v] + vs) + ws;
          }
        }
      }
    }
  }

  /** Parsing m + k elements is parsing m, then k from what they left. */
  lemma {:induction false} DecodeRepeatAdd(m: nat, k: nat, e: Field, s: seq<byte>)
    ensures DecodeRepeat(m + k, e, s) ==
              match DecodeRepeat(m, e, s)
              case Err(err) => Err(err)
              case Ok((vs, rest)) =>
                match DecodeRepeat(k, e, rest)
                case Err(err) => Err(err)
                case Ok((ws, rest')) => Ok((vs + ws, rest'))
  {
    if m == 0 {
      if DecodeRepeat(k, e, s).Ok? {
        assert [] + DecodeRepeat(k, e, s).value.0 == DecodeRepeat(k, e, s).value.0;
      }
    } else {
      var d := Decode(e, s);
      if d.Err? {
        assert DecodeRepeat(m + k, e, s) == Err(d.error);
        assert DecodeRepeat(m, e, s) == Err(d.error);
      } else {
        var v, rest := d.value.0, d.value.1;
        var a := DecodeRepeat(m - 1, e, rest);
        assert m + k - 1 == (m - 1) + k;
        if a.Err? {
          assert DecodeRepeat(m - 1 + k, e, rest) == Err(a.error) by {
            DecodeRepeatAdd(m - 1, k, e, rest);
          }
          assert DecodeRepeat(m, e, s) == Err(a.error);
        } else {
          var vs, rest' := a.value.0, a.value.1;
          var b := DecodeRepeat(k, e, rest');
          assert DecodeRepeat(m, e, s) == Ok(([v] + vs, rest'));
          if b.Err? {
            assert DecodeRepeat(m - 1 + k, e, rest) == Err(b.error) by {
              DecodeRepeatAdd(m - 1, k, e, rest);
            }
          } else {
            var ws := b.value.0;
            assert DecodeRepeat(m - 1 + k, e, rest) == Ok((vs + ws, b.value.1)) by {
              DecodeRepeatAdd(m - 1, k, e, rest);
            }
            assert [v] + (vs + ws) == ([v] + vs) + ws;
          }
        }
      }
    }
  }

  /** Building fields fs + gs from values vs + ws writes the output of fs
      followed by that of gs; a failure in fs is the failure of the whole. */
  lemma {:induction false} EncodeFieldsAppend(fs: seq<Field>, gs: seq<Field>, vs: seq<Value>, ws: seq<Value>)
    requires |fs| == |vs| && |gs| == |ws|
    ensures EncodeFields(fs + gs, vs + ws) ==
              match EncodeFields(fs, vs)
              case Err(e) => Err(e)
              case Ok(b) =>
                match EncodeFields(gs, ws)
                case Err(e) => Err(e)
                case Ok(b') => Ok(b + b')
  {
    if fs == [] {
      assert [] + gs == gs && [] + ws == ws;
      if EncodeFields(gs, ws).Ok? {
        assert [] + EncodeFields(gs, ws).value == EncodeFields(gs, ws).value;
      }
    } else {
      assert (fs + gs)[0] == fs[0] && (fs + gs)[1..] == fs[1..] + gs;
      assert (vs + ws)[0] == vs[0] && (vs + ws)[1..] == vs[1..] + ws;
      EncodeFieldsAppend(fs[1..], gs, vs[1..], ws);
      if Encode(fs[0], vs[0]).Ok? && EncodeFields(fs[1..], vs[1..]).Ok? && EncodeFields(gs, ws).Ok? {
        var b, bs, b' := Encode(fs[0], vs[0]).value, EncodeFields(fs[1..], vs[1..]).value, EncodeFields(gs, ws).value;
        assert b + (bs + b') == (b + bs) + b';
      }
    }
  }

  lemma {:induction false} EncodeRepeatAppend(e: Field, vs: seq<Value>, ws: seq<Value>)
    ensures EncodeRepeat(e, vs + ws) ==
              match EncodeRepeat(e, vs)
              case Err(err) => Err(err)
              case Ok(b) =>
                match EncodeRepeat(e, ws)
                case Err(err) => Err(err)
                case Ok(b') => Ok(b + b')
  {
    if vs == [] {
      assert [] + ws == ws;
      if EncodeRepeat(e, ws).Ok? {
        assert [] + EncodeRepeat(e, ws).value == EncodeRepeat(e, ws).value;
      }
    } else {
      assert (vs + ws)[0] == vs[0] && (vs + ws)[1..] == vs[1..] + ws;
      EncodeRepeatAppend(e, vs[1..], ws);
      if Encode(e, vs[0]).Ok? && EncodeRepeat(e, vs[1..]).Ok? && EncodeRepeat(e, ws).Ok? {
        var b, bs, b' := Encode(e, vs[0]).value, EncodeRepeat(e, vs[1..]).value, EncodeRepeat(e, ws).value;
        assert b + (bs + b') == (b + bs) + b';
      }
    }
  }

  // ---------------------------------------------------------------------
  // Where each part comes from

  /** Value i of a parsed Struct is field i parsed at offset
      SizeFields(fs[..i]), the point where field i-1 stopped. */
  lemma {:induction false} DecodeFieldsAt(fs: seq<Field>, s: seq<byte>, i: nat)
    requires DecodeFields(fs, s).Ok? && i < |fs|
    ensures |DecodeFields(fs, s).value.0| == |fs|
    ensures SizeFields(fs[..i]) + Size(fs[i]) <= |s|
    ensures Decode(fs[i], s[SizeFields(fs[..i])..]) ==
              Ok((DecodeFields(fs, s).value.0[i], s[SizeFields(fs[..i]) + Size(fs[i])..]))
  {
    var v, rest := Decode(fs[0], s).value.0, Decode(fs[0], s).value.1;
    var vs := DecodeFields(fs[1..], rest).value.0;
    assert DecodeFields(fs, s).value.0 == [v] + vs;
    assert |rest| + Size(fs[0]) == |s| && rest == s[Size(fs[0])..] by {
      DecodeShape(fs[0], s);
    }
    assert |vs| == |fs| - 1 by {
      DecodeFieldsShape(fs[1..], rest);
    }
    if i == 0 {
      assert fs[..0] == [];
      assert s[Size(fs[0])..] == s[0 + Size(fs[0])..];
    } else {
      var k := SizeFields(fs[1..][..i - 1]);
      assert SizeFields(fs[..i]) == Size(fs[0]) + k by {
        assert fs[..i][0] == fs[0] && fs[..i][1..] == fs[1..][..i - 1];
      }
      assert fs[1..][i - 1] == fs[i];
      DecodeFieldsAt(fs[1..], rest, i - 1);
      DropDrop(s, Size(fs[0]), k);
      DropDrop(s, Size(fs[0]), k + Size(fs[i]));
    }
  }

  lemma DropDrop(s: seq<byte>, a: nat, b: nat)
    requires a + b <= |s|
    ensures s[a..][b..] == s[a + b..]
  {
  }

  /** A Struct build that fails reports the error of the first field whose
      value it rejects; every field before that one was built. */
  lemma {:induction false} EncodeFieldsFirstError(fs: seq<Field>, vs: seq<Value>)
    requires |fs| == |vs| && EncodeFields(fs, vs).Err?
    ensures exists i :: 0 <= i < |fs| && Encode(fs[i], vs[i]) == Err(EncodeFields(fs, vs).error) &&
              forall j :: 0 <= j < i ==> Encode(fs[j], vs[j]).Ok?
  {
    var err := EncodeFields(fs, vs).error;
    if Encode(fs[0], vs[0]).Ok? {
      EncodeFieldsFirstError(fs[1..], vs[1..]);
      var i :| 0 <= i < |fs| - 1 && Encode(fs[1..][i], vs[1..][i]) == Err(err) &&
               forall j :: 0 <= j < i ==> Encode(fs[1..][j], vs[1..][j]).Ok?;
      assert Encode(fs[i + 1], vs[i + 1]) == Err(err);
      forall j | 0 <= j < i + 1 ensures Encode(fs[j], vs[j]).Ok? {
        if j > 0 {
          assert fs[1..][j - 1] == fs[j] && vs[1..][j - 1] == vs[j];
        }
      }
    } else {
      assert Encode(fs[0], vs[0]) == Err(err);
    }
  }

  /** An Array of n elements reads and writes exactly as a Struct of n
      copies of its element field. */
  function Copies(e: Field, n: nat): (fs: seq<Field>)
    ensures |fs| == n && forall i :: 0 <= i < n ==> fs[i] == e
  {
    if n == 0 then [] else [e] + Copies(e, n - 1)
  }

  lemma {:induction false} ArrayIsStructOfCopies(n: nat, e: Field, s: seq<byte>, v: Value)
    ensures Decode(Array(n, e), s) == Decode(Struct(Copies(e, n)), s)
    ensures Encode(Array(n, e), v) == Encode(Struct(Copies(e, n)), v)
  {
    DecodeRepeatIsFields(n, e, s);
    if v.SeqV? && |v.items| == n {
      EncodeRepeatIsFields(e, v.items);
    }
  }

  lemma {:induction false} DecodeRepeatIsFields(n: nat, e: Field, s: seq<byte>)
    ensures DecodeRepeat(n, e, s) == DecodeFields(Copies(e, n), s)
  {
    if n > 0 {
      var cs := Copies(e, n);
      assert cs[0] == e && cs[1..] == Copies(e, n - 1);
      if Decode(e, s).Ok? {
        DecodeRepeatIsFields(n - 1, e, Decode(e, s).value.1);
      }
    }
  }

  lemma {:induction false} EncodeRepeatIsFields(e: Field, vs: seq<Value>)
    ensures EncodeRepeat(e, vs) == EncodeFields(Copies(e, |vs|), vs)
  {
    if vs != [] {
      var cs := Copies(e, |vs|);
      assert cs[0] == e && cs[1..] == Copies(e, |vs| - 1);
      EncodeRepeatIsFields(e, vs[1..]);
    }
  }

  /** Copies laid end to end take up the element's size that many times. */
  lemma {:induction false} SizeCopies(e: Field, n: nat)
    ensures SizeFields(Copies(e, n)) == RepeatSize(n, e)
  {
    if n > 0 {
      var cs := Copies(e, n);
      assert cs[0] == e && cs[1..] == Copies(e, n - 1);
      SizeCopies(e, n - 1);
    }
  }

  lemma CopiesPrefix(e: Field, n: nat, i: nat)
    requires i <= n
    ensures Copies(e, n)[..i] == Copies(e, i)
  {
  }

  /** Element i of a parsed Array is the element field parsed at offset
      i * Size(e). */
  lemma DecodeRepeatAt(n: nat, e: Field, s: seq<byte>, i: nat)
    requires DecodeRepeat(n, e, s).Ok? && i < n
    ensures |DecodeRepeat(n, e, s).value.0| == n
    ensures (i + 1) * Size(e) <= |s|
    ensures Decode(e, s[i * Size(e)..]) ==
              Ok((DecodeRepeat(n, e, s).value.0[i], s[(i + 1) * Size(e)..]))
  {
    var cs := Copies(e, n);
    DecodeRepeatIsFields(n, e, s);
    DecodeFieldsAt(cs, s, i);
    CopiesPrefix(e, n, i);
    SizeCopies(e, i);
    RepeatSizeProduct(i, e);
    RepeatSizeProduct(i + 1, e);
  }
}
