/** The repository's tests and its usage example, as facts about the model. */
module Examples {
  import opened ByteSeq
  import opened Scalars
  import opened Construct

  /** Struct{Byte{}, Int32be{}, String{Length: 5}}; Go's byte is uint8. */
  function TestLayout(): Field
  {
    Struct([Int(Uint8), Int(Int32be), Str(5)])
  }

  /** FF 00 00 00 64 'T' 'e' 's' 't' 00 */
  function TestBytes(): seq<byte>
  {
    [0xFF, 0x00, 0x00, 0x00, 0x64, 0x54, 0x65, 0x73, 0x74, 0x00]
  }

  /** byte(0xFF), int32(100), "Test" */
  function TestValues(): Value
  {
    SeqV([IntV(U8, 0xFF), IntV(I32, 100), StrV([0x54, 0x65, 0x73, 0x74])])
  }

  lemma EncodeFieldsOne(f: Field, v: Value)
    requires Encode(f, v).Ok?
    ensures EncodeFields([f], [v]) == Ok(Encode(f, v).value)
  {
    assert [f][1..] == [] && [v][1..] == [];
    assert Encode(f, v).value + [] == Encode(f, v).value;
  }

  /** A byte field writes the byte itself. */
  lemma ByteBuild(n: byte)
    ensures Encode(Int(Uint8), IntV(U8, n)) == Ok([n])
  {
    assert FromNatBE(n, 1) == [n];
  }

  /** A big-endian uint16 field writes the high byte first. */
  lemma Uint16beBuild(n: nat)
    requires n < 0x1_0000
    ensures Encode(Int(Uint16be), IntV(U16, n)) == Ok([n / 256, n % 256])
  {
    assert U16.InRange(n) by { assert Pow256(2) == 0x1_0000; }
    assert FromNatBE(n, 2) == [n / 256, n % 256] by {
      assert FromNatBE(n / 256, 1) == [n / 256];
    }
  }

  lemma TestInt32Build()
    ensures Encode(Int(Int32be), IntV(I32, 100)) == Ok([0, 0, 0, 0x64])
  {
    assert I32.Half() == 0x8000_0000 by { assert Pow256(3) == 0x100_0000; }
    assert ToBits(I32, 100) == 100;
    assert FromNatBE(100, 4) == [0, 0, 0, 100] by {
      assert FromNatBE(0, 3) == [0, 0, 0];
    }
    assert EncodeScalar(Int32be, 100) == [0, 0, 0, 100];
  }

  lemma TestStringBuild()
    ensures Encode(Str(5), StrV([0x54, 0x65, 0x73, 0x74])) == Ok([0x54, 0x65, 0x73, 0x74, 0])
  {
    assert Zeros(1) == [0];
    assert PadTo([0x54, 0x65, 0x73, 0x74], 5) == [0x54, 0x65, 0x73, 0x74, 0];
  }

  /** TestStruct_Build: building (0xFF, 100, "Test") writes exactly the ten
      bytes. */
  lemma TestStructBuild()
    ensures Encode(TestLayout(), TestValues()) == Ok(TestBytes())
  {
    var v0, v1, v2 := IntV(U8, 0xFF), IntV(I32, 100), StrV([0x54, 0x65, 0x73, 0x74]);
    ByteBuild(0xFF);
    TestInt32Build();
    TestStringBuild();
    EncodeFieldsOne(Str(5), v2);
    EncodeFieldsCons(Int(Int32be), [Str(5)], v1, [v2]);
    assert [Int(Int32be)] + [Str(5)] == [Int(Int32be), Str(5)];
    assert [v1] + [v2] == [v1, v2];
    EncodeFieldsCons(Int(Uint8), [Int(Int32be), Str(5)], v0, [v1, v2]);
    assert [Int(Uint8)] + [Int(Int32be), Str(5)] == TestLayout().fields;
    assert [v0] + [v1, v2] == TestValues().items;
    assert EncodeFields(TestLayout().fields, TestValues().items) == Ok(TestBytes()) by {
      assert [0xFF] + ([0, 0, 0, 0x64] + [0x54, 0x65, 0x73, 0x74, 0]) == TestBytes();
    }
  }

  /** TestStruct_Parse: the ten bytes parse to (0xFF, 100, "Test") with
      nothing left over. */
  lemma TestStructParse()
    ensures Decode(TestLayout(), TestBytes()) == Ok((TestValues(), []))
  {
    var f, v := TestLayout(), TestValues();
    assert Canonical(f, v) by {
      forall i | 0 <= i < 3 ensures Canonical(f.fields[i], v.items[i]) {
      }
    }
    CanonicalIsWellTyped(f, v);
    TestStructBuild();
    RoundTrip(f, v);
  }

  /** The layout of the usage example in construct.go's closing comment. */
  function HeaderLayout(): Field
  {
    Struct([Int(Uint32be), Int(Uint16be), Int(Uint16be), Flags(), Str(8)])
  }

  /** The nested chunk: one byte and an array of four bytes. */
  function Flags(): Field
  {
    Struct([Int(Uint8), Array(4, Int(Uint8))])
  }

  function FlagValues(): Value
  {
    SeqV([IntV(U8, 0), SeqV([IntV(U8, 1), IntV(U8, 0), IntV(U8, 0), IntV(U8, 0)])])
  }

  /** The values that example builds, with the given name. */
  function HeaderValues(name: seq<byte>): Value
  {
    SeqV([IntV(U32, 0x89504E47), IntV(U16, 1920), IntV(U16, 1080), FlagValues(), StrV(name)])
  }

  /** "MyImage!!": nine bytes. */
  function MyImage(): seq<byte>
  {
    [0x4D, 0x79, 0x49, 0x6D, 0x61, 0x67, 0x65, 0x21, 0x21]
  }

  /** 89 50 4E 47 | 07 80 | 04 38 | 00 01 00 00 00 | "MyImage!" */
  function HeaderBytes(): seq<byte>
  {
    [0x89, 0x50, 0x4E, 0x47, 0x07, 0x80, 0x04, 0x38] + ([0x00, 0x01, 0x00, 0x00, 0x00] + MyImage()[..8])
  }

  lemma FlagsBuild()
    ensures Encode(Flags(), FlagValues()) == Ok([0, 1, 0, 0, 0])
  {
    var zero, one := IntV(U8, 0), IntV(U8, 1);
    ByteBuild(0);
    ByteBuild(1);
    var e := Int(Uint8);
    assert EncodeRepeat(e, []) == Ok([]);
    EncodeRepeatCons(e, zero, []);
    assert [zero] + [] == [zero] && [0] + [] == [0];
    assert EncodeRepeat(e, [zero]) == Ok([0]);
    EncodeRepeatCons(e, zero, [zero]);
    assert [zero] + [zero] == [zero, zero] && [0] + [0] == [0, 0];
    assert EncodeRepeat(e, [zero, zero]) == Ok([0, 0]);
    EncodeRepeatCons(e, zero, [zero, zero]);
    assert [zero] + [zero, zero] == [zero, zero, zero] && [0] + [0, 0] == [0, 0, 0];
    assert EncodeRepeat(e, [zero, zero, zero]) == Ok([0, 0, 0]);
    EncodeRepeatCons(e, one, [zero, zero, zero]);
    assert [one] + [zero, zero, zero] == FlagValues().items[1].items;
    assert [1] + [0, 0, 0] == [1, 0, 0, 0];
    assert EncodeRepeat(e, FlagValues().items[1].items) == Ok([1, 0, 0, 0]);
    EncodeFieldsOne(Array(4, Int(Uint8)), FlagValues().items[1]);
    EncodeFieldsCons(Int(Uint8), [Array(4, Int(Uint8))], zero, [FlagValues().items[1]]);
    assert [Int(Uint8)] + [Array(4, Int(Uint8))] == Flags().fields;
    assert [zero] + [FlagValues().items[1]] == FlagValues().items;
    assert [0] + [1, 0, 0, 0] == [0, 1, 0, 0, 0];
  }

  lemma MagicDigits()
    ensures FromNatBE(0x89504E47, 4) == [0x89, 0x50, 0x4E, 0x47]
  {
    assert FromNatBE(0x89504E, 3) == [0x89, 0x50, 0x4E] by {
      assert FromNatBE(0x8950, 2) == [0x89, 0x50] by {
        assert FromNatBE(0x89, 1) == [0x89];
      }
    }
  }

  /** The PNG signature word of the example, as a big-endian uint32. */
  lemma MagicBuild()
    ensures Encode(Int(Uint32be), IntV(U32, 0x89504E47)) == Ok([0x89, 0x50, 0x4E, 0x47])
  {
    assert U32.InRange(0x89504E47) by {
      assert Pow256(4) == 0x1_0000_0000;
    }
    MagicDigits();
  }

  /** The flags chunk and the name: the last two fields of the example. */
  lemma HeaderTailBuild(name: seq<byte>)
    requires PadTo(name, 8) == MyImage()[..8]
    ensures EncodeFields([Flags(), Str(8)], [FlagValues(), StrV(name)])
         == Ok([0, 1, 0, 0, 0] + MyImage()[..8])
  {
    FlagsBuild();
    EncodeFieldsOne(Str(8), StrV(name));
    EncodeFieldsCons(Flags(), [Str(8)], FlagValues(), [StrV(name)]);
    assert [Flags()] + [Str(8)] == [Flags(), Str(8)];
    assert [FlagValues()] + [StrV(name)] == [FlagValues(), StrV(name)];
  }

  /** The three integer fields at the front of the example. */
  lemma HeaderIntsBuild()
    ensures EncodeFields([Int(Uint32be), Int(Uint16be), Int(Uint16be)],
                         [IntV(U32, 0x89504E47), IntV(U16, 1920), IntV(U16, 1080)])
         == Ok([0x89, 0x50, 0x4E, 0x47, 0x07, 0x80, 0x04, 0x38])
  {
    var f0, f1 := Int(Uint32be), Int(Uint16be);
    var v0, v1, v2 := IntV(U32, 0x89504E47), IntV(U16, 1920), IntV(U16, 1080);
    MagicBuild();
    Uint16beBuild(1920);
    Uint16beBuild(1080);
    EncodeFieldsOne(f1, v2);
    EncodeFieldsCons(f1, [f1], v1, [v2]);
    assert [f1] + [f1] == [f1, f1] && [v1] + [v2] == [v1, v2];
    EncodeFieldsCons(f0, [f1, f1], v0, [v1, v2]);
    assert [f0] + [f1, f1] == [f0, f1, f1] && [v0] + [v1, v2] == [v0, v1, v2];
    assert [0x89, 0x50, 0x4E, 0x47] + ([0x07, 0x80] + [0x04, 0x38])
        == [0x89, 0x50, 0x4E, 0x47, 0x07, 0x80, 0x04, 0x38];
  }

  /** The integer fields followed by the flags chunk and the name. */
  lemma HeaderFieldsBuild(name: seq<byte>)
    requires PadTo(name, 8) == MyImage()[..8]
    ensures EncodeFields([Int(Uint32be), Int(Uint16be), Int(Uint16be)] + [Flags(), Str(8)],
                         [IntV(U32, 0x89504E47), IntV(U16, 1920), IntV(U16, 1080)]
                           + [FlagValues(), StrV(name)])
         == Ok([0x89, 0x50, 0x4E, 0x47, 0x07, 0x80, 0x04, 0x38] + ([0, 1, 0, 0, 0] + MyImage()[..8]))
  {
    HeaderIntsBuild();
    HeaderTailBuild(name);
    EncodeFieldsAppend([Int(Uint32be), Int(Uint16be), Int(Uint16be)], [Flags(), Str(8)],
                       [IntV(U32, 0x89504E47), IntV(U16, 1920), IntV(U16, 1080)],
                       [FlagValues(), StrV(name)]);
  }

  /** With any name that pads or truncates to "MyImage!", the example writes
      4 + 2 + 2 + 5 + 8 bytes. */
  lemma HeaderBuild(name: seq<byte>)
    requires PadTo(name, 8) == MyImage()[..8]
    ensures Encode(HeaderLayout(), HeaderValues(name)) == Ok(HeaderBytes())
  {
    HeaderFieldsBuild(name);
    assert [Int(Uint32be), Int(Uint16be), Int(Uint16be)] + [Flags(), Str(8)] == HeaderLayout().fields;
    assert [IntV(U32, 0x89504E47), IntV(U16, 1920), IntV(U16, 1080)] + [FlagValues(), StrV(name)]
        == HeaderValues(name).items;
  }

  /** The example's build succeeds although "MyImage!!" is one byte too
      long for String{Length: 8}: it writes the same 21 bytes as the name
      "MyImage!", and parsing them gives back "MyImage!". The text is
      silently truncated, so that value does not survive the round trip. */
  lemma HeaderNameTruncated()
    ensures Encode(HeaderLayout(), HeaderValues(MyImage())) == Ok(HeaderBytes())
    ensures Encode(HeaderLayout(), HeaderValues(MyImage()[..8])) == Ok(HeaderBytes())
    ensures Decode(HeaderLayout(), HeaderBytes()) == Ok((HeaderValues(MyImage()[..8]), []))
    ensures !Canonical(HeaderLayout(), HeaderValues(MyImage()))
  {
    HeaderLongName();
    HeaderParse();
  }

  lemma HeaderLongName()
    ensures Encode(HeaderLayout(), HeaderValues(MyImage())) == Ok(HeaderBytes())
    ensures !Canonical(HeaderLayout(), HeaderValues(MyImage()))
  {
    assert PadTo(MyImage(), 8) == MyImage()[..8];
    HeaderBuild(MyImage());
    assert !Canonical(Str(8), StrV(MyImage()));
    assert HeaderValues(MyImage()).items[4] == StrV(MyImage());
  }

  /** Parsing the example's bytes gives back the values built from the name
      "MyImage!". */
  lemma HeaderParse()
    ensures Encode(HeaderLayout(), HeaderValues(MyImage()[..8])) == Ok(HeaderBytes())
    ensures Decode(HeaderLayout(), HeaderBytes()) == Ok((HeaderValues(MyImage()[..8]), []))
  {
    var f, v := HeaderLayout(), HeaderValues(MyImage()[..8]);
    assert PadTo(MyImage()[..8], 8) == MyImage()[..8] by {
      assert MyImage()[..8] + Zeros(0) == MyImage()[..8];
    }
    HeaderBuild(MyImage()[..8]);
    HeaderCanonical();
    CanonicalIsWellTyped(f, v);
    RoundTrip(f, v);
  }

  lemma HeaderCanonical()
    ensures Canonical(HeaderLayout(), HeaderValues(MyImage()[..8]))
  {
    var f, v := HeaderLayout(), HeaderValues(MyImage()[..8]);
    assert Canonical(Flags(), FlagValues()) by {
      assert Canonical(Array(4, Int(Uint8)), FlagValues().items[1]);
    }
    forall i | 0 <= i < 5 ensures Canonical(f.fields[i], v.items[i]) {
    }
  }

  /** Build does not convert between integer types: an int16 field rejects
      a uint16 value even when the number would fit. */
  lemma NoIntCoercion()
    ensures Encode(Int(Int16be), IntV(U16, 5)) == Err(TypeMismatch)
    ensures Encode(Int(Int16be), IntV(I16, 5)) == Ok([0, 5])
    ensures Encode(Int(Int16le), IntV(I16, 5)) == Ok([5, 0])
    ensures Encode(Int(Int16be), IntV(I16, -2)) == Ok([0xFF, 0xFE])
  {
    assert FromNatBE(5, 2) == [0, 5];
    assert Reverse([0, 5]) == [5, 0] by {
      assert [0, 5][1..] == [5];
      assert Reverse([5]) == [5] by {
        assert [5][1..] == [];
      }
    }
    assert ToBits(I16, -2) == 0xFFFE;
    assert FromNatBE(0xFFFE, 2) == [0xFF, 0xFE];
  }

  /** The test's layout needs all ten bytes: nine are a short read, and a
      value list of the wrong length is refused before anything is built. */
  lemma TestStructRejects()
    ensures Decode(TestLayout(), TestBytes()[..9]) == Err(ShortRead)
    ensures Encode(TestLayout(), SeqV(TestValues().items[..2])) == Err(CountMismatch)
    ensures Encode(TestLayout(), StrV([])) == Err(TypeMismatch)
  {
    assert Decode(TestLayout(), TestBytes()[..9]) == Err(ShortRead) by {
      assert Size(TestLayout()) == 10 by {
        assert Int32be.Width() == 4;
      }
      assert |TestBytes()[..9]| == 9;
      DecodeShape(TestLayout(), TestBytes()[..9]);
    }
    assert |TestValues().items[..2]| == 2;
  }
}
