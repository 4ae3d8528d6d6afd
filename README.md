# go-construct codec, modelled in Dafny

go-construct describes binary layouts declaratively. A `Field` (construct.go:23-26) is a
static descriptor with two methods. `Parse` reads a value from an `io.Reader`. `Build`
writes a value to an `io.Writer`. The descriptors are:

- `Struct`: a list of fields, parsed and built in order. It is itself a field, so it nests.
- Twelve fixed-width integers, `Int8` to `Uint64be`, each in big-endian or little-endian order.
- `Bytes{Length}`: a raw block of exact length.
- `String{Length}`: fixed-length text, zero-padded on build and trimmed of trailing zero
  bytes on parse.
- `Array{Count, Field}`: one field repeated a fixed number of times.

The project has five modules.

- `ByteSeq` (byteseq.dfy) covers bytes as base-256 digits and the padding and trimming of
  text buffers. It proves the properties of `bytes.TrimRight(buf, "\x00")` and of
  `copy` into a zero-filled buffer.
- `Scalars` (scalars.dfy) covers the twelve integer descriptors. Each has a Go type
  (`IntKind`), a width and a byte order. `EncodeScalar` and `DecodeScalar` are what
  `binary.Write` and `binary.Read` do for one integer, with two's complement for signed types.
- `Construct` (construct.dfy) is the codec as functions.
  - `Field` and `Value` are datatypes. `Value` replaces Go's `any`: a typed integer, a
    `[]byte`, a `string` (as its bytes) or an `[]any`.
  - `Decode(f, s)` is what `f.Parse` returns on the bytes `s`, together with the bytes left.
    `Encode(f, v)` is what `f.Build` writes. Both can fail with an error kind.
  - The lemmas relate the two functions. They cover the exact size of every field, when
    each operation fails, both round trips, and how Struct and Array compose.
- `Stream` (stream.dfy) is the same code as it runs.
  - A `Reader` class is an in-memory `io.Reader` with a position that advances. A `Writer`
    class is an `io.Writer` whose output only grows.
  - `Parse` and `Build` dispatch on the descriptor to one method per descriptor. The Struct
    and Array methods fill a Go-style `values` array in a loop, or build each value in a
    loop, as construct.go does.
  - Every method is proved to move the reader, or extend the writer, exactly as `Decode`
    and `Encode` say.
- `Examples` (examples_test.dfy) holds the two tests of construct_test.go and the usage
  example at the end of construct.go, each stated as a lemma about concrete bytes.

The tests and the usage example write `Byte{}`, which construct.go does not define. Go's
`byte` is `uint8`, so the model reads it as `Uint8`.

Two parts of the model work differently from a Go program.

- A decoded integer carries its Go type (`IntV(kind, n)`). This lets the build-side type
  assertion `v.(int16)` be a tag check, with no coercion between types.
- An `IntV` whose number is outside its type's range cannot exist in Go. `Encode`
  rejects it as a type mismatch.

## Model

| member | source | states |
|---|---|---|
| Construct.Size | construct.go:33-209 | The number of bytes a field reads and writes, fixed by the descriptor alone. A Struct takes the sum of its fields, an integer its width, Bytes and String their Length, and an Array Count element sizes. |
| Construct.Decode | construct.go:24 | Field.Parse as a function of the unread bytes: the value parsed and the bytes left, or the error. It dispatches to the Struct, integer, Bytes, String and Array readers. Its properties are stated by DecodeShape, DecodeEncode and EncodeDecode. |
| Construct.DecodeFields | construct.go:37-47 | Struct.Parse: each field is parsed from the bytes its predecessor left, and the values are collected in order. The first error is the result, with no partial list. |
| Construct.DecodeRepeat | construct.go:184-194 | Array.Parse: the element field is parsed Count times in a row, and the first error is the result. |
| Construct.Encode | construct.go:25 | Field.Build as a function of the value: the bytes written, or the error. It covers the type check and count check of Struct and Array, the exact-type check of the integers, the length check of Bytes, and the padding of String. Its properties are stated by EncodeShape and the round-trip lemmas. |
| Construct.EncodeFields | construct.go:58-63 | The loop of Struct.Build: field i builds value i and the outputs are concatenated in order. The first error is the result. |
| Construct.EncodeRepeat | construct.go:203-208 | The loop of Array.Build: the element field builds each value and the outputs are concatenated in order. The first error is the result. |
| Scalars.ToBits | construct.go:70-116 | The bit pattern binary.Write stores for an integer is a number below 2 to the power of the width. Negative values of signed types are offset by that power, which is two's complement. |
| Scalars.FromBits | construct.go:70-116 | binary.Read turns any bit pattern of the width into a value within the range of the field's Go type. |
| Scalars.EncodeScalar | construct.go:70-116 | binary.Write of one integer writes exactly the field's width in bytes: the big-endian digits of the bit pattern, reversed for a little-endian field. |
| ByteSeq.TrimZeros | construct.go:163 | bytes.TrimRight(buf, "\x00") is never longer than the buffer and never ends in a zero byte. |
| ByteSeq.PadTo | construct.go:170-171 | make([]byte, Length) followed by copy always gives exactly Length bytes. |
| Construct.DecodeShape | construct.go:33-209 | Parse of any field succeeds exactly when at least Size(f) bytes are left. On success it leaves exactly the bytes after the first Size(f), and the value it returns is canonical. Its only failure is a short read. |
| Construct.DecodeFieldsShape | construct.go:37-47 | Struct.Parse succeeds exactly when the input covers the sum of the field sizes. It then returns one value per field and consumes exactly that many bytes. Otherwise it fails with a short read. |
| Construct.DecodeRepeatShape | construct.go:184-194 | Array.Parse yields exactly Count values when the input covers Count element sizes, and fails with a short read otherwise. |
| Construct.RepeatSizeProduct | construct.go:184-194 | An Array of n elements reads and writes n times the element's size. |
| Construct.EncodeShape | construct.go:33-209 | Build of any field succeeds exactly for well-typed values, and then writes exactly Size(f) bytes, the same count Parse reads. |
| Construct.EncodeFieldsShape | construct.go:58-63 | The per-field loop of Struct.Build succeeds exactly when every value is well typed for its field. It then writes the sum of the field sizes. |
| Construct.EncodeRepeatShape | construct.go:203-208 | The loop of Array.Build succeeds exactly when every element value is well typed. It then writes one element size per value. |
| Construct.EncodeFieldsFirstError | construct.go:58-62 | A failing Struct build returns the error of the first field whose value is rejected, and every field before it built. |
| Construct.DecodeFieldsAt | construct.go:39-45 | Value i of a parsed Struct is field i parsed from the offset where field i-1 stopped, which is the sum of the sizes of fields 0..i-1. |
| Construct.DecodeRepeatAt | construct.go:186-192 | Element i of a parsed Array is the element field parsed at offset i times the element size. |
| Construct.DecodeFieldsAppend | construct.go:37-47 | Parsing the fields fs + gs is parsing fs, then gs from what fs left. An error in fs is the error of the whole, with no partial result. |
| Construct.DecodeRepeatAdd | construct.go:184-194 | Parsing m + k elements is parsing m elements, then k from what they left. |
| Construct.EncodeFieldsAppend | construct.go:58-63 | Building fs + gs from vs + ws writes fs's output followed by gs's output. An error in fs is the error of the whole. |
| Construct.EncodeRepeatAppend | construct.go:203-208 | Building the elements vs + ws writes the output for vs followed by the output for ws. An error among vs is the error of the whole. |
| Construct.ArrayIsStructOfCopies | construct.go:180-209 | An Array{Count: n, Field: e} parses and builds byte for byte like a Struct of n copies of e. |
| Construct.CanonicalIsWellTyped | construct.go:33-209 | Every value Parse can return is one that Build accepts. |
| Construct.DecodeEncode | construct.go:33-209 | Build then Parse: a well-typed value builds, and parsing its bytes, followed by any further bytes, gives Canon(f, v) and leaves exactly the further bytes. |
| Construct.CanonFixed | construct.go:157-174 | Canon leaves a well-typed value unchanged exactly when no text in it is longer than its field or ends in a zero byte. |
| Construct.RoundTrip | construct.go:33-209 | A well-typed value comes back unchanged from Build then Parse exactly when it is canonical. String is the one lossy case. |
| Construct.EncodeDecode | construct.go:33-209 | Parse then Build: the value parsed from s builds back exactly the Size(f) bytes it was parsed from, for every field including String. |
| Scalars.DecodeScalar | construct.go:70-116 | Reading an integer field always yields a value of the field's Go type, within that type's range. |
| Scalars.TwosComplement | construct.go:70-116 | The bit pattern written for an integer is the integer modulo 2 to the power of its bit width. This is two's complement for negative values. |
| Scalars.ScalarRoundTrip | construct.go:70-116 | Every value of an integer field's Go type survives Build then Parse. |
| Scalars.ScalarBytesRoundTrip | construct.go:70-116 | Every byte string of an integer field's width builds back unchanged from the value parsed from it. |
| Scalars.ScalarByteOrder | construct.go:78-92 | Byte i of a big-endian field is the base-256 digit of weight 256^(width-1-i) of the bit pattern. For a little-endian field it is the digit of weight 256^i. |
| ByteSeq.TrimZerosSpec | construct.go:163 | Trimming removes only a run of zero bytes from the end, and what is kept does not end in zero, so embedded zeros survive. |
| ByteSeq.TrimZerosUnique | construct.go:163 | A text not ending in zero, followed by any number of zeros, trims back to exactly that text. |
| ByteSeq.PadToSpec | construct.go:170-171 | The String buffer has exactly Length bytes. Byte i is byte i of the text when the text has one there, and zero otherwise, so over-long text is cut. |
| ByteSeq.TrimPad | construct.go:157-174 | Trimming a padded text gives the text back exactly when it fits the length and does not end in a zero byte. |
| ByteSeq.TrimPadTrim | construct.go:157-174 | A text that String.Parse returned builds and parses back to itself. Parse, Build, Parse is stable even though Build, Parse is lossy. |
| ByteSeq.PadTrim | construct.go:157-174 | Padding the trimmed contents of a buffer back to the buffer's length restores the buffer. |
| ByteSeq.FromToNatBE | construct.go:70-116 | Reading a byte string as a big-endian number and writing the number back in as many bytes gives the same string. |
| ByteSeq.ToFromNatBE | construct.go:70-116 | Writing a number below 256^k in k big-endian bytes and reading them back gives the number. |
| Stream.Reader.ReadFull | construct.go:133-137 | io.ReadFull succeeds exactly when the buffer fits the unread bytes. It then fills the buffer with the next bytes and advances past them. On a short read the reader is left at its end. |
| Stream.Writer.Write | construct.go:146 | A write appends the bytes to the output. |
| Stream.Parse | construct.go:23-26 | Field.Parse moves the reader from s to the rest that Decode gives and returns Decode's value. On an error it returns Decode's error. |
| Stream.StructParse | construct.go:37-47 | The loop filling values[i] from the shared reader returns exactly Decode's result for the Struct and leaves the reader where Decode says. It stops at the first failing field. |
| Stream.ArrayParse | construct.go:184-194 | The Count-step loop returns exactly Decode's result for the Array, and stops at the first failing element. |
| Stream.IntParse | construct.go:70-116 | binary.Read of one integer returns Decode's value and advances by the width, or fails with a short read. |
| Stream.BytesParse | construct.go:133-137 | A Length-byte buffer filled by io.ReadFull is returned verbatim, as Decode says. |
| Stream.StringParse | construct.go:157-164 | The filled buffer with its trailing zeros trimmed is returned, as Decode says. |
| Stream.Build | construct.go:23-26 | Field.Build appends exactly Encode's output on success. On failure it returns Encode's error, having only appended bytes. |
| Stream.StructBuild | construct.go:50-64 | The type check, the count check and then the per-field loop append exactly Encode's output, or fail with Encode's error. |
| Stream.ArrayBuild | construct.go:195-209 | The type check, the count check and then the per-element loop append exactly Encode's output, or fail with Encode's error. |
| Stream.IntBuild | construct.go:70-116 | Only an integer of the field's exact Go type is accepted. binary.Write appends Encode's bytes. |
| Stream.BytesBuild | construct.go:138-148 | Only a []byte of exactly Length bytes is accepted, and it is written unchanged. |
| Stream.StringBuild | construct.go:165-174 | Any string is accepted, and exactly the padded Length-byte buffer Encode gives is written. |
| Stream.FillBuffer | construct.go:170-171 | make([]byte, n) followed by copy leaves the text's first min(n, len) bytes and zeros after them. |
| Stream.ParseBytes | construct.go:37-47 | Parsing a whole byte slice through a fresh reader gives exactly Decode's result and remaining bytes. |
| Stream.BuildBytes | construct.go:50-64 | Building into a fresh buffer yields exactly Encode's result. |
| Examples.TestStructParse | construct_test.go:8-22 | The ten test bytes parse to (0xFF, int32 100, "Test") with nothing left over. |
| Examples.TestStructBuild | construct_test.go:24-40 | Building (0xFF, int32 100, "Test") writes exactly the ten expected bytes. |
| Examples.TestStructRejects | construct.go:37-64 | The test layout rejects nine bytes with a short read, two values with a count mismatch, and a string in place of the value list with a type mismatch. |
| Examples.NoIntCoercion | construct.go:78-84 | Int16be rejects a uint16 value. An int16 5 is written 00 05 big-endian and 05 00 little-endian, and -2 is written FF FE. |
| Examples.HeaderNameTruncated | construct.go:215-237 | The usage example builds the 21-byte header. "MyImage!!" is silently cut to the 8-byte "MyImage!", so it builds the same bytes as "MyImage!", parses back as "MyImage!", and is not canonical. |

## Left out

- `Float32be` and `Float64be` (construct.go:122-128) are left out, because IEEE-754 floating point is outside this model.
- The model has only one reader, an in-memory one over fixed bytes, as `bytes.NewReader` gives. On a short read it is drained, as `io.ReadFull` leaves it. Other `io.Reader`s, and the distinction between `io.EOF` and `io.ErrUnexpectedEOF`, are not modelled.
- Writer errors are not modelled. The in-memory writer never fails, so the `err` of `w.Write` (construct.go:146, :172) is always nil.
- Errors are kinds (`ShortRead`, `TypeMismatch`, `CountMismatch`), not the message strings of construct.go.
  - A wrong-length `[]byte` (construct.go:143-145) is reported as a `TypeMismatch`.
  - A Struct or Array value of the wrong length is reported as a `CountMismatch`.
- `Bytes.Parse` returns its partly filled buffer together with the error of a short read. The integer `Parse` methods return the zero value with their error, because `binary.Read` stores nothing when its read fails. The model returns only the error, as every caller in construct.go discards the value.
- Stream.IntParse: `return v, binary.Read(r, order, &v)` (construct.go:71, :75 and so on to :115) does not fix, in the Go language specification, whether `v` is evaluated before or after the call. The model assumes it is evaluated after, so a successful read returns the decoded integer. That is what the gc compiler does and what construct_test.go:19 expects. Evaluated before, every integer field would return zero.
- Stream.Build: after a failure the model only states that the output grew. In construct.go the bytes of every field built before the failing one stay written. `EncodeFieldsFirstError` states which fields those are.
- `Length` and `Count` are `nat`. A negative value makes Go's `make` panic, and the model does not represent that.
- Go's `any` is the closed `Value` datatype. A value of a Go type that no field accepts is not representable, but every mismatch between the value's constructors and the field is modelled.
- The usage example (construct.go:215-237) is a comment, not code. It is modelled as example lemmas only. The test at construct_test.go:19 applies `len` to an `any`, which Go rejects; the model reads it as the `[]any` returned.
- Go's `Field` is an open interface. The model's `Field` datatype is closed, so it has no user-defined descriptors. It also has no nil `Field` inside a `Struct`, or inside an `Array` with Count > 0, which panics on Parse and on Build.
- Concurrency is left out. Descriptors are immutable values, and the reader and writer are owned by one caller.
