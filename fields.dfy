/**
  The field codec of the protocol utilities: `format_fields` turns a mapping
  of field names to int, bool or str values into

      u8 count, then per field: u8 key length, key, u8 value length, value

  and `read_fields` parses that layout back through an exact-read callback,
  rejecting empty and unprintable keys.  `string_is_safe` is the printable
  check applied to keys.
*/
module FieldCodec {
  import opened Wire

  /** A field value handed to `format_fields`: a Python int, bool or str, or anything else. */
  datatype Value =
    | IntVal(i: int)
    | BoolVal(b: bool)
    | StrVal(s: Bytes)
    | OtherVal

  /** Why `format_fields` raises (`ValueError`, or `struct.error` from `u32_pack`). */
  datatype FormatError =
    | TooManyFields      // more than 255 fields
    | KeyTooLong         // a key longer than 255 bytes
    | ValueOutOfRange    // an int that `u32_pack` cannot pack
    | UnknownValueType   // neither int, bool nor str
    | ValueTooLong       // a converted value longer than 255 bytes

  /** Why `read_fields` fails: the read callback could not supply the bytes, or `InvalidFieldsError`. */
  datatype ReadError =
    | ShortRead          // the byte source ended before the requested count
    | InvalidKeyLength   // a key length byte of 0
    | UnprintableKey     // a key that `string_is_safe` rejects

  /** A field as it travels: key bytes and value bytes. */
  type WireField = (Bytes, Bytes)

  const MaxFields: nat := 255
  const MaxLength: nat := 255

  // ---------------------------------------------------------------------------
  // string_is_safe

  /** Every byte lies in 0x20 .. 0x7F inclusive; note that this admits DEL (0x7F). */
  predicate IsSafe(s: Bytes) {
    forall i :: 0 <= i < |s| ==> 0x20 <= s[i] <= 0x7F
  }

  /** `string_is_safe`: scans the bytes and stops at the first one outside 0x20 .. 0x7F. */
  method StringIsSafe(s: Bytes) returns (safe: bool)
    ensures safe <==> IsSafe(s)
  {
    for i := 0 to |s|
      invariant forall j :: 0 <= j < i ==> 0x20 <= s[j] <= 0x7F
    {
      if s[i] < 0x20 || s[i] > 0x7F {
        return false;
      }
    }
    return true;
  }

  // ---------------------------------------------------------------------------
  // format_fields

  /** The values `format_fields` can encode: an int `u32_pack` accepts, any bool, a short str. */
  predicate Convertible(v: Value) {
    match v
    case IntVal(i) => 0 <= i < U32Bound
    case BoolVal(_) => true
    case StrVal(s) => |s| <= MaxLength
    case OtherVal => false
  }

  /**
    The per-value conversion of `format_fields`.  In Python `bool` is a subclass
    of `int`, so `True`/`False` take the int branch and become `u32_pack(1)` /
    `u32_pack(0)`, which is also what the (unreachable) bool branch produces.
  */
  function ConvertValue(v: Value): (r: Result<Bytes, FormatError>)
    ensures v.IntVal? ==> (r.Ok? <==> 0 <= v.i < U32Bound)
    ensures v.IntVal? && r.Ok? ==> U32Unpack(r.value) == Ok(v.i)
    ensures v.IntVal? && r.Err? ==> r.error == ValueOutOfRange
    ensures v.BoolVal? ==> r.Ok? && U32Unpack(r.value) == Ok(if v.b then 1 else 0)
    ensures v.StrVal? ==> r == Ok(v.s)
    ensures v.OtherVal? ==> r == Err(UnknownValueType)
  {
    match v
    case IntVal(i) =>
      (match U32Pack(i)
       case Ok(b) => Ok(b)
       case Err(_) => Err(ValueOutOfRange))
    case BoolVal(b) => Ok(Be32(if b then 1 else 0))
    case StrVal(s) => Ok(s)
    case OtherVal => Err(UnknownValueType)
  }

  /** One iteration of the `format_fields` loop: key length check, value conversion, value length check. */
  function ConvertField(f: (Bytes, Value)): (r: Result<WireField, FormatError>)
    ensures r.Ok? <==> |f.0| <= MaxLength && Convertible(f.1)
    ensures r.Ok? ==> r.value.0 == f.0 && ConvertValue(f.1) == Ok(r.value.1) && |r.value.1| <= MaxLength
  {
    if |f.0| > MaxLength then Err(KeyTooLong)
    else match ConvertValue(f.1)
      case Err(e) => Err(e)
      case Ok(b) => if |b| > MaxLength then Err(ValueTooLong) else Ok((f.0, b))
  }

  /**
    The fields converted in iteration order; the first field that cannot be
    converted determines the error.
  */
  function ConvertFields(fs: seq<(Bytes, Value)>): (r: Result<seq<WireField>, FormatError>)
    ensures r.Ok? <==> forall i :: 0 <= i < |fs| ==> ConvertField(fs[i]).Ok?
    ensures r.Ok? ==> |r.value| == |fs| && forall i :: 0 <= i < |fs| ==> ConvertField(fs[i]) == Ok(r.value[i])
    ensures r.Ok? ==> AllEncodable(r.value)
  {
    if fs == [] then Ok([])
    else
      match ConvertFields(fs[..|fs| - 1])
      case Err(e) => Err(e)
      case Ok(ws) =>
        match ConvertField(fs[|fs| - 1])
        case Err(e) => Err(e)
        case Ok(w) => assert (ws + [w])[..|ws|] == ws; Ok(ws + [w])
  }

  /** A key and a value short enough for their length bytes. */
  predicate Encodable(w: WireField) {
    |w.0| <= MaxLength && |w.1| <= MaxLength
  }

  /** The bytes of one field: key length, key, value length, value. */
  function EncodeEntry(w: WireField): (r: Bytes)
    requires Encodable(w)
    ensures |r| == 2 + |w.0| + |w.1|
  {
    [|w.0| as byte] + w.0 + [|w.1| as byte] + w.1
  }

  /** Every field of the list is encodable, checked from the last one back. */
  predicate AllEncodable(ws: seq<WireField>) {
    ws == [] || (AllEncodable(ws[..|ws| - 1]) && Encodable(ws[|ws| - 1]))
  }

  /** The fields' entries, concatenated in order. */
  function EncodeEntries(ws: seq<WireField>): Bytes
    requires AllEncodable(ws)
  {
    if ws == [] then [] else EncodeEntries(ws[..|ws| - 1]) + EncodeEntry(ws[|ws| - 1])
  }

  /** A field list that fits the layout: at most 255 fields, every key and value at most 255 bytes. */
  predicate Fits(ws: seq<WireField>) {
    |ws| <= MaxFields && AllEncodable(ws)
  }

  /** The whole message: the count byte followed by the entries. */
  function Layout(ws: seq<WireField>): Bytes
    requires Fits(ws)
  {
    [|ws| as byte] + EncodeEntries(ws)
  }

  /** What `format_fields` returns or raises, as a function of the fields in iteration order. */
  function Format(fs: seq<(Bytes, Value)>): Result<Bytes, FormatError> {
    if |fs| > MaxFields then Err(TooManyFields)
    else match ConvertFields(fs)
      case Err(e) => Err(e)
      case Ok(ws) => Ok(Layout(ws))
  }

  /** Converting a prefix and then one more field is converting the longer prefix. */
  lemma ConvertFieldsExtend(fs: seq<(Bytes, Value)>, i: nat)
    requires i < |fs|
    ensures ConvertFields(fs[..i + 1]) ==
      match ConvertFields(fs[..i])
      case Err(e) => Err(e)
      case Ok(ws) =>
        match ConvertField(fs[i])
        case Err(e) => Err(e)
        case Ok(w) => Ok(ws + [w])
  {
    assert fs[..i + 1][..i] == fs[..i];
  }

  /** Once a prefix fails to convert, the whole list fails with the same error. */
  lemma {:induction false} ConvertFieldsErrorPersists(fs: seq<(Bytes, Value)>, i: nat)
    requires i <= |fs| && ConvertFields(fs[..i]).Err?
    ensures ConvertFields(fs) == ConvertFields(fs[..i])
    decreases |fs| - i
  {
    if i < |fs| {
      ConvertFieldsExtend(fs, i);
      ConvertFieldsErrorPersists(fs, i + 1);
    } else {
      assert fs[..i] == fs;
    }
  }

  /** Appending one field's entry to the entries of the fields before it. */
  lemma EncodeEntriesSnoc(ws: seq<WireField>, w: WireField)
    requires AllEncodable(ws) && Encodable(w)
    ensures AllEncodable(ws + [w])
    ensures EncodeEntries(ws + [w]) == EncodeEntries(ws) + EncodeEntry(w)
  {
    assert (ws + [w])[..|ws + [w]| - 1] == ws;
  }

  /**
    One iteration of `format_fields` after the fields before `i` were written as
    `ws`: a raise is what the whole call raises, and otherwise the output and
    the converted prefix grow by the field.
  */
  lemma FormatStep(fs: seq<(Bytes, Value)>, i: nat, ws: seq<WireField>, next: Result<Bytes, FormatError>)
    requires |fs| <= MaxFields && i < |fs| && ConvertFields(fs[..i]) == Ok(ws)
    requires match ConvertField(fs[i])
             case Err(e) => next == Err(e)
             case Ok(w) => Encodable(w) && next == Ok([|fs| as byte] + EncodeEntries(ws) + EncodeEntry(w))
    ensures next.Err? ==> Format(fs) == next
    ensures next.Ok? ==>
      var w := ConvertField(fs[i]).value;
      ConvertFields(fs[..i + 1]) == Ok(ws + [w]) && next.value == [|fs| as byte] + EncodeEntries(ws + [w])
  {
    ConvertFieldsExtend(fs, i);
    if next.Err? {
      ConvertFieldsErrorPersists(fs, i + 1);
    } else {
      EncodeEntriesSnoc(ws, ConvertField(fs[i]).value);
    }
  }

  /**
    The body of the `format_fields` loop for one field: appends key length, key,
    value length and converted value to `data`, or raises.
  */
  method AppendField(data: Bytes, key: Bytes, value: Value) returns (r: Result<Bytes, FormatError>)
    ensures match ConvertField((key, value))
            case Err(e) => r == Err(e)
            case Ok(w) => Encodable(w) && r == Ok(data + EncodeEntry(w))
  {
    if |key| > MaxLength {
      return Err(KeyTooLong);
    }
    var out := data + U8Pack(|key|).value;
    out := out + key;
    var converted := ConvertValue(value);
    if converted.Err? {
      return Err(converted.error);
    }
    var bytes := converted.value;
    if |bytes| > MaxLength {
      return Err(ValueTooLong);
    }
    out := out + U8Pack(|bytes|).value;
    out := out + bytes;
    assert out == data + EncodeEntry((key, bytes));
    return Ok(out);
  }

  /**
    `format_fields`: packs the count, then for each field appends key length, key,
    value length and converted value, raising on the first field it cannot encode.
  */
  method FormatFields(fields: seq<(Bytes, Value)>) returns (r: Result<Bytes, FormatError>)
    ensures r == Format(fields)
  {
    if |fields| > MaxFields {
      return Err(TooManyFields);
    }
    var data := U8Pack(|fields|).value;
    ghost var ws: seq<WireField> := [];
    for i := 0 to |fields|
      invariant ConvertFields(fields[..i]) == Ok(ws)
      invariant data == [|fields| as byte] + EncodeEntries(ws)
    {
      var (key, value) := fields[i];
      var next := AppendField(data, key, value);
      FormatStep(fields, i, ws, next);
      if next.Err? {
        return next;
      }
      data := next.value;
      ws := ws + [ConvertField(fields[i]).value];
    }
    assert fields[..|fields|] == fields;
    return Ok(data);
  }

  // ---------------------------------------------------------------------------
  // read_fields

  /** The caller's `read_fn(n)`: exactly `n` bytes from position `pos`, or a short-read failure. */
  function ReadExact(input: Bytes, pos: nat, n: nat): (r: Result<Bytes, ReadError>)
    requires pos <= |input|
    ensures r.Ok? <==> pos + n <= |input|
    ensures r.Ok? ==> r.value == input[pos..pos + n]
    ensures r.Err? ==> r.error == ShortRead
  {
    if pos + n <= |input| then Ok(input[pos..pos + n]) else Err(ShortRead)
  }

  /** One iteration of the `read_fields` loop, starting at `pos`: the field and the position after it. */
  function ParseEntry(input: Bytes, pos: nat): (r: Result<(WireField, nat), ReadError>)
    requires pos <= |input|
    ensures r.Ok? ==> pos < r.value.1 <= |input|
  {
    match ReadExact(input, pos, U8Size)
    case Err(e) => Err(e)
    case Ok(buf) =>
      var keyLen := U8Unpack(buf).value;
      if keyLen == 0 then Err(InvalidKeyLength)
      else match ReadExact(input, pos + 1, keyLen)
        case Err(e) => Err(e)
        case Ok(key) =>
          if !IsSafe(key) then Err(UnprintableKey)
          else match ReadExact(input, pos + 1 + keyLen, U8Size)
            case Err(e) => Err(e)
            case Ok(buf2) =>
              var valueLen := U8Unpack(buf2).value;
              match ReadExact(input, pos + 2 + keyLen, valueLen)
              case Err(e) => Err(e)
              case Ok(value) => Ok(((key, value), pos + 2 + keyLen + valueLen))
  }

  /** The first `k` fields after `start`, in order, and the position after them. */
  function ParseEntries(input: Bytes, start: nat, k: nat): (r: Result<(seq<WireField>, nat), ReadError>)
    requires start <= |input|
    ensures r.Ok? ==> |r.value.0| == k && start <= r.value.1 <= |input|
  {
    if k == 0 then Ok(([], start))
    else
      match ParseEntries(input, start, k - 1)
      case Err(e) => Err(e)
      case Ok((ws, p)) =>
        match ParseEntry(input, p)
        case Err(e) => Err(e)
        case Ok((w, q)) => Ok((ws + [w], q))
  }

  /** The whole message: the count byte, then that many fields; the fields in order and the bytes consumed. */
  function ParseFields(input: Bytes): Result<(seq<WireField>, nat), ReadError> {
    match ReadExact(input, 0, U8Size)
    case Err(e) => Err(e)
    case Ok(buf) => ParseEntries(input, 1, U8Unpack(buf).value)
  }

  /** The dictionary built by assigning the fields in order: a later key overwrites an earlier one. */
  function ToMap(ws: seq<WireField>): map<Bytes, Bytes> {
    if ws == [] then map[] else ToMap(ws[..|ws| - 1])[ws[|ws| - 1].0 := ws[|ws| - 1].1]
  }

  /** Once parsing the first `k` fields fails, parsing more fails with the same error. */
  lemma {:induction false} ParseEntriesErrorPersists(input: Bytes, start: nat, k: nat, n: nat)
    requires start <= |input| && k <= n && ParseEntries(input, start, k).Err?
    ensures ParseEntries(input, start, n) == ParseEntries(input, start, k)
    decreases n - k
  {
    if k < n {
      ParseEntriesErrorPersists(input, start, k, n - 1);
    }
  }

  /** Parsing one more field after the first `k` extends them by that field, or fails as the whole parse does. */
  lemma ParseStep(input: Bytes, start: nat, k: nat, n: nat, ws: seq<WireField>, pos: nat)
    requires start <= |input| && k < n && ParseEntries(input, start, k) == Ok((ws, pos))
    ensures pos <= |input|
    ensures ParseEntry(input, pos).Err? ==> ParseEntries(input, start, n) == Err(ParseEntry(input, pos).error)
    ensures ParseEntry(input, pos).Ok? ==>
      ParseEntries(input, start, k + 1) == Ok((ws + [ParseEntry(input, pos).value.0], ParseEntry(input, pos).value.1))
  {
    if ParseEntry(input, pos).Err? {
      ParseEntriesErrorPersists(input, start, k + 1, n);
    }
  }

  /** The body of the `read_fields` loop: one field read from position `pos`. */
  method ReadEntry(input: Bytes, pos: nat) returns (r: Result<(WireField, nat), ReadError>)
    requires pos <= |input|
    ensures r == ParseEntry(input, pos)
  {
    var buf := ReadExact(input, pos, U8Size);
    if buf.Err? {
      return Err(buf.error);
    }
    var bytes := U8Unpack(buf.value).value;
    var p := pos + U8Size;
    if bytes == 0 {
      return Err(InvalidKeyLength);
    }
    var key := ReadExact(input, p, bytes);
    if key.Err? {
      return Err(key.error);
    }
    p := p + bytes;
    var safe := StringIsSafe(key.value);
    if !safe {
      return Err(UnprintableKey);
    }
    buf := ReadExact(input, p, U8Size);
    if buf.Err? {
      return Err(buf.error);
    }
    bytes := U8Unpack(buf.value).value;
    p := p + U8Size;
    var value := ReadExact(input, p, bytes);
    if value.Err? {
      return Err(value.error);
    }
    p := p + bytes;
    return Ok(((key.value, value.value), p));
  }

  /**
    `read_fields` over a byte source positioned at the start of `input`: the
    fields dictionary and the number of bytes it made the source deliver.
  */
  method ReadFields(input: Bytes) returns (r: Result<(map<Bytes, Bytes>, nat), ReadError>)
    ensures match ParseFields(input)
            case Ok((ws, n)) => r == Ok((ToMap(ws), n))
            case Err(e) => r == Err(e)
  {
    var buf := ReadExact(input, 0, U8Size);
    if buf.Err? {
      return Err(buf.error);
    }
    var numFields := U8Unpack(buf.value).value;
    var pos := 1;
    var fields: map<Bytes, Bytes> := map[];
    ghost var ws: seq<WireField> := [];
    for i := 0 to numFields
      invariant pos <= |input|
      invariant ParseEntries(input, 1, i) == Ok((ws, pos))
      invariant fields == ToMap(ws)
    {
      ParseStep(input, 1, i, numFields, ws, pos);
      var entry := ReadEntry(input, pos);
      if entry.Err? {
        return Err(entry.error);
      }
      var (field, after) := entry.value;
      fields := fields[field.0 := field.1];
      assert (ws + [field])[..|ws + [field]| - 1] == ws;
      ws := ws + [field];
      pos := after;
    }
    return Ok((fields, pos));
  }
}
