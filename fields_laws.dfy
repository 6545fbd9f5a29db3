/**
  What the field codec promises: when `format_fields` succeeds or raises, the
  exact layout it produces, that `read_fields` recovers what was formatted,
  that everything `read_fields` accepts is such a layout, how it rejects bad
  keys and truncated input, and last-wins on repeated keys.
*/
module FieldLaws {
  import opened Wire
  import opened FieldCodec

  /** A field `read_fields` accepts: a non-empty printable key, at most 255 bytes each. */
  predicate ValidField(w: WireField) {
    Encodable(w) && 1 <= |w.0| && IsSafe(w.0)
  }

  /** Every field of the list is one `read_fields` accepts. */
  predicate AllValid(ws: seq<WireField>)
    ensures AllValid(ws) ==> AllEncodable(ws)
  {
    ws == [] || (AllValid(ws[..|ws| - 1]) && ValidField(ws[|ws| - 1]))
  }

  /** The recursive check agrees with checking every field. */
  lemma {:induction false} AllValidIff(ws: seq<WireField>)
    ensures AllValid(ws) <==> forall i :: 0 <= i < |ws| ==> ValidField(ws[i])
  {
    if ws != [] {
      var front := ws[..|ws| - 1];
      AllValidIff(front);
      assert forall i :: 0 <= i < |front| ==> front[i] == ws[i];
    }
  }

  /** A field list `read_fields` accepts. */
  predicate WellFormed(ws: seq<WireField>) {
    |ws| <= MaxFields && AllValid(ws)
  }

  /** The number of bytes the fields' entries occupy: 2 + |key| + |value| each. */
  function EntriesSize(ws: seq<WireField>): nat {
    if ws == [] then 0 else EntriesSize(ws[..|ws| - 1]) + 2 + |ws[|ws| - 1].0| + |ws[|ws| - 1].1|
  }

  /** The keys of a Python dict are distinct. */
  predicate DistinctKeys<V>(fs: seq<(Bytes, V)>) {
    forall i, j :: 0 <= i < j < |fs| ==> fs[i].0 != fs[j].0
  }

  // ---------------------------------------------------------------------------
  // format_fields

  /**
    `format_fields` succeeds exactly when there are at most 255 fields, every key
    has at most 255 bytes and every value converts to at most 255 bytes.
  */
  lemma FormatSucceedsIff(fs: seq<(Bytes, Value)>)
    ensures Format(fs).Ok? <==>
      |fs| <= MaxFields && forall i :: 0 <= i < |fs| ==> |fs[i].0| <= MaxLength && Convertible(fs[i].1)
  {
  }

  /**
    When `format_fields` raises, the error is `TooManyFields` for more than 255
    fields, and otherwise the one raised by the first field (in iteration order)
    that cannot be encoded.
  */
  lemma FormatFirstError(fs: seq<(Bytes, Value)>, i: nat)
    requires |fs| <= MaxFields && i < |fs|
    requires ConvertField(fs[i]).Err?
    requires forall j :: 0 <= j < i ==> ConvertField(fs[j]).Ok?
    ensures Format(fs) == Err(ConvertField(fs[i]).error)
  {
    assert ConvertFields(fs[..i]).Ok? by {
      assert forall j :: 0 <= j < i ==> fs[..i][j] == fs[j];
    }
    ConvertFieldsExtend(fs, i);
    ConvertFieldsErrorPersists(fs, i + 1);
  }

  /** More than 255 fields are refused whatever they contain. */
  lemma FormatTooManyFields(fs: seq<(Bytes, Value)>)
    requires |fs| > MaxFields
    ensures Format(fs) == Err(TooManyFields)
  {
  }

  /** The size of the entry bytes. */
  lemma {:induction false} EncodeEntriesSize(ws: seq<WireField>)
    requires AllEncodable(ws)
    ensures |EncodeEntries(ws)| == EntriesSize(ws)
  {
    if ws != [] {
      EncodeEntriesSize(ws[..|ws| - 1]);
    }
  }

  /**
    What `format_fields` returns: the count byte, then each field's key length,
    key, converted-value length and converted value, in iteration order; in all
    1 + the sum of (2 + |key| + |value|) bytes.
  */
  lemma FormatLayout(fs: seq<(Bytes, Value)>)
    requires Format(fs).Ok?
    ensures var data := Format(fs).value;
      var ws := ConvertFields(fs).value;
      && |ws| == |fs|
      && (forall i :: 0 <= i < |fs| ==> ws[i].0 == fs[i].0 && ConvertValue(fs[i].1) == Ok(ws[i].1))
      && data == [|fs| as byte] + EncodeEntries(ws)
      && |data| == 1 + EntriesSize(ws)
  {
    var ws := ConvertFields(fs).value;
    EncodeEntriesSize(ws);
  }

  /** An int is sent as its 4-byte big-endian encoding; a bool as the int 1 or 0. */
  lemma ValueEncodings(i: int, b: bool)
    requires 0 <= i < U32Bound
    ensures ConvertValue(IntVal(i)) == Ok(Be32(i))
    ensures ConvertValue(BoolVal(b)) == ConvertValue(IntVal(if b then 1 else 0))
    ensures ConvertValue(BoolVal(true)) == Ok([0, 0, 0, 1])
    ensures ConvertValue(BoolVal(false)) == Ok([0, 0, 0, 0])
  {
  }

  // ---------------------------------------------------------------------------
  // read_fields inverts format_fields

  /** Where `e` sits in the input, each piece of `e` sits at its offset. */
  lemma SliceAt(input: Bytes, p: nat, e: Bytes, i: nat, j: nat)
    requires p + |e| <= |input| && input[p..p + |e|] == e && i <= j <= |e|
    ensures input[p + i..p + j] == e[i..j]
  {
    forall t | 0 <= t < j - i
      ensures input[p + i..p + j][t] == e[i..j][t]
    {
      assert input[p + i..p + j][t] == input[p + i + t] == input[p..p + |e|][i + t];
    }
  }

  /** The four pieces of an entry and where they start. */
  lemma EntryPieces(w: WireField)
    requires Encodable(w)
    ensures var e, k := EncodeEntry(w), |w.0|;
      && e[..1] == [k as byte] && e[1..1 + k] == w.0
      && e[1 + k..2 + k] == [|w.1| as byte] && e[2 + k..] == w.1
  {
    var k, v := |w.0|, |w.1|;
    var e := EncodeEntry(w);
    assert e == [k as byte] + w.0 + [v as byte] + w.1;
    assert e[1..1 + k] == w.0;
    assert e[2 + k..] == w.1;
  }

  /** `read_fields` reads one well-formed entry back from wherever it sits in the input. */
  lemma ParseEntryOf(w: WireField, input: Bytes, p: nat)
    requires ValidField(w)
    requires p + |EncodeEntry(w)| <= |input| && input[p..p + |EncodeEntry(w)|] == EncodeEntry(w)
    ensures ParseEntry(input, p) == Ok((w, p + |EncodeEntry(w)|))
  {
    var e := EncodeEntry(w);
    var k := |w.0|;
    EntryPieces(w);
    SliceAt(input, p, e, 0, 1);
    SliceAt(input, p, e, 1, 1 + k);
    SliceAt(input, p, e, 1 + k, 2 + k);
    SliceAt(input, p, e, 2 + k, |e|);
  }

  /** Where `x == a + e` sits in the input, `a` and then `e` sit. */
  lemma SplitAt(input: Bytes, s: nat, x: Bytes, a: Bytes, e: Bytes)
    requires x == a + e && s + |x| <= |input| && input[s..s + |x|] == x
    ensures input[s..s + |a|] == a && input[s + |a|..s + |a| + |e|] == e
  {
    assert input[s..s + |a|] == x[..|a|];
    assert input[s + |a|..s + |a| + |e|] == x[|a|..];
  }

  /** When the field after the first `k` is read, parsing `k + 1` fields adds it. */
  lemma ParseEntriesAddOne(input: Bytes, s: nat, front: seq<WireField>, p: nat, w: WireField, q: nat)
    requires s <= |input| && ParseEntries(input, s, |front|) == Ok((front, p))
    requires ParseEntry(input, p) == Ok((w, q))
    ensures ParseEntries(input, s, |front| + 1) == Ok((front + [w], q))
  {
  }

  /** After `k` fields that end where a well-formed entry sits, parsing `k + 1` fields adds that entry. */
  lemma ParseEntriesExtend(input: Bytes, s: nat, front: seq<WireField>, w: WireField, p: nat)
    requires ValidField(w) && s <= |input|
    requires ParseEntries(input, s, |front|) == Ok((front, p))
    requires p + |EncodeEntry(w)| <= |input| && input[p..p + |EncodeEntry(w)|] == EncodeEntry(w)
    ensures ParseEntries(input, s, |front| + 1) == Ok((front + [w], p + |EncodeEntry(w)|))
  {
    ParseEntryOf(w, input, p);
    ParseEntriesAddOne(input, s, front, p, w, p + |EncodeEntry(w)|);
  }

  /** `read_fields` reads a run of well-formed entries back, in order. */
  lemma {:induction false} ParseEntriesOf(ws: seq<WireField>, input: Bytes, s: nat)
    requires AllValid(ws)
    requires s + |EncodeEntries(ws)| <= |input| && input[s..s + |EncodeEntries(ws)|] == EncodeEntries(ws)
    ensures ParseEntries(input, s, |ws|) == Ok((ws, s + |EncodeEntries(ws)|))
    decreases |ws|, 1
  {
    if ws != [] {
      var front, w := ws[..|ws| - 1], ws[|ws| - 1];
      SplitAt(input, s, EncodeEntries(ws), EncodeEntries(front), EncodeEntry(w));
      ParseEntriesOfSnoc(ws, front, w, input, s);
    }
  }

  /** The same for a non-empty run, given as the entries before its last one and the last one. */
  lemma {:induction false} ParseEntriesOfSnoc(ws: seq<WireField>, front: seq<WireField>, w: WireField, input: Bytes, s: nat)
    requires ws != [] && front == ws[..|ws| - 1] && w == ws[|ws| - 1]
    requires AllValid(front) && ValidField(w)
    requires var p, e := s + |EncodeEntries(front)|, EncodeEntry(w);
      && p + |e| <= |input|
      && input[s..p] == EncodeEntries(front) && input[p..p + |e|] == e
    ensures ParseEntries(input, s, |ws|) == Ok((ws, s + |EncodeEntries(front)| + |EncodeEntry(w)|))
    decreases |ws|, 0
  {
    var p := s + |EncodeEntries(front)|;
    ParseEntriesOf(front, input, s);
    ParseEntriesExtend(input, s, front, w, p);
    LastSplit(ws);
  }

  /** A non-empty list is the list before its last element, then that element. */
  lemma LastSplit<T>(xs: seq<T>)
    requires xs != []
    ensures xs[..|xs| - 1] + [xs[|xs| - 1]] == xs
  {
  }

  /**
    Round trip on the wire: `read_fields` over a well-formed layout returns its
    fields in order and consumes exactly the layout, whatever follows it.
  */
  lemma WireRoundTrip(ws: seq<WireField>, rest: Bytes)
    requires WellFormed(ws)
    ensures ParseFields(Layout(ws) + rest) == Ok((ws, |Layout(ws)|))
  {
    var input := Layout(ws) + rest;
    var body := EncodeEntries(ws);
    assert input[0..1] == [|ws| as byte];
    assert input[1..1 + |body|] == body;
    ParseEntriesOf(ws, input, 1);
  }

  /**
    Round trip on dictionaries: when `format_fields(m)` succeeds and every key is
    non-empty and printable, `read_fields` over its bytes (followed by anything)
    consumes exactly those bytes and rebuilds `m`, with int and bool values in
    their `u32` form.
  */
  lemma FormatThenRead(fs: seq<(Bytes, Value)>, rest: Bytes)
    requires DistinctKeys(fs)
    requires Format(fs).Ok?
    requires forall i :: 0 <= i < |fs| ==> 1 <= |fs[i].0| && IsSafe(fs[i].0)
    ensures var data := Format(fs).value;
      && ParseFields(data + rest).Ok?
      && ParseFields(data + rest).value.1 == |data|
      && var m := ToMap(ParseFields(data + rest).value.0);
      && m.Keys == (set i | 0 <= i < |fs| :: fs[i].0)
      && forall i :: 0 <= i < |fs| ==> m[fs[i].0] == ConvertValue(fs[i].1).value
  {
    var ws := ConvertFields(fs).value;
    AllValidIff(ws);
    WireRoundTrip(ws, rest);
    KeyedListToMap(fs, ws);
  }

  /** Over a list with distinct keys, the dictionary has exactly those keys, each with its own value. */
  lemma KeyedListToMap<V>(fs: seq<(Bytes, V)>, ws: seq<WireField>)
    requires DistinctKeys(fs) && |ws| == |fs|
    requires forall i :: 0 <= i < |fs| ==> ws[i].0 == fs[i].0
    ensures ToMap(ws).Keys == (set i | 0 <= i < |fs| :: fs[i].0)
    ensures forall i :: 0 <= i < |fs| ==> ToMap(ws)[fs[i].0] == ws[i].1
  {
    ToMapKeys(ws);
    assert (set i | 0 <= i < |ws| :: ws[i].0) == (set i | 0 <= i < |fs| :: fs[i].0);
    forall i | 0 <= i < |fs| ensures ToMap(ws)[fs[i].0] == ws[i].1 {
      ToMapLastWins(ws, i);
    }
  }

  // ---------------------------------------------------------------------------
  // everything read_fields accepts is a layout

  /** What `read_fields` accepts as one field is a well-formed entry, consumed exactly. */
  lemma ParseEntrySound(input: Bytes, p: nat)
    requires p <= |input| && ParseEntry(input, p).Ok?
    ensures var (w, q) := ParseEntry(input, p).value;
      ValidField(w) && q == p + |EncodeEntry(w)| && input[p..q] == EncodeEntry(w)
  {
    var (w, q) := ParseEntry(input, p).value;
    var keyLen, valueLen := |w.0|, |w.1|;
    assert input[p..p + 1] == [keyLen as byte];
    assert input[p + 1 + keyLen..p + 2 + keyLen] == [valueLen as byte];
    assert input[p..q] == input[p..p + 1] + input[p + 1..p + 1 + keyLen]
      + input[p + 1 + keyLen..p + 2 + keyLen] + input[p + 2 + keyLen..q];
  }

  /** Two adjacent slices of the input make one. */
  lemma JoinAt(input: Bytes, s: nat, p: nat, q: nat)
    requires s <= p <= q <= |input|
    ensures input[s..q] == input[s..p] + input[p..q]
  {
  }

  /** What `read_fields` accepts from position `s` is a run of well-formed entries, consumed exactly. */
  lemma {:induction false} ParseEntriesSound(input: Bytes, s: nat, k: nat)
    requires s <= |input| && ParseEntries(input, s, k).Ok?
    ensures var (ws, p) := ParseEntries(input, s, k).value;
      (AllValid(ws))
      && p == s + |EncodeEntries(ws)| && input[s..p] == EncodeEntries(ws)
  {
    if k > 0 {
      ParseEntriesSound(input, s, k - 1);
      var (front, p) := ParseEntries(input, s, k - 1).value;
      ParseEntrySound(input, p);
      var (w, q) := ParseEntry(input, p).value;
      assert (front + [w])[..|front|] == front;
      EncodeEntriesSnoc(front, w);
      JoinAt(input, s, p, q);
    }
  }

  /**
    Everything `read_fields` accepts is a well-formed layout: the fields it
    returns have non-empty printable keys, their number is the count byte, and
    the bytes it consumed are exactly their layout, read in order.
  */
  lemma ParseFieldsSound(input: Bytes)
    requires ParseFields(input).Ok?
    ensures var (ws, n) := ParseFields(input).value;
      WellFormed(ws) && |ws| == input[0] && n == |Layout(ws)| && input[..n] == Layout(ws)
  {
    ParseEntriesSound(input, 1, input[0]);
    var (ws, n) := ParseFields(input).value;
    assert input[..n] == input[..1] + input[1..n];
  }

  /** `read_fields` succeeds exactly on inputs that begin with the layout of some well-formed field list. */
  lemma ReadSucceedsIff(input: Bytes)
    ensures ParseFields(input).Ok? <==> exists ws :: WellFormed(ws) && Layout(ws) <= input
  {
    if ParseFields(input).Ok? {
      ParseFieldsSound(input);
      var ws := ParseFields(input).value.0;
      assert WellFormed(ws) && Layout(ws) <= input;
    }
    if ws :| WellFormed(ws) && Layout(ws) <= input {
      var rest := input[|Layout(ws)|..];
      assert input == Layout(ws) + rest;
      WireRoundTrip(ws, rest);
    }
  }

  /** After the count byte, `read_fields` reads any run of good fields back, whatever follows. */
  lemma ParsePrefix(count: byte, ws: seq<WireField>, tail: Bytes)
    requires AllValid(ws)
    ensures var input := [count] + EncodeEntries(ws) + tail;
      && 1 + |EncodeEntries(ws)| <= |input|
      && ParseEntries(input, 1, |ws|) == Ok((ws, 1 + |EncodeEntries(ws)|))
      && input[1 + |EncodeEntries(ws)|..] == tail
  {
    var body := EncodeEntries(ws);
    var input := [count] + body + tail;
    assert input[1..1 + |body|] == body;
    ParseEntriesOf(ws, input, 1);
  }

  /** A zero key length after any number of good fields is `InvalidFieldsError`. */
  lemma ZeroKeyLengthRejected(count: byte, ws: seq<WireField>, rest: Bytes, input: Bytes)
    requires |ws| < count
    requires AllValid(ws)
    requires input == [count] + EncodeEntries(ws) + ([0] + rest)
    ensures ParseFields(input) == Err(InvalidKeyLength)
  {
    assert input[0] == count && ParseEntries(input, 1, |ws| + 1) == Err(InvalidKeyLength) by {
      ParsePrefix(count, ws, [0] + rest);
      var p := 1 + |EncodeEntries(ws)|;
      assert input[p..][0] == 0;
      ParseEntryZeroKey(input, p);
      ParseEntriesFailNext(input, 1, |ws|);
    }
    ParseFieldsFailsAt(input, |ws| + 1);
  }

  /** A key with a byte outside 0x20 .. 0x7F after any number of good fields is `InvalidFieldsError`. */
  lemma UnprintableKeyRejected(count: byte, ws: seq<WireField>, key: Bytes, rest: Bytes, input: Bytes)
    requires |ws| < count
    requires AllValid(ws)
    requires 1 <= |key| <= MaxLength && !IsSafe(key)
    requires input == [count] + EncodeEntries(ws) + ([|key| as byte] + key + rest)
    ensures ParseFields(input) == Err(UnprintableKey)
  {
    assert input[0] == count && ParseEntries(input, 1, |ws| + 1) == Err(UnprintableKey) by {
      KeyAfterFields(count, ws, key, rest);
      UnprintableEntry(input, |ws|, 1 + |EncodeEntries(ws)|, key);
    }
    ParseFieldsFailsAt(input, |ws| + 1);
  }

  /** A failure within the announced number of fields is the failure of the whole read. */
  lemma ParseFieldsFailsAt(input: Bytes, k: nat)
    requires 1 <= |input| && k <= input[0] && ParseEntries(input, 1, k).Err?
    ensures ParseFields(input) == ParseEntries(input, 1, k)
  {
    assert input[0..1] == [input[0]];
    ParseEntriesErrorPersists(input, 1, k, input[0]);
  }

  /** Where the key after the good fields sits in the message. */
  lemma KeyAfterFields(count: byte, ws: seq<WireField>, key: Bytes, rest: Bytes)
    requires AllValid(ws)
    requires 1 <= |key| <= MaxLength
    ensures var input := [count] + EncodeEntries(ws) + ([|key| as byte] + key + rest);
      var p := 1 + |EncodeEntries(ws)|;
      && p + 1 + |key| <= |input| && input[0] == count
      && ParseEntries(input, 1, |ws|) == Ok((ws, p))
      && input[p] == |key| && input[p + 1..p + 1 + |key|] == key
  {
    var tail := [|key| as byte] + key + rest;
    var input := [count] + EncodeEntries(ws) + tail;
    var p := 1 + |EncodeEntries(ws)|;
    ParsePrefix(count, ws, tail);
    assert input[p..] == tail;
    assert input[p + 1..p + 1 + |key|] == key by {
      assert tail[1..1 + |key|] == key;
    }
  }

  /** An unprintable key right after `k` good fields makes field `k + 1` fail with `UnprintableKey`. */
  lemma UnprintableEntry(input: Bytes, k: nat, p: nat, key: Bytes)
    requires 1 <= |input| && ParseEntries(input, 1, k).Ok? && ParseEntries(input, 1, k).value.1 == p
    requires 1 <= |key| && p + 1 + |key| <= |input|
    requires input[p] == |key| && input[p + 1..p + 1 + |key|] == key && !IsSafe(key)
    ensures ParseEntries(input, 1, k + 1) == Err(UnprintableKey)
  {
    ParseEntryUnprintable(input, p);
    ParseEntriesFailNext(input, 1, k);
  }

  /** When the field after the first `k` fails, parsing `k + 1` fields fails with its error. */
  lemma ParseEntriesFailNext(input: Bytes, s: nat, k: nat)
    requires s <= |input| && ParseEntries(input, s, k).Ok?
    requires ParseEntry(input, ParseEntries(input, s, k).value.1).Err?
    ensures ParseEntries(input, s, k + 1) == Err(ParseEntry(input, ParseEntries(input, s, k).value.1).error)
  {
  }

  /** The entry at `pos` announces a key of length zero. */
  lemma ParseEntryZeroKey(input: Bytes, pos: nat)
    requires pos < |input| && input[pos] == 0
    ensures ParseEntry(input, pos) == Err(InvalidKeyLength)
  {
    assert input[pos..pos + 1] == [input[pos]];
  }

  /** The entry at `pos` has a non-empty key that is present in full but not printable. */
  lemma ParseEntryUnprintable(input: Bytes, pos: nat)
    requires pos < |input| && input[pos] != 0 && pos + 1 + input[pos] <= |input|
    requires !IsSafe(input[pos + 1..pos + 1 + input[pos]])
    ensures ParseEntry(input, pos) == Err(UnprintableKey)
  {
    assert input[pos..pos + 1] == [input[pos]];
  }

  // ---------------------------------------------------------------------------
  // the dictionary: last write wins

  /** The dictionary's keys are exactly the keys read. */
  lemma {:induction false} ToMapKeys(ws: seq<WireField>)
    ensures ToMap(ws).Keys == set i | 0 <= i < |ws| :: ws[i].0
  {
    if ws != [] {
      var front := ws[..|ws| - 1];
      ToMapKeys(front);
      assert forall i :: 0 <= i < |front| ==> front[i] == ws[i];
      assert (set i | 0 <= i < |ws| :: ws[i].0) ==
        (set i | 0 <= i < |front| :: front[i].0) + {ws[|ws| - 1].0};
    }
  }

  /**
    A repeated key keeps the value of its last occurrence: for a field that no
    later field overwrites, the dictionary holds that field's value.
  */
  lemma {:induction false} ToMapLastWins(ws: seq<WireField>, i: nat)
    requires i < |ws|
    requires forall j :: i < j < |ws| ==> ws[j].0 != ws[i].0
    ensures ws[i].0 in ToMap(ws) && ToMap(ws)[ws[i].0] == ws[i].1
  {
    if i < |ws| - 1 {
      var front := ws[..|ws| - 1];
      ToMapLastWins(front, i);
    }
  }

  /** Two fields with the same key: the dictionary keeps the second value, and there is no error. */
  lemma DuplicateKeyLastWins(key: Bytes, first: Bytes, second: Bytes)
    requires ValidField((key, first)) && ValidField((key, second))
    ensures var ws := [(key, first), (key, second)];
      ParseFields(Layout(ws)).Ok? && ToMap(ParseFields(Layout(ws)).value.0) == map[key := second]
  {
    var ws := [(key, first), (key, second)];
    assert ws[..1] == [(key, first)];
    assert [(key, first)][..0] == [];
    assert Layout(ws) + [] == Layout(ws);
    WireRoundTrip(ws, []);
    assert ToMap(ws) == ToMap(ws[..1])[key := second];
  }

  // ---------------------------------------------------------------------------
  // string_is_safe

  /** The check admits 0x20 through 0x7F (DEL included) and nothing else; the empty string is safe. */
  lemma SafeBoundaries(c: byte)
    ensures IsSafe([]) && IsSafe([0x20]) && IsSafe([0x7F])
    ensures IsSafe([c]) <==> 0x20 <= c <= 0x7F
  {
    assert [c][0] == c;
  }
}
