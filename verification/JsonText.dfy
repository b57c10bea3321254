/** Compact JSON text as serde_json writes it, for values with natural numbers: what it contains, and that
    it can be read back. */
module JsonText {
  import opened Common

  datatype Json =
    | Null
    | Bool(b: bool)
    | Num(n: nat)
    | Str(utf8: Bytes)
    | Arr(elements: seq<Json>)
    | Obj(fields: seq<Field>)

  datatype Field = Field(name: Bytes, value: Json)

  const QUOTE: Byte := 34
  const BACKSLASH: Byte := 92

  function HexDigit(n: nat): Byte
    requires n < 16
  {
    if n < 10 then 48 + n else 87 + n
  }

  /** One byte of a string literal: the short escapes, `\\u00XX` for the other control bytes, and every
      other byte as it is. */
  function EscapeByte(b: Byte): Bytes {
    if b == QUOTE || b == BACKSLASH then [BACKSLASH, b]
    else if b == 8 then [BACKSLASH, 98]
    else if b == 9 then [BACKSLASH, 116]
    else if b == 10 then [BACKSLASH, 110]
    else if b == 12 then [BACKSLASH, 102]
    else if b == 13 then [BACKSLASH, 114]
    else if b < 32 then [BACKSLASH, 117, 48, 48, HexDigit(b / 16), HexDigit(b % 16)]
    else [b]
  }

  function Escape(s: Bytes): Bytes {
    if s == [] then [] else EscapeByte(s[0]) + Escape(s[1..])
  }

  function Digits(n: nat): Bytes {
    if n < 10 then [48 + n] else Digits(n / 10) + [48 + n % 10]
  }

  function Write(j: Json): Bytes
    decreases j, 0
  {
    match j
    case Null => [110, 117, 108, 108]
    case Bool(b) => if b then [116, 114, 117, 101] else [102, 97, 108, 115, 101]
    case Num(n) => Digits(n)
    case Str(s) => [QUOTE] + Escape(s) + [QUOTE]
    case Arr(elements) => [91] + WriteElements(elements) + [93]
    case Obj(fields) => [123] + WriteFields(fields) + [125]
  }

  function WriteElements(xs: seq<Json>): Bytes
    decreases xs, 1
  {
    if xs == [] then []
    else Write(xs[0]) + (if |xs| == 1 then [] else [44] + WriteElements(xs[1..]))
  }

  function WriteFields(fs: seq<Field>): Bytes
    decreases fs, 1
  {
    if fs == [] then []
    else
      var f := fs[0];
      [QUOTE] + Escape(f.name) + [QUOTE, 58] + Write(f.value)
      + (if |fs| == 1 then [] else [44] + WriteFields(fs[1..]))
  }

  ghost predicate NoControl(s: Bytes) { forall i :: 0 <= i < |s| ==> s[i] >= 32 }

  lemma {:induction false} EscapeHasNoControl(s: Bytes)
    ensures NoControl(Escape(s))
  {
    if s != [] {
      EscapeHasNoControl(s[1..]);
    }
  }

  /** Reading one escaped byte back: the byte and how many were read. */
  function UnescapeByte(t: Bytes): Option<(Byte, nat)> {
    if t == [] || t[0] == 34 then None
    else if t[0] != 92 then Some((t[0], 1))
    else if |t| < 2 then None
    else if t[1] == 34 || t[1] == 92 then Some((t[1], 2))
    else if t[1] == 98 then Some((8, 2))
    else if t[1] == 116 then Some((9, 2))
    else if t[1] == 110 then Some((10, 2))
    else if t[1] == 102 then Some((12, 2))
    else if t[1] == 114 then Some((13, 2))
    else if t[1] == 117 && |t| >= 6 && t[2] == 48 && t[3] == 48 && HexValue(t[4]) < 2 && HexValue(t[5]) < 16
    then Some((16 * HexValue(t[4]) + HexValue(t[5]), 6))
    else None
  }

  function HexValue(b: Byte): nat {
    if 48 <= b <= 57 then b - 48 else if 97 <= b <= 102 then b - 87 else 16
  }

  /** The rest of a string literal, up to its closing quote. */
  function ReadString(t: Bytes): (r: Option<(Bytes, Bytes)>)
    ensures r.Some? ==> |r.value.1| < |t|
  {
    if t == [] then None
    else if t[0] == 34 then Some(([], t[1..]))
    else
      match UnescapeByte(t)
      case None => None
      case Some((b, n)) =>
        if n == 0 || n > |t| then None
        else
          match ReadString(t[n..])
          case None => None
          case Some((rest, after)) => Some(([b] + rest, after))
  }

  function ReadDigits(t: Bytes, n: nat): (r: (nat, Bytes))
    ensures |r.1| <= |t|
    decreases |t|
  {
    if t != [] && 48 <= t[0] <= 57 then ReadDigits(t[1..], 10 * n + (t[0] - 48)) else (n, t)
  }

  /** Reads one compact JSON value off the front of `t`. */
  function ReadValue(t: Bytes): (r: Option<(Json, Bytes)>)
    ensures r.Some? ==> |r.value.1| < |t|
    decreases |t|, 1
  {
    if t == [] then None
    else if t[0] == 110 then if [110, 117, 108, 108] <= t then Some((Null, t[4..])) else None
    else if t[0] == 116 then if [116, 114, 117, 101] <= t then Some((Bool(true), t[4..])) else None
    else if t[0] == 102 then if [102, 97, 108, 115, 101] <= t then Some((Bool(false), t[5..])) else None
    else if 48 <= t[0] <= 57 then
      var (n, rest) := ReadDigits(t[1..], t[0] - 48);
      Some((Num(n), rest))
    else if t[0] == 34 then
      (match ReadString(t[1..]) case None => None case Some((utf8, rest)) => Some((Str(utf8), rest)))
    else if t[0] == 91 then
      if |t| > 1 && t[1] == 93 then Some((Arr([]), t[2..]))
      else (match ReadElements(t[1..]) case None => None case Some((xs, rest)) => Some((Arr(xs), rest)))
    else if t[0] == 123 then
      if |t| > 1 && t[1] == 125 then Some((Obj([]), t[2..]))
      else (match ReadFields(t[1..]) case None => None case Some((fs, rest)) => Some((Obj(fs), rest)))
    else None
  }

  /** One or more values with commas between, and the closing bracket. */
  function ReadElements(t: Bytes): (r: Option<(seq<Json>, Bytes)>)
    ensures r.Some? ==> |r.value.1| < |t|
    decreases |t|, 2
  {
    match ReadValue(t)
    case None => None
    case Some((x, rest)) =>
      if rest == [] then None
      else if rest[0] == 93 then Some(([x], rest[1..]))
      else if rest[0] != 44 then None
      else
        match ReadElements(rest[1..])
        case None => None
        case Some((xs, after)) => Some(([x] + xs, after))
  }

  /** One or more fields with commas between, and the closing brace. */
  function ReadFields(t: Bytes): (r: Option<(seq<Field>, Bytes)>)
    ensures r.Some? ==> |r.value.1| < |t|
    decreases |t|, 2
  {
    if t == [] || t[0] != 34 then None
    else
      match ReadString(t[1..])
      case None => None
      case Some((name, colon)) =>
        if colon == [] || colon[0] != 58 then None
        else
          match ReadValue(colon[1..])
          case None => None
          case Some((value, rest)) =>
            if rest == [] then None
            else if rest[0] == 125 then Some(([Field(name, value)], rest[1..]))
            else if rest[0] != 44 then None
            else
              match ReadFields(rest[1..])
              case None => None
              case Some((fs, after)) => Some(([Field(name, value)] + fs, after))
  }

  lemma UnescapeOne(b: Byte, rest: Bytes)
    ensures UnescapeByte(EscapeByte(b) + rest) == Some((b, |EscapeByte(b)|))
  {
    var t := EscapeByte(b) + rest;
    assert t[..|EscapeByte(b)|] == EscapeByte(b);
    assert forall i :: 0 <= i < |EscapeByte(b)| ==> t[i] == EscapeByte(b)[i];
  }

  /** What a string literal says is what was written into it, whatever its bytes. */
  lemma {:induction false} StringRoundTrip(s: Bytes, rest: Bytes)
    ensures ReadString(Escape(s) + [34] + rest) == Some((s, rest))
  {
    if s == [] {
      assert ([] + [34] + rest)[1..] == rest;
    } else {
      var head, tail := EscapeByte(s[0]), Escape(s[1..]) + [34] + rest;
      StringRoundTrip(s[1..], rest);
      UnescapeOne(s[0], tail);
      assert Escape(s) + [34] + rest == head + tail;
      assert (head + tail)[|head|..] == tail && (head + tail)[0] == head[0] != 34;
      assert [s[0]] + s[1..] == s;
    }
  }

  lemma {:induction false} DigitsRoundTrip(n: nat, rest: Bytes)
    ensures ReadDigits(Digits(n) + rest, 0) == ReadDigits(rest, n)
    ensures Digits(n) != [] && 48 <= Digits(n)[0] <= 57
  {
    if n < 10 {
      assert (Digits(n) + rest)[1..] == rest;
    } else {
      var last: Bytes := [48 + n % 10];
      DigitsRoundTrip(n / 10, last + rest);
      assert Digits(n) + rest == Digits(n / 10) + (last + rest);
      assert (last + rest)[1..] == rest;
    }
  }

  /** What may follow a value: anything but a digit. */
  predicate Ends(rest: Bytes) { rest == [] || !(48 <= rest[0] <= 57) }

  /** No value starts like the end of an array. */
  lemma ValueStarts(j: Json)
    ensures Write(j) != [] && Write(j)[0] != 93
  {
    if j.Num? { DigitsRoundTrip(j.n, []); }
  }

  /** Every value is read back from its text, whatever follows. */
  lemma {:induction false} ValueRoundTrip(j: Json, rest: Bytes)
    requires Ends(rest)
    ensures ReadValue(Write(j) + rest) == Some((j, rest))
    decreases j, 0
  {
    match j
    case Null => NullRoundTrip(rest);
    case Bool(b) => BoolRoundTrip(b, rest);
    case Num(n) => NumberRoundTrip(n, rest);
    case Str(s) => QuotedRoundTrip(s, rest);
    case Arr(elements) => ArrayRoundTrip(elements, rest);
    case Obj(fields) => ObjectRoundTrip(fields, rest);
  }

  lemma NullRoundTrip(rest: Bytes)
    ensures ReadValue(Write(Null) + rest) == Some((Null, rest))
  {
    var t := Write(Null) + rest;
    assert t[4..] == rest && t[..4] == [110, 117, 108, 108];
  }

  lemma QuotedRoundTrip(s: Bytes, rest: Bytes)
    ensures ReadValue(Write(Str(s)) + rest) == Some((Str(s), rest))
  {
    var t := Write(Str(s)) + rest;
    StringRoundTrip(s, rest);
    assert t[0] == 34 && t[1..] == Escape(s) + [34] + rest;
  }

  lemma NumberRoundTrip(n: nat, rest: Bytes)
    requires Ends(rest)
    ensures ReadValue(Digits(n) + rest) == Some((Num(n), rest))
    ensures Digits(n) != [] && 48 <= Digits(n)[0] <= 57
  {
    var t := Digits(n) + rest;
    DigitsRoundTrip(n, rest);
    assert ReadDigits(rest, n) == (n, rest);
    assert t[0] == Digits(n)[0];
    assert ReadDigits(t, 0) == ReadDigits(t[1..], t[0] - 48);
  }

  lemma BoolRoundTrip(b: bool, rest: Bytes)
    ensures ReadValue(Write(Bool(b)) + rest) == Some((Bool(b), rest))
  {
    var t := Write(Bool(b)) + rest;
    if b {
      assert t[4..] == rest && t[..4] == [116, 114, 117, 101];
    } else {
      assert t[5..] == rest && t[..5] == [102, 97, 108, 115, 101];
    }
  }

  lemma {:induction false} ArrayRoundTrip(xs: seq<Json>, rest: Bytes)
    ensures ReadValue(Write(Arr(xs)) + rest) == Some((Arr(xs), rest))
    decreases xs, 2
  {
    if xs == [] {
      assert ([91, 93] + rest)[2..] == rest;
      assert Write(Arr(xs)) == [91, 93];
    } else {
      ElementsRoundTrip(xs, rest);
      var u := WriteElements(xs) + [93] + rest;
      assert Write(Arr(xs)) + rest == [91] + u;
      ReadArray(u, xs, rest);
    }
  }

  lemma ReadArray(u: Bytes, xs: seq<Json>, rest: Bytes)
    requires u != [] && u[0] != 93 && ReadElements(u) == Some((xs, rest))
    ensures ReadValue([91] + u) == Some((Arr(xs), rest))
  {
    var t := [91] + u;
    assert t[1..] == u && t[0] == 91;
  }

  lemma ReadOneElement(t: Bytes, x: Json, rest: Bytes)
    requires ReadValue(t) == Some((x, [93] + rest))
    ensures ReadElements(t) == Some(([x], rest))
  {
    assert ([93] + rest)[1..] == rest;
  }

  lemma ReadMoreElements(t: Bytes, x: Json, tail: Bytes, xs: seq<Json>, rest: Bytes)
    requires ReadValue(t) == Some((x, [44] + tail)) && ReadElements(tail) == Some((xs, rest))
    ensures ReadElements(t) == Some(([x] + xs, rest))
  {
    assert ([44] + tail)[1..] == tail;
  }

  lemma {:induction false} ElementsRoundTrip(xs: seq<Json>, rest: Bytes)
    requires xs != []
    ensures ReadElements(WriteElements(xs) + [93] + rest) == Some((xs, rest))
    ensures WriteElements(xs) != [] && WriteElements(xs)[0] != 93
    decreases xs, 1
  {
    var first := Write(xs[0]);
    if |xs| == 1 {
      ValueRoundTrip(xs[0], [93] + rest);
      ValueStarts(xs[0]);
      ReadOneElement(first + ([93] + rest), xs[0], rest);
      OneElement(xs, first, rest);
    } else {
      var tail := WriteElements(xs[1..]) + [93] + rest;
      ElementsRoundTrip(xs[1..], rest);
      ValueRoundTrip(xs[0], [44] + tail);
      ValueStarts(xs[0]);
      ReadMoreElements(first + ([44] + tail), xs[0], tail, xs[1..], rest);
      MoreElements(xs, first, rest);
    }
  }

  lemma OneElement(xs: seq<Json>, first: Bytes, rest: Bytes)
    requires |xs| == 1 && first == Write(xs[0])
    ensures WriteElements(xs) == first && xs == [xs[0]]
    ensures WriteElements(xs) + [93] + rest == first + ([93] + rest)
  {
  }

  lemma MoreElements(xs: seq<Json>, first: Bytes, rest: Bytes)
    requires |xs| > 1 && first == Write(xs[0])
    ensures WriteElements(xs) == first + ([44] + WriteElements(xs[1..])) && xs == [xs[0]] + xs[1..]
    ensures WriteElements(xs) + [93] + rest == first + ([44] + (WriteElements(xs[1..]) + [93] + rest))
  {
    CommaBetween(first, WriteElements(xs[1..]), [93], rest);
  }

  lemma {:induction false} ObjectRoundTrip(fs: seq<Field>, rest: Bytes)
    ensures ReadValue(Write(Obj(fs)) + rest) == Some((Obj(fs), rest))
    decreases fs, 2
  {
    if fs == [] {
      assert ([123, 125] + rest)[2..] == rest;
      assert Write(Obj(fs)) == [123, 125];
    } else {
      FieldsRoundTrip(fs, rest);
      var u := WriteFields(fs) + [125] + rest;
      assert Write(Obj(fs)) + rest == [123] + u;
      ReadObject(u, fs, rest);
    }
  }

  lemma ReadObject(u: Bytes, fs: seq<Field>, rest: Bytes)
    requires u != [] && u[0] == 34 && ReadFields(u) == Some((fs, rest))
    ensures ReadValue([123] + u) == Some((Obj(fs), rest))
  {
    var t := [123] + u;
    assert t[1..] == u && t[0] == 123;
  }

  /** A field's text: its name in quotes, a colon and its value. */
  function FieldText(f: Field): Bytes { [QUOTE] + Escape(f.name) + [QUOTE, 58] + Write(f.value) }

  lemma {:induction false} FieldStarts(f: Field, after: Bytes)
    requires ReadValue(Write(f.value) + after) == Some((f.value, after))
    ensures var t := FieldText(f) + after;
      && t != [] && t[0] == 34
      && ReadString(t[1..]) == Some((f.name, [58] + (Write(f.value) + after)))
  {
    var t, colon := FieldText(f) + after, [58] + (Write(f.value) + after);
    assert t == [QUOTE] + (Escape(f.name) + [34] + colon);
    assert t[1..] == Escape(f.name) + [34] + colon;
    StringRoundTrip(f.name, colon);
  }

  lemma ReadOneField(t: Bytes, f: Field, value: Bytes, rest: Bytes)
    requires t != [] && t[0] == 34 && ReadString(t[1..]) == Some((f.name, [58] + value))
    requires ReadValue(value) == Some((f.value, [125] + rest))
    ensures ReadFields(t) == Some(([f], rest))
  {
    assert ([58] + value)[1..] == value && ([125] + rest)[1..] == rest;
  }

  lemma ReadMoreFields(t: Bytes, f: Field, value: Bytes, tail: Bytes, fs: seq<Field>, rest: Bytes)
    requires t != [] && t[0] == 34 && ReadString(t[1..]) == Some((f.name, [58] + value))
    requires ReadValue(value) == Some((f.value, [44] + tail)) && ReadFields(tail) == Some((fs, rest))
    ensures ReadFields(t) == Some(([f] + fs, rest))
  {
    assert ([58] + value)[1..] == value && ([44] + tail)[1..] == tail;
  }

  lemma {:induction false} FieldsRoundTrip(fs: seq<Field>, rest: Bytes)
    requires fs != []
    ensures ReadFields(WriteFields(fs) + [125] + rest) == Some((fs, rest))
    ensures WriteFields(fs) != [] && WriteFields(fs)[0] == 34
    decreases fs, 1
  {
    var f := fs[0];
    if |fs| == 1 {
      ValueRoundTrip(f.value, [125] + rest);
      FieldStarts(f, [125] + rest);
      ReadOneField(FieldText(f) + ([125] + rest), f, Write(f.value) + ([125] + rest), rest);
      OneField(fs, rest);
    } else {
      var tail := WriteFields(fs[1..]) + [125] + rest;
      FieldsRoundTrip(fs[1..], rest);
      ValueRoundTrip(f.value, [44] + tail);
      FieldStarts(f, [44] + tail);
      ReadMoreFields(FieldText(f) + ([44] + tail), f, Write(f.value) + ([44] + tail), tail, fs[1..], rest);
      MoreFields(fs, rest);
    }
  }

  lemma OneField(fs: seq<Field>, rest: Bytes)
    requires |fs| == 1
    ensures fs == [fs[0]] && WriteFields(fs) == FieldText(fs[0]) && FieldText(fs[0])[0] == 34
    ensures WriteFields(fs) + [125] + rest == FieldText(fs[0]) + ([125] + rest)
  {
  }

  lemma MoreFields(fs: seq<Field>, rest: Bytes)
    requires |fs| > 1
    ensures fs == [fs[0]] + fs[1..] && WriteFields(fs) != [] && WriteFields(fs)[0] == 34
    ensures WriteFields(fs) + [125] + rest == FieldText(fs[0]) + ([44] + (WriteFields(fs[1..]) + [125] + rest))
  {
    FieldsUnfold(fs);
    assert FieldText(fs[0])[0] == 34;
    CommaBetween(FieldText(fs[0]), WriteFields(fs[1..]), [125], rest);
  }

  lemma FieldsUnfold(fs: seq<Field>)
    requires |fs| > 1
    ensures WriteFields(fs) == FieldText(fs[0]) + ([44] + WriteFields(fs[1..]))
  {
  }

  lemma CommaBetween(a: Bytes, b: Bytes, c: Bytes, rest: Bytes)
    ensures a + ([44] + b) + c + rest == a + ([44] + (b + c + rest))
  {
  }

  lemma {:induction false} DigitsHaveNoControl(n: nat)
    ensures NoControl(Digits(n))
  {
    if n >= 10 { DigitsHaveNoControl(n / 10); }
  }

  /** No control byte, in particular no NUL, occurs in JSON text (section 7 of RFC 8259), whatever
      bytes the strings inside hold. */
  lemma {:induction false} WriteHasNoControl(j: Json)
    ensures NoControl(Write(j))
    decreases j, 0
  {
    match j
    case Null =>
    case Bool(b) =>
    case Num(n) => DigitsHaveNoControl(n);
    case Str(s) => EscapeHasNoControl(s);
    case Arr(elements) => ElementsHaveNoControl(elements);
    case Obj(fields) => FieldsHaveNoControl(fields);
  }

  lemma {:induction false} ElementsHaveNoControl(xs: seq<Json>)
    ensures NoControl(WriteElements(xs))
    decreases xs, 1
  {
    if xs != [] {
      WriteHasNoControl(xs[0]);
      ElementsHaveNoControl(xs[1..]);
    }
  }

  lemma {:induction false} FieldsHaveNoControl(fs: seq<Field>)
    ensures NoControl(WriteFields(fs))
    decreases fs, 1
  {
    if fs != [] {
      var f := fs[0];
      EscapeHasNoControl(f.name);
      WriteHasNoControl(f.value);
      FieldsHaveNoControl(fs[1..]);
    }
  }
}
